/** The Internet checksum of the sender (section 2 of RFC 1071), summed in the host's
    own byte order. */
module Checksum {
  import opened Bits

  type Byte = b: nat | b < 256

  datatype Host = LittleEndian | BigEndian

  /** The unsigned short a host reads from two bytes in memory, and writes back. */
  function LoadWord(h: Host, b0: Byte, b1: Byte): (w: nat)
    ensures w < 0x1_0000
  {
    if h.LittleEndian? then b0 + 256 * b1 else 256 * b0 + b1
  }

  function StoreWord(h: Host, w: nat): (s: seq<Byte>)
    requires w < 0x1_0000
    ensures |s| == 2 && LoadWord(h, s[0], s[1]) == w
  {
    if h.LittleEndian? then [w % 256, w / 256] else [w / 256, w % 256]
  }

  function WordSum(h: Host, buf: seq<Byte>): nat {
    if buf == [] then 0
    else if |buf| == 1 then buf[0]
    else LoadWord(h, buf[0], buf[1]) + WordSum(h, buf[2..])
  }

  /** Adding the carries back until the sum fits 16 bits. */
  function Fold(s: nat): nat {
    if s < 0x1_0000 then s else Fold(s % 0x1_0000 + s / 0x1_0000)
  }

  function Complement(f: nat): (c: nat)
    requires f < 0x1_0000
    ensures c < 0x1_0000
  {
    0xFFFF - f
  }

  function ChecksumOf(h: Host, buf: seq<Byte>): (c: nat)
    ensures c < 0x1_0000
  {
    FoldIs(WordSum(h, buf));
    Complement(Fold(WordSum(h, buf)))
  }

  lemma {:induction false} WordSumBound(h: Host, buf: seq<Byte>)
    ensures WordSum(h, buf) <= 0xFFFF * |buf|
  {
    if |buf| > 1 {
      WordSumBound(h, buf[2..]);
    }
  }

  lemma WordSumFits(h: Host, buf: seq<Byte>)
    requires |buf| < 0x8000_0000
    ensures WordSum(h, buf) < WORD
  {
    WordSumBound(h, buf);
  }

  /** checksum. The 64-bit sum never overflows for an int length. */
  method ComputeChecksum(h: Host, buf: seq<Byte>) returns (c: nat)
    requires |buf| < 0x8000_0000
    ensures c == ChecksumOf(h, buf)
  {
    var sum := SumWords(h, buf);
    FoldIs(sum);
    while sum / 0x1_0000 > 0
      invariant Fold(sum) == Fold(WordSum(h, buf)) < 0x1_0000
      decreases sum
    {
      sum := sum % 0x1_0000 + sum / 0x1_0000;
    }
    c := (WORD - 1 - sum) % 0x1_0000;
  }

  method SumWords(h: Host, buf: seq<Byte>) returns (sum: nat)
    requires |buf| < 0x8000_0000
    ensures sum == WordSum(h, buf)
  {
    sum := 0;
    var len, at := |buf|, 0;
    WordSumFits(h, buf);
    while len > 1
      invariant 0 <= len <= |buf| && at == |buf| - len
      invariant sum + WordSum(h, buf[at..]) == WordSum(h, buf)
    {
      assert buf[at..][2..] == buf[at + 2..];
      sum := (sum + LoadWord(h, buf[at], buf[at + 1])) % WORD;
      at, len := at + 2, len - 2;
    }
    if len > 0 {
      sum := (sum + buf[at]) % WORD;
    }
  }

  // ---- what folding computes --------------------------------------------

  /** Folding keeps the residue modulo 65535 and gives 0 only for 0. */
  lemma {:induction false} FoldIs(s: nat)
    ensures Fold(s) == if s == 0 then 0 else 1 + (s - 1) % 0xFFFF
  {
    if s >= 0x1_0000 {
      var t := s % 0x1_0000 + s / 0x1_0000;
      FoldIs(t);
      assert s - 1 == (s / 0x1_0000) * 0xFFFF + (t - 1);
      SameResidue(s - 1, t - 1, s / 0x1_0000);
    }
  }

  lemma SameResidue(x: int, y: int, k: int)
    requires x == k * 0xFFFF + y
    ensures x % 0xFFFF == y % 0xFFFF
  {
    assert y == (y / 0xFFFF) * 0xFFFF + y % 0xFFFF;
    ModIs(x, 0xFFFF, k + y / 0xFFFF, y % 0xFFFF);
  }

  lemma Predecessor(s: nat)
    requires s > 0
    ensures (s - 1) % 0xFFFF == if s % 0xFFFF == 0 then 0xFFFE else s % 0xFFFF - 1
  {
    var q, r := s / 0xFFFF, s % 0xFFFF;
    if r == 0 {
      ModIs(s - 1, 0xFFFF, q - 1, 0xFFFE);
    } else {
      ModIs(s - 1, 0xFFFF, q, r - 1);
    }
  }

  /** Positive sums fold alike exactly when they are congruent. */
  lemma FoldCongruent(s: nat, t: nat)
    requires s > 0 && t > 0
    ensures Fold(s) == Fold(t) <==> s % 0xFFFF == t % 0xFFFF
  {
    FoldIs(s);
    FoldIs(t);
    Predecessor(s);
    Predecessor(t);
  }

  // ---- a stored checksum verifies ---------------------------------------

  function Put(buf: seq<Byte>, at: nat, bytes: seq<Byte>): (r: seq<Byte>)
    requires at + |bytes| <= |buf|
    ensures |r| == |buf|
  {
    buf[..at] + bytes + buf[at + |bytes|..]
  }

  lemma {:induction false} SumOfPut(h: Host, buf: seq<Byte>, at: nat, w: nat)
    requires at % 2 == 0 && at + 2 <= |buf| && w < 0x1_0000
    requires buf[at] == 0 && buf[at + 1] == 0
    ensures WordSum(h, Put(buf, at, StoreWord(h, w))) == WordSum(h, buf) + w
  {
    var put := Put(buf, at, StoreWord(h, w));
    if at == 0 {
      assert put[2..] == buf[2..];
    } else {
      SumOfPut(h, buf[2..], at - 2, w);
      assert put[2..] == Put(buf[2..], at - 2, StoreWord(h, w));
    }
  }

  /** Storing the checksum in its zeroed field makes the checksum of the whole 0. */
  lemma StoredChecksumVerifies(h: Host, buf: seq<Byte>, at: nat)
    requires at % 2 == 0 && at + 2 <= |buf| && buf[at] == 0 && buf[at + 1] == 0
    ensures ChecksumOf(h, Put(buf, at, StoreWord(h, ChecksumOf(h, buf)))) == 0
  {
    var s, c := WordSum(h, buf), ChecksumOf(h, buf);
    SumOfPut(h, buf, at, c);
    FoldIs(s);
    FoldIs(s + c);
    if s > 0 {
      ModIs(s + c - 1, 0xFFFF, (s - 1) / 0xFFFF, 0xFFFE);
    }
  }

  // ---- byte order -------------------------------------------------------

  function Swap(w: nat): (r: nat)
    requires w < 0x1_0000
    ensures r < 0x1_0000
  {
    256 * (w % 256) + w / 256
  }

  lemma Aligned(x: int, y: int, k: int)
    requires x % 0xFFFF == y % 0xFFFF && k == (x - y) / 0xFFFF
    ensures x == k * 0xFFFF + y
  {
  }

  lemma {:induction false} SumsSwap(buf: seq<Byte>)
    requires |buf| % 2 == 0
    ensures 256 * WordSum(LittleEndian, buf) % 0xFFFF == WordSum(BigEndian, buf) % 0xFFFF
    ensures WordSum(LittleEndian, buf) == 0 <==> WordSum(BigEndian, buf) == 0
  {
    if buf != [] {
      SumsSwap(buf[2..]);
      var l, b := WordSum(LittleEndian, buf[2..]), WordSum(BigEndian, buf[2..]);
      var wl, wb := LoadWord(LittleEndian, buf[0], buf[1]), LoadWord(BigEndian, buf[0], buf[1]);
      var li: int := 256 * l;
      var k := (li - b) / 0xFFFF;
      var b1: int := buf[1];
      Aligned(256 * l, b, k);
      assert WordSum(LittleEndian, buf) == wl + l && WordSum(BigEndian, buf) == wb + b;
      SameResidue(256 * (wl + l), wb + b, b1 + k);
    }
  }

  lemma {:induction false} EvenSplit(h: Host, buf: seq<Byte>)
    requires |buf| % 2 == 1
    ensures WordSum(h, buf) == WordSum(h, buf[..|buf| - 1]) + buf[|buf| - 1]
    ensures WordSum(h, buf + [0]) == WordSum(h, buf[..|buf| - 1]) + LoadWord(h, buf[|buf| - 1], 0)
  {
    if |buf| > 1 {
      EvenSplit(h, buf[2..]);
      assert buf[..|buf| - 1][2..] == buf[2..][..|buf| - 3];
      assert (buf + [0])[2..] == buf[2..] + [0];
    }
  }

  lemma FoldSwap(l: nat, b: nat)
    requires l == 0 <==> b == 0
    ensures Fold(l) < 0x1_0000
    ensures Fold(b) == Swap(Fold(l)) <==> b % 0xFFFF == 256 * l % 0xFFFF
  {
    FoldIs(l);
    if l > 0 {
      var f := Fold(l);
      FoldCongruent(l, f);
      FoldIs(f);
      assert 256 * f == 0xFFFF * (f / 256) + Swap(f);
      SameResidue(256 * f, Swap(f), f / 256);
      assert 256 * l - 256 * f == 0xFFFF * (256 * ((l - 1) / 0xFFFF));
      SameResidue(256 * l, 256 * f, 256 * ((l - 1) / 0xFFFF));
      FoldIs(Swap(f));
      assert Fold(Swap(f)) == Swap(f);
      FoldCongruent(b, Swap(f));
    }
  }

  /** The standard's value: 16-bit words in network order, an odd last byte padded
      with a zero byte on its right. */
  function StandardBytes(buf: seq<Byte>): seq<Byte> {
    StoreWord(BigEndian, ChecksumOf(BigEndian, if |buf| % 2 == 0 then buf else buf + [0]))
  }

  lemma SwapComplement(f: nat)
    requires f < 0x1_0000
    ensures StoreWord(LittleEndian, Complement(f)) == StoreWord(BigEndian, Complement(Swap(f)))
  {
    var lo, hi := f % 256, f / 256;
    assert Complement(f) == 256 * (255 - hi) + (255 - lo);
    assert Complement(Swap(f)) == 256 * (255 - lo) + (255 - hi);
    StoreHalves(255 - hi, 255 - lo);
    StoreHalves(255 - lo, 255 - hi);
  }

  lemma StoreHalves(hi: Byte, lo: Byte)
    ensures StoreWord(BigEndian, 256 * hi + lo) == [hi, lo] && StoreWord(LittleEndian, 256 * hi + lo) == [lo, hi]
  {
    ModIs(256 * hi + lo, 256, hi, lo);
  }

  lemma LittleEndianBytes(buf: seq<Byte>)
    requires |buf| % 2 == 0
    ensures StoreWord(LittleEndian, ChecksumOf(LittleEndian, buf)) == StoreWord(BigEndian, ChecksumOf(BigEndian, buf))
  {
    var l, b := WordSum(LittleEndian, buf), WordSum(BigEndian, buf);
    SumsSwap(buf);
    FoldSwap(l, b);
    SwapComplement(Fold(l));
  }

  /** The bytes a host stores are the standard's, whatever its byte order, except
      for a big-endian host on an odd length whose last byte is not zero: there
      the code adds the last byte in the low half. */
  lemma MeetsTheStandard(h: Host, buf: seq<Byte>)
    ensures StoreWord(h, ChecksumOf(h, buf)) == StandardBytes(buf)
       <==> h.LittleEndian? || |buf| % 2 == 0 || buf[|buf| - 1] == 0
  {
    if |buf| % 2 == 0 {
      LittleEndianBytes(buf);
    } else if h.LittleEndian? {
      EvenSplit(h, buf);
      LittleEndianBytes(buf + [0]);
    } else {
      BigEndianOdd(buf);
    }
  }

  lemma BigEndianOdd(buf: seq<Byte>)
    requires |buf| % 2 == 1
    ensures StoreWord(BigEndian, ChecksumOf(BigEndian, buf)) == StandardBytes(buf) <==> buf[|buf| - 1] == 0
  {
    var s, last := WordSum(BigEndian, buf[..|buf| - 1]), buf[|buf| - 1];
    EvenSplit(BigEndian, buf);
    OddLastByte(s, last);
    StoreInjective(BigEndian, ChecksumOf(BigEndian, buf), ChecksumOf(BigEndian, buf + [0]));
  }

  lemma StoreInjective(h: Host, v: nat, w: nat)
    requires v < 0x1_0000 && w < 0x1_0000
    ensures StoreWord(h, v) == StoreWord(h, w) <==> v == w
  {
    if StoreWord(h, v) == StoreWord(h, w) {
      assert v == LoadWord(h, StoreWord(h, v)[0], StoreWord(h, v)[1]);
    }
  }

  lemma OddLastByte(s: nat, last: Byte)
    ensures Fold(s + last) < 0x1_0000 && Fold(s + 256 * last) < 0x1_0000
    ensures Fold(s + last) == Fold(s + 256 * last) <==> last == 0
  {
    FoldIs(s + last);
    FoldIs(s + 256 * last);
    if last > 0 {
      ResidueMoves(s + last - 1, 255 * last);
    }
  }

  lemma ResidueMoves(x: nat, d: nat)
    requires 0 < d < 0xFFFF
    ensures (x + d) % 0xFFFF != x % 0xFFFF
  {
    assert x == (x / 0xFFFF) * 0xFFFF + x % 0xFFFF;
    if x % 0xFFFF + d < 0xFFFF {
      ModIs(x + d, 0xFFFF, x / 0xFFFF, x % 0xFFFF + d);
    } else {
      ModIs(x + d, 0xFFFF, x / 0xFFFF + 1, x % 0xFFFF + d - 0xFFFF);
    }
  }
}
