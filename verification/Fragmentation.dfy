/** The sender's loop: one UDP datagram cut into IP fragments (section 3.2 of
    RFC 791), each with its own header checksum. */
module Fragmentation {
  import opened Checksum

  const IP_HDRLEN: nat := 20
  const UDP_HDRLEN: nat := 8
  const MORE: nat := 0x2000

  /** A half-open range of the datagram's bytes. */
  datatype Piece = Piece(start: nat, len: nat) {
    function End(): nat { start + len }
  }

  /** ( MTU - IP_HDRLEN ) & ~7 */
  function MaxPayload(mtu: nat): (m: nat)
    requires mtu >= IP_HDRLEN
    ensures m % 8 == 0 && m <= mtu - IP_HDRLEN < m + 8
  {
    (mtu - IP_HDRLEN) / 8 * 8
  }

  /** The loop makes progress only with room for eight bytes. */
  predicate Usable(mtu: nat) {
    mtu >= IP_HDRLEN + 8
  }

  lemma UsableIff(mtu: nat)
    requires mtu >= IP_HDRLEN
    ensures Usable(mtu) <==> MaxPayload(mtu) > 0
  {
  }

  /** The pieces the loop makes from offset on. */
  function Pieces(total: nat, mtu: nat, offset: nat): seq<Piece>
    requires Usable(mtu)
    decreases total - offset
  {
    if offset >= total then []
    else
      var p := PieceAt(total, mtu, offset);
      [p] + Pieces(total, mtu, p.End())
  }

  /** The next piece the loop makes at offset. */
  function PieceAt(total: nat, mtu: nat, offset: nat): Piece
    requires Usable(mtu) && offset < total
  {
    Piece(offset, if total - offset > MaxPayload(mtu) then MaxPayload(mtu) else total - offset)
  }

  /** Contiguous from offset to the end, none empty, all but the last as long as the
      MTU allows, every start a multiple of eight. */
  predicate Tiles(ps: seq<Piece>, total: nat, mtu: nat, offset: nat)
    requires Usable(mtu)
  {
    && (ps == [] <==> offset == total)
    && (ps != [] ==> ps[0].start == offset && ps[|ps| - 1].End() == total)
    && (forall k | 0 <= k < |ps| :: 0 < ps[k].len <= MaxPayload(mtu) && ps[k].start % 8 == 0 && offset <= ps[k].start)
    && (forall k | 0 <= k < |ps| - 1 :: ps[k].End() == ps[k + 1].start && ps[k].len == MaxPayload(mtu))
  }

  lemma TilesMore(p: Piece, rest: seq<Piece>, total: nat, mtu: nat, offset: nat)
    requires Usable(mtu) && offset < total && offset % 8 == 0 && p == PieceAt(total, mtu, offset)
    requires p.End() < total ==> Tiles(rest, total, mtu, p.End())
    requires p.End() == total ==> rest == []
    ensures Tiles([p] + rest, total, mtu, offset)
  {
    var ps := [p] + rest;
    assert forall k | 0 <= k < |rest| :: ps[k + 1] == rest[k];
  }

  /** Tiling: the loop's pieces tile the datagram. */
  lemma {:induction false} Tiling(total: nat, mtu: nat, offset: nat)
    requires Usable(mtu) && offset <= total && offset % 8 == 0
    ensures Tiles(Pieces(total, mtu, offset), total, mtu, offset)
    decreases total - offset
  {
    if offset < total {
      var p := PieceAt(total, mtu, offset);
      if p.End() < total {
        Tiling(total, mtu, p.End());
      }
      TilesMore(p, Pieces(total, mtu, p.End()), total, mtu, offset);
    }
  }

  /** Pieces further on start no earlier than the end of this one. */
  lemma {:induction false} Ordered(total: nat, mtu: nat, j: nat, k: nat)
    requires Usable(mtu) && j < k < |Pieces(total, mtu, 0)|
    ensures Pieces(total, mtu, 0)[j].End() <= Pieces(total, mtu, 0)[k].start
    decreases k - j
  {
    Tiling(total, mtu, 0);
    if j + 1 < k {
      Ordered(total, mtu, j + 1, k);
    }
  }

  lemma {:induction false} PieceOf(total: nat, mtu: nat, offset: nat, x: nat) returns (k: nat)
    requires Usable(mtu) && offset <= x < total
    ensures k < |Pieces(total, mtu, offset)|
    ensures Pieces(total, mtu, offset)[k].start <= x < Pieces(total, mtu, offset)[k].End()
    decreases total - offset
  {
    var p := Pieces(total, mtu, offset)[0];
    if x < p.End() {
      k := 0;
    } else {
      k := PieceOf(total, mtu, p.End(), x);
      k := k + 1;
    }
  }

  // ---- the fragment field -----------------------------------------------

  /** frag_off, with the flag or-ed in, as the 16 bits htons takes. */
  function OffsetField(offset: nat, more: bool): (f: nat)
    ensures f < 0x1_0000
  {
    var q := offset / 8;
    (if more && q / MORE % 2 == 0 then q + MORE else q) % 0x1_0000
  }

  function FieldOffset(f: nat): nat { f % MORE * 8 }

  predicate FieldMore(f: nat) { f / MORE % 2 == 1 }

  /** The receiver recovers offset and flag exactly as long as the offset fits the
      13 bits of the field. */
  lemma FieldRoundTrip(offset: nat, more: bool)
    requires offset % 8 == 0
    ensures FieldOffset(OffsetField(offset, more)) == offset && FieldMore(OffsetField(offset, more)) == more
       <==> offset < 0x1_0000
  {
  }

  // ---- the packets ------------------------------------------------------

  function Be16(w: nat): (s: seq<Byte>)
    requires w < 0x1_0000
    ensures |s| == 2
  {
    StoreWord(BigEndian, w)
  }

  /** The template header with length, offset field and a zeroed checksum. */
  function Unsummed(template: seq<Byte>, p: Piece, total: nat): (h: seq<Byte>)
    requires |template| == IP_HDRLEN && IP_HDRLEN + p.len < 0x1_0000
    ensures |h| == IP_HDRLEN && h[10] == h[11] == 0
  {
    Put(Put(Put(template, 2, Be16(IP_HDRLEN + p.len)), 6, Be16(OffsetField(p.start, p.End() < total))), 10, [0, 0])
  }

  function PacketOf(h: Host, template: seq<Byte>, dgram: seq<Byte>, p: Piece): (packet: seq<Byte>)
    requires |template| == IP_HDRLEN && p.End() <= |dgram| && IP_HDRLEN + p.len < 0x1_0000
    ensures |packet| == IP_HDRLEN + p.len
  {
    var hdr := Unsummed(template, p, |dgram|);
    Put(hdr, 10, StoreWord(h, ChecksumOf(h, hdr))) + dgram[p.start..p.End()]
  }

  /** The loop body: fill one fragment buffer. */
  method FillFragment(h: Host, template: seq<Byte>, dgram: seq<Byte>, offset: nat, len: nat) returns (packet: seq<Byte>)
    requires |template| == IP_HDRLEN && offset + len <= |dgram| && IP_HDRLEN + len < 0x1_0000
    ensures packet == PacketOf(h, template, dgram, Piece(offset, len))
  {
    var hdr := Put(template, 2, Be16(IP_HDRLEN + len));
    var fragOff := offset / 8;
    if offset + len < |dgram| {
      fragOff := if fragOff / MORE % 2 == 0 then fragOff + MORE else fragOff;
    }
    assert fragOff % 0x1_0000 == OffsetField(offset, offset + len < |dgram|);
    hdr := Put(hdr, 6, Be16(fragOff % 0x1_0000));
    hdr := Put(hdr, 10, [0, 0]);
    assert hdr == Unsummed(template, Piece(offset, len), |dgram|);
    var c := ComputeChecksum(h, hdr);
    hdr := Put(hdr, 10, StoreWord(h, c));
    packet := hdr + dgram[offset..offset + len];
  }

  predicate Renders(h: Host, template: seq<Byte>, dgram: seq<Byte>, mtu: nat, p: Piece, packet: seq<Byte>)
    requires |template| == IP_HDRLEN && mtu < 0x1_0000
  {
    p.End() <= |dgram| && IP_HDRLEN + p.len <= mtu && packet == PacketOf(h, template, dgram, p)
  }

  /** packets are the fragments of dgram for the pieces ps. */
  ghost predicate Rendered(
    h: Host, template: seq<Byte>, dgram: seq<Byte>, mtu: nat, ps: seq<Piece>, packets: seq<seq<Byte>>)
    requires |template| == IP_HDRLEN && mtu < 0x1_0000
  {
    |packets| == |ps| && forall k {:trigger Renders(h, template, dgram, mtu, ps[k], packets[k])} | 0 <= k < |ps| ::
      Renders(h, template, dgram, mtu, ps[k], packets[k])
  }

  /** The pieces made so far, rendered, and the ones still to make. */
  ghost predicate Halfway(
    h: Host, template: seq<Byte>, dgram: seq<Byte>, mtu: nat, offset: nat, done: seq<Piece>, packets: seq<seq<Byte>>)
    requires |template| == IP_HDRLEN && Usable(mtu) && mtu < 0x1_0000
  {
    Pieces(|dgram|, mtu, 0) == done + Pieces(|dgram|, mtu, offset) && Rendered(h, template, dgram, mtu, done, packets)
  }

  lemma OneMorePiece(h: Host, template: seq<Byte>, dgram: seq<Byte>, mtu: nat, offset: nat, done: seq<Piece>,
                     packets: seq<seq<Byte>>, p: Piece)
    requires |template| == IP_HDRLEN && Usable(mtu) && mtu < 0x1_0000 && offset < |dgram|
    requires Halfway(h, template, dgram, mtu, offset, done, packets) && p == PieceAt(|dgram|, mtu, offset)
    ensures Halfway(h, template, dgram, mtu, p.End(), done + [p], packets + [PacketOf(h, template, dgram, p)])
  {
    assert done + ([p] + Pieces(|dgram|, mtu, p.End())) == done + [p] + Pieces(|dgram|, mtu, p.End());
    var packet := PacketOf(h, template, dgram, p);
    var ps, packets' := done + [p], packets + [packet];
    forall k | 0 <= k < |ps| ensures Renders(h, template, dgram, mtu, ps[k], packets'[k]) {
      assert k < |done| ==> Renders(h, template, dgram, mtu, done[k], packets[k]);
    }
  }

  lemma NothingLeft(h: Host, template: seq<Byte>, dgram: seq<Byte>, mtu: nat, done: seq<Piece>, packets: seq<seq<Byte>>)
    requires |template| == IP_HDRLEN && Usable(mtu) && mtu < 0x1_0000
    requires Halfway(h, template, dgram, mtu, |dgram|, done, packets)
    ensures Rendered(h, template, dgram, mtu, Pieces(|dgram|, mtu, 0), packets)
  {
    assert done + [] == done;
  }

  /** The loop of main: the packets handed to sendto, in order. */
  method SendFragments(h: Host, template: seq<Byte>, dgram: seq<Byte>, mtu: nat) returns (packets: seq<seq<Byte>>)
    requires |template| == IP_HDRLEN && Usable(mtu) && mtu < 0x1_0000
    ensures Rendered(h, template, dgram, mtu, Pieces(|dgram|, mtu, 0), packets)
  {
    var maxPayload := (mtu - IP_HDRLEN) / 8 * 8;
    assert maxPayload == MaxPayload(mtu);
    var offset := 0;
    packets := [];
    ghost var done: seq<Piece> := [];
    while offset < |dgram|
      invariant 0 <= offset <= |dgram|
      invariant Halfway(h, template, dgram, mtu, offset, done, packets)
    {
      var len := |dgram| - offset;
      if len > maxPayload {
        len := maxPayload;
      }
      var packet := FillFragment(h, template, dgram, offset, len);
      ghost var p := PieceAt(|dgram|, mtu, offset);
      assert p == Piece(offset, len) && packet == PacketOf(h, template, dgram, p);
      OneMorePiece(h, template, dgram, mtu, offset, done, packets, p);
      packets := packets + [packet];
      done := done + [p];
      offset := offset + len;
      assert offset == p.End();
    }
    NothingLeft(h, template, dgram, mtu, done, packets);
  }

  /** Every packet's header verifies at a receiver of either byte order. */
  lemma HeaderVerifies(h: Host, receiver: Host, template: seq<Byte>, dgram: seq<Byte>, p: Piece)
    requires |template| == IP_HDRLEN && p.End() <= |dgram| && IP_HDRLEN + p.len < 0x1_0000
    ensures ChecksumOf(receiver, PacketOf(h, template, dgram, p)[..IP_HDRLEN]) == 0
  {
    var hdr := Unsummed(template, p, |dgram|);
    MeetsTheStandard(h, hdr);
    MeetsTheStandard(receiver, hdr);
    StoredChecksumVerifies(receiver, hdr, 10);
    HeaderOf(h, template, dgram, p);
  }

  lemma HeaderOf(h: Host, template: seq<Byte>, dgram: seq<Byte>, p: Piece)
    requires |template| == IP_HDRLEN && p.End() <= |dgram| && IP_HDRLEN + p.len < 0x1_0000
    ensures var hdr := Unsummed(template, p, |dgram|);
      PacketOf(h, template, dgram, p)[..IP_HDRLEN] == Put(hdr, 10, StoreWord(h, ChecksumOf(h, hdr)))
  {
  }

  function Concat(packets: seq<seq<Byte>>): seq<Byte> {
    if packets == [] then []
    else (if |packets[0]| >= IP_HDRLEN then packets[0][IP_HDRLEN..] else []) + Concat(packets[1..])
  }

  /** The bodies of the packets, one after the other, are the datagram. */
  lemma {:induction false} BodiesAreTheDatagram(
    h: Host, template: seq<Byte>, dgram: seq<Byte>, mtu: nat, offset: nat, packets: seq<seq<Byte>>)
    requires |template| == IP_HDRLEN && Usable(mtu) && mtu < 0x1_0000 && offset <= |dgram|
    requires Rendered(h, template, dgram, mtu, Pieces(|dgram|, mtu, offset), packets)
    ensures Concat(packets) == dgram[offset..]
    decreases |dgram| - offset
  {
    if offset < |dgram| {
      var p := PieceAt(|dgram|, mtu, offset);
      FirstRendered(h, template, dgram, mtu, p, Pieces(|dgram|, mtu, p.End()), packets);
      BodiesAreTheDatagram(h, template, dgram, mtu, p.End(), packets[1..]);
      SliceJoins(dgram, offset, p.End());
    }
  }

  lemma SliceJoins(d: seq<Byte>, i: nat, j: nat)
    requires i <= j <= |d|
    ensures d[i..] == d[i..j] + d[j..]
  {
  }

  lemma FirstRendered(h: Host, template: seq<Byte>, dgram: seq<Byte>, mtu: nat, p: Piece, rest: seq<Piece>,
                      packets: seq<seq<Byte>>)
    requires |template| == IP_HDRLEN && mtu < 0x1_0000 && Rendered(h, template, dgram, mtu, [p] + rest, packets)
    ensures packets != [] && Rendered(h, template, dgram, mtu, rest, packets[1..]) && p.End() <= |dgram|
    ensures Concat(packets) == dgram[p.start..p.End()] + Concat(packets[1..])
  {
    var ps := [p] + rest;
    assert Renders(h, template, dgram, mtu, ps[0], packets[0]);
    forall k | 0 <= k < |rest| ensures Renders(h, template, dgram, mtu, rest[k], packets[1..][k]) {
      assert Renders(h, template, dgram, mtu, ps[k + 1], packets[k + 1]);
    }
    BodyOfPacket(h, template, dgram, p);
  }

  lemma BodyOfPacket(h: Host, template: seq<Byte>, dgram: seq<Byte>, p: Piece)
    requires |template| == IP_HDRLEN && p.End() <= |dgram| && IP_HDRLEN + p.len < 0x1_0000
    ensures PacketOf(h, template, dgram, p)[IP_HDRLEN..] == dgram[p.start..p.End()]
  {
  }
}
