/** The receiver's header parsing: from a captured Ethernet frame to a fragment. */
module Frames {
  import opened Checksum
  import F = Fragmentation

  const SIZE_ETHERNET: nat := 14

  /** What the reassembler uses of a frame. body is what follows the IP header, and
      for a first fragment the UDP header; udpLen is read in first fragments only. */
  datatype Arrival = Arrival(id: nat, offset: nat, more: bool, fragLen: nat, udpLen: nat, body: seq<Byte>)

  datatype Parsed = BadStructure | Parsed(arrival: Arrival)

  /** A byte of the capture buffer. Past the captured bytes its value is not
      determined by the frame; the model reads zero there. */
  function ByteAt(frame: seq<Byte>, i: nat): Byte {
    if i < |frame| then frame[i] else 0
  }

  /** ntohs of two bytes of the frame. */
  function WordAt(frame: seq<Byte>, i: nat): (w: nat)
    ensures w < 0x1_0000
  {
    LoadWord(BigEndian, ByteAt(frame, i), ByteAt(frame, i + 1))
  }

  function From(frame: seq<Byte>, i: nat): seq<Byte> {
    if i <= |frame| then frame[i..] else []
  }

  function HeaderLen(frame: seq<Byte>): nat {
    ByteAt(frame, SIZE_ETHERNET) % 16 * 4
  }

  /** The first half of defragment_pcap_data. maxTotal is ETHERNET_MTU; lengths are
      computed in 16 bits, as the code does. */
  function Parse(maxTotal: nat, frame: seq<Byte>): Parsed {
    if |frame| < SIZE_ETHERNET then BadStructure
    else if WordAt(frame, 12) != 0x0800 then BadStructure
    else if |frame| < 20 then BadStructure
    else
      var hdr := HeaderLen(frame);
      if hdr < 20 || hdr > 60 || |frame| < hdr then BadStructure
      else
        var total := WordAt(frame, 16);
        if total > maxTotal then BadStructure
        else
          var avail := (|frame| - SIZE_ETHERNET - hdr) % 0x1_0000;
          var claimed := (total - hdr) % 0x1_0000;
          var fragLen := if claimed < avail then claimed else avail;
          var field := WordAt(frame, 20);
          var offset := F.FieldOffset(field);
          var at := SIZE_ETHERNET + hdr;
          if ByteAt(frame, 23) != 17 then BadStructure
          else if offset == 0 then
            var inner := if total > hdr then total - hdr else 0;
            if inner < 1 || inner > maxTotal || inner < F.UDP_HDRLEN then BadStructure
            else Parsed(Arrival(WordAt(frame, 18), 0, F.FieldMore(field), fragLen, WordAt(frame, at + 4),
                                From(frame, at + F.UDP_HDRLEN)))
          else Parsed(Arrival(WordAt(frame, 18), offset, F.FieldMore(field), fragLen, 0, From(frame, at)))
  }

  /** Two bytes of the capture, the high one first. */
  function Pair(frame: seq<Byte>, i: nat): nat {
    ByteAt(frame, i) * 256 + ByteAt(frame, i + 1)
  }

  /** An IPv4 frame whose UDP packet is within the MTU: ethertype, captured length, header
      length of five words at least, total length, protocol byte; and where the fragment
      is the first, room for a UDP header. */
  predicate WellFormed(maxTotal: nat, frame: seq<Byte>) {
    var words, total := ByteAt(frame, 14) % 16, Pair(frame, 16);
    && 20 <= |frame| && ByteAt(frame, 12) == 8 && ByteAt(frame, 13) == 0
    && 5 <= words && 4 * words <= |frame| && total <= maxTotal && ByteAt(frame, 23) == 17
    && (Pair(frame, 20) % 0x2000 == 0 ==> total >= 4 * words + 8)
  }

  /** The parser takes exactly the well-formed frames. */
  lemma ParsedIff(maxTotal: nat, frame: seq<Byte>)
    ensures Parse(maxTotal, frame).Parsed? <==> WellFormed(maxTotal, frame)
  {
    var words, total := ByteAt(frame, 14) % 16, Pair(frame, 16);
    assert WordAt(frame, 12) == Pair(frame, 12) && WordAt(frame, 16) == total && WordAt(frame, 20) == Pair(frame, 20);
    assert ByteAt(frame, 12) * 256 + ByteAt(frame, 13) == 0x800 <==> ByteAt(frame, 12) == 8 && ByteAt(frame, 13) == 0;
  }

  /** What it reads from them, options or not: the id, thirteen bits of offset in units of
      eight and the flag above them, the UDP length of a first fragment, the bytes behind
      the headers, and as the length the smaller of what the header claims and what was
      captured, each in 16 bits. */
  lemma ParsedFields(maxTotal: nat, frame: seq<Byte>)
    requires WellFormed(maxTotal, frame)
    ensures Parse(maxTotal, frame).Parsed?
    ensures var a, at := Parse(maxTotal, frame).arrival, 14 + 4 * (ByteAt(frame, 14) % 16);
      && a.id == Pair(frame, 18)
      && a.offset == Pair(frame, 20) % 0x2000 * 8 && (a.more <==> Pair(frame, 20) / 0x2000 % 2 == 1)
      && a.udpLen == (if a.offset == 0 then Pair(frame, at + 4) else 0)
      && a.body == (if a.offset == 0 then From(frame, at + 8) else From(frame, at))
    ensures var a, hdr := Parse(maxTotal, frame).arrival, 4 * (ByteAt(frame, 14) % 16);
      var claimed, captured := (Pair(frame, 16) - hdr) % 0x1_0000, (|frame| - 14 - hdr) % 0x1_0000;
      a.fragLen <= claimed && a.fragLen <= captured && a.fragLen in {claimed, captured}
  {
    ParsedIff(maxTotal, frame);
    var at := 14 + 4 * (ByteAt(frame, 14) % 16);
    assert WordAt(frame, 18) == Pair(frame, 18) && WordAt(frame, 20) == Pair(frame, 20);
    assert WordAt(frame, at + 4) == Pair(frame, at + 4);
  }

  /** The fragment's length stays within the captured bytes exactly when the capture
      holds both headers: the code compares it with the IP header alone. */
  lemma LengthIsCaptured(maxTotal: nat, frame: seq<Byte>)
    requires Parse(maxTotal, frame).Parsed?
    ensures Parse(maxTotal, frame).arrival.fragLen <= |frame| - SIZE_ETHERNET - HeaderLen(frame)
       <==> |frame| >= SIZE_ETHERNET + HeaderLen(frame)
  {
    var rest := |frame| - SIZE_ETHERNET - HeaderLen(frame);
    assert rest >= 0 ==> rest % 0x1_0000 <= rest;
  }

  /** A frame on the wire: link header, packet, and the padding of a short frame. */
  function Framed(link: seq<Byte>, packet: seq<Byte>, padding: seq<Byte>): seq<Byte> {
    link + packet + padding
  }

  predicate IPv4Link(link: seq<Byte>) {
    |link| == SIZE_ETHERNET && link[12] == 0x08 && link[13] == 0x00
  }

  /** The header fields main sets once for all fragments. */
  predicate UdpTemplate(template: seq<Byte>, id: nat) {
    |template| == F.IP_HDRLEN && template[0] == 0x45 && template[9] == 17
    && id < 0x1_0000 && template[4..6] == F.Be16(id)
  }

  /** What the parser makes of the sender's fragment p. */
  function SentArrival(id: nat, dgram: seq<Byte>, p: F.Piece, padding: seq<Byte>): Arrival
    requires p.End() <= |dgram| && (p.start == 0 ==> p.len >= F.UDP_HDRLEN)
  {
    Arrival(id, p.start, p.End() < |dgram|, p.len,
            if p.start == 0 then LoadWord(BigEndian, dgram[4], dgram[5]) else 0,
            dgram[if p.start == 0 then F.UDP_HDRLEN else p.start..p.End()] + padding)
  }

  lemma PacketFields(h: Host, template: seq<Byte>, dgram: seq<Byte>, p: F.Piece)
    requires |template| == F.IP_HDRLEN && p.End() <= |dgram| && F.IP_HDRLEN + p.len < 0x1_0000
    ensures var k := F.PacketOf(h, template, dgram, p);
      && k[0] == template[0] && k[9] == template[9] && k[4..6] == template[4..6]
      && k[2..4] == F.Be16(F.IP_HDRLEN + p.len)
      && k[6..8] == F.Be16(F.OffsetField(p.start, p.End() < |dgram|))
      && k[F.IP_HDRLEN..] == dgram[p.start..p.End()]
  {
    var hdr := F.Unsummed(template, p, |dgram|);
    var packet := F.PacketOf(h, template, dgram, p);
    UnsummedFields(template, p, |dgram|);
    forall i, j | 0 <= i <= j <= 10 ensures packet[i..j] == hdr[i..j] {
      PutSlice(hdr, 10, StoreWord(h, ChecksumOf(h, hdr)), i, j);
    }
    assert packet[0] == packet[0..1][0] == hdr[0..1][0] && packet[9] == packet[9..10][0] == hdr[9..10][0];
    F.BodyOfPacket(h, template, dgram, p);
  }

  lemma UnsummedFields(template: seq<Byte>, p: F.Piece, total: nat)
    requires |template| == F.IP_HDRLEN && F.IP_HDRLEN + p.len < 0x1_0000
    ensures var hdr := F.Unsummed(template, p, total);
      && hdr[0] == template[0] && hdr[9] == template[9] && hdr[4..6] == template[4..6]
      && hdr[2..4] == F.Be16(F.IP_HDRLEN + p.len) && hdr[6..8] == F.Be16(F.OffsetField(p.start, p.End() < total))
  {
    var len, off := F.Be16(F.IP_HDRLEN + p.len), F.Be16(F.OffsetField(p.start, p.End() < total));
    var h1 := Put(template, 2, len);
    var h2 := Put(h1, 6, off);
    PutSlice(template, 2, len, 4, 6);
    PutSlice(h1, 6, off, 2, 4);
    PutSlice(h1, 6, off, 4, 6);
    PutSlice(h2, 10, [0, 0], 2, 4);
    PutSlice(h2, 10, [0, 0], 4, 6);
    PutSlice(h2, 10, [0, 0], 6, 8);
  }

  /** A field that is put reads back, and fields beside it are untouched. */
  lemma PutSlice(buf: seq<Byte>, at: nat, bytes: seq<Byte>, i: nat, j: nat)
    requires at + |bytes| <= |buf| && i <= j <= |buf|
    ensures Put(buf, at, bytes)[at..at + |bytes|] == bytes
    ensures j <= at || at + |bytes| <= i ==> Put(buf, at, bytes)[i..j] == buf[i..j]
  {
  }

  lemma WordOf(frame: seq<Byte>, i: nat, w: nat)
    requires i + 2 <= |frame| && w < 0x1_0000 && frame[i..i + 2] == F.Be16(w)
    ensures WordAt(frame, i) == w
  {
    assert frame[i] == frame[i..i + 2][0] && frame[i + 1] == frame[i..i + 2][1];
  }

  /** Every fragment of the sender that fits the receiver's MTU and the 13-bit offset
      is parsed to its identification, offset, flag, length and bytes, whatever
      padding the link adds and whatever host summed the header. */
  lemma ParseSent(maxTotal: nat, h: Host, template: seq<Byte>, id: nat, dgram: seq<Byte>, p: F.Piece,
                  link: seq<Byte>, padding: seq<Byte>)
    requires UdpTemplate(template, id) && IPv4Link(link)
    requires p.End() <= |dgram| && p.start % 8 == 0 && p.start < 0x1_0000 && 0 < p.len
    requires p.start == 0 ==> p.len >= F.UDP_HDRLEN
    requires F.IP_HDRLEN + p.len <= maxTotal < 0x1_0000 && p.len + |padding| < 0x1_0000
    ensures Parse(maxTotal, Framed(link, F.PacketOf(h, template, dgram, p), padding))
         == Parsed(SentArrival(id, dgram, p, padding))
  {
    var packet := F.PacketOf(h, template, dgram, p);
    var frame := Framed(link, packet, padding);
    HeaderReads(h, template, id, dgram, p, link, padding);
    F.FieldRoundTrip(p.start, p.End() < |dgram|);
    ModApartLen(|frame|, p.len + |padding|);
    BodyReads(h, template, dgram, p, link, padding);
    if p.start == 0 {
      ParseFirst(maxTotal, frame, p.len, p.len + |padding|);
    } else {
      ParseOther(maxTotal, frame, p.len, p.len + |padding|);
    }
  }

  lemma ModApartLen(frame: nat, rest: nat)
    requires frame == SIZE_ETHERNET + 20 + rest && rest < 0x1_0000
    ensures (frame - SIZE_ETHERNET - 20) % 0x1_0000 == rest
  {
  }

  /** What the parser returns for a sound header of twenty bytes that says len more. */
  lemma ParseFirst(maxTotal: nat, frame: seq<Byte>, len: nat, rest: nat)
    requires |frame| == 34 + rest && WordAt(frame, 12) == 0x0800 && HeaderLen(frame) == 20 && ByteAt(frame, 23) == 17
    requires WordAt(frame, 16) == 20 + len <= maxTotal && F.UDP_HDRLEN <= len <= rest < 0x1_0000
    requires F.FieldOffset(WordAt(frame, 20)) == 0
    ensures Parse(maxTotal, frame)
         == Parsed(Arrival(WordAt(frame, 18), 0, F.FieldMore(WordAt(frame, 20)), len, WordAt(frame, 38),
                           From(frame, 42)))
  {
    ModApartLen(|frame|, rest);
  }

  lemma ParseOther(maxTotal: nat, frame: seq<Byte>, len: nat, rest: nat)
    requires |frame| == 34 + rest && WordAt(frame, 12) == 0x0800 && HeaderLen(frame) == 20 && ByteAt(frame, 23) == 17
    requires WordAt(frame, 16) == 20 + len <= maxTotal && len <= rest < 0x1_0000
    requires F.FieldOffset(WordAt(frame, 20)) != 0
    ensures var field := WordAt(frame, 20);
      Parse(maxTotal, frame)
      == Parsed(Arrival(WordAt(frame, 18), F.FieldOffset(field), F.FieldMore(field), len, 0, From(frame, 34)))
  {
    ModApartLen(|frame|, rest);
  }

  /** What follows the IP header, and the UDP header in a first fragment. */
  lemma BodyReads(h: Host, template: seq<Byte>, dgram: seq<Byte>, p: F.Piece, link: seq<Byte>, padding: seq<Byte>)
    requires |template| == F.IP_HDRLEN && IPv4Link(link) && p.End() <= |dgram| && F.IP_HDRLEN + p.len < 0x1_0000
    ensures var frame := Framed(link, F.PacketOf(h, template, dgram, p), padding);
      && From(frame, 34) == dgram[p.start..p.End()] + padding
      && (p.start == 0 && p.len >= F.UDP_HDRLEN ==>
            From(frame, 42) == dgram[F.UDP_HDRLEN..p.End()] + padding
            && WordAt(frame, 38) == LoadWord(BigEndian, dgram[4], dgram[5]))
  {
    var packet := F.PacketOf(h, template, dgram, p);
    BodyOf(link, packet, padding);
    F.BodyOfPacket(h, template, dgram, p);
    if p.start == 0 && p.len >= F.UDP_HDRLEN {
      assert packet[24] == packet[20..][4] == dgram[4] && packet[25] == packet[20..][5] == dgram[5];
      assert packet[28..] == packet[20..][8..] == dgram[8..p.End()];
    }
  }

  /** The words the parser reads from the IP header. */
  lemma HeaderReads(
    h: Host, template: seq<Byte>, id: nat, dgram: seq<Byte>, p: F.Piece, link: seq<Byte>, padding: seq<Byte>)
    requires UdpTemplate(template, id) && IPv4Link(link) && p.End() <= |dgram| && F.IP_HDRLEN + p.len < 0x1_0000
    ensures var frame := Framed(link, F.PacketOf(h, template, dgram, p), padding);
      && WordAt(frame, 12) == 0x0800 && HeaderLen(frame) == 20 && ByteAt(frame, 23) == 17
      && WordAt(frame, 16) == F.IP_HDRLEN + p.len && WordAt(frame, 18) == id
      && WordAt(frame, 20) == F.OffsetField(p.start, p.End() < |dgram|)
  {
    var packet := F.PacketOf(h, template, dgram, p);
    var frame := Framed(link, packet, padding);
    PacketFields(h, template, dgram, p);
    FrameFields(link, packet, padding);
    WordOf(frame, 16, F.IP_HDRLEN + p.len);
    WordOf(frame, 18, id);
    WordOf(frame, 20, F.OffsetField(p.start, p.End() < |dgram|));
  }

  lemma FrameFields(link: seq<Byte>, packet: seq<Byte>, padding: seq<Byte>)
    requires IPv4Link(link) && |packet| >= F.IP_HDRLEN && packet[0] == 0x45
    ensures var frame := Framed(link, packet, padding);
      && WordAt(frame, 12) == 0x0800 && HeaderLen(frame) == 20 && ByteAt(frame, 23) == packet[9]
      && frame[16..18] == packet[2..4] && frame[18..20] == packet[4..6] && frame[20..22] == packet[6..8]
  {
  }

  lemma BodyOf(link: seq<Byte>, packet: seq<Byte>, padding: seq<Byte>)
    requires IPv4Link(link) && |packet| >= F.IP_HDRLEN
    ensures var frame := Framed(link, packet, padding);
      && From(frame, 34) == packet[20..] + padding
      && (|packet| >= 28 ==> From(frame, 42) == packet[28..] + padding
                             && ByteAt(frame, 38) == packet[24] && ByteAt(frame, 39) == packet[25])
  {
  }
}
