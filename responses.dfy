// The reply decoders of prime_cmd.c (calc_prime_r_*): each takes the next payload from the
// transport and interprets it. Every decoder is specified by a function on the payload (the
// Decode* functions) and implemented by a method that works, as the source does, on the
// packet's buffer, zeroing the CRC bytes in place before recomputing the CRC.

module Responses {
  import opened PrimeTypes
  import opened Crc16
  import opened Transport
  import opened Requests

  /** What a decoder reports: its status and what it left in its output argument. The CRC
      comparison a decoder logs is described apart, by ScreenCheck and FileCheck: it never
      changes the reply. */
  datatype Reply<T> = Reply(status: Status, out: Out<T>)

  /** p with bytes i and i + 1 set to 0, as the decoders do before recomputing the CRC. */
  function ZeroPair(p: seq<byte>, i: nat): (q: seq<byte>)
    requires i + 2 <= |p|
    ensures |q| == |p| && q[i] == 0 && q[i + 1] == 0
    ensures forall j :: 0 <= j < |p| && j != i && j != i + 1 ==> q[j] == p[j]
  {
    p[..i] + [0, 0] + p[i + 2..]
  }

  /** The CRC comparison for a payload whose CRC sits at bytes i and i + 1, low byte first:
      the CRC is recomputed over all but the last 6 bytes with the CRC bytes set to 0. */
  function CheckAt(p: seq<byte>, i: nat): CrcCheck
    requires i + 2 <= |p| && 6 <= |p|
  {
    Checked(LE16Value(p[i], p[i + 1]), Crc(ZeroPair(p, i)[..|p| - 6]))
  }

  /** The reply of a decoder that fails whenever the read fails. */
  function Failed<T>(item: Inbound): Reply<T>
    requires item.Fault?
  {
    Reply(InboundStatus(item), Untouched)
  }

  // ---------------------------------------------------------------------------
  // check_ready and get_infos: hand back the raw payload.

  /** calc_prime_r_check_ready and calc_prime_r_get_infos on one received item: the payload is
      copied out when both output pointers are given (want), and the status is the read's. */
  function RawResponse(item: Inbound, want: bool): (r: Reply<seq<byte>>)
    ensures r.status == InboundStatus(item)
    ensures r.out.Written? <==> item.Payload? && want
    ensures r.out.Written? ==> r.out.value == item.bytes
  {
    match item
      case Fault(_) => Failed(item)
      case Payload(p) => Reply(Success, if want then Written(p) else Untouched)
  }

  // ---------------------------------------------------------------------------
  // recv_screen.

  /** Bytes 8-12 of a screenshot reply: the requested format, then four 0xFF bytes. */
  predicate ScreenMarker(p: seq<byte>, format: byte)
    requires 13 <= |p|
  {
    p[8] == format && p[9] == 0xFF && p[10] == 0xFF && p[11] == 0xFF && p[12] == 0xFF
  }

  /** calc_prime_r_recv_screen on a received payload. */
  function DecodeScreen(format: byte, p: seq<byte>, want: bool): (r: Reply<seq<byte>>)
    ensures r.status == Success || r.status == PacketFormat
    ensures r.status == Success <==> 13 < |p| && ScreenMarker(p, format)
    ensures r.out.Written? <==> r.status == Success && want
    ensures r.out.Written? ==> r.out.value == p[13..]
  {
    if |p| <= 13 then Reply(PacketFormat, Untouched)
    else if ScreenMarker(p, format) then Reply(Success, if want then Written(p[13..]) else Untouched)
    else Reply(PacketFormat, Untouched)
  }

  /** The CRC comparison calc_prime_r_recv_screen logs: the CRC sits at bytes 6-7. */
  function ScreenCheck(p: seq<byte>): (c: CrcCheck)
    ensures c.Checked? <==> 13 < |p|
  {
    if 13 < |p| then CheckAt(p, 6) else Unchecked
  }

  /** calc_prime_r_recv_screen on one received item. */
  function ScreenResponse(format: byte, item: Inbound, want: bool): Reply<seq<byte>> {
    match item
      case Fault(_) => Failed(item)
      case Payload(p) => DecodeScreen(format, p, want)
  }

  /** A CRC mismatch is not an error: the reply does not depend on the CRC bytes. */
  lemma ScreenCrcNonFatal(format: byte, p: seq<byte>, q: seq<byte>, want: bool)
    requires |p| == |q|
    requires forall j :: 0 <= j < |p| && j != 6 && j != 7 ==> p[j] == q[j]
    ensures DecodeScreen(format, p, want) == DecodeScreen(format, q, want)
  {
    if 13 < |p| {
      assert p[13..] == q[13..];
    }
  }

  /** The CRC does not cover the last 6 bytes of a screenshot: payloads that differ only there
      (and in the CRC itself) recompute to the same CRC. */
  lemma ScreenTailUnprotected(p: seq<byte>, q: seq<byte>)
    requires |p| == |q| && 13 < |p|
    requires p[..|p| - 6] == q[..|q| - 6]
    ensures ScreenCheck(p).computed == ScreenCheck(q).computed
  {
    assert ZeroPair(p, 6)[..|p| - 6] == ZeroPair(q, 6)[..|q| - 6];
  }

  /** What the CRC protects it protects: a change to one byte of a screenshot reply outside
      the CRC bytes and the last 6 bytes alters the CRC recomputed over it. */
  lemma ScreenCrcDetects(p: seq<byte>, q: seq<byte>, j: nat)
    requires |p| == |q| && 13 < |p|
    requires j < |p| - 6 && j != 6 && j != 7 && p[j] != q[j]
    requires forall i :: 0 <= i < |p| && i != j ==> p[i] == q[i]
    ensures ScreenCheck(p).computed != ScreenCheck(q).computed
  {
    var zp, zq := ZeroPair(p, 6)[..|p| - 6], ZeroPair(q, 6)[..|q| - 6];
    assert forall i :: 0 <= i < |zp| && i != j ==> zp[i] == zq[i];
    CrcDetectsByteError(zp, zq, j);
  }

  // ---------------------------------------------------------------------------
  // recv_file.

  /** calc_prime_r_recv_file on a received payload, given the byte the short-packet branch
      compares with 0xF9 (byte 0 of the payload, when there is one). The entry is written only
      when an output pointer is given (want). The data length is computed in uint32_t and
      rejected when its top bit is set, which is what happens when the name runs past the end
      of the payload. */
  function DecodeFileReading(p: seq<byte>, want: bool, first: byte): (r: Reply<Option<Entry>>)
    requires |p| <= MaxPayload
    ensures r.status == Success || r.status == PacketFormat
    ensures |p| < 11 ==> (r.status == Success <==> first == 0xF9)
    ensures 11 <= |p| ==> (r.status == Success <==> !want || 10 + p[7] as int <= |p| < 10 + p[7] as int + 0x8000_0000)
    ensures r.out.Written? <==> want && (r.status == Success || 11 <= |p|)
    ensures r.out.Written? && r.out.value.Some? ==>
      11 <= |p| && var nl := p[7] as int;
      10 + nl <= |p| && r.out.value.value == Entry(p[6], p[10..10 + nl], p[10 + nl..])
  {
    if 11 <= |p| then
      if !want then Reply(Success, Untouched)
      else
        var nl := p[7] as int;
        var size := (|p| - 10 - nl) % 0x1_0000_0000;
        if size < 0x8000_0000 then
          Reply(Success, Written(Some(Entry(p[6], p[10..10 + nl], p[10 + nl..]))))
        else
          Reply(PacketFormat, Written(None))
    else if first != 0xF9 then
      Reply(PacketFormat, Untouched)
    else
      Reply(Success, if want then Written(None) else Untouched)
  }

  /** calc_prime_r_recv_file as written: on an empty payload the short-packet branch reads
      byte 0 past the end of the data, standing here for whatever byte lies there. */
  function DecodeFileAsWritten(p: seq<byte>, want: bool, beyond: byte): (r: Reply<Option<Entry>>)
    requires |p| <= MaxPayload
    ensures p == [] ==> (r.status == Success <==> beyond == 0xF9)
    ensures p != [] && |p| < 11 ==> (r.status == Success <==> p[0] == 0xF9)
  {
    DecodeFileReading(p, want, if |p| == 0 then beyond else p[0])
  }

  /** calc_prime_r_recv_file with an empty payload rejected as too short. */
  function DecodeFile(p: seq<byte>, want: bool): (r: Reply<Option<Entry>>)
    requires |p| <= MaxPayload
    ensures r.status == Success || r.status == PacketFormat
    ensures |p| < 11 ==> (r.status == Success <==> p != [] && p[0] == 0xF9)
    ensures 11 <= |p| ==> (r.status == Success <==> !want || 10 + p[7] as int <= |p| < 10 + p[7] as int + 0x8000_0000)
    ensures r.out.Written? <==> want && (r.status == Success || 11 <= |p|)
    ensures r.out == Written(None) <==> want && ((|p| < 11 && r.status == Success) || (11 <= |p| && r.status == PacketFormat))
    ensures r.out.Written? && r.out.value.Some? ==>
      var nl := p[7] as int;
      10 + nl <= |p| && r.out.value.value == Entry(p[6], p[10..10 + nl], p[10 + nl..])
  {
    DecodeFileReading(p, want, if |p| == 0 then 0x00 else p[0])
  }

  /** On an empty payload the reply as written depends on the byte past its end. */
  lemma EmptyFileReplyReadsPastEnd()
    ensures DecodeFileAsWritten([], true, 0xF9) == Reply(Success, Written(None))
    ensures DecodeFileAsWritten([], true, 0x00) == Reply(PacketFormat, Untouched)
  {
  }

  /** Where byte 0 exists, the corrected decoder is the decoder as written. */
  lemma DecodeFileAgrees(p: seq<byte>, want: bool, beyond: byte)
    requires |p| <= MaxPayload && p != []
    ensures DecodeFile(p, want) == DecodeFileAsWritten(p, want, beyond)
  {
  }

  /** calc_prime_r_recv_file on one received item. */
  function FileResponse(item: Inbound, want: bool): Reply<Option<Entry>>
    requires item.Valid()
  {
    match item
      case Fault(_) => Failed(item)
      case Payload(p) => DecodeFile(p, want)
  }

  /** The CRC comparison calc_prime_r_recv_file logs: the CRC sits at bytes 8-9. */
  function FileCheck(p: seq<byte>): (c: CrcCheck)
    ensures c.Checked? <==> 11 <= |p|
  {
    if 11 <= |p| then CheckAt(p, 8) else Unchecked
  }

  /** A CRC mismatch is not an error: the reply does not depend on the CRC bytes. */
  lemma FileCrcNonFatal(p: seq<byte>, q: seq<byte>, want: bool)
    requires |p| == |q| <= MaxPayload
    requires forall j :: 0 <= j < |p| && j != 8 && j != 9 ==> p[j] == q[j]
    ensures DecodeFile(p, want) == DecodeFile(q, want)
  {
    if 11 <= |p| && want && 10 + p[7] as int <= |p| {
      var nl := p[7] as int;
      assert p[10..10 + nl] == q[10..10 + nl];
      assert p[10 + nl..] == q[10 + nl..];
    }
    if 0 < |p| {
      assert p[0] == q[0];
    }
  }

  /** The CRC does not cover the last 6 bytes of a file record: records that differ only there
      (and in the CRC itself) recompute to the same CRC, while their data differ. */
  lemma FileTailUnprotected(p: seq<byte>, q: seq<byte>)
    requires |p| == |q| && 11 <= |p|
    requires p[..|p| - 6] == q[..|q| - 6]
    ensures FileCheck(p).computed == FileCheck(q).computed
  {
    assert ZeroPair(p, 8)[..|p| - 6] == ZeroPair(q, 8)[..|q| - 6];
  }

  /** A change to one byte of a file reply outside the CRC bytes and the last 6 bytes alters
      the CRC recomputed over it. */
  lemma FileCrcDetects(p: seq<byte>, q: seq<byte>, j: nat)
    requires |p| == |q| && 11 <= |p|
    requires j < |p| - 6 && j != 8 && j != 9 && p[j] != q[j]
    requires forall i :: 0 <= i < |p| && i != j ==> p[i] == q[i]
    ensures FileCheck(p).computed != FileCheck(q).computed
  {
    var zp, zq := ZeroPair(p, 8)[..|p| - 6], ZeroPair(q, 8)[..|q| - 6];
    assert forall i :: 0 <= i < |zp| && i != j ==> zp[i] == zq[i];
    CrcDetectsByteError(zp, zq, j);
  }

  // ---------------------------------------------------------------------------
  // The methods.

  /** read_vtl_pkt: receive the next payload into a fresh packet buffer; on failure no packet
      is returned. The source compares byte 0 with cmd only to log the outcome. */
  method ReadPacket(h: Link, cmd: byte) returns (res: Status, pkt: array?<byte>)
    requires h.Valid()
    modifies h
    ensures h.Valid()
    ensures h.inbox == Pop(old(h.inbox), h.idle).1
    ensures res == InboundStatus(Pop(old(h.inbox), h.idle).0)
    ensures pkt != null <==> res == Success
    ensures pkt != null ==> fresh(pkt) && Pop(old(h.inbox), h.idle).0 == Payload(pkt[..])
    ensures pkt != null ==> pkt.Length <= MaxPayload
    ensures h.sent == old(h.sent) && h.sendReplies == old(h.sendReplies) && h.idle == old(h.idle)
  {
    var item := h.RecvData();
    match item
    case Payload(bytes) =>
      pkt := new byte[|bytes|](i requires 0 <= i < |bytes| => bytes[i]);
      res := Success;
    case Fault(code) =>
      pkt := null;
      res := Transport(code);
  }

  /** calc_prime_r_check_ready. want says whether both output pointers are given. */
  method RecvCheckReady(h: Link?, tags: Tags, want: bool) returns (res: Status, out: Out<seq<byte>>)
    requires h != null ==> h.Valid()
    modifies h
    ensures h == null ==> res == InvalidHandle && out == Untouched
    ensures h != null ==> h.Valid() && h.inbox == Pop(old(h.inbox), h.idle).1
    ensures h != null ==> var r := RawResponse(Pop(old(h.inbox), h.idle).0, want);
      res == r.status && out == r.out
    ensures h != null ==> h.sent == old(h.sent) && h.sendReplies == old(h.sendReplies) && h.idle == old(h.idle)
  {
    out := Untouched;
    if h == null {
      return InvalidHandle, Untouched;
    }
    var pkt;
    res, pkt := ReadPacket(h, tags.checkReady);
    if res == Success && pkt != null {
      if want {
        out := Written(pkt[..]);
      }
    }
  }

  /** calc_prime_r_get_infos: the same as check_ready, for the GET_INFOS reply. */
  method RecvGetInfos(h: Link?, tags: Tags, want: bool) returns (res: Status, out: Out<seq<byte>>)
    requires h != null ==> h.Valid()
    modifies h
    ensures h == null ==> res == InvalidHandle && out == Untouched
    ensures h != null ==> h.Valid() && h.inbox == Pop(old(h.inbox), h.idle).1
    ensures h != null ==> var r := RawResponse(Pop(old(h.inbox), h.idle).0, want);
      res == r.status && out == r.out
    ensures h != null ==> h.sent == old(h.sent) && h.sendReplies == old(h.sendReplies) && h.idle == old(h.idle)
  {
    out := Untouched;
    if h == null {
      return InvalidHandle, Untouched;
    }
    var pkt;
    res, pkt := ReadPacket(h, tags.getInfos);
    if res == Success && pkt != null {
      if want {
        out := Written(pkt[..]);
      }
    }
  }

  /** calc_prime_r_send_file: check_ready with no output wanted. */
  method RecvSendFile(h: Link?, tags: Tags) returns (res: Status)
    requires h != null ==> h.Valid()
    modifies h
    ensures h == null ==> res == InvalidHandle
    ensures h != null ==> h.Valid() && h.inbox == Pop(old(h.inbox), h.idle).1
    ensures h != null ==> res == InboundStatus(Pop(old(h.inbox), h.idle).0)
    ensures h != null ==> h.sent == old(h.sent) && h.sendReplies == old(h.sendReplies) && h.idle == old(h.idle)
  {
    if h == null {
      return InvalidHandle;
    }
    var out;
    res, out := RecvCheckReady(h, tags, false);
  }

  /** The CRC comparison a decoder logs for what it received. */
  function ItemCheck(item: Inbound, check: seq<byte> -> CrcCheck): CrcCheck {
    match item
      case Fault(_) => Unchecked
      case Payload(p) => check(p)
  }

  /** Reset bytes i and i + 1 of the packet and recompute its CRC; return the comparison. */
  method CheckCrcInPlace(pkt: array<byte>, i: nat) returns (check: CrcCheck)
    requires i + 2 <= pkt.Length && 6 <= pkt.Length
    modifies pkt
    ensures check == CheckAt(old(pkt[..]), i)
    ensures pkt[..] == ZeroPair(old(pkt[..]), i)
  {
    var embedded := ((pkt[i + 1] as bv16) << 8) | (pkt[i] as bv16);
    pkt[i] := 0x00;
    pkt[i + 1] := 0x00;
    assert pkt[..] == ZeroPair(old(pkt[..]), i);
    var computed := Crc16Block(pkt, pkt.Length - 6);
    check := Checked(embedded, computed);
  }

  /** The body of calc_prime_r_recv_screen once a packet has been read. */
  method DecodeScreenInPlace(pkt: array<byte>, format: byte, want: bool)
    returns (res: Status, out: Out<seq<byte>>, check: CrcCheck)
    modifies pkt
    ensures Reply(res, out) == DecodeScreen(format, old(pkt[..]), want)
    ensures check == ScreenCheck(old(pkt[..]))
  {
    res, out, check := Success, Untouched, Unchecked;
    if pkt.Length > 13 {
      check := CheckCrcInPlace(pkt, 6);
      assert pkt[13..] == old(pkt[..])[13..];
      if pkt[8] == format && pkt[9] == 0xFF && pkt[10] == 0xFF && pkt[11] == 0xFF && pkt[12] == 0xFF {
        if want {
          out := Written(pkt[13..]);
        }
      } else {
        res := PacketFormat;
      }
    } else {
      res := PacketFormat;
    }
  }

  /** calc_prime_r_recv_screen. want says whether both output pointers are given. */
  method RecvScreen(h: Link?, tags: Tags, format: byte, want: bool)
    returns (res: Status, out: Out<seq<byte>>, check: CrcCheck)
    requires h != null ==> h.Valid()
    modifies h
    ensures h == null ==> res == InvalidHandle && out == Untouched && check == Unchecked
    ensures h != null ==> h.Valid() && h.inbox == Pop(old(h.inbox), h.idle).1
    ensures h != null ==> Reply(res, out) == ScreenResponse(format, Pop(old(h.inbox), h.idle).0, want)
    ensures h != null ==> check == ItemCheck(Pop(old(h.inbox), h.idle).0, ScreenCheck)
    ensures h != null ==> h.sent == old(h.sent) && h.sendReplies == old(h.sendReplies) && h.idle == old(h.idle)
  {
    out, check := Untouched, Unchecked;
    if h == null {
      res := InvalidHandle;
      return;
    }
    var pkt;
    res, pkt := ReadPacket(h, tags.recvScreen);
    if res == Success && pkt != null {
      res, out, check := DecodeScreenInPlace(pkt, format, want);
    }
  }

  /** The part of calc_prime_r_recv_file that turns a record of 11 bytes or more into an entry. */
  method ExtractEntry(pkt: array<byte>, want: bool) returns (res: Status, out: Out<Option<Entry>>)
    requires 11 <= pkt.Length <= MaxPayload
    ensures Reply(res, out) == DecodeFile(pkt[..], want)
  {
    res, out := Success, Untouched;
    if want {
      out := Written(None);
      var namelen := pkt[7] as int;
      var size := (pkt.Length - 10 - namelen) % 0x1_0000_0000;   // uint32_t arithmetic
      if size < 0x8000_0000 {
        out := Written(Some(Entry(pkt[6], pkt[10..10 + namelen], pkt[10 + namelen..])));
      } else {
        res := PacketFormat;
      }
    }
  }

  /** The body of calc_prime_r_recv_file once a packet has been read. */
  method DecodeFileInPlace(pkt: array<byte>, want: bool)
    returns (res: Status, out: Out<Option<Entry>>, check: CrcCheck)
    requires pkt.Length <= MaxPayload
    modifies pkt
    ensures Reply(res, out) == DecodeFile(old(pkt[..]), want)
    ensures check == FileCheck(old(pkt[..]))
  {
    res, out, check := Success, Untouched, Unchecked;
    if pkt.Length >= 11 {
      check := CheckCrcInPlace(pkt, 8);
      res, out := ExtractEntry(pkt, want);
      FileCrcNonFatal(old(pkt[..]), pkt[..], want);
    } else if pkt.Length == 0 || pkt[0] != 0xF9 {
      res := PacketFormat;
    } else if want {
      out := Written(None);
    }
  }

  /** calc_prime_r_recv_file. want says whether the output pointer is given. */
  method RecvFile(h: Link?, tags: Tags, want: bool)
    returns (res: Status, out: Out<Option<Entry>>, check: CrcCheck)
    requires h != null ==> h.Valid()
    modifies h
    ensures h == null ==> res == InvalidHandle && out == Untouched && check == Unchecked
    ensures h != null ==> h.Valid() && h.inbox == Pop(old(h.inbox), h.idle).1
    ensures h != null ==> Reply(res, out) == FileResponse(Pop(old(h.inbox), h.idle).0, want)
    ensures h != null ==> check == ItemCheck(Pop(old(h.inbox), h.idle).0, FileCheck)
    ensures h != null ==> h.sent == old(h.sent) && h.sendReplies == old(h.sendReplies) && h.idle == old(h.idle)
  {
    out, check := Untouched, Unchecked;
    if h == null {
      res := InvalidHandle;
      return;
    }
    var pkt;
    res, pkt := ReadPacket(h, tags.recvFile);
    if res == Success && pkt != null {
      res, out, check := DecodeFileInPlace(pkt, want);
    }
  }
}
