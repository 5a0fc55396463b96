// The request encoders of prime_cmd.c (calc_prime_s_*): each builds one logical packet and
// hands it to the transport. The two file requests share a 10-byte header
//   [tag, 0x01, size (4 bytes, big-endian), type, name length, CRC (2 bytes, little-endian)]
// followed by the name bytes and, for send_file, the file data. The size field counts the
// bytes after itself; the CRC covers all but the last 6 bytes of the payload and is
// computed with its own two bytes set to 0.

module Requests {
  import opened PrimeTypes
  import opened Crc16
  import opened Transport

  // ---------------------------------------------------------------------------
  // Names: UTF-16 code units, stored as byte pairs and terminated by a zero unit.

  /** Code unit i of a name buffer is the terminating zero unit. */
  predicate UnitIsNul(name: seq<byte>, i: nat) {
    2 * i + 1 < |name| && name[2 * i] == 0 && name[2 * i + 1] == 0
  }

  /** The buffer holds a terminating zero unit, as every C string of char16_t does. */
  ghost predicate Terminated(name: seq<byte>) {
    exists i: nat :: UnitIsNul(name, i)
  }

  /** The number of code units before the terminator. */
  function Char16Len(name: seq<byte>): (n: nat)
    requires Terminated(name)
    ensures UnitIsNul(name, n)
    ensures forall j: nat :: j < n ==> !UnitIsNul(name, j)
    decreases |name|
  {
    if name[0] == 0 && name[1] == 0 then 0
    else
      assert Terminated(name[2..]) by {
        var i: nat :| UnitIsNul(name, i);
        assert i != 0;
        assert UnitIsNul(name[2..], i - 1);
      }
      var m := Char16Len(name[2..]);
      assert forall j: nat :: j < m ==> (UnitIsNul(name, j + 1) <==> UnitIsNul(name[2..], j));
      assert forall j: nat :: 0 < j <= m ==> UnitIsNul(name, j) == UnitIsNul(name[2..], j - 1);
      1 + m
  }

  /** char16_strlen: walk the pointer up to the terminator, counting code units. */
  method Char16Strlen(name: seq<byte>) returns (i: nat)
    requires Terminated(name)
    ensures i == Char16Len(name)
  {
    i := 0;
    var str := 0;   // byte offset of the code unit the pointer designates
    while !(name[str] == 0 && name[str + 1] == 0)
      invariant str == 2 * i
      invariant i <= Char16Len(name)
      decreases Char16Len(name) - i
    {
      i := i + 1;
      str := str + 2;
    }
    assert UnitIsNul(name, i);
  }

  /** The name length the file headers carry: (uint8_t)char16_strlen(name) * 2, stored in a
      uint8_t, so the byte count of the name modulo 256. */
  function NameLen(units: nat): (nl: nat)
    ensures nl < 256 && nl % 2 == 0
    ensures units < 128 ==> nl == 2 * units
  {
    ((units % 256) * 2) % 256
  }

  /** A name of 128 code units or more is cut to its length modulo 128 units. */
  lemma NameLenWraps(units: nat)
    ensures NameLen(units) == 2 * (units % 128)
  {
  }

  /** The bytes of the name a file header carries: the first NameLen bytes of the buffer. */
  function NameBytes(name: seq<byte>): (r: seq<byte>)
    requires Terminated(name)
    ensures |r| == NameLen(Char16Len(name))
    ensures Char16Len(name) < 128 ==> forall j: nat :: 2 * j + 1 < |r| ==> !UnitIsNul(r, j)
  {
    var n := Char16Len(name);
    assert UnitIsNul(name, n);
    var r := name[..NameLen(n)];
    assert forall j: nat :: 2 * j + 1 < |r| ==> (UnitIsNul(r, j) <==> UnitIsNul(name, j));
    r
  }

  // ---------------------------------------------------------------------------
  // Byte-level layout.

  /** A 32-bit value as four bytes, most significant first: (n >> 24) & 0xFF down to n & 0xFF. */
  function BE32(n: nat): (r: seq<byte>)
    requires n < 0x1_0000_0000
    ensures |r| == 4
  {
    [ToByte(n / 0x100 / 0x100 / 0x100), ToByte(n / 0x100 / 0x100 % 0x100),
     ToByte(n / 0x100 % 0x100), ToByte(n % 0x100)]
  }

  /** The value four bytes denote, most significant first. */
  function BE32Value(b: seq<byte>): (v: nat)
    requires |b| == 4
    ensures v < 0x1_0000_0000
  {
    ((b[0] as nat * 0x100 + b[1] as nat) * 0x100 + b[2] as nat) * 0x100 + b[3] as nat
  }

  lemma Digits(n: nat, b0: nat, b1: nat, b2: nat, b3: nat)
    requires n < 0x1_0000_0000
    requires b0 == n / 0x100 / 0x100 / 0x100 && b1 == n / 0x100 / 0x100 % 0x100
    requires b2 == n / 0x100 % 0x100 && b3 == n % 0x100
    ensures ((b0 * 0x100 + b1) * 0x100 + b2) * 0x100 + b3 == n
  {
    var a := n / 0x100;
    var a1 := a / 0x100;
    assert n == a * 0x100 + n % 0x100;
    assert a == a1 * 0x100 + a % 0x100;
    assert a1 == b0 * 0x100 + a1 % 0x100;
  }

  /** Reading the size field back gives the value written. */
  lemma BE32RoundTrip(n: nat)
    requires n < 0x1_0000_0000
    ensures BE32Value(BE32(n)) == n
  {
    var b := BE32(n);
    ByteOf(n / 0x100 / 0x100 / 0x100);
    ByteOf(n / 0x100 / 0x100 % 0x100);
    ByteOf(n / 0x100 % 0x100);
    ByteOf(n % 0x100);
    Digits(n, b[0] as nat, b[1] as nat, b[2] as nat, b[3] as nat);
  }

  /** A CRC as the two bytes the headers hold: low byte first. */
  function LE16(c: bv16): (r: seq<byte>)
    ensures |r| == 2
  {
    [(c & 0xFF) as byte, ((c >> 8) & 0xFF) as byte]
  }

  /** The CRC two header bytes denote, as the decoders read it back: (hi << 8) | lo. */
  function LE16Value(lo: byte, hi: byte): bv16 {
    ((hi as bv16) << 8) | (lo as bv16)
  }

  /** Reading the CRC bytes back gives the CRC written. */
  lemma LE16RoundTrip(c: bv16)
    ensures LE16Value(LE16(c)[0], LE16(c)[1]) == c
  {
  }

  /** The largest payload a file header can describe: the size field and the packet size are
      32-bit quantities. */
  predicate RecordFits(nameLen: nat, dataLen: nat) {
    10 + nameLen + dataLen <= MaxPayload
  }

  /** A file record before its CRC is patched in: the header with zeros for the CRC, the name
      bytes and the data. */
  function Record(tag: byte, vtype: byte, name: seq<byte>, data: seq<byte>): (r: seq<byte>)
    requires |name| < 256 && RecordFits(|name|, |data|)
    ensures |r| == 10 + |name| + |data|
  {
    Header(tag, 4 + |name| + |data|, vtype, |name|) + name + data
  }

  /** The 10-byte file header: tag, 0x01, the size field, the type, the name length and two
      zero bytes where the CRC goes. */
  function Header(tag: byte, size: nat, vtype: byte, nl: nat): (h: seq<byte>)
    requires size < 0x1_0000_0000 && nl < 0x100
    ensures |h| == 10
  {
    var s := BE32(size);
    [tag, 0x01, s[0], s[1], s[2], s[3], vtype, ToByte(nl), 0x00, 0x00]
  }

  /** The record with bytes 8-9 set to the little-endian CRC of its first |r| - 6 bytes. */
  function Seal(r: seq<byte>): (p: seq<byte>)
    requires |r| >= 10
    ensures |p| == |r|
  {
    Place(r, Crc(r[..|r| - 6]))
  }

  /** The record with bytes 8-9 set to the little-endian form of c. */
  function Place(r: seq<byte>, c: bv16): (p: seq<byte>)
    requires |r| >= 10
    ensures |p| == |r|
  {
    r[..8] + LE16(c) + r[10..]
  }

  /** The payload calc_prime_s_send_file builds for an entry. */
  function SendFilePayload(tags: Tags, f: Entry): (p: seq<byte>)
    requires Terminated(f.name) && RecordFits(NameLen(Char16Len(f.name)), |f.data|)
    ensures |p| == 10 + NameLen(Char16Len(f.name)) + |f.data|
    ensures p[0] == tags.recvFile && p[1] == 0x01 && p[6] == f.vtype
  {
    SealedFields(tags.recvFile, f.vtype, NameBytes(f.name), f.data);
    Seal(Record(tags.recvFile, f.vtype, NameBytes(f.name), f.data))
  }

  /** The payload calc_prime_s_recv_file builds for an entry: its header and name, no data. */
  function RecvFilePayload(tags: Tags, f: Entry): (p: seq<byte>)
    requires Terminated(f.name)
    ensures |p| == 10 + NameLen(Char16Len(f.name))
    ensures p[0] == tags.reqFile && p[1] == 0x01 && p[6] == f.vtype
  {
    SealedFields(tags.reqFile, f.vtype, NameBytes(f.name), []);
    Seal(Record(tags.reqFile, f.vtype, NameBytes(f.name), []))
  }

  // ---------------------------------------------------------------------------
  // Properties of the file payloads.

  /** p is a file record whose fields, read back as a decoder reads them, are the given type,
      name bytes and data: tag, 0x01, the size field counting the bytes after it, the type,
      the name length, two CRC bytes (any value), the name and the data. */
  predicate HasFields(p: seq<byte>, tag: byte, vtype: byte, name: seq<byte>, data: seq<byte>) {
    && |p| == 10 + |name| + |data|
    && p[0] == tag && p[1] == 0x01
    && BE32Value(p[2..6]) == 4 + |name| + |data|
    && p[6] == vtype && p[7] as int == |name|
    && p[10..10 + |name|] == name && p[10 + |name|..] == data
  }

  /** A record has the fields it was built from, and zeros where the CRC goes. */
  lemma RecordLayout(tag: byte, vtype: byte, name: seq<byte>, data: seq<byte>)
    requires |name| < 256 && RecordFits(|name|, |data|)
    ensures HasFields(Record(tag, vtype, name, data), tag, vtype, name, data)
    ensures Record(tag, vtype, name, data)[8] == 0x00 && Record(tag, vtype, name, data)[9] == 0x00
  {
    var size := 4 + |name| + |data|;
    var r := Record(tag, vtype, name, data);
    var h := Header(tag, size, vtype, |name|);
    assert r == h + (name + data);
    assert r[2..6] == h[2..6] == BE32(size);
    BE32RoundTrip(size);
    ByteOf(|name|);
    assert r[0] == h[0] == tag && r[1] == h[1] == 0x01 && r[6] == h[6] && r[7] == h[7];
    assert r[8] == h[8] && r[9] == h[9];
    assert r[10..10 + |name|] == name && r[10 + |name|..] == data;
  }

  /** Placing a CRC changes bytes 8-9 only. */
  lemma PlaceKeeps(r: seq<byte>, c: bv16)
    requires |r| >= 10
    ensures Place(r, c)[..8] == r[..8] && Place(r, c)[10..] == r[10..]
  {
  }

  /** Fields live outside bytes 8-9: a sequence that agrees with a record everywhere else has
      the same fields. */
  lemma SameFieldsOutsideCrc(r: seq<byte>, p: seq<byte>, tag: byte, vtype: byte, name: seq<byte>, data: seq<byte>)
    requires HasFields(r, tag, vtype, name, data)
    requires |p| == |r| && p[..8] == r[..8] && p[10..] == r[10..]
    ensures HasFields(p, tag, vtype, name, data)
  {
    var nl := |name|;
    assert p[2..6] == p[..8][2..6] == r[..8][2..6] == r[2..6];
    assert p[10..10 + nl] == p[10..][..nl] == r[10..][..nl] == r[10..10 + nl];
    assert p[10 + nl..] == p[10..][nl..] == r[10..][nl..] == r[10 + nl..];
    assert p[0] == p[..8][0] && p[1] == p[..8][1] && p[6] == p[..8][6] && p[7] == p[..8][7];
  }

  /** Placing a CRC keeps every field. */
  lemma PlaceKeepsFields(r: seq<byte>, c: bv16, tag: byte, vtype: byte, name: seq<byte>, data: seq<byte>)
    requires HasFields(r, tag, vtype, name, data)
    ensures HasFields(Place(r, c), tag, vtype, name, data)
  {
    PlaceKeeps(r, c);
    SameFieldsOutsideCrc(r, Place(r, c), tag, vtype, name, data);
  }

  /** A sealed record has the fields it was built from. */
  lemma SealedFields(tag: byte, vtype: byte, name: seq<byte>, data: seq<byte>)
    requires |name| < 256 && RecordFits(|name|, |data|)
    ensures HasFields(Seal(Record(tag, vtype, name, data)), tag, vtype, name, data)
  {
    var r := Record(tag, vtype, name, data);
    RecordLayout(tag, vtype, name, data);
    PlaceKeepsFields(r, Crc(r[..|r| - 6]), tag, vtype, name, data);
  }

  /** The layout calc_prime_s_send_file writes: RECV_FILE, 0x01, the size 4 + name length +
      data length big-endian, the type, the name length, the CRC, the first name-length bytes
      of the name buffer, and the data. */
  lemma SendFileLayout(tags: Tags, f: Entry)
    requires Terminated(f.name) && RecordFits(NameLen(Char16Len(f.name)), |f.data|)
    ensures HasFields(SendFilePayload(tags, f), tags.recvFile, f.vtype,
                      f.name[..NameLen(Char16Len(f.name))], f.data)
  {
    SealedFields(tags.recvFile, f.vtype, NameBytes(f.name), f.data);
  }

  /** The layout calc_prime_s_recv_file writes: the same header with REQ_FILE at byte 0 and the
      name, and no data. */
  lemma RecvFileLayout(tags: Tags, f: Entry)
    requires Terminated(f.name)
    ensures HasFields(RecvFilePayload(tags, f), tags.reqFile, f.vtype,
                      f.name[..NameLen(Char16Len(f.name))], [])
  {
    SealedFields(tags.reqFile, f.vtype, NameBytes(f.name), []);
  }

  /** Bytes 8-9 of a sealed record are the little-endian CRC of its first length - 6 bytes
      taken with bytes 8-9 set to 0; every other byte is the record's. */
  lemma SealPlacesCrc(r: seq<byte>)
    requires |r| >= 10 && r[8] == 0 && r[9] == 0
    ensures var p := Seal(r);
      && p[..8] == r[..8] && p[10..] == r[10..]
      && LE16Value(p[8], p[9]) == Crc((p[..8] + [0, 0] + p[10..])[..|p| - 6])
  {
    var p := Seal(r);
    assert p[..8] + [0, 0] + p[10..] == r;
    LE16RoundTrip(Crc(r[..|r| - 6]));
  }

  /** The last six bytes of a record are not covered by its CRC: records that differ only
      there carry the same CRC. */
  lemma SealIgnoresTail(r: seq<byte>, s: seq<byte>)
    requires |r| == |s| >= 10 && r[..|r| - 6] == s[..|s| - 6]
    ensures Seal(r)[8..10] == Seal(s)[8..10]
  {
  }

  // ---------------------------------------------------------------------------
  // The encoders.

  /** Write the bytes of src[..n] into dst at offset at, as memcpy does. */
  method CopyBytes(dst: array<byte>, at: nat, src: seq<byte>, n: nat)
    requires n <= |src| && at + n <= dst.Length
    modifies dst
    ensures dst[..] == old(dst[..at]) + src[..n] + old(dst[at + n..])
  {
    for i := 0 to n
      invariant forall j :: 0 <= j < dst.Length ==> dst[j] == (if at <= j < at + i then src[j - at] else old(dst[j]))
    {
      dst[at + i] := src[i];
    }
    assert dst[..] == old(dst[..at]) + src[..n] + old(dst[at + n..]);
  }

  /** calc_prime_s_check_ready: a 2-byte payload holding the CHECK_READY tag. */
  method SendCheckReady(h: Link?, tags: Tags) returns (res: Status)
    requires h != null ==> h.Valid()
    modifies h
    ensures h == null ==> res == InvalidHandle
    ensures h != null ==> h.Valid() && SentOne(h, old(h.sent), old(h.sendReplies), res,
                                               Packet(tags.checkReady, [tags.checkReady, 0]))
    ensures h != null ==> h.inbox == old(h.inbox) && h.idle == old(h.idle)
  {
    if h == null {
      return InvalidHandle;
    }
    var data := new byte[2](_ => 0);
    var ptr := 0;
    data[ptr] := tags.checkReady; ptr := ptr + 1;
    assert data[..] == [tags.checkReady, 0];
    res := h.SendData(Packet(tags.checkReady, data[..]));
  }

  /** calc_prime_s_get_infos: a 2-byte payload holding the GET_INFOS tag. */
  method SendGetInfos(h: Link?, tags: Tags) returns (res: Status)
    requires h != null ==> h.Valid()
    modifies h
    ensures h == null ==> res == InvalidHandle
    ensures h != null ==> h.Valid() && SentOne(h, old(h.sent), old(h.sendReplies), res,
                                               Packet(tags.getInfos, [tags.getInfos, 0]))
    ensures h != null ==> h.inbox == old(h.inbox) && h.idle == old(h.idle)
  {
    if h == null {
      return InvalidHandle;
    }
    var data := new byte[2](_ => 0);
    var ptr := 0;
    data[ptr] := tags.getInfos; ptr := ptr + 1;
    assert data[..] == [tags.getInfos, 0];
    res := h.SendData(Packet(tags.getInfos, data[..]));
  }

  /** calc_prime_s_recv_screen: a 3-byte payload holding the RECV_SCREEN tag and the format. */
  method SendRecvScreen(h: Link?, tags: Tags, format: byte) returns (res: Status)
    requires h != null ==> h.Valid()
    modifies h
    ensures h == null ==> res == InvalidHandle
    ensures h != null ==> h.Valid() && SentOne(h, old(h.sent), old(h.sendReplies), res,
                                               Packet(tags.recvScreen, [tags.recvScreen, format, 0]))
    ensures h != null ==> h.inbox == old(h.inbox) && h.idle == old(h.idle)
  {
    if h == null {
      return InvalidHandle;
    }
    var data := new byte[3](_ => 0);
    var ptr := 0;
    data[ptr] := tags.recvScreen; ptr := ptr + 1;
    data[ptr] := format; ptr := ptr + 1;
    assert data[..] == [tags.recvScreen, format, 0];
    res := h.SendData(Packet(tags.recvScreen, data[..]));
  }

  /** calc_prime_s_recv_backup: a 2-byte payload holding the RECV_BACKUP tag, in a packet
      tagged RECV_FILE. */
  method SendRecvBackup(h: Link?, tags: Tags) returns (res: Status)
    requires h != null ==> h.Valid()
    modifies h
    ensures h == null ==> res == InvalidHandle
    ensures h != null ==> h.Valid() && SentOne(h, old(h.sent), old(h.sendReplies), res,
                                               Packet(tags.recvFile, [tags.recvBackup, 0]))
    ensures h != null ==> h.inbox == old(h.inbox) && h.idle == old(h.idle)
  {
    if h == null {
      return InvalidHandle;
    }
    var data := new byte[2](_ => 0);
    var ptr := 0;
    data[ptr] := tags.recvBackup; ptr := ptr + 1;
    assert data[..] == [tags.recvBackup, 0];
    res := h.SendData(Packet(tags.recvFile, data[..]));
  }

  /** The status a send reports when the transport's scripted replies are replies. */
  function SendResult(replies: seq<Status>): Status {
    if replies == [] then Success else replies[0]
  }

  /** After a request: exactly packet p was added to the outbox, the send's status was
      returned, and that status was taken off the scripted replies. */
  ghost predicate SentOne(h: Link, sent0: seq<Packet>, replies0: seq<Status>, res: Status, p: Packet)
    reads h
  {
    && h.sent == sent0 + [p]
    && res == SendResult(replies0)
    && h.sendReplies == (if replies0 == [] then [] else replies0[1..])
  }

  /** Write the ten header bytes at the start of data, advancing the write pointer. */
  method WriteHeader(data: array<byte>, tag: byte, s0: byte, s1: byte, s2: byte, s3: byte,
                     vtype: byte, nl: byte) returns (ptr: nat)
    requires 10 <= data.Length
    modifies data
    ensures ptr == 10
    ensures data[..10] == [tag, 0x01, s0, s1, s2, s3, vtype, nl, 0x00, 0x00]
    ensures data[10..] == old(data[10..])
  {
    ptr := 0;
    data[ptr] := tag; ptr := ptr + 1;
    data[ptr] := 0x01; ptr := ptr + 1;
    data[ptr] := s0; ptr := ptr + 1;
    data[ptr] := s1; ptr := ptr + 1;
    data[ptr] := s2; ptr := ptr + 1;
    data[ptr] := s3; ptr := ptr + 1;
    data[ptr] := vtype; ptr := ptr + 1;
    data[ptr] := nl; ptr := ptr + 1;
    data[ptr] := 0x00; ptr := ptr + 1;   // the CRC, patched in once the rest is written
    data[ptr] := 0x00; ptr := ptr + 1;
    assert data[..10] == [data[0], data[1], data[2], data[3], data[4], data[5], data[6], data[7], data[8], data[9]];
  }

  /** Compute the CRC of the first size bytes and store it little-endian at bytes 8-9. */
  method PatchCrc(data: array<byte>, size: nat) returns (crc16: bv16)
    requires 10 <= data.Length && size <= data.Length
    modifies data
    ensures crc16 == Crc(old(data[..size]))
    ensures data[..] == Place(old(data[..]), crc16)
  {
    crc16 := Crc16Block(data, size);
    ghost var before := data[..];
    var lo, hi := LE16(crc16)[0], LE16(crc16)[1];
    data[8] := lo;
    data[9] := hi;
    assert forall i :: 0 <= i < data.Length ==> data[i] == Place(before, crc16)[i];
  }

  /** The header bytes spelt out. */
  lemma HeaderBytes(tag: byte, size: nat, vtype: byte, nl: nat)
    requires size < 0x1_0000_0000 && nl < 0x100
    ensures var s := BE32(size);
      Header(tag, size, vtype, nl) == [tag, 0x01, s[0], s[1], s[2], s[3], vtype, ToByte(nl), 0x00, 0x00]
  {
  }

  /** The part the two file requests share: allocate a zero-filled packet of 10 + nl + extra
      bytes, write the header with size field 4 + nl + extra, and copy nl bytes of the name. */
  method StartRecord(tag: byte, vtype: byte, name: seq<byte>, nl: nat, extra: nat)
    returns (data: array<byte>, ptr: nat)
    requires nl < 0x100 && nl <= |name| && RecordFits(nl, extra)
    ensures fresh(data) && ptr == 10 + nl && data.Length == ptr + extra
    ensures data[..ptr] == Header(tag, 4 + nl + extra, vtype, nl) + name[..nl]
    ensures data[ptr..] == seq(extra, _ => 0)
  {
    var size := 10 - 6 + nl + extra;   // the bytes after the size field
    data := new byte[size + 6](_ => 0);
    ghost var zeros := data[..];
    var sz := BE32(size);
    ptr := WriteHeader(data, tag, sz[0], sz[1], sz[2], sz[3], vtype, ToByte(nl));
    HeaderBytes(tag, size, vtype, nl);
    ghost var header := data[..10];
    assert header == Header(tag, size, vtype, nl);
    CopyBytes(data, ptr, name, nl);
    ptr := ptr + nl;
    assert data[..ptr] == header + name[..nl];
    assert data[ptr..] == zeros[ptr..];
  }

  /** The record of the first nl bytes of a name, with the header spelt out for that length. */
  lemma RecordOfPrefix(tag: byte, vtype: byte, name: seq<byte>, nl: nat, body: seq<byte>)
    requires nl < 0x100 && nl <= |name| && RecordFits(nl, |body|)
    ensures Record(tag, vtype, name[..nl], body) == Header(tag, 4 + nl + |body|, vtype, nl) + name[..nl] + body
  {
    var n := name[..nl];
    HeaderCongruent(tag, vtype, 4 + |n| + |body|, 4 + nl + |body|, |n|, nl);
  }

  /** Equal arguments give equal headers (stated so that the solver need not look inside). */
  lemma HeaderCongruent(tag: byte, vtype: byte, s1: nat, s2: nat, n1: nat, n2: nat)
    requires s1 == s2 < 0x1_0000_0000 && n1 == n2 < 0x100
    ensures Header(tag, s1, vtype, n1) == Header(tag, s2, vtype, n2)
  {
  }

  /** The part after the header and name: copy the data behind the name. */
  method BuildRecord(tag: byte, vtype: byte, name: seq<byte>, nl: nat, body: seq<byte>)
    returns (data: array<byte>)
    requires nl < 0x100 && nl <= |name| && RecordFits(nl, |body|)
    ensures fresh(data)
    ensures data[..] == Record(tag, vtype, name[..nl], body)
  {
    var ptr;
    data, ptr := StartRecord(tag, vtype, name, nl, |body|);
    ghost var named := data[..ptr];
    CopyBytes(data, ptr, body, |body|);
    assert data[..] == named + body;
    RecordOfPrefix(tag, vtype, name, nl, body);
  }

  /** Writing the CRC of all but the last 6 bytes of a record into bytes 8-9 seals it. */
  method SealRecord(data: array<byte>)
    requires 10 <= data.Length
    modifies data
    ensures data[..] == Seal(old(data[..]))
  {
    ghost var record := data[..];
    var crc16 := PatchCrc(data, data.Length - 6);
    assert record[..data.Length - 6] == record[..|record| - 6];
  }

  /** calc_prime_s_send_file: header, name and data, sealed with the CRC. */
  method SendFile(h: Link?, tags: Tags, file: Option<Entry>) returns (res: Status)
    requires h != null ==> h.Valid()
    requires file.Some? ==> Terminated(file.value.name)
    requires file.Some? ==> RecordFits(NameLen(Char16Len(file.value.name)), |file.value.data|)
    modifies h
    ensures h == null || file.None? ==> res == InvalidParameter
    ensures h != null && file.None? ==> h.sent == old(h.sent) && h.sendReplies == old(h.sendReplies)
    ensures h != null && file.Some? ==> h.Valid() && SentOne(h, old(h.sent), old(h.sendReplies), res,
                                          Packet(tags.recvFile, SendFilePayload(tags, file.value)))
    ensures h != null ==> h.inbox == old(h.inbox) && h.idle == old(h.idle)
  {
    if h == null || file.None? {
      return InvalidParameter;
    }
    var f := file.value;
    var units := Char16Strlen(f.name);
    var nl := NameLen(units);
    var data := BuildRecord(tags.recvFile, f.vtype, f.name, nl, f.data);
    SealRecord(data);
    assert f.name[..nl] == NameBytes(f.name);
    res := h.SendData(Packet(tags.recvFile, data[..]));
  }

  /** calc_prime_s_recv_file: header and name, sealed with the CRC; no data. */
  method SendRecvFile(h: Link?, tags: Tags, file: Option<Entry>) returns (res: Status)
    requires h != null ==> h.Valid()
    requires file.Some? ==> Terminated(file.value.name)
    modifies h
    ensures h == null || file.None? ==> res == InvalidParameter
    ensures h != null && file.None? ==> h.sent == old(h.sent) && h.sendReplies == old(h.sendReplies)
    ensures h != null && file.Some? ==> h.Valid() && SentOne(h, old(h.sent), old(h.sendReplies), res,
                                          Packet(tags.recvFile, RecvFilePayload(tags, file.value)))
    ensures h != null ==> h.inbox == old(h.inbox) && h.idle == old(h.idle)
  {
    if h == null || file.None? {
      return InvalidParameter;
    }
    var f := file.value;
    var units := Char16Strlen(f.name);
    var nl := NameLen(units);
    var data := BuildRecord(tags.reqFile, f.vtype, f.name, nl, []);
    SealRecord(data);
    assert f.name[..nl] == NameBytes(f.name);
    res := h.SendData(Packet(tags.recvFile, data[..]));
  }
}
