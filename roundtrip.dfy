// How the two directions of the file commands fit together: a record built by
// calc_prime_s_send_file, when it comes back as the payload of a receive, is what
// calc_prime_r_recv_file decodes, its CRC checks, and a run of such records closed by an
// end-of-backup packet is what calc_prime_r_recv_backup collects.

module RoundTrip {
  import opened PrimeTypes
  import opened Crc16
  import opened Requests
  import opened Responses
  import opened Backup

  /** An entry calc_prime_s_send_file can send and calc_prime_r_recv_file reads back as a record:
      its name is terminated, the record fits the size field, its data is below the 2 GiB the
      receiving side accepts, and the record is longer than the bare 10-byte header. */
  ghost predicate Sendable(f: Entry) {
    && Terminated(f.name)
    && RecordFits(NameLen(Char16Len(f.name)), |f.data|)
    && |f.data| < 0x8000_0000
    && 0 < NameLen(Char16Len(f.name)) + |f.data|
  }

  /** What the receiving side makes of a sent entry: the type and the data unchanged, and the
      name buffer cut to the name bytes the record carries. */
  function Received(f: Entry): Entry
    requires Terminated(f.name)
  {
    Entry(f.vtype, NameBytes(f.name), f.data)
  }

  /** A sealed record carries the CRC that the receiving side recomputes. */
  lemma SealedCrcChecks(r: seq<byte>)
    requires 11 <= |r| && r[8] == 0 && r[9] == 0
    ensures CheckAt(Seal(r), 8).Matches()
  {
    var p := Seal(r);
    SealPlacesCrc(r);
    assert ZeroPair(p, 8) == p[..8] + [0, 0] + p[10..];
  }

  /** Decoding a record with its fields gives back its type, name and data. */
  lemma DecodeFields(p: seq<byte>, tag: byte, vtype: byte, name: seq<byte>, data: seq<byte>)
    requires HasFields(p, tag, vtype, name, data) && |p| <= MaxPayload
    requires 11 <= |p| && |data| < 0x8000_0000
    ensures DecodeFile(p, true) == Reply(Success, Written(Some(Entry(vtype, name, data))))
  {
    var nl := p[7] as int;
    var size := |p| - 10 - nl;
    assert nl == |name| && size == |data|;
    assert size % 0x1_0000_0000 == size;
    assert DecodeFile(p, true) == Reply(Success, Written(Some(Entry(p[6], p[10..10 + nl], p[10 + nl..]))));
  }

  /** calc_prime_r_recv_file reads back what calc_prime_s_send_file sent, and the CRC matches.
      A name of fewer than 128 code units comes back whole: its code units, without the
      terminator. */
  lemma SendFileRoundTrip(tags: Tags, f: Entry)
    requires Sendable(f)
    ensures |SendFilePayload(tags, f)| <= MaxPayload
    ensures DecodeFile(SendFilePayload(tags, f), true) == Reply(Success, Written(Some(Received(f))))
    ensures FileCheck(SendFilePayload(tags, f)).Matches()
    ensures Char16Len(f.name) < 128 ==> Received(f).name == f.name[..2 * Char16Len(f.name)]
  {
    var name := NameBytes(f.name);
    SendFileLayout(tags, f);
    DecodeFields(SendFilePayload(tags, f), tags.recvFile, f.vtype, name, f.data);
    var r := Record(tags.recvFile, f.vtype, name, f.data);
    RecordLayout(tags.recvFile, f.vtype, name, f.data);
    SealedCrcChecks(r);
  }

  /** A record calc_prime_s_send_file built, with one byte it protects changed on the way, is
      reported as a CRC mismatch: the embedded CRC still is the sender's, and the recomputed
      one differs from it. */
  lemma CorruptedRecordMismatches(tags: Tags, f: Entry, q: seq<byte>, j: nat)
    requires Sendable(f)
    requires |q| == |SendFilePayload(tags, f)|
    requires j < |q| - 6 && j != 8 && j != 9 && q[j] != SendFilePayload(tags, f)[j]
    requires forall i :: 0 <= i < |q| && i != j ==> q[i] == SendFilePayload(tags, f)[i]
    ensures FileCheck(q).Checked? && !FileCheck(q).Matches()
  {
    var p := SendFilePayload(tags, f);
    SendFileRoundTrip(tags, f);
    FileCrcDetects(p, q, j);
    assert p[8] == q[8] && p[9] == q[9];
  }

  /** The CRC of the request calc_prime_s_recv_file sends checks too. */
  lemma RecvFileRequestCrc(tags: Tags, f: Entry)
    requires Terminated(f.name) && 0 < NameLen(Char16Len(f.name))
    ensures FileCheck(RecvFilePayload(tags, f)).Matches()
  {
    var name := NameBytes(f.name);
    var r := Record(tags.reqFile, f.vtype, name, []);
    RecordLayout(tags.reqFile, f.vtype, name, []);
    SealedCrcChecks(r);
  }

  /** A record with neither name nor data is only the 10-byte header, which the receiving side
      takes for a short packet: it is refused unless its tag happens to be 0xF9. */
  lemma BareHeaderRefused(tags: Tags, f: Entry)
    requires Terminated(f.name) && NameLen(Char16Len(f.name)) == 0 && f.data == []
    ensures |SendFilePayload(tags, f)| == 10
    ensures DecodeFile(SendFilePayload(tags, f), true).status == Success <==> tags.recvFile == 0xF9
  {
    SendFileLayout(tags, f);
  }

  /** The packet that ends a backup. */
  const EndOfBackup: seq<byte> := [0xF9]

  /** The end-of-backup packet decodes as a success without an entry. */
  lemma EndOfBackupDecodes()
    ensures DecodeFile(EndOfBackup, true) == Reply(Success, Written(None))
    ensures !Continues(DecodeFile(EndOfBackup, true))
  {
    assert |EndOfBackup| == 1 && EndOfBackup[0] == 0xF9;
  }

  /** The inbox a backup of the given entries produces: one sent record per entry, then the
      end-of-backup packet. */
  ghost function BackupQueue(tags: Tags, files: seq<Entry>): seq<Inbound>
    requires forall i :: 0 <= i < |files| ==> Sendable(files[i])
  {
    seq(|files|, i requires 0 <= i < |files| && Sendable(files[i]) => Payload(SendFilePayload(tags, files[i])))
      + [Payload(EndOfBackup)]
  }

  /** calc_prime_r_recv_backup over such an inbox: success, every entry in the order sent, and
      every packet consumed. */
  lemma {:induction false} BackupRoundTrip(tags: Tags, files: seq<Entry>, fallback: Status)
    requires forall i :: 0 <= i < |files| ==> Sendable(files[i])
    ensures QueueValid(BackupQueue(tags, files))
    ensures Collect(Replies(BackupQueue(tags, files)), fallback)
      == (Success, seq(|files|, i requires 0 <= i < |files| => Received(files[i])), |files| + 1)
  {
    var q := BackupQueue(tags, files);
    var es := seq(|files|, i requires 0 <= i < |files| => Received(files[i]));
    forall i | 0 <= i < |q|
      ensures q[i].Valid()
    {
      if i < |files| {
        SendFileRoundTrip(tags, files[i]);
      }
    }
    var rs := Replies(q);
    forall i | 0 <= i < |es|
      ensures Continues(rs[i]) && rs[i].out.value.value == es[i]
    {
      SendFileRoundTrip(tags, files[i]);
    }
    EndOfBackupDecodes();
    CollectsRecords(rs, fallback, es);
  }
}
