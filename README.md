# HP Prime command layer (libhpcalcs `prime_cmd.c`) in Dafny

This project models the command layer libhpcalcs uses to talk to an HP Prime calculator. It
covers:

- **CRC-16.** `crc16_block` is a table-driven CRC-16/CCITT: polynomial 0x1021, initial value 0,
  most significant bit first. This variant is usually called CRC-16/XMODEM.
- **Request encoders** (`calc_prime_s_*`). Each fills a fresh packet buffer through an advancing
  write pointer. The two file requests then patch a CRC into bytes 8-9.
- **Response decoders** (`calc_prime_r_*`). They check length and marker rules. They zero the
  embedded CRC in place and recompute it; a mismatch is only logged. They slice out a
  screenshot or a file entry.
- **The backup loop** (`calc_prime_r_recv_backup`). It receives file records until a reply
  without an entry or a failure.

The modules follow the source:

- `PrimeTypes` (types.dfy) holds bytes, status codes, the command tags, packets, entries and
  inbound items.
- `Crc16` (crc16.dfy) holds the table, the CRC loop, and a bitwise reference it is proved
  equal to.
- `Transport` (link.dfy) holds the connection a handle stands for. `Link` is a class with an
  outbox of sent packets, the statuses the next sends report, and a queue of what the next
  receives deliver; a receive on an empty queue fails with the code `idle`. `prime_send_data`
  and `prime_recv_data` are not part of this model; this class is what the command layer can
  observe of them.
- `Requests` (requests.dfy) holds `char16_strlen`, the name length, the record layout, and
  every encoder as a method over an `array<bv8>`.
- `Responses` (responses.dfy) holds `read_vtl_pkt` and every decoder. Each decoder is a
  method over the received buffer, proved equal to a pure function of the received item.
- `Backup` (backup.dfy) holds the backup loop. It is a method with a loop, proved equal to
  `Collect`, a function over the replies of the queued items.
- `RoundTrip` (roundtrip.dfy) relates the two directions. A record `calc_prime_s_send_file`
  builds decodes back to its entry, and its CRC checks. A backup of k such records followed by
  an end-of-backup packet gives exactly those k entries, in order.

The command tag values are defined in `prime_cmd.h`, which is not part of this model. They are
a parameter `Tags` of six bytes, and no property proved here depends on their values.
A NULL pointer is a `null` handle, a `None` entry, or a `want` flag saying whether the output
pointers are given. What a decoder leaves in an output argument is an `Out<T>`: `Untouched`,
or `Written(value)`, where `Written(None)` is a NULL written through `out_file`.

## Model

| member | source | states |
|---|---|---|
| Crc16.Crc16Block | libhpcalcs/src/prime_cmd.c:77-82 | the loop over `len` bytes through the advancing buffer pointer returns `Crc` of the first `len` bytes: each byte applies `table[(crc >> 8) ^ b] ^ (crc << 8)` to 16 bits, starting from 0 |
| Crc16.StepMatchesBitwise | libhpcalcs/src/prime_cmd.c:43-80 | one table-driven step equals eight MSB-first shift-and-xor steps with polynomial 0x1021, for every register value and byte |
| Crc16.TableMatchesBitwise | libhpcalcs/src/prime_cmd.c:43-76 | every one of the 256 table entries is the bitwise CRC of its index placed in the high byte |
| Crc16.CrcMatchesBitwise | libhpcalcs/src/prime_cmd.c:42-83 | `crc16_block` computes the bitwise CRC-16/CCITT (XMODEM) of its whole input |
| Crc16.CrcOfZeroBytes | libhpcalcs/src/prime_cmd.c:77-82 | any run of zero bytes, the empty one included, has CRC 0 |
| Crc16.Shift8Injective | libhpcalcs/src/prime_cmd.c:43-80 | the bitwise update loses no information: different registers stay different after eight steps of polynomial 0x1021 |
| Crc16.BitwiseDetectsByteError | libhpcalcs/src/prime_cmd.c:77-82 | two buffers of the same length differing in exactly one byte have different bitwise CRCs |
| Crc16.CrcDetectsByteError | libhpcalcs/src/prime_cmd.c:42-83 | `crc16_block` gives different values for two buffers of the same length that differ in exactly one byte, wherever it lies |
| PrimeTypes.InboundStatus | libhpcalcs/src/prime_cmd.c:91-109 | a receive succeeds exactly when a payload arrives; otherwise the transport's failure code is the status |
| Requests.Char16Len | libhpcalcs/src/prime_cmd.c:119-126 | the number of code units before the first zero unit: that unit is zero and none before it is |
| Requests.Char16Strlen | libhpcalcs/src/prime_cmd.c:119-126 | the while loop that advances over non-zero code units returns `Char16Len` of the name |
| Requests.NameLen | libhpcalcs/src/prime_cmd.c:338 | the name length byte is even and below 256, and is twice the unit count whenever that count is below 128 |
| Requests.NameLenWraps | libhpcalcs/src/prime_cmd.c:338 | the cast to `uint8_t` before the doubling, and the store into `uint8_t` after it, make the name length `2 * (units mod 128)` |
| Requests.NameBytes | libhpcalcs/src/prime_cmd.c:360 | the name bytes copied are `NameLen` bytes of the buffer; under 128 units they hold no zero unit |
| Requests.BE32RoundTrip | libhpcalcs/src/prime_cmd.c:352-355 | the four size bytes, most significant first, read back as the size written |
| Requests.LE16RoundTrip | libhpcalcs/src/prime_cmd.c:364-365 | the two CRC bytes, low byte first, read back as the CRC |
| Requests.RecordLayout | libhpcalcs/src/prime_cmd.c:338-362 | a record is exactly: tag, 0x01, the size `4 + namelen + datalen` big-endian, type, name length, zero bytes 8-9, then name bytes and data |
| Requests.SendFilePayload | libhpcalcs/src/prime_cmd.c:338-365 | the payload `calc_prime_s_send_file` sends is `10 + namelen + datalen` bytes long and starts with `RECV_FILE`, 0x01, and has the entry's type at byte 6; its full layout is `SendFileLayout` |
| Requests.RecvFilePayload | libhpcalcs/src/prime_cmd.c:399-423 | the payload `calc_prime_s_recv_file` sends is `10 + namelen` bytes long and starts with `REQ_FILE`, 0x01, and has the entry's type at byte 6; its full layout is `RecvFileLayout` |
| Requests.SameFieldsOutsideCrc | libhpcalcs/src/prime_cmd.c:350-362 | every field of the record lies outside bytes 8-9 |
| Requests.PlaceKeepsFields | libhpcalcs/src/prime_cmd.c:364-365 | patching the CRC into bytes 8-9 keeps every field |
| Requests.SealedFields | libhpcalcs/src/prime_cmd.c:338-365 | the sealed record still has every field it was built from |
| Requests.SendFileLayout | libhpcalcs/src/prime_cmd.c:338-365 | the `calc_prime_s_send_file` payload has length `10 + namelen + datalen` and the layout above, with tag `CMD_PRIME_RECV_FILE` |
| Requests.RecvFileLayout | libhpcalcs/src/prime_cmd.c:399-423 | the `calc_prime_s_recv_file` payload has the same header, with tag `CMD_PRIME_REQ_FILE`, the name and no data |
| Requests.SealPlacesCrc | libhpcalcs/src/prime_cmd.c:363-365 | bytes 8-9 of a sealed record hold, low byte first, the CRC of its first `length - 6` bytes taken with bytes 8-9 zero; all other bytes are unchanged |
| Requests.SealIgnoresTail | libhpcalcs/src/prime_cmd.c:363 | records that differ only in their last 6 bytes get the same CRC |
| Requests.CopyBytes | libhpcalcs/src/prime_cmd.c:360-362 | `memcpy` of `n` bytes to offset `at`: those bytes become the source's, every other byte is unchanged |
| Requests.SendCheckReady | libhpcalcs/src/prime_cmd.c:128-153 | a NULL handle gives `ERR_INVALID_HANDLE`; otherwise exactly one packet `CHECK_READY, [CHECK_READY, 0]` is sent, the send's status is returned, and nothing queued for receiving changes |
| Requests.SendGetInfos | libhpcalcs/src/prime_cmd.c:187-212 | the same, with `GET_INFOS` |
| Requests.SendRecvScreen | libhpcalcs/src/prime_cmd.c:246-272 | the same, with the 3-byte payload `[RECV_SCREEN, format, 0]` |
| Requests.SendRecvBackup | libhpcalcs/src/prime_cmd.c:515-540 | the same, with the packet command `RECV_FILE` and payload `[RECV_BACKUP, 0]` |
| Requests.WriteHeader | libhpcalcs/src/prime_cmd.c:350-359 | the ten header writes through the pointer set bytes 0-9 and leave the pointer at 10 |
| Requests.PatchCrc | libhpcalcs/src/prime_cmd.c:363-365 | computes the CRC of the first `size` bytes and stores it, low byte first, at bytes 8-9 |
| Requests.StartRecord | libhpcalcs/src/prime_cmd.c:338-361 | allocates `10 + namelen + extra` zero bytes; writes the header, whose size field counts the bytes after it; copies `namelen` name bytes; leaves the pointer after them |
| Requests.RecordOfPrefix | libhpcalcs/src/prime_cmd.c:338-362 | the record of the first `namelen` name bytes is the header for that length, then those bytes, then the data |
| Requests.BuildRecord | libhpcalcs/src/prime_cmd.c:338-362 | the buffer holds exactly the record of the type, the name bytes and the data |
| Requests.SealRecord | libhpcalcs/src/prime_cmd.c:363-365 | patching the CRC of all but the last 6 bytes seals the record |
| Requests.SendFile | libhpcalcs/src/prime_cmd.c:335-380 | a NULL handle or file gives `ERR_INVALID_PARAMETER`; otherwise exactly the sealed record is sent under `RECV_FILE` and the send's status is returned |
| Requests.SendRecvFile | libhpcalcs/src/prime_cmd.c:396-438 | a NULL handle or file gives `ERR_INVALID_PARAMETER`; otherwise exactly the sealed name-only record is sent, still under packet command `RECV_FILE` |
| Responses.ReadPacket | libhpcalcs/src/prime_cmd.c:85-116 | pops one inbound item; a packet is returned exactly on success and holds the payload; the status is the receive also on failure |
| Responses.RawResponse | libhpcalcs/src/prime_cmd.c:159-174 | the status is the receive's; the payload is copied out exactly when it arrived and both output pointers are given |
| Responses.RecvCheckReady | libhpcalcs/src/prime_cmd.c:155-185 | NULL handle: `ERR_INVALID_HANDLE`; otherwise one receive, and the reply is `RawResponse` of what arrived |
| Responses.RecvGetInfos | libhpcalcs/src/prime_cmd.c:214-244 | the same, with `infos` as the output |
| Responses.RecvSendFile | libhpcalcs/src/prime_cmd.c:382-393 | one `calc_prime_r_check_ready` with no outputs; its status is returned |
| Responses.DecodeScreen | libhpcalcs/src/prime_cmd.c:280-319 | success exactly when the payload is longer than 13 bytes and bytes 8-12 are `[format, FF, FF, FF, FF]`, else `ERR_CALC_PACKET_FORMAT`; the image `data[13..]` is written exactly on success with outputs given |
| Responses.ScreenCheck | libhpcalcs/src/prime_cmd.c:280-288 | the screenshot CRC is compared exactly when the payload is longer than 13 bytes |
| Responses.ScreenCrcNonFatal | libhpcalcs/src/prime_cmd.c:284-293 | the reply does not depend on the CRC bytes 6-7, so a CRC mismatch never changes it |
| Responses.ScreenTailUnprotected | libhpcalcs/src/prime_cmd.c:288 | payloads that differ only in bytes 6-7 and the last 6 bytes recompute the same CRC |
| Responses.ScreenCrcDetects | libhpcalcs/src/prime_cmd.c:284-288 | changing one byte of a screenshot reply outside bytes 6-7 and the last 6 bytes changes the CRC recomputed over it |
| Responses.CheckCrcInPlace | libhpcalcs/src/prime_cmd.c:451-456 | reads the embedded CRC low byte first, zeroes its two bytes in the buffer, and recomputes the CRC over all but the last 6 bytes |
| Responses.DecodeScreenInPlace | libhpcalcs/src/prime_cmd.c:280-319 | the in-place steps on the packet give the `DecodeScreen` reply and the CRC comparison |
| Responses.RecvScreen | libhpcalcs/src/prime_cmd.c:274-332 | NULL handle: `ERR_INVALID_HANDLE`; a failed receive gives its status and writes nothing; otherwise `DecodeScreen` of the payload |
| Responses.DecodeFile | libhpcalcs/src/prime_cmd.c:447-500 | at 11 bytes or more: success exactly when no output is wanted or `10 + data[7] <= size < 10 + data[7] + 2^31`; the entry is type `data[6]`, name `data[10..10+data[7])`, data `data[10+data[7]..]`; otherwise NULL with `ERR_CALC_PACKET_FORMAT`. Shorter: success with NULL exactly when byte 0 is 0xF9 |
| Responses.DecodeFileReading | libhpcalcs/src/prime_cmd.c:447-500 | the decoder as written, given the byte the short-packet test reads: it either succeeds or reports `ERR_CALC_PACKET_FORMAT`. Below 11 bytes it succeeds exactly when that byte is 0xF9. From 11 bytes it succeeds exactly when no output is wanted or the name fits and the data is under 2^31 bytes. An entry is written only from 11 bytes on, and it is the type, name and data slices |
| Responses.DecodeFileAsWritten | libhpcalcs/src/prime_cmd.c:488-490 | on an empty payload the outcome is decided by the byte past its end: success exactly when that byte is 0xF9; on any other short payload, exactly when its byte 0 is 0xF9 |
| Responses.DecodeFileAgrees | libhpcalcs/src/prime_cmd.c:486-497 | except on an empty payload, the corrected decoder is the decoder as written |
| Responses.EmptyFileReplyReadsPastEnd | libhpcalcs/src/prime_cmd.c:488-490 | on an empty payload the reply as written depends on the byte past its end |
| Responses.FileCheck | libhpcalcs/src/prime_cmd.c:447-458 | the CRC is compared exactly when the payload has at least 11 bytes |
| Responses.FileCrcNonFatal | libhpcalcs/src/prime_cmd.c:451-462 | the reply does not depend on bytes 8-9, so a CRC mismatch never changes the status or the entry |
| Responses.FileTailUnprotected | libhpcalcs/src/prime_cmd.c:455 | payloads that differ only in bytes 8-9 and the last 6 bytes recompute the same CRC |
| Responses.FileCrcDetects | libhpcalcs/src/prime_cmd.c:451-456 | changing one byte of a file reply outside bytes 8-9 and the last 6 bytes changes the CRC recomputed over it |
| Responses.ExtractEntry | libhpcalcs/src/prime_cmd.c:464-486 | the slicing of the entry out of a packet of 11 bytes or more gives the `DecodeFile` reply |
| Responses.DecodeFileInPlace | libhpcalcs/src/prime_cmd.c:447-500 | the in-place steps on the packet give the `DecodeFile` reply of the original payload and the CRC comparison |
| Responses.RecvFile | libhpcalcs/src/prime_cmd.c:440-513 | NULL handle: `ERR_INVALID_HANDLE`; one receive; a failed receive gives its status and writes nothing; otherwise `DecodeFile` of the payload |
| Backup.Collect | libhpcalcs/src/prime_cmd.c:548-583 | the `for(;;)` loop over the replies consumes at most as many receives as there are replies; what it returns is stated by `CollectShape` and the lemmas after it (see the `Backup.Collect` line under Left out) |
| Backup.CollectShape | libhpcalcs/src/prime_cmd.c:548-583 | the loop keeps the entries of the leading replies that carry one, in order; the first reply without an entry ends it and gives the status, and otherwise the transport failure once the queue is empty does |
| Backup.CollectStep | libhpcalcs/src/prime_cmd.c:551-555 | a reply with an entry appends that entry and goes on |
| Backup.CollectCount | libhpcalcs/src/prime_cmd.c:548-583 | the entries returned are exactly the leading entries, with the status and the number of receives consumed |
| Backup.CollectsRecords | libhpcalcs/src/prime_cmd.c:573-576 | k records followed by a success without an entry: `ERR_SUCCESS`, exactly those k entries in receipt order, and k + 1 receives |
| Backup.StopsAtFailure | libhpcalcs/src/prime_cmd.c:579-582 | the first failing receive ends the loop and its status is returned unchanged, with the entries received before it |
| Backup.RunsDry | libhpcalcs/src/prime_cmd.c:548-583 | when every queued reply carries an entry, the receive after them fails with the transport's code, which is returned |
| Backup.NextReply | libhpcalcs/src/prime_cmd.c:549 | one call of `calc_prime_r_recv_file` consumes one queued item and gives its reply |
| Backup.RecvBackup | libhpcalcs/src/prime_cmd.c:542-595 | NULL handle: `ERR_INVALID_PARAMETER`; otherwise the status and entries are `Collect` of the replies; `*out_vars` is written only once an entry arrived; exactly the receives it made are consumed |
| RoundTrip.SealedCrcChecks | libhpcalcs/src/prime_cmd.c:451-456 | the CRC the encoder seals a record with is the CRC the decoder recomputes |
| RoundTrip.DecodeFields | libhpcalcs/src/prime_cmd.c:464-470 | a payload with a record's fields decodes to exactly that type, name and data |
| RoundTrip.SendFileRoundTrip | libhpcalcs/src/prime_cmd.c:335-481 | a record built by `calc_prime_s_send_file` and read back by `calc_prime_r_recv_file` gives success, a matching CRC, and the same type, name bytes and data; under 128 units the name comes back whole |
| RoundTrip.CorruptedRecordMismatches | libhpcalcs/src/prime_cmd.c:363-365 | a record built by `calc_prime_s_send_file` with one protected byte changed on the way is checked and reported as a CRC mismatch by `calc_prime_r_recv_file` |
| RoundTrip.RecvFileRequestCrc | libhpcalcs/src/prime_cmd.c:418-423 | the CRC of a non-empty-name request of `calc_prime_s_recv_file` checks |
| RoundTrip.BareHeaderRefused | libhpcalcs/src/prime_cmd.c:488-491 | a record with neither name nor data is 10 bytes long, and the receiving side refuses it unless its tag is 0xF9 |
| RoundTrip.EndOfBackupDecodes | libhpcalcs/src/prime_cmd.c:488-497 | the lone 0xF9 packet decodes as a success without an entry, which ends a backup |
| RoundTrip.BackupRoundTrip | libhpcalcs/src/prime_cmd.c:548-583 | a backup of k sendable entries gives `ERR_SUCCESS`, exactly the k entries read back in the order sent, and consumes all k + 1 packets |

## Left out

- Allocation failures are not modelled. The model is deterministic, so it never returns
  `ERR_MALLOC`. `prime_vtl_pkt_new` is taken to zero-fill, so the byte after the tag of the
  small requests is 0. `hpfiles_ve_create_with_data`, `hpfiles_ve_resize_array` and the
  array's NULL terminator are not modelled; a backup's entries are a sequence.
- All `hpcalcs_*` logging is left out. That includes the command-echo check in `read_vtl_pkt`,
  which only logs. The CRC comparison the decoders log is returned as a `CrcCheck` value.
- The USB/HID transport is left out. `prime_send_data` and `prime_recv_data` become the `Link`
  outbox and inbound queue.
- Memory ownership is left out: the packets freed, the entry array not freed after a receive
  error, and `entries[count]` pointing into the array. Only what `*out_vars` and the status
  end up holding is modelled.
- Names are opaque byte pairs. A code unit is zero exactly when both of its bytes are zero,
  whatever the host byte order of `char16_t`. The capacity of the name buffer of a
  `files_var_entry` is not modelled, so the copied name is just the name bytes.
- `calc_screenshot_format` is a byte. The source truncates it to `uint8_t` both when it writes
  it and when it compares it.
- Responses.RecvFile: on an empty payload it follows the corrected decoder `DecodeFile` and
  refuses the reply with `ERR_CALC_PACKET_FORMAT`. The source instead reads the byte past the
  end (see Findings). `DecodeFileInPlace` and `RecvBackup` follow it in the same way.
- Requests.Char16Strlen: the `uint32_t` counter is not wrapped, since a name of 2^32 code
  units cannot be in memory.
- Requests.SendFile: its caller must keep `10 + namelen + size` within 32 bits
  (`RecordFits`). The source's `uint32_t size` would wrap past that, and the model does not
  follow the wrap.
- Backup.Collect: its own contract only bounds the number of receives consumed. What it
  computes is stated by `CollectShape` and the lemmas after it.

Where the code and the protocol description differ, the model follows the code:

- The small requests are 2 bytes long (3 for the screen request), with a trailing zero. They
  are not the bare tag.
- The CRC does not cover the last 6 bytes of a packet.
- `*out_vars` is left untouched when no entry arrives.
- A 10-byte record with neither name nor data is refused as a short packet.
- A file payload whose data part has 2^31 bytes or more is refused, because the source tests
  bit 31 of the 32-bit size.

## Findings

| source | as written | input that shows it | evidently intended | confidence | as-written member | corrected member |
|---|---|---|---|---|---|---|
| libhpcalcs/src/prime_cmd.c:488-490 | the short-packet branch of `calc_prime_r_recv_file` reads `pkt->data[0]` even when the payload is empty, so the reply depends on whatever byte lies past the end | an empty payload: with 0xF9 behind it the reply is success with no entry, with 0x00 it is `ERR_CALC_PACKET_FORMAT` (`EmptyFileReplyReadsPastEnd`) | an empty payload is a short packet without the end-of-backup marker, so `ERR_CALC_PACKET_FORMAT` | not executed | Responses.DecodeFileAsWritten | Responses.DecodeFile |
