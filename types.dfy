// Values shared by the command layer of the HP Prime protocol: bytes, status codes,
// command tags, logical packets and file entries.

module PrimeTypes {
  type byte = bv8

  /** The byte holding a number below 256 (the conversion a C assignment to uint8_t performs
      on such a number), counted up one at a time. */
  function ToByte(x: nat): byte
    requires x < 0x100
    decreases x
  {
    if x == 0 then 0 else ToByte(x - 1) + 1
  }

  /** A number below 256 survives the conversion to a byte. */
  lemma {:induction false} ByteOf(x: nat)
    requires x < 0x100
    ensures ToByte(x) as nat == x
    decreases x
  {
    if x > 0 {
      ByteOf(x - 1);
      assert ToByte(x - 1) as nat < 0xFF;
    }
  }

  datatype Option<T> = None | Some(value: T)

  /** The status codes the command layer returns. Transport carries the code reported by the
      transport layer unchanged. */
  datatype Status =
    | Success
    | InvalidHandle
    | InvalidParameter
    | PacketFormat
    | Transport(code: int)

  /** The one-byte command tags of prime_cmd.h. Their values are not part of this model, so
      they are a parameter, and nothing in the model depends on what they are. */
  datatype Tags = Tags(
    checkReady: byte,
    getInfos: byte,
    recvScreen: byte,
    recvFile: byte,
    reqFile: byte,
    recvBackup: byte)

  /** A logical packet: the command it is tagged with, and its payload. */
  datatype Packet = Packet(cmd: byte, data: seq<byte>)

  /** A file or variable entry: its type byte, the bytes of its name buffer (UTF-16 code units,
      NUL-terminated on the sending side) and its contents. */
  datatype Entry = Entry(vtype: byte, name: seq<byte>, data: seq<byte>)

  /** Largest payload length a packet can have: its size field is 32 bits wide. */
  const MaxPayload: int := 0x1_0000_0000 - 1

  /** What the transport delivers to one receive call: a payload, or a failure code. */
  datatype Inbound = Payload(bytes: seq<byte>) | Fault(code: int)
  {
    predicate Valid() {
      match this
        case Payload(bytes) => |bytes| <= MaxPayload
        case Fault(code) => code != 0
    }
  }

  /** The status a receive reports for an inbound item. */
  function InboundStatus(item: Inbound): (r: Status)
    ensures r == Success <==> item.Payload?
  {
    match item
      case Payload(_) => Success
      case Fault(code) => Transport(code)
  }

  /** What a decoder leaves in an output argument: untouched, or written with a value. */
  datatype Out<T> = Untouched | Written(value: T)

  /** The CRC comparison a decoder performs and logs: the value embedded in the payload and
      the value recomputed over it. Unchecked when the payload is too short to carry one. */
  datatype CrcCheck = Unchecked | Checked(embedded: bv16, computed: bv16)
  {
    predicate Matches() {
      Checked? && embedded == computed
    }
  }
}
