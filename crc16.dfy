// CRC-16 over byte buffers, as computed by crc16_block in prime_cmd.c:
// polynomial 0x1021 (CCITT), initial value 0, most significant bit first
// (the variant usually called CRC-16/XMODEM), driven by a 256-entry table.

module Crc16 {
  import opened PrimeTypes

  /** The 256-entry lookup table of crc16_block, eight entries per row as in the source. */
  const Table: seq<bv16> :=
      ([0x0000, 0x1021, 0x2042, 0x3063, 0x4084, 0x50a5, 0x60c6, 0x70e7]
     + [0x8108, 0x9129, 0xa14a, 0xb16b, 0xc18c, 0xd1ad, 0xe1ce, 0xf1ef]
     + [0x1231, 0x0210, 0x3273, 0x2252, 0x52b5, 0x4294, 0x72f7, 0x62d6]
     + [0x9339, 0x8318, 0xb37b, 0xa35a, 0xd3bd, 0xc39c, 0xf3ff, 0xe3de]
     + [0x2462, 0x3443, 0x0420, 0x1401, 0x64e6, 0x74c7, 0x44a4, 0x5485]
     + [0xa56a, 0xb54b, 0x8528, 0x9509, 0xe5ee, 0xf5cf, 0xc5ac, 0xd58d]
     + [0x3653, 0x2672, 0x1611, 0x0630, 0x76d7, 0x66f6, 0x5695, 0x46b4]
     + [0xb75b, 0xa77a, 0x9719, 0x8738, 0xf7df, 0xe7fe, 0xd79d, 0xc7bc])
    + ([0x48c4, 0x58e5, 0x6886, 0x78a7, 0x0840, 0x1861, 0x2802, 0x3823]
     + [0xc9cc, 0xd9ed, 0xe98e, 0xf9af, 0x8948, 0x9969, 0xa90a, 0xb92b]
     + [0x5af5, 0x4ad4, 0x7ab7, 0x6a96, 0x1a71, 0x0a50, 0x3a33, 0x2a12]
     + [0xdbfd, 0xcbdc, 0xfbbf, 0xeb9e, 0x9b79, 0x8b58, 0xbb3b, 0xab1a]
     + [0x6ca6, 0x7c87, 0x4ce4, 0x5cc5, 0x2c22, 0x3c03, 0x0c60, 0x1c41]
     + [0xedae, 0xfd8f, 0xcdec, 0xddcd, 0xad2a, 0xbd0b, 0x8d68, 0x9d49]
     + [0x7e97, 0x6eb6, 0x5ed5, 0x4ef4, 0x3e13, 0x2e32, 0x1e51, 0x0e70]
     + [0xff9f, 0xefbe, 0xdfdd, 0xcffc, 0xbf1b, 0xaf3a, 0x9f59, 0x8f78])
    + ([0x9188, 0x81a9, 0xb1ca, 0xa1eb, 0xd10c, 0xc12d, 0xf14e, 0xe16f]
     + [0x1080, 0x00a1, 0x30c2, 0x20e3, 0x5004, 0x4025, 0x7046, 0x6067]
     + [0x83b9, 0x9398, 0xa3fb, 0xb3da, 0xc33d, 0xd31c, 0xe37f, 0xf35e]
     + [0x02b1, 0x1290, 0x22f3, 0x32d2, 0x4235, 0x5214, 0x6277, 0x7256]
     + [0xb5ea, 0xa5cb, 0x95a8, 0x8589, 0xf56e, 0xe54f, 0xd52c, 0xc50d]
     + [0x34e2, 0x24c3, 0x14a0, 0x0481, 0x7466, 0x6447, 0x5424, 0x4405]
     + [0xa7db, 0xb7fa, 0x8799, 0x97b8, 0xe75f, 0xf77e, 0xc71d, 0xd73c]
     + [0x26d3, 0x36f2, 0x0691, 0x16b0, 0x6657, 0x7676, 0x4615, 0x5634])
    + ([0xd94c, 0xc96d, 0xf90e, 0xe92f, 0x99c8, 0x89e9, 0xb98a, 0xa9ab]
     + [0x5844, 0x4865, 0x7806, 0x6827, 0x18c0, 0x08e1, 0x3882, 0x28a3]
     + [0xcb7d, 0xdb5c, 0xeb3f, 0xfb1e, 0x8bf9, 0x9bd8, 0xabbb, 0xbb9a]
     + [0x4a75, 0x5a54, 0x6a37, 0x7a16, 0x0af1, 0x1ad0, 0x2ab3, 0x3a92]
     + [0xfd2e, 0xed0f, 0xdd6c, 0xcd4d, 0xbdaa, 0xad8b, 0x9de8, 0x8dc9]
     + [0x7c26, 0x6c07, 0x5c64, 0x4c45, 0x3ca2, 0x2c83, 0x1ce0, 0x0cc1]
     + [0xef1f, 0xff3e, 0xcf5d, 0xdf7c, 0xaf9b, 0xbfba, 0x8fd9, 0x9ff8]
     + [0x6e17, 0x7e36, 0x4e55, 0x5e74, 0x2e93, 0x3eb2, 0x0ed1, 0x1ef0])

  /** One table-driven update of the running value: crc = table[(crc >> 8) ^ b] ^ (crc << 8),
      kept to 16 bits. */
  function Step(crc: bv16, b: byte): bv16 {
    Table[(((crc >> 8) as byte) ^ b) as int] ^ (crc << 8)
  }

  /** The CRC of a whole buffer: the steps applied to its bytes in order, starting from 0. */
  function Crc(s: seq<byte>): bv16
    decreases |s|
  {
    if s == [] then 0 else Step(Crc(s[..|s| - 1]), s[|s| - 1])
  }

  /** crc16_block(buffer, len): the loop that consumes len bytes through an advancing pointer. */
  method Crc16Block(buffer: array<byte>, len: nat) returns (crc: bv16)
    requires len <= buffer.Length
    ensures crc == Crc(buffer[..len])
  {
    crc := 0;
    var next := 0;       // offset of the byte the buffer pointer designates
    var left := len;     // the len counter of the source, decremented once per byte
    while left > 0
      invariant next + left == len
      invariant crc == Crc(buffer[..next])
      decreases left
    {
      assert buffer[..next + 1][..next] == buffer[..next];
      crc := Step(crc, buffer[next]);
      next := next + 1;
      left := left - 1;
    }
  }

  /** Zero bytes leave the CRC at its initial value 0, however many there are. */
  lemma {:induction false} CrcOfZeroBytes(z: seq<byte>)
    requires forall i :: 0 <= i < |z| ==> z[i] == 0
    ensures Crc(z) == 0
    decreases |z|
  {
    if z != [] {
      var init := z[..|z| - 1];
      assert forall i :: 0 <= i < |init| ==> init[i] == z[i];
      CrcOfZeroBytes(init);
      StepMatchesBitwise(0, z[|z| - 1]);
    }
  }

  // ---------------------------------------------------------------------------
  // A table-free reference: the textbook bit-by-bit CRC-16/CCITT, MSB first.

  /** Shift the register left by one bit and fold in the polynomial x^16 + x^12 + x^5 + 1
      (0x1021) when the bit shifted out, top, was set. */
  function BitStep(x: bv16): bv16 {
    var top := x >> 15;
    (x << 1) ^ (top << 12) ^ (top << 5) ^ top
  }

  /** The same single-bit step as it is usually written, with a test of the top bit. */
  lemma BitStepTestsTopBit(x: bv16)
    ensures x & 0x8000 != 0 ==> BitStep(x) == (x << 1) ^ 0x1021
    ensures x & 0x8000 == 0 ==> BitStep(x) == x << 1
  {
  }

  /** Eight single-bit steps: one byte's worth of the bitwise algorithm. */
  function Shift8(x: bv16): bv16 {
    BitStep(BitStep(BitStep(BitStep(BitStep(BitStep(BitStep(BitStep(x))))))))
  }

  /** The bitwise update: xor the byte into the top of the register, then eight single-bit steps. */
  function BitwiseStep(crc: bv16, b: byte): bv16 {
    Shift8(crc ^ ((b as bv16) << 8))
  }

  /** The bitwise CRC of a whole buffer, folded in the same order as Crc. */
  function BitwiseCrc(s: seq<byte>): bv16
    decreases |s|
  {
    if s == [] then 0 else BitwiseStep(BitwiseCrc(s[..|s| - 1]), s[|s| - 1])
  }

  // One table step equals one bitwise step. The proof is a case analysis on the table index,
  // eight values at a time: once the index is fixed, the high byte of the bitwise register is
  // known and the remaining bits only pass through.

  lemma StepBlock0(crc: bv16, b: byte)
    requires 0 <= (((crc >> 8) as byte) ^ b) as int < 8
    ensures Step(crc, b) == BitwiseStep(crc, b)
  {
    match ((crc >> 8) as byte) ^ b
      case 0 => case 1 => case 2 => case 3 => case 4 => case 5 => case 6 => case 7 =>
  }

  lemma StepBlock1(crc: bv16, b: byte)
    requires 8 <= (((crc >> 8) as byte) ^ b) as int < 16
    ensures Step(crc, b) == BitwiseStep(crc, b)
  {
    match ((crc >> 8) as byte) ^ b
      case 8 => case 9 => case 10 => case 11 => case 12 => case 13 => case 14 => case 15 =>
  }

  lemma StepBlock2(crc: bv16, b: byte)
    requires 16 <= (((crc >> 8) as byte) ^ b) as int < 24
    ensures Step(crc, b) == BitwiseStep(crc, b)
  {
    match ((crc >> 8) as byte) ^ b
      case 16 => case 17 => case 18 => case 19 => case 20 => case 21 => case 22 => case 23 =>
  }

  lemma StepBlock3(crc: bv16, b: byte)
    requires 24 <= (((crc >> 8) as byte) ^ b) as int < 32
    ensures Step(crc, b) == BitwiseStep(crc, b)
  {
    match ((crc >> 8) as byte) ^ b
      case 24 => case 25 => case 26 => case 27 => case 28 => case 29 => case 30 => case 31 =>
  }

  lemma StepBlock4(crc: bv16, b: byte)
    requires 32 <= (((crc >> 8) as byte) ^ b) as int < 40
    ensures Step(crc, b) == BitwiseStep(crc, b)
  {
    match ((crc >> 8) as byte) ^ b
      case 32 => case 33 => case 34 => case 35 => case 36 => case 37 => case 38 => case 39 =>
  }

  lemma StepBlock5(crc: bv16, b: byte)
    requires 40 <= (((crc >> 8) as byte) ^ b) as int < 48
    ensures Step(crc, b) == BitwiseStep(crc, b)
  {
    match ((crc >> 8) as byte) ^ b
      case 40 => case 41 => case 42 => case 43 => case 44 => case 45 => case 46 => case 47 =>
  }

  lemma StepBlock6(crc: bv16, b: byte)
    requires 48 <= (((crc >> 8) as byte) ^ b) as int < 56
    ensures Step(crc, b) == BitwiseStep(crc, b)
  {
    match ((crc >> 8) as byte) ^ b
      case 48 => case 49 => case 50 => case 51 => case 52 => case 53 => case 54 => case 55 =>
  }

  lemma StepBlock7(crc: bv16, b: byte)
    requires 56 <= (((crc >> 8) as byte) ^ b) as int < 64
    ensures Step(crc, b) == BitwiseStep(crc, b)
  {
    match ((crc >> 8) as byte) ^ b
      case 56 => case 57 => case 58 => case 59 => case 60 => case 61 => case 62 => case 63 =>
  }

  lemma StepBlock8(crc: bv16, b: byte)
    requires 64 <= (((crc >> 8) as byte) ^ b) as int < 72
    ensures Step(crc, b) == BitwiseStep(crc, b)
  {
    match ((crc >> 8) as byte) ^ b
      case 64 => case 65 => case 66 => case 67 => case 68 => case 69 => case 70 => case 71 =>
  }

  lemma StepBlock9(crc: bv16, b: byte)
    requires 72 <= (((crc >> 8) as byte) ^ b) as int < 80
    ensures Step(crc, b) == BitwiseStep(crc, b)
  {
    match ((crc >> 8) as byte) ^ b
      case 72 => case 73 => case 74 => case 75 => case 76 => case 77 => case 78 => case 79 =>
  }

  lemma StepBlock10(crc: bv16, b: byte)
    requires 80 <= (((crc >> 8) as byte) ^ b) as int < 88
    ensures Step(crc, b) == BitwiseStep(crc, b)
  {
    match ((crc >> 8) as byte) ^ b
      case 80 => case 81 => case 82 => case 83 => case 84 => case 85 => case 86 => case 87 =>
  }

  lemma StepBlock11(crc: bv16, b: byte)
    requires 88 <= (((crc >> 8) as byte) ^ b) as int < 96
    ensures Step(crc, b) == BitwiseStep(crc, b)
  {
    match ((crc >> 8) as byte) ^ b
      case 88 => case 89 => case 90 => case 91 => case 92 => case 93 => case 94 => case 95 =>
  }

  lemma StepBlock12(crc: bv16, b: byte)
    requires 96 <= (((crc >> 8) as byte) ^ b) as int < 104
    ensures Step(crc, b) == BitwiseStep(crc, b)
  {
    match ((crc >> 8) as byte) ^ b
      case 96 => case 97 => case 98 => case 99 => case 100 => case 101 => case 102 => case 103 =>
  }

  lemma StepBlock13(crc: bv16, b: byte)
    requires 104 <= (((crc >> 8) as byte) ^ b) as int < 112
    ensures Step(crc, b) == BitwiseStep(crc, b)
  {
    match ((crc >> 8) as byte) ^ b
      case 104 => case 105 => case 106 => case 107 => case 108 => case 109 => case 110 => case 111 =>
  }

  lemma StepBlock14(crc: bv16, b: byte)
    requires 112 <= (((crc >> 8) as byte) ^ b) as int < 120
    ensures Step(crc, b) == BitwiseStep(crc, b)
  {
    match ((crc >> 8) as byte) ^ b
      case 112 => case 113 => case 114 => case 115 => case 116 => case 117 => case 118 => case 119 =>
  }

  lemma StepBlock15(crc: bv16, b: byte)
    requires 120 <= (((crc >> 8) as byte) ^ b) as int < 128
    ensures Step(crc, b) == BitwiseStep(crc, b)
  {
    match ((crc >> 8) as byte) ^ b
      case 120 => case 121 => case 122 => case 123 => case 124 => case 125 => case 126 => case 127 =>
  }

  lemma StepBlock16(crc: bv16, b: byte)
    requires 128 <= (((crc >> 8) as byte) ^ b) as int < 136
    ensures Step(crc, b) == BitwiseStep(crc, b)
  {
    match ((crc >> 8) as byte) ^ b
      case 128 => case 129 => case 130 => case 131 => case 132 => case 133 => case 134 => case 135 =>
  }

  lemma StepBlock17(crc: bv16, b: byte)
    requires 136 <= (((crc >> 8) as byte) ^ b) as int < 144
    ensures Step(crc, b) == BitwiseStep(crc, b)
  {
    match ((crc >> 8) as byte) ^ b
      case 136 => case 137 => case 138 => case 139 => case 140 => case 141 => case 142 => case 143 =>
  }

  lemma StepBlock18(crc: bv16, b: byte)
    requires 144 <= (((crc >> 8) as byte) ^ b) as int < 152
    ensures Step(crc, b) == BitwiseStep(crc, b)
  {
    match ((crc >> 8) as byte) ^ b
      case 144 => case 145 => case 146 => case 147 => case 148 => case 149 => case 150 => case 151 =>
  }

  lemma StepBlock19(crc: bv16, b: byte)
    requires 152 <= (((crc >> 8) as byte) ^ b) as int < 160
    ensures Step(crc, b) == BitwiseStep(crc, b)
  {
    match ((crc >> 8) as byte) ^ b
      case 152 => case 153 => case 154 => case 155 => case 156 => case 157 => case 158 => case 159 =>
  }

  lemma StepBlock20(crc: bv16, b: byte)
    requires 160 <= (((crc >> 8) as byte) ^ b) as int < 168
    ensures Step(crc, b) == BitwiseStep(crc, b)
  {
    match ((crc >> 8) as byte) ^ b
      case 160 => case 161 => case 162 => case 163 => case 164 => case 165 => case 166 => case 167 =>
  }

  lemma StepBlock21(crc: bv16, b: byte)
    requires 168 <= (((crc >> 8) as byte) ^ b) as int < 176
    ensures Step(crc, b) == BitwiseStep(crc, b)
  {
    match ((crc >> 8) as byte) ^ b
      case 168 => case 169 => case 170 => case 171 => case 172 => case 173 => case 174 => case 175 =>
  }

  lemma StepBlock22(crc: bv16, b: byte)
    requires 176 <= (((crc >> 8) as byte) ^ b) as int < 184
    ensures Step(crc, b) == BitwiseStep(crc, b)
  {
    match ((crc >> 8) as byte) ^ b
      case 176 => case 177 => case 178 => case 179 => case 180 => case 181 => case 182 => case 183 =>
  }

  lemma StepBlock23(crc: bv16, b: byte)
    requires 184 <= (((crc >> 8) as byte) ^ b) as int < 192
    ensures Step(crc, b) == BitwiseStep(crc, b)
  {
    match ((crc >> 8) as byte) ^ b
      case 184 => case 185 => case 186 => case 187 => case 188 => case 189 => case 190 => case 191 =>
  }

  lemma StepBlock24(crc: bv16, b: byte)
    requires 192 <= (((crc >> 8) as byte) ^ b) as int < 200
    ensures Step(crc, b) == BitwiseStep(crc, b)
  {
    match ((crc >> 8) as byte) ^ b
      case 192 => case 193 => case 194 => case 195 => case 196 => case 197 => case 198 => case 199 =>
  }

  lemma StepBlock25(crc: bv16, b: byte)
    requires 200 <= (((crc >> 8) as byte) ^ b) as int < 208
    ensures Step(crc, b) == BitwiseStep(crc, b)
  {
    match ((crc >> 8) as byte) ^ b
      case 200 => case 201 => case 202 => case 203 => case 204 => case 205 => case 206 => case 207 =>
  }

  lemma StepBlock26(crc: bv16, b: byte)
    requires 208 <= (((crc >> 8) as byte) ^ b) as int < 216
    ensures Step(crc, b) == BitwiseStep(crc, b)
  {
    match ((crc >> 8) as byte) ^ b
      case 208 => case 209 => case 210 => case 211 => case 212 => case 213 => case 214 => case 215 =>
  }

  lemma StepBlock27(crc: bv16, b: byte)
    requires 216 <= (((crc >> 8) as byte) ^ b) as int < 224
    ensures Step(crc, b) == BitwiseStep(crc, b)
  {
    match ((crc >> 8) as byte) ^ b
      case 216 => case 217 => case 218 => case 219 => case 220 => case 221 => case 222 => case 223 =>
  }

  lemma StepBlock28(crc: bv16, b: byte)
    requires 224 <= (((crc >> 8) as byte) ^ b) as int < 232
    ensures Step(crc, b) == BitwiseStep(crc, b)
  {
    match ((crc >> 8) as byte) ^ b
      case 224 => case 225 => case 226 => case 227 => case 228 => case 229 => case 230 => case 231 =>
  }

  lemma StepBlock29(crc: bv16, b: byte)
    requires 232 <= (((crc >> 8) as byte) ^ b) as int < 240
    ensures Step(crc, b) == BitwiseStep(crc, b)
  {
    match ((crc >> 8) as byte) ^ b
      case 232 => case 233 => case 234 => case 235 => case 236 => case 237 => case 238 => case 239 =>
  }

  lemma StepBlock30(crc: bv16, b: byte)
    requires 240 <= (((crc >> 8) as byte) ^ b) as int < 248
    ensures Step(crc, b) == BitwiseStep(crc, b)
  {
    match ((crc >> 8) as byte) ^ b
      case 240 => case 241 => case 242 => case 243 => case 244 => case 245 => case 246 => case 247 =>
  }

  lemma StepBlock31(crc: bv16, b: byte)
    requires 248 <= (((crc >> 8) as byte) ^ b) as int < 256
    ensures Step(crc, b) == BitwiseStep(crc, b)
  {
    match ((crc >> 8) as byte) ^ b
      case 248 => case 249 => case 250 => case 251 => case 252 => case 253 => case 254 => case 255 =>
  }

  /** One table step equals one bitwise step, for every register value and every byte. */
  lemma StepMatchesBitwise(crc: bv16, b: byte)
    ensures Step(crc, b) == BitwiseStep(crc, b)
  {
    var i := (((crc >> 8) as byte) ^ b) as int;
    if i < 8 { StepBlock0(crc, b); }
    else if i < 16 { StepBlock1(crc, b); }
    else if i < 24 { StepBlock2(crc, b); }
    else if i < 32 { StepBlock3(crc, b); }
    else if i < 40 { StepBlock4(crc, b); }
    else if i < 48 { StepBlock5(crc, b); }
    else if i < 56 { StepBlock6(crc, b); }
    else if i < 64 { StepBlock7(crc, b); }
    else if i < 72 { StepBlock8(crc, b); }
    else if i < 80 { StepBlock9(crc, b); }
    else if i < 88 { StepBlock10(crc, b); }
    else if i < 96 { StepBlock11(crc, b); }
    else if i < 104 { StepBlock12(crc, b); }
    else if i < 112 { StepBlock13(crc, b); }
    else if i < 120 { StepBlock14(crc, b); }
    else if i < 128 { StepBlock15(crc, b); }
    else if i < 136 { StepBlock16(crc, b); }
    else if i < 144 { StepBlock17(crc, b); }
    else if i < 152 { StepBlock18(crc, b); }
    else if i < 160 { StepBlock19(crc, b); }
    else if i < 168 { StepBlock20(crc, b); }
    else if i < 176 { StepBlock21(crc, b); }
    else if i < 184 { StepBlock22(crc, b); }
    else if i < 192 { StepBlock23(crc, b); }
    else if i < 200 { StepBlock24(crc, b); }
    else if i < 208 { StepBlock25(crc, b); }
    else if i < 216 { StepBlock26(crc, b); }
    else if i < 224 { StepBlock27(crc, b); }
    else if i < 232 { StepBlock28(crc, b); }
    else if i < 240 { StepBlock29(crc, b); }
    else if i < 248 { StepBlock30(crc, b); }
    else { StepBlock31(crc, b); }
  }

  /** Every entry of the source's table is the bitwise CRC of its index placed in the high byte. */
  lemma TableMatchesBitwise(b: byte)
    ensures Table[b as int] == Shift8((b as bv16) << 8)
  {
    StepMatchesBitwise(0, b);
  }

  /** crc16_block computes the CRC-16/CCITT (XMODEM) of its input. */
  lemma {:induction false} CrcMatchesBitwise(s: seq<byte>)
    ensures Crc(s) == BitwiseCrc(s)
    decreases |s|
  {
    if s != [] {
      CrcMatchesBitwise(s[..|s| - 1]);
      StepMatchesBitwise(Crc(s[..|s| - 1]), s[|s| - 1]);
    }
  }

  // ---------------------------------------------------------------------------
  // Error detection: a CRC tells apart any two buffers of the same length that differ in one
  // byte. Every bitwise update is injective in the register, so a difference, once made,
  // survives every later byte.

  /** A single bit step loses no information: the bit shifted out comes back in the constant
      term of the polynomial. */
  lemma BitStepInjective(x: bv16, y: bv16)
    requires x != y
    ensures BitStep(x) != BitStep(y)
  {
  }

  /** Neither do eight of them. */
  lemma Shift8Injective(x: bv16, y: bv16)
    requires x != y
    ensures Shift8(x) != Shift8(y)
  {
    var x1, y1 := BitStep(x), BitStep(y);
    var x2, y2 := BitStep(x1), BitStep(y1);
    var x3, y3 := BitStep(x2), BitStep(y2);
    var x4, y4 := BitStep(x3), BitStep(y3);
    var x5, y5 := BitStep(x4), BitStep(y4);
    var x6, y6 := BitStep(x5), BitStep(y5);
    var x7, y7 := BitStep(x6), BitStep(y6);
    BitStepInjective(x, y);
    BitStepInjective(x1, y1);
    BitStepInjective(x2, y2);
    BitStepInjective(x3, y3);
    BitStepInjective(x4, y4);
    BitStepInjective(x5, y5);
    BitStepInjective(x6, y6);
    BitStepInjective(x7, y7);
  }

  /** Different bytes placed in the high half of the register differ. */
  lemma HighByteInjective(b1: byte, b2: byte)
    requires b1 != b2
    ensures (b1 as bv16) << 8 != (b2 as bv16) << 8
  {
  }

  /** The bitwise update is the eight bit steps of the register with the byte in its top half. */
  lemma BitwiseStepUnfolds(c: bv16, b: byte)
    ensures BitwiseStep(c, b) == Shift8(c ^ ((b as bv16) << 8))
  {
  }

  /** Two bitwise updates give different results when exactly one of the register and the
      byte differs. */
  lemma BitwiseStepInjective(c1: bv16, c2: bv16, b1: byte, b2: byte)
    requires (c1 == c2 && b1 != b2) || (c1 != c2 && b1 == b2)
    ensures BitwiseStep(c1, b1) != BitwiseStep(c2, b2)
  {
    if b1 != b2 {
      HighByteInjective(b1, b2);
    }
    Shift8Injective(c1 ^ ((b1 as bv16) << 8), c2 ^ ((b2 as bv16) << 8));
    BitwiseStepUnfolds(c1, b1);
    BitwiseStepUnfolds(c2, b2);
  }

  /** Buffers of the same length that differ in exactly the byte at j have different bitwise
      CRCs. */
  lemma {:induction false} BitwiseDetectsByteError(p: seq<byte>, q: seq<byte>, j: nat)
    requires |p| == |q| && j < |p| && p[j] != q[j]
    requires forall i :: 0 <= i < |p| && i != j ==> p[i] == q[i]
    ensures BitwiseCrc(p) != BitwiseCrc(q)
    decreases |p|
  {
    var n := |p| - 1;
    var p', q' := p[..n], q[..n];
    if j == n {
      assert p' == q';
    } else {
      BitwiseDetectsByteError(p', q', j);
      assert p[n] == q[n];
    }
    BitwiseStepInjective(BitwiseCrc(p'), BitwiseCrc(q'), p[n], q[n]);
  }

  /** crc16_block detects any error confined to one byte. */
  lemma CrcDetectsByteError(p: seq<byte>, q: seq<byte>, j: nat)
    requires |p| == |q| && j < |p| && p[j] != q[j]
    requires forall i :: 0 <= i < |p| && i != j ==> p[i] == q[i]
    ensures Crc(p) != Crc(q)
  {
    CrcMatchesBitwise(p);
    CrcMatchesBitwise(q);
    BitwiseDetectsByteError(p, q, j);
  }
}
