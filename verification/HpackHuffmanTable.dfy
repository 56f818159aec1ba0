/** The static Huffman code of HPACK (Appendix B of RFC 7541), as tabulated in src/core/control/base/H2.cpp. */
module HpackHuffmanTable {

  datatype Code = Code(bits: nat, length: nat)

  /** The code of every octet; row `n` of the table holds octets `16 * n` to `16 * n + 15`. */
  function HuffmanCode(symbol: nat): Code {
    if symbol < 16 then Codes00(symbol)
    else if symbol < 32 then Codes10(symbol - 16)
    else if symbol < 48 then Codes20(symbol - 32)
    else if symbol < 64 then Codes30(symbol - 48)
    else if symbol < 80 then Codes40(symbol - 64)
    else if symbol < 96 then Codes50(symbol - 80)
    else if symbol < 112 then Codes60(symbol - 96)
    else if symbol < 128 then Codes70(symbol - 112)
    else if symbol < 144 then Codes80(symbol - 128)
    else if symbol < 160 then Codes90(symbol - 144)
    else if symbol < 176 then CodesA0(symbol - 160)
    else if symbol < 192 then CodesB0(symbol - 176)
    else if symbol < 208 then CodesC0(symbol - 192)
    else if symbol < 224 then CodesD0(symbol - 208)
    else if symbol < 240 then CodesE0(symbol - 224)
    else CodesF0(symbol - 240)
  }

  function Codes00(i: nat): Code {
    match i
    case 0 => Code(0x1ff8, 13) case 1 => Code(0x7fffd8, 23) case 2 => Code(0xfffffe2, 28) case 3 => Code(0xfffffe3, 28)
    case 4 => Code(0xfffffe4, 28) case 5 => Code(0xfffffe5, 28)
    case 6 => Code(0xfffffe6, 28) case 7 => Code(0xfffffe7, 28)
    case 8 => Code(0xfffffe8, 28) case 9 => Code(0xffffea, 24)
    case 10 => Code(0x3ffffffc, 30) case 11 => Code(0xfffffe9, 28)
    case 12 => Code(0xfffffea, 28) case 13 => Code(0x3ffffffd, 30)
    case 14 => Code(0xfffffeb, 28) case _ => Code(0xfffffec, 28)
  }

  function Codes10(i: nat): Code {
    match i
    case 0 => Code(0xfffffed, 28) case 1 => Code(0xfffffee, 28)
    case 2 => Code(0xfffffef, 28) case 3 => Code(0xffffff0, 28)
    case 4 => Code(0xffffff1, 28) case 5 => Code(0xffffff2, 28)
    case 6 => Code(0x3ffffffe, 30) case 7 => Code(0xffffff3, 28)
    case 8 => Code(0xffffff4, 28) case 9 => Code(0xffffff5, 28)
    case 10 => Code(0xffffff6, 28) case 11 => Code(0xffffff7, 28)
    case 12 => Code(0xffffff8, 28) case 13 => Code(0xffffff9, 28)
    case 14 => Code(0xffffffa, 28) case _ => Code(0xffffffb, 28)
  }

  function Codes20(i: nat): Code {
    match i
    case 0 => Code(0x14, 6) case 1 => Code(0x3f8, 10) case 2 => Code(0x3f9, 10) case 3 => Code(0xffa, 12)
    case 4 => Code(0x1ff9, 13) case 5 => Code(0x15, 6) case 6 => Code(0xf8, 8) case 7 => Code(0x7fa, 11)
    case 8 => Code(0x3fa, 10) case 9 => Code(0x3fb, 10) case 10 => Code(0xf9, 8) case 11 => Code(0x7fb, 11)
    case 12 => Code(0xfa, 8) case 13 => Code(0x16, 6) case 14 => Code(0x17, 6) case _ => Code(0x18, 6)
  }

  function Codes30(i: nat): Code {
    match i
    case 0 => Code(0x0, 5) case 1 => Code(0x1, 5) case 2 => Code(0x2, 5) case 3 => Code(0x19, 6)
    case 4 => Code(0x1a, 6) case 5 => Code(0x1b, 6) case 6 => Code(0x1c, 6) case 7 => Code(0x1d, 6)
    case 8 => Code(0x1e, 6) case 9 => Code(0x1f, 6) case 10 => Code(0x5c, 7) case 11 => Code(0xfb, 8)
    case 12 => Code(0x7ffc, 15) case 13 => Code(0x20, 6) case 14 => Code(0xffb, 12) case _ => Code(0x3fc, 10)
  }

  function Codes40(i: nat): Code {
    match i
    case 0 => Code(0x1ffa, 13) case 1 => Code(0x21, 6) case 2 => Code(0x5d, 7) case 3 => Code(0x5e, 7)
    case 4 => Code(0x5f, 7) case 5 => Code(0x60, 7) case 6 => Code(0x61, 7) case 7 => Code(0x62, 7)
    case 8 => Code(0x63, 7) case 9 => Code(0x64, 7) case 10 => Code(0x65, 7) case 11 => Code(0x66, 7)
    case 12 => Code(0x67, 7) case 13 => Code(0x68, 7) case 14 => Code(0x69, 7) case _ => Code(0x6a, 7)
  }

  function Codes50(i: nat): Code {
    match i
    case 0 => Code(0x6b, 7) case 1 => Code(0x6c, 7) case 2 => Code(0x6d, 7) case 3 => Code(0x6e, 7)
    case 4 => Code(0x6f, 7) case 5 => Code(0x70, 7) case 6 => Code(0x71, 7) case 7 => Code(0x72, 7)
    case 8 => Code(0xfc, 8) case 9 => Code(0x73, 7) case 10 => Code(0xfd, 8) case 11 => Code(0x1ffb, 13)
    case 12 => Code(0x7fff0, 19) case 13 => Code(0x1ffc, 13) case 14 => Code(0x3ffc, 14) case _ => Code(0x22, 6)
  }

  function Codes60(i: nat): Code {
    match i
    case 0 => Code(0x7ffd, 15) case 1 => Code(0x3, 5) case 2 => Code(0x23, 6) case 3 => Code(0x4, 5)
    case 4 => Code(0x24, 6) case 5 => Code(0x5, 5) case 6 => Code(0x25, 6) case 7 => Code(0x26, 6)
    case 8 => Code(0x27, 6) case 9 => Code(0x6, 5) case 10 => Code(0x74, 7) case 11 => Code(0x75, 7)
    case 12 => Code(0x28, 6) case 13 => Code(0x29, 6) case 14 => Code(0x2a, 6) case _ => Code(0x7, 5)
  }

  function Codes70(i: nat): Code {
    match i
    case 0 => Code(0x2b, 6) case 1 => Code(0x76, 7) case 2 => Code(0x2c, 6) case 3 => Code(0x8, 5)
    case 4 => Code(0x9, 5) case 5 => Code(0x2d, 6) case 6 => Code(0x77, 7) case 7 => Code(0x78, 7)
    case 8 => Code(0x79, 7) case 9 => Code(0x7a, 7) case 10 => Code(0x7b, 7) case 11 => Code(0x7ffe, 15)
    case 12 => Code(0x7fc, 11) case 13 => Code(0x3ffd, 14) case 14 => Code(0x1ffd, 13) case _ => Code(0xffffffc, 28)
  }

  function Codes80(i: nat): Code {
    match i
    case 0 => Code(0xfffe6, 20) case 1 => Code(0x3fffd2, 22) case 2 => Code(0xfffe7, 20) case 3 => Code(0xfffe8, 20)
    case 4 => Code(0x3fffd3, 22) case 5 => Code(0x3fffd4, 22) case 6 => Code(0x3fffd5, 22) case 7 => Code(0x7fffd9, 23)
    case 8 => Code(0x3fffd6, 22) case 9 => Code(0x7fffda, 23)
    case 10 => Code(0x7fffdb, 23) case 11 => Code(0x7fffdc, 23)
    case 12 => Code(0x7fffdd, 23) case 13 => Code(0x7fffde, 23)
    case 14 => Code(0xffffeb, 24) case _ => Code(0x7fffdf, 23)
  }

  function Codes90(i: nat): Code {
    match i
    case 0 => Code(0xffffec, 24) case 1 => Code(0xffffed, 24) case 2 => Code(0x3fffd7, 22) case 3 => Code(0x7fffe0, 23)
    case 4 => Code(0xffffee, 24) case 5 => Code(0x7fffe1, 23) case 6 => Code(0x7fffe2, 23) case 7 => Code(0x7fffe3, 23)
    case 8 => Code(0x7fffe4, 23) case 9 => Code(0x1fffdc, 21)
    case 10 => Code(0x3fffd8, 22) case 11 => Code(0x7fffe5, 23)
    case 12 => Code(0x3fffd9, 22) case 13 => Code(0x7fffe6, 23)
    case 14 => Code(0x7fffe7, 23) case _ => Code(0xffffef, 24)
  }

  function CodesA0(i: nat): Code {
    match i
    case 0 => Code(0x3fffda, 22) case 1 => Code(0x1fffdd, 21) case 2 => Code(0xfffe9, 20) case 3 => Code(0x3fffdb, 22)
    case 4 => Code(0x3fffdc, 22) case 5 => Code(0x7fffe8, 23) case 6 => Code(0x7fffe9, 23) case 7 => Code(0x1fffde, 21)
    case 8 => Code(0x7fffea, 23) case 9 => Code(0x3fffdd, 22)
    case 10 => Code(0x3fffde, 22) case 11 => Code(0xfffff0, 24)
    case 12 => Code(0x1fffdf, 21) case 13 => Code(0x3fffdf, 22)
    case 14 => Code(0x7fffeb, 23) case _ => Code(0x7fffec, 23)
  }

  function CodesB0(i: nat): Code {
    match i
    case 0 => Code(0x1fffe0, 21) case 1 => Code(0x1fffe1, 21) case 2 => Code(0x3fffe0, 22) case 3 => Code(0x1fffe2, 21)
    case 4 => Code(0x7fffed, 23) case 5 => Code(0x3fffe1, 22) case 6 => Code(0x7fffee, 23) case 7 => Code(0x7fffef, 23)
    case 8 => Code(0xfffea, 20) case 9 => Code(0x3fffe2, 22) case 10 => Code(0x3fffe3, 22) case 11 => Code(0x3fffe4, 22)
    case 12 => Code(0x7ffff0, 23) case 13 => Code(0x3fffe5, 22)
    case 14 => Code(0x3fffe6, 22) case _ => Code(0x7ffff1, 23)
  }

  function CodesC0(i: nat): Code {
    match i
    case 0 => Code(0x3ffffe0, 26) case 1 => Code(0x3ffffe1, 26) case 2 => Code(0xfffeb, 20) case 3 => Code(0x7fff1, 19)
    case 4 => Code(0x3fffe7, 22) case 5 => Code(0x7ffff2, 23) case 6 => Code(0x3fffe8, 22) case 7 => Code(0x1ffffec, 25)
    case 8 => Code(0x3ffffe2, 26) case 9 => Code(0x3ffffe3, 26)
    case 10 => Code(0x3ffffe4, 26) case 11 => Code(0x7ffffde, 27)
    case 12 => Code(0x7ffffdf, 27) case 13 => Code(0x3ffffe5, 26)
    case 14 => Code(0xfffff1, 24) case _ => Code(0x1ffffed, 25)
  }

  function CodesD0(i: nat): Code {
    match i
    case 0 => Code(0x7fff2, 19) case 1 => Code(0x1fffe3, 21) case 2 => Code(0x3ffffe6, 26) case 3 => Code(0x7ffffe0, 27)
    case 4 => Code(0x7ffffe1, 27) case 5 => Code(0x3ffffe7, 26)
    case 6 => Code(0x7ffffe2, 27) case 7 => Code(0xfffff2, 24)
    case 8 => Code(0x1fffe4, 21) case 9 => Code(0x1fffe5, 21)
    case 10 => Code(0x3ffffe8, 26) case 11 => Code(0x3ffffe9, 26)
    case 12 => Code(0xffffffd, 28) case 13 => Code(0x7ffffe3, 27)
    case 14 => Code(0x7ffffe4, 27) case _ => Code(0x7ffffe5, 27)
  }

  function CodesE0(i: nat): Code {
    match i
    case 0 => Code(0xfffec, 20) case 1 => Code(0xfffff3, 24) case 2 => Code(0xfffed, 20) case 3 => Code(0x1fffe6, 21)
    case 4 => Code(0x3fffe9, 22) case 5 => Code(0x1fffe7, 21) case 6 => Code(0x1fffe8, 21) case 7 => Code(0x7ffff3, 23)
    case 8 => Code(0x3fffea, 22) case 9 => Code(0x3fffeb, 22)
    case 10 => Code(0x1ffffee, 25) case 11 => Code(0x1ffffef, 25)
    case 12 => Code(0xfffff4, 24) case 13 => Code(0xfffff5, 24)
    case 14 => Code(0x3ffffea, 26) case _ => Code(0x7ffff4, 23)
  }

  function CodesF0(i: nat): Code {
    match i
    case 0 => Code(0x3ffffeb, 26) case 1 => Code(0x7ffffe6, 27)
    case 2 => Code(0x3ffffec, 26) case 3 => Code(0x3ffffed, 26)
    case 4 => Code(0x7ffffe7, 27) case 5 => Code(0x7ffffe8, 27)
    case 6 => Code(0x7ffffe9, 27) case 7 => Code(0x7ffffea, 27)
    case 8 => Code(0x7ffffeb, 27) case 9 => Code(0xffffffe, 28)
    case 10 => Code(0x7ffffec, 27) case 11 => Code(0x7ffffed, 27)
    case 12 => Code(0x7ffffee, 27) case 13 => Code(0x7ffffef, 27)
    case 14 => Code(0x7fffff0, 27) case _ => Code(0x3ffffee, 26)
  }

  /** The codes of one length are consecutive numbers; `rank` is the first one's place among all codes. */
  datatype Band = Band(first: nat, count: nat, rank: nat)

  function BandOf(length: nat): Band {
    match length
    case 5 => Band(0x0, 10, 0)
    case 6 => Band(0x14, 26, 10)
    case 7 => Band(0x5c, 32, 36)
    case 8 => Band(0xf8, 6, 68)
    case 9 => Band(0x1fc, 0, 74)
    case 10 => Band(0x3f8, 5, 74)
    case 11 => Band(0x7fa, 3, 79)
    case 12 => Band(0xffa, 2, 82)
    case 13 => Band(0x1ff8, 6, 84)
    case 14 => Band(0x3ffc, 2, 90)
    case 15 => Band(0x7ffc, 3, 92)
    case 16 => Band(0xfffe, 0, 95)
    case 17 => Band(0x1fffc, 0, 95)
    case 18 => Band(0x3fff8, 0, 95)
    case 19 => Band(0x7fff0, 3, 95)
    case 20 => Band(0xfffe6, 8, 98)
    case 21 => Band(0x1fffdc, 13, 106)
    case 22 => Band(0x3fffd2, 26, 119)
    case 23 => Band(0x7fffd8, 29, 145)
    case 24 => Band(0xffffea, 12, 174)
    case 25 => Band(0x1ffffec, 4, 186)
    case 26 => Band(0x3ffffe0, 15, 190)
    case 27 => Band(0x7ffffde, 19, 205)
    case 28 => Band(0xfffffe2, 29, 224)
    case 29 => Band(0x1ffffffe, 0, 253)
    case _ => Band(0x3ffffffc, 3, 253)
  }

  /** The octets in code order: shorter codes first, then by code. */
  function SymbolOfRank(rank: nat): nat {
    if rank < 16 then Order00(rank)
    else if rank < 32 then Order10(rank - 16)
    else if rank < 48 then Order20(rank - 32)
    else if rank < 64 then Order30(rank - 48)
    else if rank < 80 then Order40(rank - 64)
    else if rank < 96 then Order50(rank - 80)
    else if rank < 112 then Order60(rank - 96)
    else if rank < 128 then Order70(rank - 112)
    else if rank < 144 then Order80(rank - 128)
    else if rank < 160 then Order90(rank - 144)
    else if rank < 176 then OrderA0(rank - 160)
    else if rank < 192 then OrderB0(rank - 176)
    else if rank < 208 then OrderC0(rank - 192)
    else if rank < 224 then OrderD0(rank - 208)
    else if rank < 240 then OrderE0(rank - 224)
    else OrderF0(rank - 240)
  }

  function Order00(i: nat): nat {
    match i
    case 0 => 48 case 1 => 49 case 2 => 50 case 3 => 97 case 4 => 99 case 5 => 101 case 6 => 105 case 7 => 111
    case 8 => 115 case 9 => 116 case 10 => 32 case 11 => 37 case 12 => 45 case 13 => 46 case 14 => 47 case _ => 51
  }

  function Order10(i: nat): nat {
    match i
    case 0 => 52 case 1 => 53 case 2 => 54 case 3 => 55 case 4 => 56 case 5 => 57 case 6 => 61 case 7 => 65
    case 8 => 95 case 9 => 98 case 10 => 100 case 11 => 102 case 12 => 103 case 13 => 104 case 14 => 108 case _ => 109
  }

  function Order20(i: nat): nat {
    match i
    case 0 => 110 case 1 => 112 case 2 => 114 case 3 => 117 case 4 => 58 case 5 => 66 case 6 => 67 case 7 => 68
    case 8 => 69 case 9 => 70 case 10 => 71 case 11 => 72 case 12 => 73 case 13 => 74 case 14 => 75 case _ => 76
  }

  function Order30(i: nat): nat {
    match i
    case 0 => 77 case 1 => 78 case 2 => 79 case 3 => 80 case 4 => 81 case 5 => 82 case 6 => 83 case 7 => 84
    case 8 => 85 case 9 => 86 case 10 => 87 case 11 => 89 case 12 => 106 case 13 => 107 case 14 => 113 case _ => 118
  }

  function Order40(i: nat): nat {
    match i
    case 0 => 119 case 1 => 120 case 2 => 121 case 3 => 122 case 4 => 38 case 5 => 42 case 6 => 44 case 7 => 59
    case 8 => 88 case 9 => 90 case 10 => 33 case 11 => 34 case 12 => 40 case 13 => 41 case 14 => 63 case _ => 39
  }

  function Order50(i: nat): nat {
    match i
    case 0 => 43 case 1 => 124 case 2 => 35 case 3 => 62 case 4 => 0 case 5 => 36 case 6 => 64 case 7 => 91
    case 8 => 93 case 9 => 126 case 10 => 94 case 11 => 125 case 12 => 60 case 13 => 96 case 14 => 123 case _ => 92
  }

  function Order60(i: nat): nat {
    match i
    case 0 => 195 case 1 => 208 case 2 => 128 case 3 => 130 case 4 => 131 case 5 => 162 case 6 => 184 case 7 => 194
    case 8 => 224 case 9 => 226 case 10 => 153 case 11 => 161 case 12 => 167 case 13 => 172 case 14 => 176 case _ => 177
  }

  function Order70(i: nat): nat {
    match i
    case 0 => 179 case 1 => 209 case 2 => 216 case 3 => 217 case 4 => 227 case 5 => 229 case 6 => 230 case 7 => 129
    case 8 => 132 case 9 => 133 case 10 => 134 case 11 => 136 case 12 => 146 case 13 => 154 case 14 => 156 case _ => 160
  }

  function Order80(i: nat): nat {
    match i
    case 0 => 163 case 1 => 164 case 2 => 169 case 3 => 170 case 4 => 173 case 5 => 178 case 6 => 181 case 7 => 185
    case 8 => 186 case 9 => 187 case 10 => 189 case 11 => 190 case 12 => 196 case 13 => 198 case 14 => 228 case _ => 232
  }

  function Order90(i: nat): nat {
    match i
    case 0 => 233 case 1 => 1 case 2 => 135 case 3 => 137 case 4 => 138 case 5 => 139 case 6 => 140 case 7 => 141
    case 8 => 143 case 9 => 147 case 10 => 149 case 11 => 150 case 12 => 151 case 13 => 152 case 14 => 155 case _ => 157
  }

  function OrderA0(i: nat): nat {
    match i
    case 0 => 158 case 1 => 165 case 2 => 166 case 3 => 168 case 4 => 174 case 5 => 175 case 6 => 180 case 7 => 182
    case 8 => 183 case 9 => 188 case 10 => 191 case 11 => 197 case 12 => 231 case 13 => 239 case 14 => 9 case _ => 142
  }

  function OrderB0(i: nat): nat {
    match i
    case 0 => 144 case 1 => 145 case 2 => 148 case 3 => 159 case 4 => 171 case 5 => 206 case 6 => 215 case 7 => 225
    case 8 => 236 case 9 => 237 case 10 => 199 case 11 => 207 case 12 => 234 case 13 => 235 case 14 => 192 case _ => 193
  }

  function OrderC0(i: nat): nat {
    match i
    case 0 => 200 case 1 => 201 case 2 => 202 case 3 => 205 case 4 => 210 case 5 => 213 case 6 => 218 case 7 => 219
    case 8 => 238 case 9 => 240 case 10 => 242 case 11 => 243 case 12 => 255 case 13 => 203 case 14 => 204 case _ => 211
  }

  function OrderD0(i: nat): nat {
    match i
    case 0 => 212 case 1 => 214 case 2 => 221 case 3 => 222 case 4 => 223 case 5 => 241 case 6 => 244 case 7 => 245
    case 8 => 246 case 9 => 247 case 10 => 248 case 11 => 250 case 12 => 251 case 13 => 252 case 14 => 253 case _ => 254
  }

  function OrderE0(i: nat): nat {
    match i
    case 0 => 2 case 1 => 3 case 2 => 4 case 3 => 5 case 4 => 6 case 5 => 7 case 6 => 8 case 7 => 11
    case 8 => 12 case 9 => 14 case 10 => 15 case 11 => 16 case 12 => 17 case 13 => 18 case 14 => 19 case _ => 20
  }

  function OrderF0(i: nat): nat {
    match i
    case 0 => 21 case 1 => 23 case 2 => 24 case 3 => 25 case 4 => 26 case 5 => 27 case 6 => 28 case 7 => 29
    case 8 => 30 case 9 => 31 case 10 => 127 case 11 => 220 case 12 => 249 case 13 => 10 case 14 => 13 case _ => 22
  }

  /** The same data as sequences: codes by octet, bands by length, octets by rank. */
  function Codes(): (codes: seq<Code>)
    ensures |codes| == 256
  {
    seq(256, s requires 0 <= s => HuffmanCode(s))
  }

  function Bands(): (bands: seq<Band>)
    ensures |bands| == 31
  {
    seq(31, k requires 0 <= k => BandOf(k))
  }

  function Order(): (order: seq<nat>)
    ensures |order| == 256
  {
    seq(256, r requires 0 <= r => SymbolOfRank(r))
  }

  /** An octet's code lies in the band of its length, and its place there leads back to the octet. */
  predicate InBand(codes: seq<Code>, bands: seq<Band>, order: seq<nat>, s: nat)
    requires s < |codes| && |bands| == 31 && |order| == 256
  {
    var c := codes[s];
    && 5 <= c.length <= 30
    && bands[c.length].first <= c.bits < bands[c.length].first + bands[c.length].count
    && bands[c.length].rank + c.bits - bands[c.length].first < 256
    && order[bands[c.length].rank + c.bits - bands[c.length].first] == s
  }

  lemma Row00(symbol: nat)
    requires 0 <= symbol < 8
    ensures InBand(Codes(), Bands(), Order(), symbol)
  {
  }

  lemma Row08(symbol: nat)
    requires 8 <= symbol < 16
    ensures InBand(Codes(), Bands(), Order(), symbol)
  {
  }

  lemma Row10(symbol: nat)
    requires 16 <= symbol < 24
    ensures InBand(Codes(), Bands(), Order(), symbol)
  {
  }

  lemma Row18(symbol: nat)
    requires 24 <= symbol < 32
    ensures InBand(Codes(), Bands(), Order(), symbol)
  {
  }

  lemma Row20(symbol: nat)
    requires 32 <= symbol < 40
    ensures InBand(Codes(), Bands(), Order(), symbol)
  {
  }

  lemma Row28(symbol: nat)
    requires 40 <= symbol < 48
    ensures InBand(Codes(), Bands(), Order(), symbol)
  {
  }

  lemma Row30(symbol: nat)
    requires 48 <= symbol < 56
    ensures InBand(Codes(), Bands(), Order(), symbol)
  {
  }

  lemma Row38(symbol: nat)
    requires 56 <= symbol < 64
    ensures InBand(Codes(), Bands(), Order(), symbol)
  {
  }

  lemma Row40(symbol: nat)
    requires 64 <= symbol < 72
    ensures InBand(Codes(), Bands(), Order(), symbol)
  {
  }

  lemma Row48(symbol: nat)
    requires 72 <= symbol < 80
    ensures InBand(Codes(), Bands(), Order(), symbol)
  {
  }

  lemma Row50(symbol: nat)
    requires 80 <= symbol < 88
    ensures InBand(Codes(), Bands(), Order(), symbol)
  {
  }

  lemma Row58(symbol: nat)
    requires 88 <= symbol < 96
    ensures InBand(Codes(), Bands(), Order(), symbol)
  {
  }

  lemma Row60(symbol: nat)
    requires 96 <= symbol < 104
    ensures InBand(Codes(), Bands(), Order(), symbol)
  {
  }

  lemma Row68(symbol: nat)
    requires 104 <= symbol < 112
    ensures InBand(Codes(), Bands(), Order(), symbol)
  {
  }

  lemma Row70(symbol: nat)
    requires 112 <= symbol < 120
    ensures InBand(Codes(), Bands(), Order(), symbol)
  {
  }

  lemma Row78(symbol: nat)
    requires 120 <= symbol < 128
    ensures InBand(Codes(), Bands(), Order(), symbol)
  {
  }

  lemma Row80(symbol: nat)
    requires 128 <= symbol < 136
    ensures InBand(Codes(), Bands(), Order(), symbol)
  {
  }

  lemma Row88(symbol: nat)
    requires 136 <= symbol < 144
    ensures InBand(Codes(), Bands(), Order(), symbol)
  {
  }

  lemma Row90(symbol: nat)
    requires 144 <= symbol < 152
    ensures InBand(Codes(), Bands(), Order(), symbol)
  {
  }

  lemma Row98(symbol: nat)
    requires 152 <= symbol < 160
    ensures InBand(Codes(), Bands(), Order(), symbol)
  {
  }

  lemma RowA0(symbol: nat)
    requires 160 <= symbol < 168
    ensures InBand(Codes(), Bands(), Order(), symbol)
  {
  }

  lemma RowA8(symbol: nat)
    requires 168 <= symbol < 176
    ensures InBand(Codes(), Bands(), Order(), symbol)
  {
  }

  lemma RowB0(symbol: nat)
    requires 176 <= symbol < 184
    ensures InBand(Codes(), Bands(), Order(), symbol)
  {
  }

  lemma RowB8(symbol: nat)
    requires 184 <= symbol < 192
    ensures InBand(Codes(), Bands(), Order(), symbol)
  {
  }

  lemma RowC0(symbol: nat)
    requires 192 <= symbol < 200
    ensures InBand(Codes(), Bands(), Order(), symbol)
  {
  }

  lemma RowC8(symbol: nat)
    requires 200 <= symbol < 208
    ensures InBand(Codes(), Bands(), Order(), symbol)
  {
  }

  lemma RowD0(symbol: nat)
    requires 208 <= symbol < 216
    ensures InBand(Codes(), Bands(), Order(), symbol)
  {
  }

  lemma RowD8(symbol: nat)
    requires 216 <= symbol < 224
    ensures InBand(Codes(), Bands(), Order(), symbol)
  {
  }

  lemma RowE0(symbol: nat)
    requires 224 <= symbol < 232
    ensures InBand(Codes(), Bands(), Order(), symbol)
  {
  }

  lemma RowE8(symbol: nat)
    requires 232 <= symbol < 240
    ensures InBand(Codes(), Bands(), Order(), symbol)
  {
  }

  lemma RowF0(symbol: nat)
    requires 240 <= symbol < 248
    ensures InBand(Codes(), Bands(), Order(), symbol)
  {
  }

  lemma RowF8(symbol: nat)
    requires 248 <= symbol < 256
    ensures InBand(Codes(), Bands(), Order(), symbol)
  {
  }

  lemma TableInBand(symbol: nat)
    requires symbol < 256
    ensures InBand(Codes(), Bands(), Order(), symbol)
  {
    if symbol < 8 {
      Row00(symbol);
    } else if symbol < 16 {
      Row08(symbol);
    } else if symbol < 24 {
      Row10(symbol);
    } else if symbol < 32 {
      Row18(symbol);
    } else if symbol < 40 {
      Row20(symbol);
    } else if symbol < 48 {
      Row28(symbol);
    } else if symbol < 56 {
      Row30(symbol);
    } else if symbol < 64 {
      Row38(symbol);
    } else if symbol < 72 {
      Row40(symbol);
    } else if symbol < 80 {
      Row48(symbol);
    } else if symbol < 88 {
      Row50(symbol);
    } else if symbol < 96 {
      Row58(symbol);
    } else if symbol < 104 {
      Row60(symbol);
    } else if symbol < 112 {
      Row68(symbol);
    } else if symbol < 120 {
      Row70(symbol);
    } else if symbol < 128 {
      Row78(symbol);
    } else if symbol < 136 {
      Row80(symbol);
    } else if symbol < 144 {
      Row88(symbol);
    } else if symbol < 152 {
      Row90(symbol);
    } else if symbol < 160 {
      Row98(symbol);
    } else if symbol < 168 {
      RowA0(symbol);
    } else if symbol < 176 {
      RowA8(symbol);
    } else if symbol < 184 {
      RowB0(symbol);
    } else if symbol < 192 {
      RowB8(symbol);
    } else if symbol < 200 {
      RowC0(symbol);
    } else if symbol < 208 {
      RowC8(symbol);
    } else if symbol < 216 {
      RowD0(symbol);
    } else if symbol < 224 {
      RowD8(symbol);
    } else if symbol < 232 {
      RowE0(symbol);
    } else if symbol < 240 {
      RowE8(symbol);
    } else if symbol < 248 {
      RowF0(symbol);
    } else {
      RowF8(symbol);
    }
  }
}
