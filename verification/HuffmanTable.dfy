/**
 * The code table of RFC 7541 Appendix B, and the proof that it is canonical: the codes of each
 * length are an interval, and the interval of the next length starts at twice its limit.
 */
module HuffmanTable {
  import opened HuffmanCode

  // ---- The table, in rows of sixteen symbols ----

  function Row0(s: nat): Codeword {
    match s
    case 0 => Codeword(0x1ff8, 13) case 1 => Codeword(0x7fffd8, 23) case 2 => Codeword(0xfffffe2, 28)
    case 3 => Codeword(0xfffffe3, 28) case 4 => Codeword(0xfffffe4, 28) case 5 => Codeword(0xfffffe5, 28)
    case 6 => Codeword(0xfffffe6, 28) case 7 => Codeword(0xfffffe7, 28) case 8 => Codeword(0xfffffe8, 28)
    case 9 => Codeword(0xffffea, 24) case 10 => Codeword(0x3ffffffc, 30) case 11 => Codeword(0xfffffe9, 28)
    case 12 => Codeword(0xfffffea, 28) case 13 => Codeword(0x3ffffffd, 30) case 14 => Codeword(0xfffffeb, 28)
    case _ => Codeword(0xfffffec, 28)
  }

  function Row1(s: nat): Codeword {
    match s
    case 16 => Codeword(0xfffffed, 28) case 17 => Codeword(0xfffffee, 28) case 18 => Codeword(0xfffffef, 28)
    case 19 => Codeword(0xffffff0, 28) case 20 => Codeword(0xffffff1, 28) case 21 => Codeword(0xffffff2, 28)
    case 22 => Codeword(0x3ffffffe, 30) case 23 => Codeword(0xffffff3, 28) case 24 => Codeword(0xffffff4, 28)
    case 25 => Codeword(0xffffff5, 28) case 26 => Codeword(0xffffff6, 28) case 27 => Codeword(0xffffff7, 28)
    case 28 => Codeword(0xffffff8, 28) case 29 => Codeword(0xffffff9, 28) case 30 => Codeword(0xffffffa, 28)
    case _ => Codeword(0xffffffb, 28)
  }

  function Row2(s: nat): Codeword {
    match s
    case 32 => Codeword(0x14, 6) case 33 => Codeword(0x3f8, 10) case 34 => Codeword(0x3f9, 10)
    case 35 => Codeword(0xffa, 12) case 36 => Codeword(0x1ff9, 13) case 37 => Codeword(0x15, 6)
    case 38 => Codeword(0xf8, 8) case 39 => Codeword(0x7fa, 11) case 40 => Codeword(0x3fa, 10)
    case 41 => Codeword(0x3fb, 10) case 42 => Codeword(0xf9, 8) case 43 => Codeword(0x7fb, 11)
    case 44 => Codeword(0xfa, 8) case 45 => Codeword(0x16, 6) case 46 => Codeword(0x17, 6)
    case _ => Codeword(0x18, 6)
  }

  function Row3(s: nat): Codeword {
    match s
    case 48 => Codeword(0x0, 5) case 49 => Codeword(0x1, 5) case 50 => Codeword(0x2, 5)
    case 51 => Codeword(0x19, 6) case 52 => Codeword(0x1a, 6) case 53 => Codeword(0x1b, 6)
    case 54 => Codeword(0x1c, 6) case 55 => Codeword(0x1d, 6) case 56 => Codeword(0x1e, 6)
    case 57 => Codeword(0x1f, 6) case 58 => Codeword(0x5c, 7) case 59 => Codeword(0xfb, 8)
    case 60 => Codeword(0x7ffc, 15) case 61 => Codeword(0x20, 6) case 62 => Codeword(0xffb, 12)
    case _ => Codeword(0x3fc, 10)
  }

  function Row4(s: nat): Codeword {
    match s
    case 64 => Codeword(0x1ffa, 13) case 65 => Codeword(0x21, 6) case 66 => Codeword(0x5d, 7)
    case 67 => Codeword(0x5e, 7) case 68 => Codeword(0x5f, 7) case 69 => Codeword(0x60, 7)
    case 70 => Codeword(0x61, 7) case 71 => Codeword(0x62, 7) case 72 => Codeword(0x63, 7)
    case 73 => Codeword(0x64, 7) case 74 => Codeword(0x65, 7) case 75 => Codeword(0x66, 7)
    case 76 => Codeword(0x67, 7) case 77 => Codeword(0x68, 7) case 78 => Codeword(0x69, 7)
    case _ => Codeword(0x6a, 7)
  }

  function Row5(s: nat): Codeword {
    match s
    case 80 => Codeword(0x6b, 7) case 81 => Codeword(0x6c, 7) case 82 => Codeword(0x6d, 7)
    case 83 => Codeword(0x6e, 7) case 84 => Codeword(0x6f, 7) case 85 => Codeword(0x70, 7)
    case 86 => Codeword(0x71, 7) case 87 => Codeword(0x72, 7) case 88 => Codeword(0xfc, 8)
    case 89 => Codeword(0x73, 7) case 90 => Codeword(0xfd, 8) case 91 => Codeword(0x1ffb, 13)
    case 92 => Codeword(0x7fff0, 19) case 93 => Codeword(0x1ffc, 13) case 94 => Codeword(0x3ffc, 14)
    case _ => Codeword(0x22, 6)
  }

  function Row6(s: nat): Codeword {
    match s
    case 96 => Codeword(0x7ffd, 15) case 97 => Codeword(0x3, 5) case 98 => Codeword(0x23, 6)
    case 99 => Codeword(0x4, 5) case 100 => Codeword(0x24, 6) case 101 => Codeword(0x5, 5)
    case 102 => Codeword(0x25, 6) case 103 => Codeword(0x26, 6) case 104 => Codeword(0x27, 6)
    case 105 => Codeword(0x6, 5) case 106 => Codeword(0x74, 7) case 107 => Codeword(0x75, 7)
    case 108 => Codeword(0x28, 6) case 109 => Codeword(0x29, 6) case 110 => Codeword(0x2a, 6)
    case _ => Codeword(0x7, 5)
  }

  function Row7(s: nat): Codeword {
    match s
    case 112 => Codeword(0x2b, 6) case 113 => Codeword(0x76, 7) case 114 => Codeword(0x2c, 6)
    case 115 => Codeword(0x8, 5) case 116 => Codeword(0x9, 5) case 117 => Codeword(0x2d, 6)
    case 118 => Codeword(0x77, 7) case 119 => Codeword(0x78, 7) case 120 => Codeword(0x79, 7)
    case 121 => Codeword(0x7a, 7) case 122 => Codeword(0x7b, 7) case 123 => Codeword(0x7ffe, 15)
    case 124 => Codeword(0x7fc, 11) case 125 => Codeword(0x3ffd, 14) case 126 => Codeword(0x1ffd, 13)
    case _ => Codeword(0xffffffc, 28)
  }

  function Row8(s: nat): Codeword {
    match s
    case 128 => Codeword(0xfffe6, 20) case 129 => Codeword(0x3fffd2, 22) case 130 => Codeword(0xfffe7, 20)
    case 131 => Codeword(0xfffe8, 20) case 132 => Codeword(0x3fffd3, 22) case 133 => Codeword(0x3fffd4, 22)
    case 134 => Codeword(0x3fffd5, 22) case 135 => Codeword(0x7fffd9, 23) case 136 => Codeword(0x3fffd6, 22)
    case 137 => Codeword(0x7fffda, 23) case 138 => Codeword(0x7fffdb, 23) case 139 => Codeword(0x7fffdc, 23)
    case 140 => Codeword(0x7fffdd, 23) case 141 => Codeword(0x7fffde, 23) case 142 => Codeword(0xffffeb, 24)
    case _ => Codeword(0x7fffdf, 23)
  }

  function Row9(s: nat): Codeword {
    match s
    case 144 => Codeword(0xffffec, 24) case 145 => Codeword(0xffffed, 24) case 146 => Codeword(0x3fffd7, 22)
    case 147 => Codeword(0x7fffe0, 23) case 148 => Codeword(0xffffee, 24) case 149 => Codeword(0x7fffe1, 23)
    case 150 => Codeword(0x7fffe2, 23) case 151 => Codeword(0x7fffe3, 23) case 152 => Codeword(0x7fffe4, 23)
    case 153 => Codeword(0x1fffdc, 21) case 154 => Codeword(0x3fffd8, 22) case 155 => Codeword(0x7fffe5, 23)
    case 156 => Codeword(0x3fffd9, 22) case 157 => Codeword(0x7fffe6, 23) case 158 => Codeword(0x7fffe7, 23)
    case _ => Codeword(0xffffef, 24)
  }

  function Row10(s: nat): Codeword {
    match s
    case 160 => Codeword(0x3fffda, 22) case 161 => Codeword(0x1fffdd, 21) case 162 => Codeword(0xfffe9, 20)
    case 163 => Codeword(0x3fffdb, 22) case 164 => Codeword(0x3fffdc, 22) case 165 => Codeword(0x7fffe8, 23)
    case 166 => Codeword(0x7fffe9, 23) case 167 => Codeword(0x1fffde, 21) case 168 => Codeword(0x7fffea, 23)
    case 169 => Codeword(0x3fffdd, 22) case 170 => Codeword(0x3fffde, 22) case 171 => Codeword(0xfffff0, 24)
    case 172 => Codeword(0x1fffdf, 21) case 173 => Codeword(0x3fffdf, 22) case 174 => Codeword(0x7fffeb, 23)
    case _ => Codeword(0x7fffec, 23)
  }

  function Row11(s: nat): Codeword {
    match s
    case 176 => Codeword(0x1fffe0, 21) case 177 => Codeword(0x1fffe1, 21) case 178 => Codeword(0x3fffe0, 22)
    case 179 => Codeword(0x1fffe2, 21) case 180 => Codeword(0x7fffed, 23) case 181 => Codeword(0x3fffe1, 22)
    case 182 => Codeword(0x7fffee, 23) case 183 => Codeword(0x7fffef, 23) case 184 => Codeword(0xfffea, 20)
    case 185 => Codeword(0x3fffe2, 22) case 186 => Codeword(0x3fffe3, 22) case 187 => Codeword(0x3fffe4, 22)
    case 188 => Codeword(0x7ffff0, 23) case 189 => Codeword(0x3fffe5, 22) case 190 => Codeword(0x3fffe6, 22)
    case _ => Codeword(0x7ffff1, 23)
  }

  function Row12(s: nat): Codeword {
    match s
    case 192 => Codeword(0x3ffffe0, 26) case 193 => Codeword(0x3ffffe1, 26) case 194 => Codeword(0xfffeb, 20)
    case 195 => Codeword(0x7fff1, 19) case 196 => Codeword(0x3fffe7, 22) case 197 => Codeword(0x7ffff2, 23)
    case 198 => Codeword(0x3fffe8, 22) case 199 => Codeword(0x1ffffec, 25) case 200 => Codeword(0x3ffffe2, 26)
    case 201 => Codeword(0x3ffffe3, 26) case 202 => Codeword(0x3ffffe4, 26) case 203 => Codeword(0x7ffffde, 27)
    case 204 => Codeword(0x7ffffdf, 27) case 205 => Codeword(0x3ffffe5, 26) case 206 => Codeword(0xfffff1, 24)
    case _ => Codeword(0x1ffffed, 25)
  }

  function Row13(s: nat): Codeword {
    match s
    case 208 => Codeword(0x7fff2, 19) case 209 => Codeword(0x1fffe3, 21) case 210 => Codeword(0x3ffffe6, 26)
    case 211 => Codeword(0x7ffffe0, 27) case 212 => Codeword(0x7ffffe1, 27) case 213 => Codeword(0x3ffffe7, 26)
    case 214 => Codeword(0x7ffffe2, 27) case 215 => Codeword(0xfffff2, 24) case 216 => Codeword(0x1fffe4, 21)
    case 217 => Codeword(0x1fffe5, 21) case 218 => Codeword(0x3ffffe8, 26) case 219 => Codeword(0x3ffffe9, 26)
    case 220 => Codeword(0xffffffd, 28) case 221 => Codeword(0x7ffffe3, 27) case 222 => Codeword(0x7ffffe4, 27)
    case _ => Codeword(0x7ffffe5, 27)
  }

  function Row14(s: nat): Codeword {
    match s
    case 224 => Codeword(0xfffec, 20) case 225 => Codeword(0xfffff3, 24) case 226 => Codeword(0xfffed, 20)
    case 227 => Codeword(0x1fffe6, 21) case 228 => Codeword(0x3fffe9, 22) case 229 => Codeword(0x1fffe7, 21)
    case 230 => Codeword(0x1fffe8, 21) case 231 => Codeword(0x7ffff3, 23) case 232 => Codeword(0x3fffea, 22)
    case 233 => Codeword(0x3fffeb, 22) case 234 => Codeword(0x1ffffee, 25) case 235 => Codeword(0x1ffffef, 25)
    case 236 => Codeword(0xfffff4, 24) case 237 => Codeword(0xfffff5, 24) case 238 => Codeword(0x3ffffea, 26)
    case _ => Codeword(0x7ffff4, 23)
  }

  function Row15(s: nat): Codeword {
    match s
    case 240 => Codeword(0x3ffffeb, 26) case 241 => Codeword(0x7ffffe6, 27) case 242 => Codeword(0x3ffffec, 26)
    case 243 => Codeword(0x3ffffed, 26) case 244 => Codeword(0x7ffffe7, 27) case 245 => Codeword(0x7ffffe8, 27)
    case 246 => Codeword(0x7ffffe9, 27) case 247 => Codeword(0x7ffffea, 27) case 248 => Codeword(0x7ffffeb, 27)
    case 249 => Codeword(0xffffffe, 28) case 250 => Codeword(0x7ffffec, 27) case 251 => Codeword(0x7ffffed, 27)
    case 252 => Codeword(0x7ffffee, 27) case 253 => Codeword(0x7ffffef, 27) case 254 => Codeword(0x7fffff0, 27)
    case _ => Codeword(0x3ffffee, 26)
  }

  function Row16(s: nat): Codeword { Codeword(0x3fffffff, 30) }

  function CodeOfBlock0(s: nat): Codeword {
    if s < 16 then Row0(s)
    else if s < 32 then Row1(s)
    else if s < 48 then Row2(s)
    else Row3(s)
  }

  function CodeOfBlock1(s: nat): Codeword {
    if s < 80 then Row4(s)
    else if s < 96 then Row5(s)
    else if s < 112 then Row6(s)
    else Row7(s)
  }

  function CodeOfBlock2(s: nat): Codeword {
    if s < 144 then Row8(s)
    else if s < 160 then Row9(s)
    else if s < 176 then Row10(s)
    else Row11(s)
  }

  function CodeOfBlock3(s: nat): Codeword {
    if s < 208 then Row12(s)
    else if s < 224 then Row13(s)
    else if s < 240 then Row14(s)
    else Row15(s)
  }

  function CodeOf(s: nat): Codeword {
    if s < 64 then CodeOfBlock0(s)
    else if s < 128 then CodeOfBlock1(s)
    else if s < 192 then CodeOfBlock2(s)
    else if s < 256 then CodeOfBlock3(s)
    else Row16(s)
  }

  function CODES(): (t: Codes)
    ensures |t| == 257
  {
    seq(257, s requires 0 <= s < 257 => CodeOf(s))
  }

  // ---- Its canonical order ----

  /** The codes of one length: the least, how many there are, and how many are shorter. */
  datatype Interval = Interval(first: nat, count: nat, shorter: nat)

  function IntervalOf(length: nat): Interval {
    match length
    case 5 => Interval(0x0, 10, 0)
    case 6 => Interval(0x14, 26, 10)
    case 7 => Interval(0x5c, 32, 36)
    case 8 => Interval(0xf8, 6, 68)
    case 9 => Interval(0x1fc, 0, 74)
    case 10 => Interval(0x3f8, 5, 74)
    case 11 => Interval(0x7fa, 3, 79)
    case 12 => Interval(0xffa, 2, 82)
    case 13 => Interval(0x1ff8, 6, 84)
    case 14 => Interval(0x3ffc, 2, 90)
    case 15 => Interval(0x7ffc, 3, 92)
    case 16 => Interval(0xfffe, 0, 95)
    case 17 => Interval(0x1fffc, 0, 95)
    case 18 => Interval(0x3fff8, 0, 95)
    case 19 => Interval(0x7fff0, 3, 95)
    case 20 => Interval(0xfffe6, 8, 98)
    case 21 => Interval(0x1fffdc, 13, 106)
    case 22 => Interval(0x3fffd2, 26, 119)
    case 23 => Interval(0x7fffd8, 29, 145)
    case 24 => Interval(0xffffea, 12, 174)
    case 25 => Interval(0x1ffffec, 4, 186)
    case 26 => Interval(0x3ffffe0, 15, 190)
    case 27 => Interval(0x7ffffde, 19, 205)
    case 28 => Interval(0xfffffe2, 29, 224)
    case 29 => Interval(0x1ffffffe, 0, 253)
    case _ => if length < 5 then Interval(0, 0, 0) else Interval(0x3ffffffc, 4, 253)
  }

  /** One past the greatest code of this length. */
  function Limit(length: nat): nat {
    IntervalOf(length).first + IntervalOf(length).count
  }

  // The symbols in order of code length, then code, in rows of sixteen.

  function Ranks0(rank: nat): nat {
    match rank
    case 0 => 48 case 1 => 49 case 2 => 50 case 3 => 97 case 4 => 99 case 5 => 101 case 6 => 105
    case 7 => 111 case 8 => 115 case 9 => 116 case 10 => 32 case 11 => 37 case 12 => 45 case 13 => 46
    case 14 => 47 case _ => 51
  }

  function Ranks1(rank: nat): nat {
    match rank
    case 16 => 52 case 17 => 53 case 18 => 54 case 19 => 55 case 20 => 56 case 21 => 57 case 22 => 61
    case 23 => 65 case 24 => 95 case 25 => 98 case 26 => 100 case 27 => 102 case 28 => 103 case 29 => 104
    case 30 => 108 case _ => 109
  }

  function Ranks2(rank: nat): nat {
    match rank
    case 32 => 110 case 33 => 112 case 34 => 114 case 35 => 117 case 36 => 58 case 37 => 66 case 38 => 67
    case 39 => 68 case 40 => 69 case 41 => 70 case 42 => 71 case 43 => 72 case 44 => 73 case 45 => 74
    case 46 => 75 case _ => 76
  }

  function Ranks3(rank: nat): nat {
    match rank
    case 48 => 77 case 49 => 78 case 50 => 79 case 51 => 80 case 52 => 81 case 53 => 82 case 54 => 83
    case 55 => 84 case 56 => 85 case 57 => 86 case 58 => 87 case 59 => 89 case 60 => 106 case 61 => 107
    case 62 => 113 case _ => 118
  }

  function Ranks4(rank: nat): nat {
    match rank
    case 64 => 119 case 65 => 120 case 66 => 121 case 67 => 122 case 68 => 38 case 69 => 42 case 70 => 44
    case 71 => 59 case 72 => 88 case 73 => 90 case 74 => 33 case 75 => 34 case 76 => 40 case 77 => 41
    case 78 => 63 case _ => 39
  }

  function Ranks5(rank: nat): nat {
    match rank
    case 80 => 43 case 81 => 124 case 82 => 35 case 83 => 62 case 84 => 0 case 85 => 36 case 86 => 64
    case 87 => 91 case 88 => 93 case 89 => 126 case 90 => 94 case 91 => 125 case 92 => 60 case 93 => 96
    case 94 => 123 case _ => 92
  }

  function Ranks6(rank: nat): nat {
    match rank
    case 96 => 195 case 97 => 208 case 98 => 128 case 99 => 130 case 100 => 131 case 101 => 162 case 102 => 184
    case 103 => 194 case 104 => 224 case 105 => 226 case 106 => 153 case 107 => 161 case 108 => 167 case 109 => 172
    case 110 => 176 case _ => 177
  }

  function Ranks7(rank: nat): nat {
    match rank
    case 112 => 179 case 113 => 209 case 114 => 216 case 115 => 217 case 116 => 227 case 117 => 229 case 118 => 230
    case 119 => 129 case 120 => 132 case 121 => 133 case 122 => 134 case 123 => 136 case 124 => 146 case 125 => 154
    case 126 => 156 case _ => 160
  }

  function Ranks8(rank: nat): nat {
    match rank
    case 128 => 163 case 129 => 164 case 130 => 169 case 131 => 170 case 132 => 173 case 133 => 178 case 134 => 181
    case 135 => 185 case 136 => 186 case 137 => 187 case 138 => 189 case 139 => 190 case 140 => 196 case 141 => 198
    case 142 => 228 case _ => 232
  }

  function Ranks9(rank: nat): nat {
    match rank
    case 144 => 233 case 145 => 1 case 146 => 135 case 147 => 137 case 148 => 138 case 149 => 139 case 150 => 140
    case 151 => 141 case 152 => 143 case 153 => 147 case 154 => 149 case 155 => 150 case 156 => 151 case 157 => 152
    case 158 => 155 case _ => 157
  }

  function Ranks10(rank: nat): nat {
    match rank
    case 160 => 158 case 161 => 165 case 162 => 166 case 163 => 168 case 164 => 174 case 165 => 175 case 166 => 180
    case 167 => 182 case 168 => 183 case 169 => 188 case 170 => 191 case 171 => 197 case 172 => 231 case 173 => 239
    case 174 => 9 case _ => 142
  }

  function Ranks11(rank: nat): nat {
    match rank
    case 176 => 144 case 177 => 145 case 178 => 148 case 179 => 159 case 180 => 171 case 181 => 206 case 182 => 215
    case 183 => 225 case 184 => 236 case 185 => 237 case 186 => 199 case 187 => 207 case 188 => 234 case 189 => 235
    case 190 => 192 case _ => 193
  }

  function Ranks12(rank: nat): nat {
    match rank
    case 192 => 200 case 193 => 201 case 194 => 202 case 195 => 205 case 196 => 210 case 197 => 213 case 198 => 218
    case 199 => 219 case 200 => 238 case 201 => 240 case 202 => 242 case 203 => 243 case 204 => 255 case 205 => 203
    case 206 => 204 case _ => 211
  }

  function Ranks13(rank: nat): nat {
    match rank
    case 208 => 212 case 209 => 214 case 210 => 221 case 211 => 222 case 212 => 223 case 213 => 241 case 214 => 244
    case 215 => 245 case 216 => 246 case 217 => 247 case 218 => 248 case 219 => 250 case 220 => 251 case 221 => 252
    case 222 => 253 case _ => 254
  }

  function Ranks14(rank: nat): nat {
    match rank
    case 224 => 2 case 225 => 3 case 226 => 4 case 227 => 5 case 228 => 6 case 229 => 7 case 230 => 8
    case 231 => 11 case 232 => 12 case 233 => 14 case 234 => 15 case 235 => 16 case 236 => 17 case 237 => 18
    case 238 => 19 case _ => 20
  }

  function Ranks15(rank: nat): nat {
    match rank
    case 240 => 21 case 241 => 23 case 242 => 24 case 243 => 25 case 244 => 26 case 245 => 27 case 246 => 28
    case 247 => 29 case 248 => 30 case 249 => 31 case 250 => 127 case 251 => 220 case 252 => 249 case 253 => 10
    case 254 => 13 case _ => 22
  }

  function Ranks16(rank: nat): nat { 256 }

  function RankedBlock0(rank: nat): nat {
    if rank < 16 then Ranks0(rank)
    else if rank < 32 then Ranks1(rank)
    else if rank < 48 then Ranks2(rank)
    else Ranks3(rank)
  }

  function RankedBlock1(rank: nat): nat {
    if rank < 80 then Ranks4(rank)
    else if rank < 96 then Ranks5(rank)
    else if rank < 112 then Ranks6(rank)
    else Ranks7(rank)
  }

  function RankedBlock2(rank: nat): nat {
    if rank < 144 then Ranks8(rank)
    else if rank < 160 then Ranks9(rank)
    else if rank < 176 then Ranks10(rank)
    else Ranks11(rank)
  }

  function RankedBlock3(rank: nat): nat {
    if rank < 208 then Ranks12(rank)
    else if rank < 224 then Ranks13(rank)
    else if rank < 240 then Ranks14(rank)
    else Ranks15(rank)
  }

  function Ranked(rank: nat): nat {
    if rank < 64 then RankedBlock0(rank)
    else if rank < 128 then RankedBlock1(rank)
    else if rank < 192 then RankedBlock2(rank)
    else if rank < 256 then RankedBlock3(rank)
    else Ranks16(rank)
  }

  /** Where a codeword is in the canonical order. */
  function Rank(c: Codeword): int {
    IntervalOf(c.length).shorter + c.code - IntervalOf(c.length).first
  }

  /** Symbol `s` is where its code says in the canonical order. */
  predicate Placed(s: nat) {
    var c := CodeOf(s);
    var i := IntervalOf(c.length);
    && 5 <= c.length <= 30
    && i.first <= c.code < i.first + i.count
    && Ranked(i.shorter + (c.code - i.first)) == s
  }

  // The table checked row by row.

  lemma Placed0(s: nat) requires 0 <= s < 16 ensures Placed(s) { }

  lemma Placed1(s: nat) requires 16 <= s < 32 ensures Placed(s) { }

  lemma Placed2(s: nat) requires 32 <= s < 48 ensures Placed(s) { }

  lemma Placed3(s: nat) requires 48 <= s < 64 ensures Placed(s) { }

  lemma Placed4(s: nat) requires 64 <= s < 80 ensures Placed(s) { }

  lemma Placed5(s: nat) requires 80 <= s < 96 ensures Placed(s) { }

  lemma Placed6(s: nat) requires 96 <= s < 112 ensures Placed(s) { }

  lemma Placed7(s: nat) requires 112 <= s < 128 ensures Placed(s) { }

  lemma Placed8(s: nat) requires 128 <= s < 144 ensures Placed(s) { }

  lemma Placed9(s: nat) requires 144 <= s < 160 ensures Placed(s) { }

  lemma Placed10(s: nat) requires 160 <= s < 176 ensures Placed(s) { }

  lemma Placed11(s: nat) requires 176 <= s < 192 ensures Placed(s) { }

  lemma Placed12(s: nat) requires 192 <= s < 208 ensures Placed(s) { }

  lemma Placed13(s: nat) requires 208 <= s < 224 ensures Placed(s) { }

  lemma Placed14(s: nat) requires 224 <= s < 240 ensures Placed(s) { }

  lemma Placed15(s: nat) requires 240 <= s < 256 ensures Placed(s) { }

  lemma Placed16(s: nat) requires 256 <= s < 257 ensures Placed(s) { }

  lemma AllPlaced(s: nat)
    requires s < 257
    ensures Placed(s)
  {
    if s < 16 {
      Placed0(s);
    } else if s < 32 {
      Placed1(s);
    } else if s < 48 {
      Placed2(s);
    } else if s < 64 {
      Placed3(s);
    } else if s < 80 {
      Placed4(s);
    } else if s < 96 {
      Placed5(s);
    } else if s < 112 {
      Placed6(s);
    } else if s < 128 {
      Placed7(s);
    } else if s < 144 {
      Placed8(s);
    } else if s < 160 {
      Placed9(s);
    } else if s < 176 {
      Placed10(s);
    } else if s < 192 {
      Placed11(s);
    } else if s < 208 {
      Placed12(s);
    } else if s < 224 {
      Placed13(s);
    } else if s < 240 {
      Placed14(s);
    } else if s < 256 {
      Placed15(s);
    } else {
      Placed16(s);
    }
  }

  /** One more bit doubles the interval where no shorter code lies. */
  lemma NextLength(length: nat)
    requires length < 30
    ensures IntervalOf(length + 1).first == 2 * Limit(length)
    ensures IntervalOf(length + 1).shorter == IntervalOf(length).shorter + IntervalOf(length).count
    ensures IntervalOf(length + 1).shorter + IntervalOf(length + 1).count <= 257
  {
  }

  // ---- The order of the codes ----

  /** The ranks where a length begins. */
  predicate Begins(rank: nat) {
    rank in {0, 10, 36, 68, 74, 79, 82, 84, 90, 92, 95, 98, 106, 119, 145, 174, 186, 190, 205, 224, 253}
  }

  lemma Ascends0(rank: nat) requires 0 <= rank < 16 ensures Begins(rank + 1) || Ranked(rank) < Ranked(rank + 1) { }

  lemma Ascends1(rank: nat) requires 16 <= rank < 32 ensures Begins(rank + 1) || Ranked(rank) < Ranked(rank + 1) { }

  lemma Ascends2(rank: nat) requires 32 <= rank < 48 ensures Begins(rank + 1) || Ranked(rank) < Ranked(rank + 1) { }

  lemma Ascends3(rank: nat) requires 48 <= rank < 64 ensures Begins(rank + 1) || Ranked(rank) < Ranked(rank + 1) { }

  lemma Ascends4(rank: nat) requires 64 <= rank < 80 ensures Begins(rank + 1) || Ranked(rank) < Ranked(rank + 1) { }

  lemma Ascends5(rank: nat) requires 80 <= rank < 96 ensures Begins(rank + 1) || Ranked(rank) < Ranked(rank + 1) { }

  lemma Ascends6(rank: nat) requires 96 <= rank < 112 ensures Begins(rank + 1) || Ranked(rank) < Ranked(rank + 1) { }

  lemma Ascends7(rank: nat) requires 112 <= rank < 128 ensures Begins(rank + 1) || Ranked(rank) < Ranked(rank + 1) { }

  lemma Ascends8(rank: nat) requires 128 <= rank < 144 ensures Begins(rank + 1) || Ranked(rank) < Ranked(rank + 1) { }

  lemma Ascends9(rank: nat) requires 144 <= rank < 160 ensures Begins(rank + 1) || Ranked(rank) < Ranked(rank + 1) { }

  lemma Ascends10(rank: nat) requires 160 <= rank < 176 ensures Begins(rank + 1) || Ranked(rank) < Ranked(rank + 1) { }

  lemma Ascends11(rank: nat) requires 176 <= rank < 192 ensures Begins(rank + 1) || Ranked(rank) < Ranked(rank + 1) { }

  lemma Ascends12(rank: nat) requires 192 <= rank < 208 ensures Begins(rank + 1) || Ranked(rank) < Ranked(rank + 1) { }

  lemma Ascends13(rank: nat) requires 208 <= rank < 224 ensures Begins(rank + 1) || Ranked(rank) < Ranked(rank + 1) { }

  lemma Ascends14(rank: nat) requires 224 <= rank < 240 ensures Begins(rank + 1) || Ranked(rank) < Ranked(rank + 1) { }

  lemma Ascends15(rank: nat) requires 240 <= rank < 256 ensures Begins(rank + 1) || Ranked(rank) < Ranked(rank + 1) { }

  lemma Ascends(rank: nat)
    requires rank < 256
    ensures Begins(rank + 1) || Ranked(rank) < Ranked(rank + 1)
  {
    hide Begins;
    hide Ranked;
    if rank < 16 {
      Ascends0(rank);
    } else if rank < 32 {
      Ascends1(rank);
    } else if rank < 48 {
      Ascends2(rank);
    } else if rank < 64 {
      Ascends3(rank);
    } else if rank < 80 {
      Ascends4(rank);
    } else if rank < 96 {
      Ascends5(rank);
    } else if rank < 112 {
      Ascends6(rank);
    } else if rank < 128 {
      Ascends7(rank);
    } else if rank < 144 {
      Ascends8(rank);
    } else if rank < 160 {
      Ascends9(rank);
    } else if rank < 176 {
      Ascends10(rank);
    } else if rank < 192 {
      Ascends11(rank);
    } else if rank < 208 {
      Ascends12(rank);
    } else if rank < 224 {
      Ascends13(rank);
    } else if rank < 240 {
      Ascends14(rank);
    } else {
      Ascends15(rank);
    }
  }
}
