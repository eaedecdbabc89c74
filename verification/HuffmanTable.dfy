/**
 The HPACK Huffman table: for each symbol (0..255 the bytes, 256 the end-of-string symbol) the length of its code and
 the code itself, left-aligned in 32 bits. Left-aligned codes are the starts of intervals [Code, Code + Width); listed
 in code order these intervals tile [0, 2^32), which is what makes the code prefix-free and complete.

 The tables are decision trees over the symbol so that the verifier looks a symbol up in a few steps.
 */
module HuffmanTable {
  const SYMBOLS := 257
  const EOS := 256
  const FIRST := 48

  function Nbits(i: nat): nat {
    if i < 8 then
      if i == 0 then 13 else if i == 1 then 23 else if i == 2 then 28 else if i == 3 then 28 else
      if i == 4 then 28 else if i == 5 then 28 else if i == 6 then 28 else 28
    else if i < 16 then
      if i == 8 then 28 else if i == 9 then 24 else if i == 10 then 30 else if i == 11 then 28 else
      if i == 12 then 28 else if i == 13 then 30 else if i == 14 then 28 else 28
    else if i < 24 then
      if i == 16 then 28 else if i == 17 then 28 else if i == 18 then 28 else if i == 19 then 28 else
      if i == 20 then 28 else if i == 21 then 28 else if i == 22 then 30 else 28
    else if i < 32 then
      if i == 24 then 28 else if i == 25 then 28 else if i == 26 then 28 else if i == 27 then 28 else
      if i == 28 then 28 else if i == 29 then 28 else if i == 30 then 28 else 28
    else if i < 40 then
      if i == 32 then 6 else if i == 33 then 10 else if i == 34 then 10 else if i == 35 then 12 else
      if i == 36 then 13 else if i == 37 then 6 else if i == 38 then 8 else 11
    else if i < 48 then
      if i == 40 then 10 else if i == 41 then 10 else if i == 42 then 8 else if i == 43 then 11 else
      if i == 44 then 8 else if i == 45 then 6 else if i == 46 then 6 else 6
    else if i < 56 then
      if i == 48 then 5 else if i == 49 then 5 else if i == 50 then 5 else if i == 51 then 6 else
      if i == 52 then 6 else if i == 53 then 6 else if i == 54 then 6 else 6
    else if i < 64 then
      if i == 56 then 6 else if i == 57 then 6 else if i == 58 then 7 else if i == 59 then 8 else
      if i == 60 then 15 else if i == 61 then 6 else if i == 62 then 12 else 10
    else if i < 72 then
      if i == 64 then 13 else if i == 65 then 6 else if i == 66 then 7 else if i == 67 then 7 else
      if i == 68 then 7 else if i == 69 then 7 else if i == 70 then 7 else 7
    else if i < 80 then
      if i == 72 then 7 else if i == 73 then 7 else if i == 74 then 7 else if i == 75 then 7 else
      if i == 76 then 7 else if i == 77 then 7 else if i == 78 then 7 else 7
    else if i < 88 then
      if i == 80 then 7 else if i == 81 then 7 else if i == 82 then 7 else if i == 83 then 7 else
      if i == 84 then 7 else if i == 85 then 7 else if i == 86 then 7 else 7
    else if i < 96 then
      if i == 88 then 8 else if i == 89 then 7 else if i == 90 then 8 else if i == 91 then 13 else
      if i == 92 then 19 else if i == 93 then 13 else if i == 94 then 14 else 6
    else if i < 104 then
      if i == 96 then 15 else if i == 97 then 5 else if i == 98 then 6 else if i == 99 then 5 else
      if i == 100 then 6 else if i == 101 then 5 else if i == 102 then 6 else 6
    else if i < 112 then
      if i == 104 then 6 else if i == 105 then 5 else if i == 106 then 7 else if i == 107 then 7 else
      if i == 108 then 6 else if i == 109 then 6 else if i == 110 then 6 else 5
    else if i < 120 then
      if i == 112 then 6 else if i == 113 then 7 else if i == 114 then 6 else if i == 115 then 5 else
      if i == 116 then 5 else if i == 117 then 6 else if i == 118 then 7 else 7
    else if i < 128 then
      if i == 120 then 7 else if i == 121 then 7 else if i == 122 then 7 else if i == 123 then 15 else
      if i == 124 then 11 else if i == 125 then 14 else if i == 126 then 13 else 28
    else if i < 136 then
      if i == 128 then 20 else if i == 129 then 22 else if i == 130 then 20 else if i == 131 then 20 else
      if i == 132 then 22 else if i == 133 then 22 else if i == 134 then 22 else 23
    else if i < 144 then
      if i == 136 then 22 else if i == 137 then 23 else if i == 138 then 23 else if i == 139 then 23 else
      if i == 140 then 23 else if i == 141 then 23 else if i == 142 then 24 else 23
    else if i < 152 then
      if i == 144 then 24 else if i == 145 then 24 else if i == 146 then 22 else if i == 147 then 23 else
      if i == 148 then 24 else if i == 149 then 23 else if i == 150 then 23 else 23
    else if i < 160 then
      if i == 152 then 23 else if i == 153 then 21 else if i == 154 then 22 else if i == 155 then 23 else
      if i == 156 then 22 else if i == 157 then 23 else if i == 158 then 23 else 24
    else if i < 168 then
      if i == 160 then 22 else if i == 161 then 21 else if i == 162 then 20 else if i == 163 then 22 else
      if i == 164 then 22 else if i == 165 then 23 else if i == 166 then 23 else 21
    else if i < 176 then
      if i == 168 then 23 else if i == 169 then 22 else if i == 170 then 22 else if i == 171 then 24 else
      if i == 172 then 21 else if i == 173 then 22 else if i == 174 then 23 else 23
    else if i < 184 then
      if i == 176 then 21 else if i == 177 then 21 else if i == 178 then 22 else if i == 179 then 21 else
      if i == 180 then 23 else if i == 181 then 22 else if i == 182 then 23 else 23
    else if i < 192 then
      if i == 184 then 20 else if i == 185 then 22 else if i == 186 then 22 else if i == 187 then 22 else
      if i == 188 then 23 else if i == 189 then 22 else if i == 190 then 22 else 23
    else if i < 200 then
      if i == 192 then 26 else if i == 193 then 26 else if i == 194 then 20 else if i == 195 then 19 else
      if i == 196 then 22 else if i == 197 then 23 else if i == 198 then 22 else 25
    else if i < 208 then
      if i == 200 then 26 else if i == 201 then 26 else if i == 202 then 26 else if i == 203 then 27 else
      if i == 204 then 27 else if i == 205 then 26 else if i == 206 then 24 else 25
    else if i < 216 then
      if i == 208 then 19 else if i == 209 then 21 else if i == 210 then 26 else if i == 211 then 27 else
      if i == 212 then 27 else if i == 213 then 26 else if i == 214 then 27 else 24
    else if i < 224 then
      if i == 216 then 21 else if i == 217 then 21 else if i == 218 then 26 else if i == 219 then 26 else
      if i == 220 then 28 else if i == 221 then 27 else if i == 222 then 27 else 27
    else if i < 232 then
      if i == 224 then 20 else if i == 225 then 24 else if i == 226 then 20 else if i == 227 then 21 else
      if i == 228 then 22 else if i == 229 then 21 else if i == 230 then 21 else 23
    else if i < 240 then
      if i == 232 then 22 else if i == 233 then 22 else if i == 234 then 25 else if i == 235 then 25 else
      if i == 236 then 24 else if i == 237 then 24 else if i == 238 then 26 else 23
    else if i < 248 then
      if i == 240 then 26 else if i == 241 then 27 else if i == 242 then 26 else if i == 243 then 26 else
      if i == 244 then 27 else if i == 245 then 27 else if i == 246 then 27 else 27
    else if i < 256 then
      if i == 248 then 27 else if i == 249 then 28 else if i == 250 then 27 else if i == 251 then 27 else
      if i == 252 then 27 else if i == 253 then 27 else if i == 254 then 27 else 26
    else 30
  }

  function Code(i: nat): nat {
    if i < 8 then
      if i == 0 then 0xffc00000 else if i == 1 then 0xffffb000 else if i == 2 then 0xfffffe20 else
      if i == 3 then 0xfffffe30 else if i == 4 then 0xfffffe40 else if i == 5 then 0xfffffe50 else
      if i == 6 then 0xfffffe60 else 0xfffffe70
    else if i < 16 then
      if i == 8 then 0xfffffe80 else if i == 9 then 0xffffea00 else if i == 10 then 0xfffffff0 else
      if i == 11 then 0xfffffe90 else if i == 12 then 0xfffffea0 else if i == 13 then 0xfffffff4 else
      if i == 14 then 0xfffffeb0 else 0xfffffec0
    else if i < 24 then
      if i == 16 then 0xfffffed0 else if i == 17 then 0xfffffee0 else if i == 18 then 0xfffffef0 else
      if i == 19 then 0xffffff00 else if i == 20 then 0xffffff10 else if i == 21 then 0xffffff20 else
      if i == 22 then 0xfffffff8 else 0xffffff30
    else if i < 32 then
      if i == 24 then 0xffffff40 else if i == 25 then 0xffffff50 else if i == 26 then 0xffffff60 else
      if i == 27 then 0xffffff70 else if i == 28 then 0xffffff80 else if i == 29 then 0xffffff90 else
      if i == 30 then 0xffffffa0 else 0xffffffb0
    else if i < 40 then
      if i == 32 then 0x50000000 else if i == 33 then 0xfe000000 else if i == 34 then 0xfe400000 else
      if i == 35 then 0xffa00000 else if i == 36 then 0xffc80000 else if i == 37 then 0x54000000 else
      if i == 38 then 0xf8000000 else 0xff400000
    else if i < 48 then
      if i == 40 then 0xfe800000 else if i == 41 then 0xfec00000 else if i == 42 then 0xf9000000 else
      if i == 43 then 0xff600000 else if i == 44 then 0xfa000000 else if i == 45 then 0x58000000 else
      if i == 46 then 0x5c000000 else 0x60000000
    else if i < 56 then
      if i == 48 then 0x0 else if i == 49 then 0x8000000 else if i == 50 then 0x10000000 else
      if i == 51 then 0x64000000 else if i == 52 then 0x68000000 else if i == 53 then 0x6c000000 else
      if i == 54 then 0x70000000 else 0x74000000
    else if i < 64 then
      if i == 56 then 0x78000000 else if i == 57 then 0x7c000000 else if i == 58 then 0xb8000000 else
      if i == 59 then 0xfb000000 else if i == 60 then 0xfff80000 else if i == 61 then 0x80000000 else
      if i == 62 then 0xffb00000 else 0xff000000
    else if i < 72 then
      if i == 64 then 0xffd00000 else if i == 65 then 0x84000000 else if i == 66 then 0xba000000 else
      if i == 67 then 0xbc000000 else if i == 68 then 0xbe000000 else if i == 69 then 0xc0000000 else
      if i == 70 then 0xc2000000 else 0xc4000000
    else if i < 80 then
      if i == 72 then 0xc6000000 else if i == 73 then 0xc8000000 else if i == 74 then 0xca000000 else
      if i == 75 then 0xcc000000 else if i == 76 then 0xce000000 else if i == 77 then 0xd0000000 else
      if i == 78 then 0xd2000000 else 0xd4000000
    else if i < 88 then
      if i == 80 then 0xd6000000 else if i == 81 then 0xd8000000 else if i == 82 then 0xda000000 else
      if i == 83 then 0xdc000000 else if i == 84 then 0xde000000 else if i == 85 then 0xe0000000 else
      if i == 86 then 0xe2000000 else 0xe4000000
    else if i < 96 then
      if i == 88 then 0xfc000000 else if i == 89 then 0xe6000000 else if i == 90 then 0xfd000000 else
      if i == 91 then 0xffd80000 else if i == 92 then 0xfffe0000 else if i == 93 then 0xffe00000 else
      if i == 94 then 0xfff00000 else 0x88000000
    else if i < 104 then
      if i == 96 then 0xfffa0000 else if i == 97 then 0x18000000 else if i == 98 then 0x8c000000 else
      if i == 99 then 0x20000000 else if i == 100 then 0x90000000 else if i == 101 then 0x28000000 else
      if i == 102 then 0x94000000 else 0x98000000
    else if i < 112 then
      if i == 104 then 0x9c000000 else if i == 105 then 0x30000000 else if i == 106 then 0xe8000000 else
      if i == 107 then 0xea000000 else if i == 108 then 0xa0000000 else if i == 109 then 0xa4000000 else
      if i == 110 then 0xa8000000 else 0x38000000
    else if i < 120 then
      if i == 112 then 0xac000000 else if i == 113 then 0xec000000 else if i == 114 then 0xb0000000 else
      if i == 115 then 0x40000000 else if i == 116 then 0x48000000 else if i == 117 then 0xb4000000 else
      if i == 118 then 0xee000000 else 0xf0000000
    else if i < 128 then
      if i == 120 then 0xf2000000 else if i == 121 then 0xf4000000 else if i == 122 then 0xf6000000 else
      if i == 123 then 0xfffc0000 else if i == 124 then 0xff800000 else if i == 125 then 0xfff40000 else
      if i == 126 then 0xffe80000 else 0xffffffc0
    else if i < 136 then
      if i == 128 then 0xfffe6000 else if i == 129 then 0xffff4800 else if i == 130 then 0xfffe7000 else
      if i == 131 then 0xfffe8000 else if i == 132 then 0xffff4c00 else if i == 133 then 0xffff5000 else
      if i == 134 then 0xffff5400 else 0xffffb200
    else if i < 144 then
      if i == 136 then 0xffff5800 else if i == 137 then 0xffffb400 else if i == 138 then 0xffffb600 else
      if i == 139 then 0xffffb800 else if i == 140 then 0xffffba00 else if i == 141 then 0xffffbc00 else
      if i == 142 then 0xffffeb00 else 0xffffbe00
    else if i < 152 then
      if i == 144 then 0xffffec00 else if i == 145 then 0xffffed00 else if i == 146 then 0xffff5c00 else
      if i == 147 then 0xffffc000 else if i == 148 then 0xffffee00 else if i == 149 then 0xffffc200 else
      if i == 150 then 0xffffc400 else 0xffffc600
    else if i < 160 then
      if i == 152 then 0xffffc800 else if i == 153 then 0xfffee000 else if i == 154 then 0xffff6000 else
      if i == 155 then 0xffffca00 else if i == 156 then 0xffff6400 else if i == 157 then 0xffffcc00 else
      if i == 158 then 0xffffce00 else 0xffffef00
    else if i < 168 then
      if i == 160 then 0xffff6800 else if i == 161 then 0xfffee800 else if i == 162 then 0xfffe9000 else
      if i == 163 then 0xffff6c00 else if i == 164 then 0xffff7000 else if i == 165 then 0xffffd000 else
      if i == 166 then 0xffffd200 else 0xfffef000
    else if i < 176 then
      if i == 168 then 0xffffd400 else if i == 169 then 0xffff7400 else if i == 170 then 0xffff7800 else
      if i == 171 then 0xfffff000 else if i == 172 then 0xfffef800 else if i == 173 then 0xffff7c00 else
      if i == 174 then 0xffffd600 else 0xffffd800
    else if i < 184 then
      if i == 176 then 0xffff0000 else if i == 177 then 0xffff0800 else if i == 178 then 0xffff8000 else
      if i == 179 then 0xffff1000 else if i == 180 then 0xffffda00 else if i == 181 then 0xffff8400 else
      if i == 182 then 0xffffdc00 else 0xffffde00
    else if i < 192 then
      if i == 184 then 0xfffea000 else if i == 185 then 0xffff8800 else if i == 186 then 0xffff8c00 else
      if i == 187 then 0xffff9000 else if i == 188 then 0xffffe000 else if i == 189 then 0xffff9400 else
      if i == 190 then 0xffff9800 else 0xffffe200
    else if i < 200 then
      if i == 192 then 0xfffff800 else if i == 193 then 0xfffff840 else if i == 194 then 0xfffeb000 else
      if i == 195 then 0xfffe2000 else if i == 196 then 0xffff9c00 else if i == 197 then 0xffffe400 else
      if i == 198 then 0xffffa000 else 0xfffff600
    else if i < 208 then
      if i == 200 then 0xfffff880 else if i == 201 then 0xfffff8c0 else if i == 202 then 0xfffff900 else
      if i == 203 then 0xfffffbc0 else if i == 204 then 0xfffffbe0 else if i == 205 then 0xfffff940 else
      if i == 206 then 0xfffff100 else 0xfffff680
    else if i < 216 then
      if i == 208 then 0xfffe4000 else if i == 209 then 0xffff1800 else if i == 210 then 0xfffff980 else
      if i == 211 then 0xfffffc00 else if i == 212 then 0xfffffc20 else if i == 213 then 0xfffff9c0 else
      if i == 214 then 0xfffffc40 else 0xfffff200
    else if i < 224 then
      if i == 216 then 0xffff2000 else if i == 217 then 0xffff2800 else if i == 218 then 0xfffffa00 else
      if i == 219 then 0xfffffa40 else if i == 220 then 0xffffffd0 else if i == 221 then 0xfffffc60 else
      if i == 222 then 0xfffffc80 else 0xfffffca0
    else if i < 232 then
      if i == 224 then 0xfffec000 else if i == 225 then 0xfffff300 else if i == 226 then 0xfffed000 else
      if i == 227 then 0xffff3000 else if i == 228 then 0xffffa400 else if i == 229 then 0xffff3800 else
      if i == 230 then 0xffff4000 else 0xffffe600
    else if i < 240 then
      if i == 232 then 0xffffa800 else if i == 233 then 0xffffac00 else if i == 234 then 0xfffff700 else
      if i == 235 then 0xfffff780 else if i == 236 then 0xfffff400 else if i == 237 then 0xfffff500 else
      if i == 238 then 0xfffffa80 else 0xffffe800
    else if i < 248 then
      if i == 240 then 0xfffffac0 else if i == 241 then 0xfffffcc0 else if i == 242 then 0xfffffb00 else
      if i == 243 then 0xfffffb40 else if i == 244 then 0xfffffce0 else if i == 245 then 0xfffffd00 else
      if i == 246 then 0xfffffd20 else 0xfffffd40
    else if i < 256 then
      if i == 248 then 0xfffffd60 else if i == 249 then 0xffffffe0 else if i == 250 then 0xfffffd80 else
      if i == 251 then 0xfffffda0 else if i == 252 then 0xfffffdc0 else if i == 253 then 0xfffffde0 else
      if i == 254 then 0xfffffe00 else 0xfffffb80
    else 0xfffffffc
  }

  /** The symbol whose code comes just before that of i in code order. */
  function Prev(i: nat): nat {
    if i < 8 then
      if i == 0 then 62 else if i == 1 then 233 else if i == 2 then 254 else if i == 3 then 2 else
      if i == 4 then 3 else if i == 5 then 4 else if i == 6 then 5 else 6
    else if i < 16 then
      if i == 8 then 7 else if i == 9 then 239 else if i == 10 then 249 else if i == 11 then 8 else
      if i == 12 then 11 else if i == 13 then 10 else if i == 14 then 12 else 14
    else if i < 24 then
      if i == 16 then 15 else if i == 17 then 16 else if i == 18 then 17 else if i == 19 then 18 else
      if i == 20 then 19 else if i == 21 then 20 else if i == 22 then 13 else 21
    else if i < 32 then
      if i == 24 then 23 else if i == 25 then 24 else if i == 26 then 25 else if i == 27 then 26 else
      if i == 28 then 27 else if i == 29 then 28 else if i == 30 then 29 else 30
    else if i < 40 then
      if i == 32 then 116 else if i == 33 then 90 else if i == 34 then 33 else if i == 35 then 124 else
      if i == 36 then 0 else if i == 37 then 32 else if i == 38 then 122 else 63
    else if i < 48 then
      if i == 40 then 34 else if i == 41 then 40 else if i == 42 then 38 else if i == 43 then 39 else
      if i == 44 then 42 else if i == 45 then 37 else if i == 46 then 45 else 46
    else if i < 56 then
      if i == 48 then 48 else if i == 49 then 48 else if i == 50 then 49 else if i == 51 then 47 else
      if i == 52 then 51 else if i == 53 then 52 else if i == 54 then 53 else 54
    else if i < 64 then
      if i == 56 then 55 else if i == 57 then 56 else if i == 58 then 117 else if i == 59 then 44 else
      if i == 60 then 125 else if i == 61 then 57 else if i == 62 then 35 else 41
    else if i < 72 then
      if i == 64 then 36 else if i == 65 then 61 else if i == 66 then 58 else if i == 67 then 66 else
      if i == 68 then 67 else if i == 69 then 68 else if i == 70 then 69 else 70
    else if i < 80 then
      if i == 72 then 71 else if i == 73 then 72 else if i == 74 then 73 else if i == 75 then 74 else
      if i == 76 then 75 else if i == 77 then 76 else if i == 78 then 77 else 78
    else if i < 88 then
      if i == 80 then 79 else if i == 81 then 80 else if i == 82 then 81 else if i == 83 then 82 else
      if i == 84 then 83 else if i == 85 then 84 else if i == 86 then 85 else 86
    else if i < 96 then
      if i == 88 then 59 else if i == 89 then 87 else if i == 90 then 88 else if i == 91 then 64 else
      if i == 92 then 123 else if i == 93 then 91 else if i == 94 then 126 else 65
    else if i < 104 then
      if i == 96 then 60 else if i == 97 then 50 else if i == 98 then 95 else if i == 99 then 97 else
      if i == 100 then 98 else if i == 101 then 99 else if i == 102 then 100 else 102
    else if i < 112 then
      if i == 104 then 103 else if i == 105 then 101 else if i == 106 then 89 else if i == 107 then 106 else
      if i == 108 then 104 else if i == 109 then 108 else if i == 110 then 109 else 105
    else if i < 120 then
      if i == 112 then 110 else if i == 113 then 107 else if i == 114 then 112 else if i == 115 then 111 else
      if i == 116 then 115 else if i == 117 then 114 else if i == 118 then 113 else 118
    else if i < 128 then
      if i == 120 then 119 else if i == 121 then 120 else if i == 122 then 121 else if i == 123 then 96 else
      if i == 124 then 43 else if i == 125 then 94 else if i == 126 then 93 else 31
    else if i < 136 then
      if i == 128 then 208 else if i == 129 then 230 else if i == 130 then 128 else if i == 131 then 130 else
      if i == 132 then 129 else if i == 133 then 132 else if i == 134 then 133 else 1
    else if i < 144 then
      if i == 136 then 134 else if i == 137 then 135 else if i == 138 then 137 else if i == 139 then 138 else
      if i == 140 then 139 else if i == 141 then 140 else if i == 142 then 9 else 141
    else if i < 152 then
      if i == 144 then 142 else if i == 145 then 144 else if i == 146 then 136 else if i == 147 then 143 else
      if i == 148 then 145 else if i == 149 then 147 else if i == 150 then 149 else 150
    else if i < 160 then
      if i == 152 then 151 else if i == 153 then 226 else if i == 154 then 146 else if i == 155 then 152 else
      if i == 156 then 154 else if i == 157 then 155 else if i == 158 then 157 else 148
    else if i < 168 then
      if i == 160 then 156 else if i == 161 then 153 else if i == 162 then 131 else if i == 163 then 160 else
      if i == 164 then 163 else if i == 165 then 158 else if i == 166 then 165 else 161
    else if i < 176 then
      if i == 168 then 166 else if i == 169 then 164 else if i == 170 then 169 else if i == 171 then 159 else
      if i == 172 then 167 else if i == 173 then 170 else if i == 174 then 168 else 174
    else if i < 184 then
      if i == 176 then 172 else if i == 177 then 176 else if i == 178 then 173 else if i == 179 then 177 else
      if i == 180 then 175 else if i == 181 then 178 else if i == 182 then 180 else 182
    else if i < 192 then
      if i == 184 then 162 else if i == 185 then 181 else if i == 186 then 185 else if i == 187 then 186 else
      if i == 188 then 183 else if i == 189 then 187 else if i == 190 then 189 else 188
    else if i < 200 then
      if i == 192 then 235 else if i == 193 then 192 else if i == 194 then 184 else if i == 195 then 92 else
      if i == 196 then 190 else if i == 197 then 191 else if i == 198 then 196 else 237
    else if i < 208 then
      if i == 200 then 193 else if i == 201 then 200 else if i == 202 then 201 else if i == 203 then 255 else
      if i == 204 then 203 else if i == 205 then 202 else if i == 206 then 171 else 199
    else if i < 216 then
      if i == 208 then 195 else if i == 209 then 179 else if i == 210 then 205 else if i == 211 then 204 else
      if i == 212 then 211 else if i == 213 then 210 else if i == 214 then 212 else 206
    else if i < 224 then
      if i == 216 then 209 else if i == 217 then 216 else if i == 218 then 213 else if i == 219 then 218 else
      if i == 220 then 127 else if i == 221 then 214 else if i == 222 then 221 else 222
    else if i < 232 then
      if i == 224 then 194 else if i == 225 then 215 else if i == 226 then 224 else if i == 227 then 217 else
      if i == 228 then 198 else if i == 229 then 227 else if i == 230 then 229 else 197
    else if i < 240 then
      if i == 232 then 228 else if i == 233 then 232 else if i == 234 then 207 else if i == 235 then 234 else
      if i == 236 then 225 else if i == 237 then 236 else if i == 238 then 219 else 231
    else if i < 248 then
      if i == 240 then 238 else if i == 241 then 223 else if i == 242 then 240 else if i == 243 then 242 else
      if i == 244 then 241 else if i == 245 then 244 else if i == 246 then 245 else 246
    else if i < 256 then
      if i == 248 then 247 else if i == 249 then 220 else if i == 250 then 248 else if i == 251 then 250 else
      if i == 252 then 251 else if i == 253 then 252 else if i == 254 then 253 else 243
    else 22
  }

  /** The symbol whose code comes just after that of i in code order. */
  function Next(i: nat): nat {
    if i < 8 then
      if i == 0 then 36 else if i == 1 then 135 else if i == 2 then 3 else if i == 3 then 4 else
      if i == 4 then 5 else if i == 5 then 6 else if i == 6 then 7 else 8
    else if i < 16 then
      if i == 8 then 11 else if i == 9 then 142 else if i == 10 then 13 else if i == 11 then 12 else
      if i == 12 then 14 else if i == 13 then 22 else if i == 14 then 15 else 16
    else if i < 24 then
      if i == 16 then 17 else if i == 17 then 18 else if i == 18 then 19 else if i == 19 then 20 else
      if i == 20 then 21 else if i == 21 then 23 else if i == 22 then 256 else 24
    else if i < 32 then
      if i == 24 then 25 else if i == 25 then 26 else if i == 26 then 27 else if i == 27 then 28 else
      if i == 28 then 29 else if i == 29 then 30 else if i == 30 then 31 else 127
    else if i < 40 then
      if i == 32 then 37 else if i == 33 then 34 else if i == 34 then 40 else if i == 35 then 62 else
      if i == 36 then 64 else if i == 37 then 45 else if i == 38 then 42 else 43
    else if i < 48 then
      if i == 40 then 41 else if i == 41 then 63 else if i == 42 then 44 else if i == 43 then 124 else
      if i == 44 then 59 else if i == 45 then 46 else if i == 46 then 47 else 51
    else if i < 56 then
      if i == 48 then 49 else if i == 49 then 50 else if i == 50 then 97 else if i == 51 then 52 else
      if i == 52 then 53 else if i == 53 then 54 else if i == 54 then 55 else 56
    else if i < 64 then
      if i == 56 then 57 else if i == 57 then 61 else if i == 58 then 66 else if i == 59 then 88 else
      if i == 60 then 96 else if i == 61 then 65 else if i == 62 then 0 else 39
    else if i < 72 then
      if i == 64 then 91 else if i == 65 then 95 else if i == 66 then 67 else if i == 67 then 68 else
      if i == 68 then 69 else if i == 69 then 70 else if i == 70 then 71 else 72
    else if i < 80 then
      if i == 72 then 73 else if i == 73 then 74 else if i == 74 then 75 else if i == 75 then 76 else
      if i == 76 then 77 else if i == 77 then 78 else if i == 78 then 79 else 80
    else if i < 88 then
      if i == 80 then 81 else if i == 81 then 82 else if i == 82 then 83 else if i == 83 then 84 else
      if i == 84 then 85 else if i == 85 then 86 else if i == 86 then 87 else 89
    else if i < 96 then
      if i == 88 then 90 else if i == 89 then 106 else if i == 90 then 33 else if i == 91 then 93 else
      if i == 92 then 195 else if i == 93 then 126 else if i == 94 then 125 else 98
    else if i < 104 then
      if i == 96 then 123 else if i == 97 then 99 else if i == 98 then 100 else if i == 99 then 101 else
      if i == 100 then 102 else if i == 101 then 105 else if i == 102 then 103 else 104
    else if i < 112 then
      if i == 104 then 108 else if i == 105 then 111 else if i == 106 then 107 else if i == 107 then 113 else
      if i == 108 then 109 else if i == 109 then 110 else if i == 110 then 112 else 115
    else if i < 120 then
      if i == 112 then 114 else if i == 113 then 118 else if i == 114 then 117 else if i == 115 then 116 else
      if i == 116 then 32 else if i == 117 then 58 else if i == 118 then 119 else 120
    else if i < 128 then
      if i == 120 then 121 else if i == 121 then 122 else if i == 122 then 38 else if i == 123 then 92 else
      if i == 124 then 35 else if i == 125 then 60 else if i == 126 then 94 else 220
    else if i < 136 then
      if i == 128 then 130 else if i == 129 then 132 else if i == 130 then 131 else if i == 131 then 162 else
      if i == 132 then 133 else if i == 133 then 134 else if i == 134 then 136 else 137
    else if i < 144 then
      if i == 136 then 146 else if i == 137 then 138 else if i == 138 then 139 else if i == 139 then 140 else
      if i == 140 then 141 else if i == 141 then 143 else if i == 142 then 144 else 147
    else if i < 152 then
      if i == 144 then 145 else if i == 145 then 148 else if i == 146 then 154 else if i == 147 then 149 else
      if i == 148 then 159 else if i == 149 then 150 else if i == 150 then 151 else 152
    else if i < 160 then
      if i == 152 then 155 else if i == 153 then 161 else if i == 154 then 156 else if i == 155 then 157 else
      if i == 156 then 160 else if i == 157 then 158 else if i == 158 then 165 else 171
    else if i < 168 then
      if i == 160 then 163 else if i == 161 then 167 else if i == 162 then 184 else if i == 163 then 164 else
      if i == 164 then 169 else if i == 165 then 166 else if i == 166 then 168 else 172
    else if i < 176 then
      if i == 168 then 174 else if i == 169 then 170 else if i == 170 then 173 else if i == 171 then 206 else
      if i == 172 then 176 else if i == 173 then 178 else if i == 174 then 175 else 180
    else if i < 184 then
      if i == 176 then 177 else if i == 177 then 179 else if i == 178 then 181 else if i == 179 then 209 else
      if i == 180 then 182 else if i == 181 then 185 else if i == 182 then 183 else 188
    else if i < 192 then
      if i == 184 then 194 else if i == 185 then 186 else if i == 186 then 187 else if i == 187 then 189 else
      if i == 188 then 191 else if i == 189 then 190 else if i == 190 then 196 else 197
    else if i < 200 then
      if i == 192 then 193 else if i == 193 then 200 else if i == 194 then 224 else if i == 195 then 208 else
      if i == 196 then 198 else if i == 197 then 231 else if i == 198 then 228 else 207
    else if i < 208 then
      if i == 200 then 201 else if i == 201 then 202 else if i == 202 then 205 else if i == 203 then 204 else
      if i == 204 then 211 else if i == 205 then 210 else if i == 206 then 215 else 234
    else if i < 216 then
      if i == 208 then 128 else if i == 209 then 216 else if i == 210 then 213 else if i == 211 then 212 else
      if i == 212 then 214 else if i == 213 then 218 else if i == 214 then 221 else 225
    else if i < 224 then
      if i == 216 then 217 else if i == 217 then 227 else if i == 218 then 219 else if i == 219 then 238 else
      if i == 220 then 249 else if i == 221 then 222 else if i == 222 then 223 else 241
    else if i < 232 then
      if i == 224 then 226 else if i == 225 then 236 else if i == 226 then 153 else if i == 227 then 229 else
      if i == 228 then 232 else if i == 229 then 230 else if i == 230 then 129 else 239
    else if i < 240 then
      if i == 232 then 233 else if i == 233 then 1 else if i == 234 then 235 else if i == 235 then 192 else
      if i == 236 then 237 else if i == 237 then 199 else if i == 238 then 240 else 9
    else if i < 248 then
      if i == 240 then 242 else if i == 241 then 244 else if i == 242 then 243 else if i == 243 then 255 else
      if i == 244 then 245 else if i == 245 then 246 else if i == 246 then 247 else 248
    else if i < 256 then
      if i == 248 then 250 else if i == 249 then 10 else if i == 250 then 251 else if i == 251 then 252 else
      if i == 252 then 253 else if i == 253 then 254 else if i == 254 then 2 else 203
    else 0
  }

  /** 2^(32 - n): how many 32-bit words start with a given n-bit code. */
  function Width(n: nat): nat {
    if n < 8 then
      if n == 0 then 0x100000000 else if n == 1 then 0x80000000 else if n == 2 then 0x40000000 else
      if n == 3 then 0x20000000 else if n == 4 then 0x10000000 else if n == 5 then 0x8000000 else
      if n == 6 then 0x4000000 else 0x2000000
    else if n < 16 then
      if n == 8 then 0x1000000 else if n == 9 then 0x800000 else if n == 10 then 0x400000 else
      if n == 11 then 0x200000 else if n == 12 then 0x100000 else if n == 13 then 0x80000 else
      if n == 14 then 0x40000 else 0x20000
    else if n < 24 then
      if n == 16 then 0x10000 else if n == 17 then 0x8000 else if n == 18 then 0x4000 else
      if n == 19 then 0x2000 else if n == 20 then 0x1000 else if n == 21 then 0x800 else
      if n == 22 then 0x400 else 0x200
    else if n < 32 then
      if n == 24 then 0x100 else if n == 25 then 0x80 else if n == 26 then 0x40 else if n == 27 then 0x20 else
      if n == 28 then 0x10 else if n == 29 then 0x8 else if n == 30 then 0x4 else 0x2
    else 0x1
  }

  /** The interval of symbol i starts where that of Prev(i) ends, and codes never get shorter in code order. */
  predicate Follows(i: nat) {
    && Prev(i) < SYMBOLS && Next(Prev(i)) == i
    && Nbits(Prev(i)) <= Nbits(i)
    && Code(Prev(i)) + Width(Nbits(Prev(i))) == Code(i)
  }

  lemma Follows0(i: nat)
    requires 0 <= i < 16
    ensures Follows(i)
  {
  }

  lemma Follows16(i: nat)
    requires 16 <= i < 32
    ensures Follows(i)
  {
  }

  lemma Follows32(i: nat)
    requires 32 <= i < 48
    ensures Follows(i)
  {
  }

  lemma Follows48(i: nat)
    requires 48 <= i < 64 && i != FIRST
    ensures Follows(i)
  {
  }

  lemma Follows64(i: nat)
    requires 64 <= i < 80
    ensures Follows(i)
  {
  }

  lemma Follows80(i: nat)
    requires 80 <= i < 96
    ensures Follows(i)
  {
  }

  lemma Follows96(i: nat)
    requires 96 <= i < 112
    ensures Follows(i)
  {
  }

  lemma Follows112(i: nat)
    requires 112 <= i < 128
    ensures Follows(i)
  {
  }

  lemma Follows128(i: nat)
    requires 128 <= i < 144
    ensures Follows(i)
  {
  }

  lemma Follows144(i: nat)
    requires 144 <= i < 160
    ensures Follows(i)
  {
  }

  lemma Follows160(i: nat)
    requires 160 <= i < 176
    ensures Follows(i)
  {
  }

  lemma Follows176(i: nat)
    requires 176 <= i < 192
    ensures Follows(i)
  {
  }

  lemma Follows192(i: nat)
    requires 192 <= i < 208
    ensures Follows(i)
  {
  }

  lemma Follows208(i: nat)
    requires 208 <= i < 224
    ensures Follows(i)
  {
  }

  lemma Follows224(i: nat)
    requires 224 <= i < 240
    ensures Follows(i)
  {
  }

  lemma Follows240(i: nat)
    requires 240 <= i < 256
    ensures Follows(i)
  {
  }

  lemma AllFollow(i: nat)
    requires i < SYMBOLS && i != FIRST
    ensures Follows(i)
  {
    if i < 16 {
      Follows0(i);
    } else if i < 32 {
      Follows16(i);
    } else if i < 48 {
      Follows32(i);
    } else if i < 64 {
      Follows48(i);
    } else if i < 80 {
      Follows64(i);
    } else if i < 96 {
      Follows80(i);
    } else if i < 112 {
      Follows96(i);
    } else if i < 128 {
      Follows112(i);
    } else if i < 144 {
      Follows128(i);
    } else if i < 160 {
      Follows144(i);
    } else if i < 176 {
      Follows160(i);
    } else if i < 192 {
      Follows176(i);
    } else if i < 208 {
      Follows192(i);
    } else if i < 224 {
      Follows208(i);
    } else if i < 240 {
      Follows224(i);
    } else if i < 256 {
      Follows240(i);
    }
  }

  lemma CodeLengths(i: nat)
    requires i < SYMBOLS
    ensures 5 <= Nbits(i) <= 30
  {
  }

  lemma CodeBound(i: nat)
    requires i < SYMBOLS
    ensures Code(i) + Width(Nbits(i)) <= 0x1_0000_0000
  {
  }

  lemma TableEnds()
    ensures Code(FIRST) == 0
    ensures Code(EOS) + Width(Nbits(EOS)) == 0x1_0000_0000
    ensures Nbits(EOS) == 30 && Code(EOS) == 0xffff_fffc
  {
  }

  lemma WidthHalves(n: nat)
    requires n < 32
    ensures Width(n) == 2 * Width(n + 1)
    ensures Width(32) == 1
  {
  }
}
