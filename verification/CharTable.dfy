/** The 256-entry opcode table of the decompressor (char_table) and what its entries mean. */
module CharTable {
  import opened Bytes

  /** Entry c packs the length in bits 0..7, the copy offset / 256 in bits 8..10 and the extra bytes in bits 11..13. */
  function Entry(c: byte): uint16 {
    if c < 0x80 then
      if c < 0x40 then
        if c < 0x20 then Entry0(c) else Entry1(c)
      else if c < 0x60 then Entry2(c) else Entry3(c)
    else if c < 0xc0 then
      if c < 0xa0 then Entry4(c) else Entry5(c)
    else if c < 0xe0 then Entry6(c) else Entry7(c)
  }

  function Entry0(c: byte): uint16
    requires 0x00 <= c < 0x20
  {
    match c
    case 0 => 0x0001 case 1 => 0x0804 case 2 => 0x1001 case 3 => 0x2001
    case 4 => 0x0002 case 5 => 0x0805 case 6 => 0x1002 case 7 => 0x2002
    case 8 => 0x0003 case 9 => 0x0806 case 10 => 0x1003 case 11 => 0x2003
    case 12 => 0x0004 case 13 => 0x0807 case 14 => 0x1004 case 15 => 0x2004
    case 16 => 0x0005 case 17 => 0x0808 case 18 => 0x1005 case 19 => 0x2005
    case 20 => 0x0006 case 21 => 0x0809 case 22 => 0x1006 case 23 => 0x2006
    case 24 => 0x0007 case 25 => 0x080a case 26 => 0x1007 case 27 => 0x2007
    case 28 => 0x0008 case 29 => 0x080b case 30 => 0x1008 case _ => 0x2008
  }

  function Entry1(c: byte): uint16
    requires 0x20 <= c < 0x40
  {
    match c
    case 32 => 0x0009 case 33 => 0x0904 case 34 => 0x1009 case 35 => 0x2009
    case 36 => 0x000a case 37 => 0x0905 case 38 => 0x100a case 39 => 0x200a
    case 40 => 0x000b case 41 => 0x0906 case 42 => 0x100b case 43 => 0x200b
    case 44 => 0x000c case 45 => 0x0907 case 46 => 0x100c case 47 => 0x200c
    case 48 => 0x000d case 49 => 0x0908 case 50 => 0x100d case 51 => 0x200d
    case 52 => 0x000e case 53 => 0x0909 case 54 => 0x100e case 55 => 0x200e
    case 56 => 0x000f case 57 => 0x090a case 58 => 0x100f case 59 => 0x200f
    case 60 => 0x0010 case 61 => 0x090b case 62 => 0x1010 case _ => 0x2010
  }

  function Entry2(c: byte): uint16
    requires 0x40 <= c < 0x60
  {
    match c
    case 64 => 0x0011 case 65 => 0x0a04 case 66 => 0x1011 case 67 => 0x2011
    case 68 => 0x0012 case 69 => 0x0a05 case 70 => 0x1012 case 71 => 0x2012
    case 72 => 0x0013 case 73 => 0x0a06 case 74 => 0x1013 case 75 => 0x2013
    case 76 => 0x0014 case 77 => 0x0a07 case 78 => 0x1014 case 79 => 0x2014
    case 80 => 0x0015 case 81 => 0x0a08 case 82 => 0x1015 case 83 => 0x2015
    case 84 => 0x0016 case 85 => 0x0a09 case 86 => 0x1016 case 87 => 0x2016
    case 88 => 0x0017 case 89 => 0x0a0a case 90 => 0x1017 case 91 => 0x2017
    case 92 => 0x0018 case 93 => 0x0a0b case 94 => 0x1018 case _ => 0x2018
  }

  function Entry3(c: byte): uint16
    requires 0x60 <= c < 0x80
  {
    match c
    case 96 => 0x0019 case 97 => 0x0b04 case 98 => 0x1019 case 99 => 0x2019
    case 100 => 0x001a case 101 => 0x0b05 case 102 => 0x101a case 103 => 0x201a
    case 104 => 0x001b case 105 => 0x0b06 case 106 => 0x101b case 107 => 0x201b
    case 108 => 0x001c case 109 => 0x0b07 case 110 => 0x101c case 111 => 0x201c
    case 112 => 0x001d case 113 => 0x0b08 case 114 => 0x101d case 115 => 0x201d
    case 116 => 0x001e case 117 => 0x0b09 case 118 => 0x101e case 119 => 0x201e
    case 120 => 0x001f case 121 => 0x0b0a case 122 => 0x101f case 123 => 0x201f
    case 124 => 0x0020 case 125 => 0x0b0b case 126 => 0x1020 case _ => 0x2020
  }

  function Entry4(c: byte): uint16
    requires 0x80 <= c < 0xa0
  {
    match c
    case 128 => 0x0021 case 129 => 0x0c04 case 130 => 0x1021 case 131 => 0x2021
    case 132 => 0x0022 case 133 => 0x0c05 case 134 => 0x1022 case 135 => 0x2022
    case 136 => 0x0023 case 137 => 0x0c06 case 138 => 0x1023 case 139 => 0x2023
    case 140 => 0x0024 case 141 => 0x0c07 case 142 => 0x1024 case 143 => 0x2024
    case 144 => 0x0025 case 145 => 0x0c08 case 146 => 0x1025 case 147 => 0x2025
    case 148 => 0x0026 case 149 => 0x0c09 case 150 => 0x1026 case 151 => 0x2026
    case 152 => 0x0027 case 153 => 0x0c0a case 154 => 0x1027 case 155 => 0x2027
    case 156 => 0x0028 case 157 => 0x0c0b case 158 => 0x1028 case _ => 0x2028
  }

  function Entry5(c: byte): uint16
    requires 0xa0 <= c < 0xc0
  {
    match c
    case 160 => 0x0029 case 161 => 0x0d04 case 162 => 0x1029 case 163 => 0x2029
    case 164 => 0x002a case 165 => 0x0d05 case 166 => 0x102a case 167 => 0x202a
    case 168 => 0x002b case 169 => 0x0d06 case 170 => 0x102b case 171 => 0x202b
    case 172 => 0x002c case 173 => 0x0d07 case 174 => 0x102c case 175 => 0x202c
    case 176 => 0x002d case 177 => 0x0d08 case 178 => 0x102d case 179 => 0x202d
    case 180 => 0x002e case 181 => 0x0d09 case 182 => 0x102e case 183 => 0x202e
    case 184 => 0x002f case 185 => 0x0d0a case 186 => 0x102f case 187 => 0x202f
    case 188 => 0x0030 case 189 => 0x0d0b case 190 => 0x1030 case _ => 0x2030
  }

  function Entry6(c: byte): uint16
    requires 0xc0 <= c < 0xe0
  {
    match c
    case 192 => 0x0031 case 193 => 0x0e04 case 194 => 0x1031 case 195 => 0x2031
    case 196 => 0x0032 case 197 => 0x0e05 case 198 => 0x1032 case 199 => 0x2032
    case 200 => 0x0033 case 201 => 0x0e06 case 202 => 0x1033 case 203 => 0x2033
    case 204 => 0x0034 case 205 => 0x0e07 case 206 => 0x1034 case 207 => 0x2034
    case 208 => 0x0035 case 209 => 0x0e08 case 210 => 0x1035 case 211 => 0x2035
    case 212 => 0x0036 case 213 => 0x0e09 case 214 => 0x1036 case 215 => 0x2036
    case 216 => 0x0037 case 217 => 0x0e0a case 218 => 0x1037 case 219 => 0x2037
    case 220 => 0x0038 case 221 => 0x0e0b case 222 => 0x1038 case _ => 0x2038
  }

  function Entry7(c: byte): uint16
    requires 0xe0 <= c < 0x100
  {
    match c
    case 224 => 0x0039 case 225 => 0x0f04 case 226 => 0x1039 case 227 => 0x2039
    case 228 => 0x003a case 229 => 0x0f05 case 230 => 0x103a case 231 => 0x203a
    case 232 => 0x003b case 233 => 0x0f06 case 234 => 0x103b case 235 => 0x203b
    case 236 => 0x003c case 237 => 0x0f07 case 238 => 0x103c case 239 => 0x203c
    case 240 => 0x0801 case 241 => 0x0f08 case 242 => 0x103d case 243 => 0x203d
    case 244 => 0x1001 case 245 => 0x0f09 case 246 => 0x103e case 247 => 0x203e
    case 248 => 0x1801 case 249 => 0x0f0a case 250 => 0x103f case 251 => 0x203f
    case 252 => 0x2001 case 253 => 0x0f0b case 254 => 0x1040 case _ => 0x2040
  }

  /** The opcode layout: bits 0..1 select the kind, bits 2..7 hold length and offset fields. */
  function Layout(c: byte): uint16 {
    if c % 4 == 0 then if c / 4 < 60 then c / 4 + 1 else 0x800 * (c / 4 - 59) + 1
    else if c % 4 == 1 then 0x800 + 0x100 * (c / 32) + 4 + c / 4 % 8
    else if c % 4 == 2 then 0x1000 + c / 4 + 1
    else 0x2000 + c / 4 + 1
  }

  /** Every entry of the table is the packed form of its opcode. */
  lemma EntryIsLayout(c: byte)
    ensures Entry(c) == Layout(c)
  {
    if c < 0x80 {
      EntryIsLayoutLow(c);
    } else {
      EntryIsLayoutHigh(c);
    }
  }

  lemma EntryIsLayoutLow(c: byte)
    requires c < 0x80
    ensures Entry(c) == Layout(c)
  {
    if c < 0x20 {
      Entry0IsLayout(c);
    } else if c < 0x40 {
      Entry1IsLayout(c);
    } else if c < 0x60 {
      Entry2IsLayout(c);
    } else {
      Entry3IsLayout(c);
    }
  }

  lemma EntryIsLayoutHigh(c: byte)
    requires 0x80 <= c
    ensures Entry(c) == Layout(c)
  {
    if c < 0xa0 {
      Entry4IsLayout(c);
    } else if c < 0xc0 {
      Entry5IsLayout(c);
    } else if c < 0xe0 {
      Entry6IsLayout(c);
    } else {
      Entry7IsLayout(c);
    }
  }

  lemma Entry0IsLayout(c: byte)
    requires 0x00 <= c < 0x20
    ensures Entry0(c) == Layout(c)
  {
  }

  lemma Entry1IsLayout(c: byte)
    requires 0x20 <= c < 0x40
    ensures Entry1(c) == Layout(c)
  {
  }

  lemma Entry2IsLayout(c: byte)
    requires 0x40 <= c < 0x60
    ensures Entry2(c) == Layout(c)
  {
  }

  lemma Entry3IsLayout(c: byte)
    requires 0x60 <= c < 0x80
    ensures Entry3(c) == Layout(c)
  {
  }

  lemma Entry4IsLayout(c: byte)
    requires 0x80 <= c < 0xa0
    ensures Entry4(c) == Layout(c)
  {
  }

  lemma Entry5IsLayout(c: byte)
    requires 0xa0 <= c < 0xc0
    ensures Entry5(c) == Layout(c)
  {
  }

  lemma Entry6IsLayout(c: byte)
    requires 0xc0 <= c < 0xe0
    ensures Entry6(c) == Layout(c)
  {
  }

  lemma Entry7IsLayout(c: byte)
    requires 0xe0 <= c < 0x100
    ensures Entry7(c) == Layout(c)
  {
  }
}
