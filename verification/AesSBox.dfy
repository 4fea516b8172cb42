/** The S-box of section 5.1.1 of FIPS 197 and its inverse, a function for each row of sixteen entries. */
module SBox {
  function Row0(lo: bv8): bv8 {
    if lo == 0 then 0x63 else if lo == 1 then 0x7c else if lo == 2 then 0x77 else if lo == 3 then 0x7b
    else if lo == 4 then 0xf2 else if lo == 5 then 0x6b else if lo == 6 then 0x6f else if lo == 7 then 0xc5
    else if lo == 8 then 0x30 else if lo == 9 then 0x01 else if lo == 10 then 0x67 else if lo == 11 then 0x2b
    else if lo == 12 then 0xfe else if lo == 13 then 0xd7 else if lo == 14 then 0xab else 0x76
  }

  function Row1(lo: bv8): bv8 {
    if lo == 0 then 0xca else if lo == 1 then 0x82 else if lo == 2 then 0xc9 else if lo == 3 then 0x7d
    else if lo == 4 then 0xfa else if lo == 5 then 0x59 else if lo == 6 then 0x47 else if lo == 7 then 0xf0
    else if lo == 8 then 0xad else if lo == 9 then 0xd4 else if lo == 10 then 0xa2 else if lo == 11 then 0xaf
    else if lo == 12 then 0x9c else if lo == 13 then 0xa4 else if lo == 14 then 0x72 else 0xc0
  }

  function Row2(lo: bv8): bv8 {
    if lo == 0 then 0xb7 else if lo == 1 then 0xfd else if lo == 2 then 0x93 else if lo == 3 then 0x26
    else if lo == 4 then 0x36 else if lo == 5 then 0x3f else if lo == 6 then 0xf7 else if lo == 7 then 0xcc
    else if lo == 8 then 0x34 else if lo == 9 then 0xa5 else if lo == 10 then 0xe5 else if lo == 11 then 0xf1
    else if lo == 12 then 0x71 else if lo == 13 then 0xd8 else if lo == 14 then 0x31 else 0x15
  }

  function Row3(lo: bv8): bv8 {
    if lo == 0 then 0x04 else if lo == 1 then 0xc7 else if lo == 2 then 0x23 else if lo == 3 then 0xc3
    else if lo == 4 then 0x18 else if lo == 5 then 0x96 else if lo == 6 then 0x05 else if lo == 7 then 0x9a
    else if lo == 8 then 0x07 else if lo == 9 then 0x12 else if lo == 10 then 0x80 else if lo == 11 then 0xe2
    else if lo == 12 then 0xeb else if lo == 13 then 0x27 else if lo == 14 then 0xb2 else 0x75
  }

  function Row4(lo: bv8): bv8 {
    if lo == 0 then 0x09 else if lo == 1 then 0x83 else if lo == 2 then 0x2c else if lo == 3 then 0x1a
    else if lo == 4 then 0x1b else if lo == 5 then 0x6e else if lo == 6 then 0x5a else if lo == 7 then 0xa0
    else if lo == 8 then 0x52 else if lo == 9 then 0x3b else if lo == 10 then 0xd6 else if lo == 11 then 0xb3
    else if lo == 12 then 0x29 else if lo == 13 then 0xe3 else if lo == 14 then 0x2f else 0x84
  }

  function Row5(lo: bv8): bv8 {
    if lo == 0 then 0x53 else if lo == 1 then 0xd1 else if lo == 2 then 0x00 else if lo == 3 then 0xed
    else if lo == 4 then 0x20 else if lo == 5 then 0xfc else if lo == 6 then 0xb1 else if lo == 7 then 0x5b
    else if lo == 8 then 0x6a else if lo == 9 then 0xcb else if lo == 10 then 0xbe else if lo == 11 then 0x39
    else if lo == 12 then 0x4a else if lo == 13 then 0x4c else if lo == 14 then 0x58 else 0xcf
  }

  function Row6(lo: bv8): bv8 {
    if lo == 0 then 0xd0 else if lo == 1 then 0xef else if lo == 2 then 0xaa else if lo == 3 then 0xfb
    else if lo == 4 then 0x43 else if lo == 5 then 0x4d else if lo == 6 then 0x33 else if lo == 7 then 0x85
    else if lo == 8 then 0x45 else if lo == 9 then 0xf9 else if lo == 10 then 0x02 else if lo == 11 then 0x7f
    else if lo == 12 then 0x50 else if lo == 13 then 0x3c else if lo == 14 then 0x9f else 0xa8
  }

  function Row7(lo: bv8): bv8 {
    if lo == 0 then 0x51 else if lo == 1 then 0xa3 else if lo == 2 then 0x40 else if lo == 3 then 0x8f
    else if lo == 4 then 0x92 else if lo == 5 then 0x9d else if lo == 6 then 0x38 else if lo == 7 then 0xf5
    else if lo == 8 then 0xbc else if lo == 9 then 0xb6 else if lo == 10 then 0xda else if lo == 11 then 0x21
    else if lo == 12 then 0x10 else if lo == 13 then 0xff else if lo == 14 then 0xf3 else 0xd2
  }

  function Row8(lo: bv8): bv8 {
    if lo == 0 then 0xcd else if lo == 1 then 0x0c else if lo == 2 then 0x13 else if lo == 3 then 0xec
    else if lo == 4 then 0x5f else if lo == 5 then 0x97 else if lo == 6 then 0x44 else if lo == 7 then 0x17
    else if lo == 8 then 0xc4 else if lo == 9 then 0xa7 else if lo == 10 then 0x7e else if lo == 11 then 0x3d
    else if lo == 12 then 0x64 else if lo == 13 then 0x5d else if lo == 14 then 0x19 else 0x73
  }

  function Row9(lo: bv8): bv8 {
    if lo == 0 then 0x60 else if lo == 1 then 0x81 else if lo == 2 then 0x4f else if lo == 3 then 0xdc
    else if lo == 4 then 0x22 else if lo == 5 then 0x2a else if lo == 6 then 0x90 else if lo == 7 then 0x88
    else if lo == 8 then 0x46 else if lo == 9 then 0xee else if lo == 10 then 0xb8 else if lo == 11 then 0x14
    else if lo == 12 then 0xde else if lo == 13 then 0x5e else if lo == 14 then 0x0b else 0xdb
  }

  function RowA(lo: bv8): bv8 {
    if lo == 0 then 0xe0 else if lo == 1 then 0x32 else if lo == 2 then 0x3a else if lo == 3 then 0x0a
    else if lo == 4 then 0x49 else if lo == 5 then 0x06 else if lo == 6 then 0x24 else if lo == 7 then 0x5c
    else if lo == 8 then 0xc2 else if lo == 9 then 0xd3 else if lo == 10 then 0xac else if lo == 11 then 0x62
    else if lo == 12 then 0x91 else if lo == 13 then 0x95 else if lo == 14 then 0xe4 else 0x79
  }

  function RowB(lo: bv8): bv8 {
    if lo == 0 then 0xe7 else if lo == 1 then 0xc8 else if lo == 2 then 0x37 else if lo == 3 then 0x6d
    else if lo == 4 then 0x8d else if lo == 5 then 0xd5 else if lo == 6 then 0x4e else if lo == 7 then 0xa9
    else if lo == 8 then 0x6c else if lo == 9 then 0x56 else if lo == 10 then 0xf4 else if lo == 11 then 0xea
    else if lo == 12 then 0x65 else if lo == 13 then 0x7a else if lo == 14 then 0xae else 0x08
  }

  function RowC(lo: bv8): bv8 {
    if lo == 0 then 0xba else if lo == 1 then 0x78 else if lo == 2 then 0x25 else if lo == 3 then 0x2e
    else if lo == 4 then 0x1c else if lo == 5 then 0xa6 else if lo == 6 then 0xb4 else if lo == 7 then 0xc6
    else if lo == 8 then 0xe8 else if lo == 9 then 0xdd else if lo == 10 then 0x74 else if lo == 11 then 0x1f
    else if lo == 12 then 0x4b else if lo == 13 then 0xbd else if lo == 14 then 0x8b else 0x8a
  }

  function RowD(lo: bv8): bv8 {
    if lo == 0 then 0x70 else if lo == 1 then 0x3e else if lo == 2 then 0xb5 else if lo == 3 then 0x66
    else if lo == 4 then 0x48 else if lo == 5 then 0x03 else if lo == 6 then 0xf6 else if lo == 7 then 0x0e
    else if lo == 8 then 0x61 else if lo == 9 then 0x35 else if lo == 10 then 0x57 else if lo == 11 then 0xb9
    else if lo == 12 then 0x86 else if lo == 13 then 0xc1 else if lo == 14 then 0x1d else 0x9e
  }

  function RowE(lo: bv8): bv8 {
    if lo == 0 then 0xe1 else if lo == 1 then 0xf8 else if lo == 2 then 0x98 else if lo == 3 then 0x11
    else if lo == 4 then 0x69 else if lo == 5 then 0xd9 else if lo == 6 then 0x8e else if lo == 7 then 0x94
    else if lo == 8 then 0x9b else if lo == 9 then 0x1e else if lo == 10 then 0x87 else if lo == 11 then 0xe9
    else if lo == 12 then 0xce else if lo == 13 then 0x55 else if lo == 14 then 0x28 else 0xdf
  }

  function RowF(lo: bv8): bv8 {
    if lo == 0 then 0x8c else if lo == 1 then 0xa1 else if lo == 2 then 0x89 else if lo == 3 then 0x0d
    else if lo == 4 then 0xbf else if lo == 5 then 0xe6 else if lo == 6 then 0x42 else if lo == 7 then 0x68
    else if lo == 8 then 0x41 else if lo == 9 then 0x99 else if lo == 10 then 0x2d else if lo == 11 then 0x0f
    else if lo == 12 then 0xb0 else if lo == 13 then 0x54 else if lo == 14 then 0xbb else 0x16
  }

  /** The byte that replaces `b`. */
  function Sub(b: bv8): bv8 {
    var hi, lo := b >> 4, b & 15;
    if hi == 0 then Row0(lo) else if hi == 1 then Row1(lo) else if hi == 2 then Row2(lo) else if hi == 3 then Row3(lo)
    else if hi == 4 then Row4(lo) else if hi == 5 then Row5(lo)
    else if hi == 6 then Row6(lo) else if hi == 7 then Row7(lo)
    else if hi == 8 then Row8(lo) else if hi == 9 then Row9(lo)
    else if hi == 10 then RowA(lo) else if hi == 11 then RowB(lo)
    else if hi == 12 then RowC(lo) else if hi == 13 then RowD(lo) else if hi == 14 then RowE(lo) else RowF(lo)
  }

  function InvRow0(lo: bv8): bv8 {
    if lo == 0 then 0x52 else if lo == 1 then 0x09 else if lo == 2 then 0x6a else if lo == 3 then 0xd5
    else if lo == 4 then 0x30 else if lo == 5 then 0x36 else if lo == 6 then 0xa5 else if lo == 7 then 0x38
    else if lo == 8 then 0xbf else if lo == 9 then 0x40 else if lo == 10 then 0xa3 else if lo == 11 then 0x9e
    else if lo == 12 then 0x81 else if lo == 13 then 0xf3 else if lo == 14 then 0xd7 else 0xfb
  }

  function InvRow1(lo: bv8): bv8 {
    if lo == 0 then 0x7c else if lo == 1 then 0xe3 else if lo == 2 then 0x39 else if lo == 3 then 0x82
    else if lo == 4 then 0x9b else if lo == 5 then 0x2f else if lo == 6 then 0xff else if lo == 7 then 0x87
    else if lo == 8 then 0x34 else if lo == 9 then 0x8e else if lo == 10 then 0x43 else if lo == 11 then 0x44
    else if lo == 12 then 0xc4 else if lo == 13 then 0xde else if lo == 14 then 0xe9 else 0xcb
  }

  function InvRow2(lo: bv8): bv8 {
    if lo == 0 then 0x54 else if lo == 1 then 0x7b else if lo == 2 then 0x94 else if lo == 3 then 0x32
    else if lo == 4 then 0xa6 else if lo == 5 then 0xc2 else if lo == 6 then 0x23 else if lo == 7 then 0x3d
    else if lo == 8 then 0xee else if lo == 9 then 0x4c else if lo == 10 then 0x95 else if lo == 11 then 0x0b
    else if lo == 12 then 0x42 else if lo == 13 then 0xfa else if lo == 14 then 0xc3 else 0x4e
  }

  function InvRow3(lo: bv8): bv8 {
    if lo == 0 then 0x08 else if lo == 1 then 0x2e else if lo == 2 then 0xa1 else if lo == 3 then 0x66
    else if lo == 4 then 0x28 else if lo == 5 then 0xd9 else if lo == 6 then 0x24 else if lo == 7 then 0xb2
    else if lo == 8 then 0x76 else if lo == 9 then 0x5b else if lo == 10 then 0xa2 else if lo == 11 then 0x49
    else if lo == 12 then 0x6d else if lo == 13 then 0x8b else if lo == 14 then 0xd1 else 0x25
  }

  function InvRow4(lo: bv8): bv8 {
    if lo == 0 then 0x72 else if lo == 1 then 0xf8 else if lo == 2 then 0xf6 else if lo == 3 then 0x64
    else if lo == 4 then 0x86 else if lo == 5 then 0x68 else if lo == 6 then 0x98 else if lo == 7 then 0x16
    else if lo == 8 then 0xd4 else if lo == 9 then 0xa4 else if lo == 10 then 0x5c else if lo == 11 then 0xcc
    else if lo == 12 then 0x5d else if lo == 13 then 0x65 else if lo == 14 then 0xb6 else 0x92
  }

  function InvRow5(lo: bv8): bv8 {
    if lo == 0 then 0x6c else if lo == 1 then 0x70 else if lo == 2 then 0x48 else if lo == 3 then 0x50
    else if lo == 4 then 0xfd else if lo == 5 then 0xed else if lo == 6 then 0xb9 else if lo == 7 then 0xda
    else if lo == 8 then 0x5e else if lo == 9 then 0x15 else if lo == 10 then 0x46 else if lo == 11 then 0x57
    else if lo == 12 then 0xa7 else if lo == 13 then 0x8d else if lo == 14 then 0x9d else 0x84
  }

  function InvRow6(lo: bv8): bv8 {
    if lo == 0 then 0x90 else if lo == 1 then 0xd8 else if lo == 2 then 0xab else if lo == 3 then 0x00
    else if lo == 4 then 0x8c else if lo == 5 then 0xbc else if lo == 6 then 0xd3 else if lo == 7 then 0x0a
    else if lo == 8 then 0xf7 else if lo == 9 then 0xe4 else if lo == 10 then 0x58 else if lo == 11 then 0x05
    else if lo == 12 then 0xb8 else if lo == 13 then 0xb3 else if lo == 14 then 0x45 else 0x06
  }

  function InvRow7(lo: bv8): bv8 {
    if lo == 0 then 0xd0 else if lo == 1 then 0x2c else if lo == 2 then 0x1e else if lo == 3 then 0x8f
    else if lo == 4 then 0xca else if lo == 5 then 0x3f else if lo == 6 then 0x0f else if lo == 7 then 0x02
    else if lo == 8 then 0xc1 else if lo == 9 then 0xaf else if lo == 10 then 0xbd else if lo == 11 then 0x03
    else if lo == 12 then 0x01 else if lo == 13 then 0x13 else if lo == 14 then 0x8a else 0x6b
  }

  function InvRow8(lo: bv8): bv8 {
    if lo == 0 then 0x3a else if lo == 1 then 0x91 else if lo == 2 then 0x11 else if lo == 3 then 0x41
    else if lo == 4 then 0x4f else if lo == 5 then 0x67 else if lo == 6 then 0xdc else if lo == 7 then 0xea
    else if lo == 8 then 0x97 else if lo == 9 then 0xf2 else if lo == 10 then 0xcf else if lo == 11 then 0xce
    else if lo == 12 then 0xf0 else if lo == 13 then 0xb4 else if lo == 14 then 0xe6 else 0x73
  }

  function InvRow9(lo: bv8): bv8 {
    if lo == 0 then 0x96 else if lo == 1 then 0xac else if lo == 2 then 0x74 else if lo == 3 then 0x22
    else if lo == 4 then 0xe7 else if lo == 5 then 0xad else if lo == 6 then 0x35 else if lo == 7 then 0x85
    else if lo == 8 then 0xe2 else if lo == 9 then 0xf9 else if lo == 10 then 0x37 else if lo == 11 then 0xe8
    else if lo == 12 then 0x1c else if lo == 13 then 0x75 else if lo == 14 then 0xdf else 0x6e
  }

  function InvRowA(lo: bv8): bv8 {
    if lo == 0 then 0x47 else if lo == 1 then 0xf1 else if lo == 2 then 0x1a else if lo == 3 then 0x71
    else if lo == 4 then 0x1d else if lo == 5 then 0x29 else if lo == 6 then 0xc5 else if lo == 7 then 0x89
    else if lo == 8 then 0x6f else if lo == 9 then 0xb7 else if lo == 10 then 0x62 else if lo == 11 then 0x0e
    else if lo == 12 then 0xaa else if lo == 13 then 0x18 else if lo == 14 then 0xbe else 0x1b
  }

  function InvRowB(lo: bv8): bv8 {
    if lo == 0 then 0xfc else if lo == 1 then 0x56 else if lo == 2 then 0x3e else if lo == 3 then 0x4b
    else if lo == 4 then 0xc6 else if lo == 5 then 0xd2 else if lo == 6 then 0x79 else if lo == 7 then 0x20
    else if lo == 8 then 0x9a else if lo == 9 then 0xdb else if lo == 10 then 0xc0 else if lo == 11 then 0xfe
    else if lo == 12 then 0x78 else if lo == 13 then 0xcd else if lo == 14 then 0x5a else 0xf4
  }

  function InvRowC(lo: bv8): bv8 {
    if lo == 0 then 0x1f else if lo == 1 then 0xdd else if lo == 2 then 0xa8 else if lo == 3 then 0x33
    else if lo == 4 then 0x88 else if lo == 5 then 0x07 else if lo == 6 then 0xc7 else if lo == 7 then 0x31
    else if lo == 8 then 0xb1 else if lo == 9 then 0x12 else if lo == 10 then 0x10 else if lo == 11 then 0x59
    else if lo == 12 then 0x27 else if lo == 13 then 0x80 else if lo == 14 then 0xec else 0x5f
  }

  function InvRowD(lo: bv8): bv8 {
    if lo == 0 then 0x60 else if lo == 1 then 0x51 else if lo == 2 then 0x7f else if lo == 3 then 0xa9
    else if lo == 4 then 0x19 else if lo == 5 then 0xb5 else if lo == 6 then 0x4a else if lo == 7 then 0x0d
    else if lo == 8 then 0x2d else if lo == 9 then 0xe5 else if lo == 10 then 0x7a else if lo == 11 then 0x9f
    else if lo == 12 then 0x93 else if lo == 13 then 0xc9 else if lo == 14 then 0x9c else 0xef
  }

  function InvRowE(lo: bv8): bv8 {
    if lo == 0 then 0xa0 else if lo == 1 then 0xe0 else if lo == 2 then 0x3b else if lo == 3 then 0x4d
    else if lo == 4 then 0xae else if lo == 5 then 0x2a else if lo == 6 then 0xf5 else if lo == 7 then 0xb0
    else if lo == 8 then 0xc8 else if lo == 9 then 0xeb else if lo == 10 then 0xbb else if lo == 11 then 0x3c
    else if lo == 12 then 0x83 else if lo == 13 then 0x53 else if lo == 14 then 0x99 else 0x61
  }

  function InvRowF(lo: bv8): bv8 {
    if lo == 0 then 0x17 else if lo == 1 then 0x2b else if lo == 2 then 0x04 else if lo == 3 then 0x7e
    else if lo == 4 then 0xba else if lo == 5 then 0x77 else if lo == 6 then 0xd6 else if lo == 7 then 0x26
    else if lo == 8 then 0xe1 else if lo == 9 then 0x69 else if lo == 10 then 0x14 else if lo == 11 then 0x63
    else if lo == 12 then 0x55 else if lo == 13 then 0x21 else if lo == 14 then 0x0c else 0x7d
  }

  /** The byte that `b` replaced. */
  function InvSub(b: bv8): bv8 {
    var hi, lo := b >> 4, b & 15;
    if hi == 0 then InvRow0(lo) else if hi == 1 then InvRow1(lo)
    else if hi == 2 then InvRow2(lo) else if hi == 3 then InvRow3(lo)
    else if hi == 4 then InvRow4(lo) else if hi == 5 then InvRow5(lo)
    else if hi == 6 then InvRow6(lo) else if hi == 7 then InvRow7(lo)
    else if hi == 8 then InvRow8(lo) else if hi == 9 then InvRow9(lo)
    else if hi == 10 then InvRowA(lo) else if hi == 11 then InvRowB(lo)
    else if hi == 12 then InvRowC(lo) else if hi == 13 then InvRowD(lo)
    else if hi == 14 then InvRowE(lo) else InvRowF(lo)
  }

  lemma SubUndone(b: bv8)
    ensures InvSub(Sub(b)) == b
  {
  }

  lemma SubReached(b: bv8)
    ensures Sub(InvSub(b)) == b
  {
  }
}

/** Where the table comes from: the affine image of the inverse in GF(2^8), section 5.1.1 of FIPS 197. */
module SBoxOrigin {
  import opened Gf256
  import opened SBox

  function Affine(x: bv8): bv8 {
    x ^ ((x << 1) | (x >> 7)) ^ ((x << 2) | (x >> 6)) ^ ((x << 3) | (x >> 5)) ^ ((x << 4) | (x >> 4)) ^ 0x63
  }

  function Unaffine(s: bv8): bv8 {
    ((s << 1) | (s >> 7)) ^ ((s << 3) | (s >> 5)) ^ ((s << 6) | (s >> 2)) ^ 0x05
  }

  lemma AffineUndone(s: bv8)
    ensures Affine(Unaffine(s)) == s
  {
  }

  function Half(b: bv8): bv8 {
    b >> 1
  }

  function Pick(b: bv8, a: bv8): bv8 {
    if b & 1 == 1 then a else 0
  }

  /** The product with its eight rounds written out. */
  function Unrolled(a: bv8, b: bv8): bv8 {
    var (a1, b1) := (Xtime(a), Half(b));
    var (a2, b2) := (Xtime(a1), Half(b1));
    var (a3, b3) := (Xtime(a2), Half(b2));
    var (a4, b4) := (Xtime(a3), Half(b3));
    var (a5, b5) := (Xtime(a4), Half(b4));
    var (a6, b6) := (Xtime(a5), Half(b5));
    var (a7, b7) := (Xtime(a6), Half(b6));
    Add(Pick(b, a), Add(Pick(b1, a1), Add(Pick(b2, a2), Add(Pick(b3, a3),
      Add(Pick(b4, a4), Add(Pick(b5, a5), Add(Pick(b6, a6), Add(Pick(b7, a7), 0))))))))
  }

  lemma Round(a: bv8, b: bv8, n: nat)
    ensures Product(a, b, n + 1) == Add(Pick(b, a), Product(Xtime(a), Half(b), n))
  {
    hide Xtime, Add;
    var rest := Product(Xtime(a), Half(b), n);
    AddNothing(rest);
  }

  lemma AddNothing(x: bv8)
    ensures Add(0, x) == x
  {
  }

  lemma TimesUnrolled(a: bv8, b: bv8)
    ensures Times(a, b) == Unrolled(a, b)
  {
    hide Xtime, Add, Half, Pick, Product;
    var (a1, b1) := (Xtime(a), Half(b));
    var (a2, b2) := (Xtime(a1), Half(b1));
    var (a3, b3) := (Xtime(a2), Half(b2));
    var (a4, b4) := (Xtime(a3), Half(b3));
    var (a5, b5) := (Xtime(a4), Half(b4));
    var (a6, b6) := (Xtime(a5), Half(b5));
    var (a7, b7) := (Xtime(a6), Half(b6));
    Round(a, b, 7);
    Round(a1, b1, 6);
    Round(a2, b2, 5);
    Round(a3, b3, 4);
    Round(a4, b4, 3);
    Round(a5, b5, 2);
    Round(a6, b6, 1);
    Round(a7, b7, 0);
    NoRound(Xtime(a7), Half(b7));
  }

  lemma NoRound(a: bv8, b: bv8)
    ensures Product(a, b, 0) == 0
  {
  }

  lemma InverseOfLow(b: bv8)
    requires 0 < b < 0x40
    ensures Unrolled(b, Unaffine(Sub(b))) == 1
  {
  }

  lemma InverseOfSecond(b: bv8)
    requires 0x40 <= b < 0x80
    ensures Unrolled(b, Unaffine(Sub(b))) == 1
  {
  }

  lemma InverseOfThird(b: bv8)
    requires 0x80 <= b < 0xc0
    ensures Unrolled(b, Unaffine(Sub(b))) == 1
  {
  }

  lemma InverseOfHigh(b: bv8)
    requires 0xc0 <= b
    ensures Unrolled(b, Unaffine(Sub(b))) == 1
  {
  }

  /** Every byte but zero has a multiplicative inverse, which the table entry leads back to. */
  lemma InverseExists(b: bv8)
    requires b != 0
    ensures Times(b, Unaffine(Sub(b))) == 1
  {
    hide Times, Unrolled, Unaffine, Sub;
    if b < 0x40 {
      InverseOfLow(b);
    } else if b < 0x80 {
      InverseOfSecond(b);
    } else if b < 0xc0 {
      InverseOfThird(b);
    } else {
      InverseOfHigh(b);
    }
    TimesUnrolled(b, Unaffine(Sub(b)));
  }

  /** The table entry of a byte is the affine image of its inverse; that of zero is the image of zero. */
  lemma SubIsAffineInverse(b: bv8, inverse: bv8)
    requires b == inverse == 0 || Times(b, inverse) == 1
    ensures Sub(b) == Affine(inverse)
  {
    hide Times, Sub, Affine, Unaffine;
    if b == 0 {
      ZeroEntry(inverse);
    } else {
      var u := Unaffine(Sub(b));
      InverseExists(b);
      TimesCommutes(inverse, b);
      TimesAssociates(inverse, b, u);
      TimesOne(u);
      TimesCommutes(inverse, 1);
      TimesOne(inverse);
      AffineUndone(Sub(b));
    }
  }

  lemma ZeroEntry(inverse: bv8)
    requires inverse == 0 || Times(0, inverse) == 1
    ensures Sub(0) == Affine(inverse)
  {
    TimesOfZero(inverse);
    assert inverse == 0;
  }
}
