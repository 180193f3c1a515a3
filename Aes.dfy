/**
 * AES-128 (FIPS 197) as the library implements it: the key expansion into
 * 44 words, the cipher and the inverse cipher on a 16-byte state, and CBC
 * encryption and decryption with a zero initialisation vector.
 *
 * Bytes are `bv8` and words `bv32`. The state holds the block in the
 * order of the input bytes, so that row r of column c is the byte at
 * index 4 * c + r (section 3.4 of FIPS 197).
 */
module Aes {

  // ---------------------------------------------------------------------
  // Words and bytes
  // ---------------------------------------------------------------------

  /**
   * toWord: the word whose bytes, most significant first, are b0 .. b3.
   * The source shifts and adds; the fields never overlap, so the sum is the
   * bitwise or written here (ToWordAdds).
   */
  function ToWord(b0: bv8, b1: bv8, b2: bv8, b3: bv8): bv32
  {
    ((b0 as bv32) << 24) | ((b1 as bv32) << 16) | ((b2 as bv32) << 8) | (b3 as bv32)
  }

  /** toWord as the source writes it: shift left by a byte, then add the next byte. */
  lemma ToWordAdds(b0: bv8, b1: bv8, b2: bv8, b3: bv8)
    ensures ((((((b0 as bv32) << 8) + b1 as bv32) << 8) + b2 as bv32) << 8) + b3 as bv32 == ToWord(b0, b1, b2, b3)
  {
  }

  /** toBytes: the four bytes of w, most significant first. */
  function WordBytes(w: bv32): (b: seq<bv8>)
    ensures |b| == 4
  {
    [(w >> 24) as bv8, ((w >> 16) & 0xFF) as bv8, ((w >> 8) & 0xFF) as bv8, (w & 0xFF) as bv8]
  }

  lemma BytesOfWord(b0: bv8, b1: bv8, b2: bv8, b3: bv8)
    ensures WordBytes(ToWord(b0, b1, b2, b3)) == [b0, b1, b2, b3]
  {
  }

  lemma WordOfBytes(w: bv32)
    ensures ToWord(WordBytes(w)[0], WordBytes(w)[1], WordBytes(w)[2], WordBytes(w)[3]) == w
  {
  }

  /** The bytes of an exclusive or of words are the exclusive ors of their bytes. */
  lemma WordBytesXor(v: bv32, w: bv32)
    ensures forall r :: 0 <= r < 4 ==> WordBytes(v ^ w)[r] == WordBytes(v)[r] ^ WordBytes(w)[r]
  {
  }

  // ---------------------------------------------------------------------
  // The S-box (section 5.1.1 of FIPS 197) and its inverse (5.3.2)
  // ---------------------------------------------------------------------

  /**
   * SubByte: entry b of the table _SBOX, looked up by halving the index
   * range eight times.
   */
  function SubByte(b: bv8): bv8
  {
    if b < 0x80 then
      if b < 0x40 then
        if b < 0x20 then
          if b < 0x10 then
            if b < 0x08 then
              if b < 0x04 then (if b < 0x02 then (if b == 0x00 then 0x63 else 0x7C) else (if b == 0x02 then 0x77 else 0x7B)) else (if b < 0x06 then (if b == 0x04 then 0xF2 else 0x6B) else (if b == 0x06 then 0x6F else 0xC5))
            else
              if b < 0x0C then (if b < 0x0A then (if b == 0x08 then 0x30 else 0x01) else (if b == 0x0A then 0x67 else 0x2B)) else (if b < 0x0E then (if b == 0x0C then 0xFE else 0xD7) else (if b == 0x0E then 0xAB else 0x76))
          else
            if b < 0x18 then
              if b < 0x14 then (if b < 0x12 then (if b == 0x10 then 0xCA else 0x82) else (if b == 0x12 then 0xC9 else 0x7D)) else (if b < 0x16 then (if b == 0x14 then 0xFA else 0x59) else (if b == 0x16 then 0x47 else 0xF0))
            else
              if b < 0x1C then (if b < 0x1A then (if b == 0x18 then 0xAD else 0xD4) else (if b == 0x1A then 0xA2 else 0xAF)) else (if b < 0x1E then (if b == 0x1C then 0x9C else 0xA4) else (if b == 0x1E then 0x72 else 0xC0))
        else
          if b < 0x30 then
            if b < 0x28 then
              if b < 0x24 then (if b < 0x22 then (if b == 0x20 then 0xB7 else 0xFD) else (if b == 0x22 then 0x93 else 0x26)) else (if b < 0x26 then (if b == 0x24 then 0x36 else 0x3F) else (if b == 0x26 then 0xF7 else 0xCC))
            else
              if b < 0x2C then (if b < 0x2A then (if b == 0x28 then 0x34 else 0xA5) else (if b == 0x2A then 0xE5 else 0xF1)) else (if b < 0x2E then (if b == 0x2C then 0x71 else 0xD8) else (if b == 0x2E then 0x31 else 0x15))
          else
            if b < 0x38 then
              if b < 0x34 then (if b < 0x32 then (if b == 0x30 then 0x04 else 0xC7) else (if b == 0x32 then 0x23 else 0xC3)) else (if b < 0x36 then (if b == 0x34 then 0x18 else 0x96) else (if b == 0x36 then 0x05 else 0x9A))
            else
              if b < 0x3C then (if b < 0x3A then (if b == 0x38 then 0x07 else 0x12) else (if b == 0x3A then 0x80 else 0xE2)) else (if b < 0x3E then (if b == 0x3C then 0xEB else 0x27) else (if b == 0x3E then 0xB2 else 0x75))
      else
        if b < 0x60 then
          if b < 0x50 then
            if b < 0x48 then
              if b < 0x44 then (if b < 0x42 then (if b == 0x40 then 0x09 else 0x83) else (if b == 0x42 then 0x2C else 0x1A)) else (if b < 0x46 then (if b == 0x44 then 0x1B else 0x6E) else (if b == 0x46 then 0x5A else 0xA0))
            else
              if b < 0x4C then (if b < 0x4A then (if b == 0x48 then 0x52 else 0x3B) else (if b == 0x4A then 0xD6 else 0xB3)) else (if b < 0x4E then (if b == 0x4C then 0x29 else 0xE3) else (if b == 0x4E then 0x2F else 0x84))
          else
            if b < 0x58 then
              if b < 0x54 then (if b < 0x52 then (if b == 0x50 then 0x53 else 0xD1) else (if b == 0x52 then 0x00 else 0xED)) else (if b < 0x56 then (if b == 0x54 then 0x20 else 0xFC) else (if b == 0x56 then 0xB1 else 0x5B))
            else
              if b < 0x5C then (if b < 0x5A then (if b == 0x58 then 0x6A else 0xCB) else (if b == 0x5A then 0xBE else 0x39)) else (if b < 0x5E then (if b == 0x5C then 0x4A else 0x4C) else (if b == 0x5E then 0x58 else 0xCF))
        else
          if b < 0x70 then
            if b < 0x68 then
              if b < 0x64 then (if b < 0x62 then (if b == 0x60 then 0xD0 else 0xEF) else (if b == 0x62 then 0xAA else 0xFB)) else (if b < 0x66 then (if b == 0x64 then 0x43 else 0x4D) else (if b == 0x66 then 0x33 else 0x85))
            else
              if b < 0x6C then (if b < 0x6A then (if b == 0x68 then 0x45 else 0xF9) else (if b == 0x6A then 0x02 else 0x7F)) else (if b < 0x6E then (if b == 0x6C then 0x50 else 0x3C) else (if b == 0x6E then 0x9F else 0xA8))
          else
            if b < 0x78 then
              if b < 0x74 then (if b < 0x72 then (if b == 0x70 then 0x51 else 0xA3) else (if b == 0x72 then 0x40 else 0x8F)) else (if b < 0x76 then (if b == 0x74 then 0x92 else 0x9D) else (if b == 0x76 then 0x38 else 0xF5))
            else
              if b < 0x7C then (if b < 0x7A then (if b == 0x78 then 0xBC else 0xB6) else (if b == 0x7A then 0xDA else 0x21)) else (if b < 0x7E then (if b == 0x7C then 0x10 else 0xFF) else (if b == 0x7E then 0xF3 else 0xD2))
    else
      if b < 0xC0 then
        if b < 0xA0 then
          if b < 0x90 then
            if b < 0x88 then
              if b < 0x84 then (if b < 0x82 then (if b == 0x80 then 0xCD else 0x0C) else (if b == 0x82 then 0x13 else 0xEC)) else (if b < 0x86 then (if b == 0x84 then 0x5F else 0x97) else (if b == 0x86 then 0x44 else 0x17))
            else
              if b < 0x8C then (if b < 0x8A then (if b == 0x88 then 0xC4 else 0xA7) else (if b == 0x8A then 0x7E else 0x3D)) else (if b < 0x8E then (if b == 0x8C then 0x64 else 0x5D) else (if b == 0x8E then 0x19 else 0x73))
          else
            if b < 0x98 then
              if b < 0x94 then (if b < 0x92 then (if b == 0x90 then 0x60 else 0x81) else (if b == 0x92 then 0x4F else 0xDC)) else (if b < 0x96 then (if b == 0x94 then 0x22 else 0x2A) else (if b == 0x96 then 0x90 else 0x88))
            else
              if b < 0x9C then (if b < 0x9A then (if b == 0x98 then 0x46 else 0xEE) else (if b == 0x9A then 0xB8 else 0x14)) else (if b < 0x9E then (if b == 0x9C then 0xDE else 0x5E) else (if b == 0x9E then 0x0B else 0xDB))
        else
          if b < 0xB0 then
            if b < 0xA8 then
              if b < 0xA4 then (if b < 0xA2 then (if b == 0xA0 then 0xE0 else 0x32) else (if b == 0xA2 then 0x3A else 0x0A)) else (if b < 0xA6 then (if b == 0xA4 then 0x49 else 0x06) else (if b == 0xA6 then 0x24 else 0x5C))
            else
              if b < 0xAC then (if b < 0xAA then (if b == 0xA8 then 0xC2 else 0xD3) else (if b == 0xAA then 0xAC else 0x62)) else (if b < 0xAE then (if b == 0xAC then 0x91 else 0x95) else (if b == 0xAE then 0xE4 else 0x79))
          else
            if b < 0xB8 then
              if b < 0xB4 then (if b < 0xB2 then (if b == 0xB0 then 0xE7 else 0xC8) else (if b == 0xB2 then 0x37 else 0x6D)) else (if b < 0xB6 then (if b == 0xB4 then 0x8D else 0xD5) else (if b == 0xB6 then 0x4E else 0xA9))
            else
              if b < 0xBC then (if b < 0xBA then (if b == 0xB8 then 0x6C else 0x56) else (if b == 0xBA then 0xF4 else 0xEA)) else (if b < 0xBE then (if b == 0xBC then 0x65 else 0x7A) else (if b == 0xBE then 0xAE else 0x08))
      else
        if b < 0xE0 then
          if b < 0xD0 then
            if b < 0xC8 then
              if b < 0xC4 then (if b < 0xC2 then (if b == 0xC0 then 0xBA else 0x78) else (if b == 0xC2 then 0x25 else 0x2E)) else (if b < 0xC6 then (if b == 0xC4 then 0x1C else 0xA6) else (if b == 0xC6 then 0xB4 else 0xC6))
            else
              if b < 0xCC then (if b < 0xCA then (if b == 0xC8 then 0xE8 else 0xDD) else (if b == 0xCA then 0x74 else 0x1F)) else (if b < 0xCE then (if b == 0xCC then 0x4B else 0xBD) else (if b == 0xCE then 0x8B else 0x8A))
          else
            if b < 0xD8 then
              if b < 0xD4 then (if b < 0xD2 then (if b == 0xD0 then 0x70 else 0x3E) else (if b == 0xD2 then 0xB5 else 0x66)) else (if b < 0xD6 then (if b == 0xD4 then 0x48 else 0x03) else (if b == 0xD6 then 0xF6 else 0x0E))
            else
              if b < 0xDC then (if b < 0xDA then (if b == 0xD8 then 0x61 else 0x35) else (if b == 0xDA then 0x57 else 0xB9)) else (if b < 0xDE then (if b == 0xDC then 0x86 else 0xC1) else (if b == 0xDE then 0x1D else 0x9E))
        else
          if b < 0xF0 then
            if b < 0xE8 then
              if b < 0xE4 then (if b < 0xE2 then (if b == 0xE0 then 0xE1 else 0xF8) else (if b == 0xE2 then 0x98 else 0x11)) else (if b < 0xE6 then (if b == 0xE4 then 0x69 else 0xD9) else (if b == 0xE6 then 0x8E else 0x94))
            else
              if b < 0xEC then (if b < 0xEA then (if b == 0xE8 then 0x9B else 0x1E) else (if b == 0xEA then 0x87 else 0xE9)) else (if b < 0xEE then (if b == 0xEC then 0xCE else 0x55) else (if b == 0xEE then 0x28 else 0xDF))
          else
            if b < 0xF8 then
              if b < 0xF4 then (if b < 0xF2 then (if b == 0xF0 then 0x8C else 0xA1) else (if b == 0xF2 then 0x89 else 0x0D)) else (if b < 0xF6 then (if b == 0xF4 then 0xBF else 0xE6) else (if b == 0xF6 then 0x42 else 0x68))
            else
              if b < 0xFC then (if b < 0xFA then (if b == 0xF8 then 0x41 else 0x99) else (if b == 0xFA then 0x2D else 0x0F)) else (if b < 0xFE then (if b == 0xFC then 0xB0 else 0x54) else (if b == 0xFE then 0xBB else 0x16))
  }

  /** InvSubByte: entry b of the table _ISBOX. */
  function InvSubByte(b: bv8): bv8
  {
    if b < 0x80 then
      if b < 0x40 then
        if b < 0x20 then
          if b < 0x10 then
            if b < 0x08 then
              if b < 0x04 then (if b < 0x02 then (if b == 0x00 then 0x52 else 0x09) else (if b == 0x02 then 0x6A else 0xD5)) else (if b < 0x06 then (if b == 0x04 then 0x30 else 0x36) else (if b == 0x06 then 0xA5 else 0x38))
            else
              if b < 0x0C then (if b < 0x0A then (if b == 0x08 then 0xBF else 0x40) else (if b == 0x0A then 0xA3 else 0x9E)) else (if b < 0x0E then (if b == 0x0C then 0x81 else 0xF3) else (if b == 0x0E then 0xD7 else 0xFB))
          else
            if b < 0x18 then
              if b < 0x14 then (if b < 0x12 then (if b == 0x10 then 0x7C else 0xE3) else (if b == 0x12 then 0x39 else 0x82)) else (if b < 0x16 then (if b == 0x14 then 0x9B else 0x2F) else (if b == 0x16 then 0xFF else 0x87))
            else
              if b < 0x1C then (if b < 0x1A then (if b == 0x18 then 0x34 else 0x8E) else (if b == 0x1A then 0x43 else 0x44)) else (if b < 0x1E then (if b == 0x1C then 0xC4 else 0xDE) else (if b == 0x1E then 0xE9 else 0xCB))
        else
          if b < 0x30 then
            if b < 0x28 then
              if b < 0x24 then (if b < 0x22 then (if b == 0x20 then 0x54 else 0x7B) else (if b == 0x22 then 0x94 else 0x32)) else (if b < 0x26 then (if b == 0x24 then 0xA6 else 0xC2) else (if b == 0x26 then 0x23 else 0x3D))
            else
              if b < 0x2C then (if b < 0x2A then (if b == 0x28 then 0xEE else 0x4C) else (if b == 0x2A then 0x95 else 0x0B)) else (if b < 0x2E then (if b == 0x2C then 0x42 else 0xFA) else (if b == 0x2E then 0xC3 else 0x4E))
          else
            if b < 0x38 then
              if b < 0x34 then (if b < 0x32 then (if b == 0x30 then 0x08 else 0x2E) else (if b == 0x32 then 0xA1 else 0x66)) else (if b < 0x36 then (if b == 0x34 then 0x28 else 0xD9) else (if b == 0x36 then 0x24 else 0xB2))
            else
              if b < 0x3C then (if b < 0x3A then (if b == 0x38 then 0x76 else 0x5B) else (if b == 0x3A then 0xA2 else 0x49)) else (if b < 0x3E then (if b == 0x3C then 0x6D else 0x8B) else (if b == 0x3E then 0xD1 else 0x25))
      else
        if b < 0x60 then
          if b < 0x50 then
            if b < 0x48 then
              if b < 0x44 then (if b < 0x42 then (if b == 0x40 then 0x72 else 0xF8) else (if b == 0x42 then 0xF6 else 0x64)) else (if b < 0x46 then (if b == 0x44 then 0x86 else 0x68) else (if b == 0x46 then 0x98 else 0x16))
            else
              if b < 0x4C then (if b < 0x4A then (if b == 0x48 then 0xD4 else 0xA4) else (if b == 0x4A then 0x5C else 0xCC)) else (if b < 0x4E then (if b == 0x4C then 0x5D else 0x65) else (if b == 0x4E then 0xB6 else 0x92))
          else
            if b < 0x58 then
              if b < 0x54 then (if b < 0x52 then (if b == 0x50 then 0x6C else 0x70) else (if b == 0x52 then 0x48 else 0x50)) else (if b < 0x56 then (if b == 0x54 then 0xFD else 0xED) else (if b == 0x56 then 0xB9 else 0xDA))
            else
              if b < 0x5C then (if b < 0x5A then (if b == 0x58 then 0x5E else 0x15) else (if b == 0x5A then 0x46 else 0x57)) else (if b < 0x5E then (if b == 0x5C then 0xA7 else 0x8D) else (if b == 0x5E then 0x9D else 0x84))
        else
          if b < 0x70 then
            if b < 0x68 then
              if b < 0x64 then (if b < 0x62 then (if b == 0x60 then 0x90 else 0xD8) else (if b == 0x62 then 0xAB else 0x00)) else (if b < 0x66 then (if b == 0x64 then 0x8C else 0xBC) else (if b == 0x66 then 0xD3 else 0x0A))
            else
              if b < 0x6C then (if b < 0x6A then (if b == 0x68 then 0xF7 else 0xE4) else (if b == 0x6A then 0x58 else 0x05)) else (if b < 0x6E then (if b == 0x6C then 0xB8 else 0xB3) else (if b == 0x6E then 0x45 else 0x06))
          else
            if b < 0x78 then
              if b < 0x74 then (if b < 0x72 then (if b == 0x70 then 0xD0 else 0x2C) else (if b == 0x72 then 0x1E else 0x8F)) else (if b < 0x76 then (if b == 0x74 then 0xCA else 0x3F) else (if b == 0x76 then 0x0F else 0x02))
            else
              if b < 0x7C then (if b < 0x7A then (if b == 0x78 then 0xC1 else 0xAF) else (if b == 0x7A then 0xBD else 0x03)) else (if b < 0x7E then (if b == 0x7C then 0x01 else 0x13) else (if b == 0x7E then 0x8A else 0x6B))
    else
      if b < 0xC0 then
        if b < 0xA0 then
          if b < 0x90 then
            if b < 0x88 then
              if b < 0x84 then (if b < 0x82 then (if b == 0x80 then 0x3A else 0x91) else (if b == 0x82 then 0x11 else 0x41)) else (if b < 0x86 then (if b == 0x84 then 0x4F else 0x67) else (if b == 0x86 then 0xDC else 0xEA))
            else
              if b < 0x8C then (if b < 0x8A then (if b == 0x88 then 0x97 else 0xF2) else (if b == 0x8A then 0xCF else 0xCE)) else (if b < 0x8E then (if b == 0x8C then 0xF0 else 0xB4) else (if b == 0x8E then 0xE6 else 0x73))
          else
            if b < 0x98 then
              if b < 0x94 then (if b < 0x92 then (if b == 0x90 then 0x96 else 0xAC) else (if b == 0x92 then 0x74 else 0x22)) else (if b < 0x96 then (if b == 0x94 then 0xE7 else 0xAD) else (if b == 0x96 then 0x35 else 0x85))
            else
              if b < 0x9C then (if b < 0x9A then (if b == 0x98 then 0xE2 else 0xF9) else (if b == 0x9A then 0x37 else 0xE8)) else (if b < 0x9E then (if b == 0x9C then 0x1C else 0x75) else (if b == 0x9E then 0xDF else 0x6E))
        else
          if b < 0xB0 then
            if b < 0xA8 then
              if b < 0xA4 then (if b < 0xA2 then (if b == 0xA0 then 0x47 else 0xF1) else (if b == 0xA2 then 0x1A else 0x71)) else (if b < 0xA6 then (if b == 0xA4 then 0x1D else 0x29) else (if b == 0xA6 then 0xC5 else 0x89))
            else
              if b < 0xAC then (if b < 0xAA then (if b == 0xA8 then 0x6F else 0xB7) else (if b == 0xAA then 0x62 else 0x0E)) else (if b < 0xAE then (if b == 0xAC then 0xAA else 0x18) else (if b == 0xAE then 0xBE else 0x1B))
          else
            if b < 0xB8 then
              if b < 0xB4 then (if b < 0xB2 then (if b == 0xB0 then 0xFC else 0x56) else (if b == 0xB2 then 0x3E else 0x4B)) else (if b < 0xB6 then (if b == 0xB4 then 0xC6 else 0xD2) else (if b == 0xB6 then 0x79 else 0x20))
            else
              if b < 0xBC then (if b < 0xBA then (if b == 0xB8 then 0x9A else 0xDB) else (if b == 0xBA then 0xC0 else 0xFE)) else (if b < 0xBE then (if b == 0xBC then 0x78 else 0xCD) else (if b == 0xBE then 0x5A else 0xF4))
      else
        if b < 0xE0 then
          if b < 0xD0 then
            if b < 0xC8 then
              if b < 0xC4 then (if b < 0xC2 then (if b == 0xC0 then 0x1F else 0xDD) else (if b == 0xC2 then 0xA8 else 0x33)) else (if b < 0xC6 then (if b == 0xC4 then 0x88 else 0x07) else (if b == 0xC6 then 0xC7 else 0x31))
            else
              if b < 0xCC then (if b < 0xCA then (if b == 0xC8 then 0xB1 else 0x12) else (if b == 0xCA then 0x10 else 0x59)) else (if b < 0xCE then (if b == 0xCC then 0x27 else 0x80) else (if b == 0xCE then 0xEC else 0x5F))
          else
            if b < 0xD8 then
              if b < 0xD4 then (if b < 0xD2 then (if b == 0xD0 then 0x60 else 0x51) else (if b == 0xD2 then 0x7F else 0xA9)) else (if b < 0xD6 then (if b == 0xD4 then 0x19 else 0xB5) else (if b == 0xD6 then 0x4A else 0x0D))
            else
              if b < 0xDC then (if b < 0xDA then (if b == 0xD8 then 0x2D else 0xE5) else (if b == 0xDA then 0x7A else 0x9F)) else (if b < 0xDE then (if b == 0xDC then 0x93 else 0xC9) else (if b == 0xDE then 0x9C else 0xEF))
        else
          if b < 0xF0 then
            if b < 0xE8 then
              if b < 0xE4 then (if b < 0xE2 then (if b == 0xE0 then 0xA0 else 0xE0) else (if b == 0xE2 then 0x3B else 0x4D)) else (if b < 0xE6 then (if b == 0xE4 then 0xAE else 0x2A) else (if b == 0xE6 then 0xF5 else 0xB0))
            else
              if b < 0xEC then (if b < 0xEA then (if b == 0xE8 then 0xC8 else 0xEB) else (if b == 0xEA then 0xBB else 0x3C)) else (if b < 0xEE then (if b == 0xEC then 0x83 else 0x53) else (if b == 0xEE then 0x99 else 0x61))
          else
            if b < 0xF8 then
              if b < 0xF4 then (if b < 0xF2 then (if b == 0xF0 then 0x17 else 0x2B) else (if b == 0xF2 then 0x04 else 0x7E)) else (if b < 0xF6 then (if b == 0xF4 then 0xBA else 0x77) else (if b == 0xF6 then 0xD6 else 0x26))
            else
              if b < 0xFC then (if b < 0xFA then (if b == 0xF8 then 0xE1 else 0x69) else (if b == 0xFA then 0x14 else 0x63)) else (if b < 0xFE then (if b == 0xFC then 0x55 else 0x21) else (if b == 0xFE then 0x0C else 0x7D))
  }

  /** The two tables are inverse permutations of the bytes. */
  lemma SubByteInverse(b: bv8)
    ensures InvSubByte(SubByte(b)) == b
  {
    if b < 0x40 {
      SubByteInverseBelow(b);
    } else if b < 0x80 {
      SubByteInverseBelow(b);
    } else if b < 0xC0 {
      SubByteInverseAbove(b);
    } else {
      SubByteInverseAbove(b);
    }
  }

  lemma SubByteInverseBelow(b: bv8)
    requires b < 0x80
    ensures InvSubByte(SubByte(b)) == b
  {
  }

  lemma SubByteInverseAbove(b: bv8)
    requires 0x80 <= b
    ensures InvSubByte(SubByte(b)) == b
  {
  }

  lemma InvSubByteInverse(b: bv8)
    ensures SubByte(InvSubByte(b)) == b
  {
    if b < 0x80 {
      InvSubByteInverseBelow(b);
    } else {
      InvSubByteInverseAbove(b);
    }
  }

  lemma InvSubByteInverseBelow(b: bv8)
    requires b < 0x80
    ensures SubByte(InvSubByte(b)) == b
  {
  }

  lemma InvSubByteInverseAbove(b: bv8)
    requires 0x80 <= b
    ensures SubByte(InvSubByte(b)) == b
  {
  }

  /** SubWord: the S-box applied to each byte of w. */
  function SubWord(w: bv32): bv32
  {
    var b := WordBytes(w);
    ToWord(SubByte(b[0]), SubByte(b[1]), SubByte(b[2]), SubByte(b[3]))
  }

  lemma SubWordBytes(w: bv32)
    ensures WordBytes(SubWord(w)) == [SubByte(WordBytes(w)[0]), SubByte(WordBytes(w)[1]), SubByte(WordBytes(w)[2]), SubByte(WordBytes(w)[3])]
  {
    var b := WordBytes(w);
    BytesOfWord(SubByte(b[0]), SubByte(b[1]), SubByte(b[2]), SubByte(b[3]));
  }

  /** RotWord: the bytes of w rotated one place towards the most significant end. */
  function RotWord(w: bv32): bv32
  {
    var b := WordBytes(w);
    ToWord(b[1], b[2], b[3], b[0])
  }

  lemma RotWordBytes(w: bv32)
    ensures WordBytes(RotWord(w)) == WordBytes(w)[1..] + WordBytes(w)[..1]
  {
    var b := WordBytes(w);
    BytesOfWord(b[1], b[2], b[3], b[0]);
  }

  // ---------------------------------------------------------------------
  // Multiplication in GF(2^8) modulo x^8 + x^4 + x^3 + x + 1 (section 4.2)
  // ---------------------------------------------------------------------

  /** Multiplication by x (xtime, section 4.2.1 of FIPS 197). */
  function XTime(b: bv8): bv8
  {
    if b & 0x80 == 0 then b + b else (b + b) ^ 0x1B
  }

  /**
   * The sum of a * x^j over the bits j >= k of b, with a already
   * multiplied by x^k: shift-and-add multiplication, one bit at a time.
   */
  function FieldMulFrom(a: bv8, b: bv8, k: nat): bv8
    requires k <= 8
    decreases 8 - k
  {
    if k == 8 then 0
    else (if (b >> k) & 1 == 1 then a else 0) ^ FieldMulFrom(XTime(a), b, k + 1)
  }

  /**
   * The field multiplication of the library's field with modulus 283
   * (x^8 + x^4 + x^3 + x + 1): the sum of a * x^k over the bits k of b.
   */
  function FieldMul(a: bv8, b: bv8): bv8
  {
    FieldMulFrom(a, b, 0)
  }

  // ---------------------------------------------------------------------
  // MixColumns (section 5.1.3) and InvMixColumns (section 5.3.3)
  // ---------------------------------------------------------------------

  /**
   * One column of mixColumns, with the products of the source taken in
   * the field whose multiplication is gf (the library's field _GF; FieldMul
   * for AES).
   */
  function MixColumn(gf: (bv8, bv8) -> bv8, s: seq<bv8>): (r: seq<bv8>)
    requires |s| == 4
    ensures |r| == 4
  {
    [gf(s[0], 0x02) ^ gf(s[1], 0x03) ^ s[2] ^ s[3],
     gf(s[1], 0x02) ^ gf(s[2], 0x03) ^ s[0] ^ s[3],
     gf(s[2], 0x02) ^ gf(s[3], 0x03) ^ s[0] ^ s[1],
     gf(s[3], 0x02) ^ gf(s[0], 0x03) ^ s[1] ^ s[2]]
  }

  /** One column of invMixColumns, with the products taken by gf. */
  function InvMixColumn(gf: (bv8, bv8) -> bv8, s: seq<bv8>): (r: seq<bv8>)
    requires |s| == 4
    ensures |r| == 4
  {
    [gf(0x0e, s[0]) ^ gf(0x0b, s[1]) ^ gf(0x0d, s[2]) ^ gf(0x09, s[3]),
     gf(0x09, s[0]) ^ gf(0x0e, s[1]) ^ gf(0x0b, s[2]) ^ gf(0x0d, s[3]),
     gf(0x0d, s[0]) ^ gf(0x09, s[1]) ^ gf(0x0e, s[2]) ^ gf(0x0b, s[3]),
     gf(0x0b, s[0]) ^ gf(0x0d, s[1]) ^ gf(0x09, s[2]) ^ gf(0x0e, s[3])]
  }

  // ---------------------------------------------------------------------
  // The state transformations on a 16-byte state
  // ---------------------------------------------------------------------

  /** One column of addRoundKey: the column read as a word, xored with x, split into bytes. */
  function ColumnKeyed(col: seq<bv8>, x: bv32): (r: seq<bv8>)
    requires |col| == 4
    ensures |r| == 4
  {
    WordBytes(ToWord(col[0], col[1], col[2], col[3]) ^ x)
  }

  /** The four bytes of a column read back from its word. */
  lemma ColumnWordBytes(col: seq<bv8>)
    requires |col| == 4
    ensures WordBytes(ToWord(col[0], col[1], col[2], col[3])) == col
  {
    var b0, b1, b2, b3 := col[0], col[1], col[2], col[3];
    BytesOfWord(b0, b1, b2, b3);
    assert col == [b0, b1, b2, b3];
  }

  /** Keying a column twice with the same word restores it. */
  lemma ColumnKeyedTwice(col: seq<bv8>, x: bv32)
    requires |col| == 4
    ensures ColumnKeyed(ColumnKeyed(col, x), x) == col
  {
    var t := ToWord(col[0], col[1], col[2], col[3]);
    WordOfBytes(t ^ x);
    assert (t ^ x) ^ x == t;
    ColumnWordBytes(col);
  }

  /** addRoundKey: column c of the state is keyed with word 4 * round + c of the schedule. */
  function KeyAdded(s: seq<bv8>, ws: seq<bv32>, round: int): (r: seq<bv8>)
    requires |s| == 16 && |ws| == 44 && 0 <= round <= 10
    ensures |r| == 16
  {
    ColumnKeyed(s[0..4], ws[4 * round]) + ColumnKeyed(s[4..8], ws[4 * round + 1]) +
    ColumnKeyed(s[8..12], ws[4 * round + 2]) + ColumnKeyed(s[12..16], ws[4 * round + 3])
  }


  /** subBytes: the S-box applied to every byte of the state. */
  function Substituted(s: seq<bv8>): (r: seq<bv8>)
    ensures |r| == |s|
  {
    seq(|s|, i requires 0 <= i < |s| => SubByte(s[i]))
  }

  /** invSubBytes: the inverse S-box applied to every byte of the state. */
  function InvSubstituted(s: seq<bv8>): (r: seq<bv8>)
    ensures |r| == |s|
  {
    seq(|s|, i requires 0 <= i < |s| => InvSubByte(s[i]))
  }

  lemma SubstitutedInverse(s: seq<bv8>)
    ensures InvSubstituted(Substituted(s)) == s
  {
    forall i | 0 <= i < |s|
      ensures InvSubstituted(Substituted(s))[i] == s[i]
    {
      SubByteInverse(s[i]);
    }
  }

  /**
   * shiftRows: row r of the state is rotated left by r places, so the byte
   * that lands in row r of column c comes from column (c + r) mod 4.
   */
  function ShiftSource(k: int): (j: int)
    requires 0 <= k < 16
    ensures 0 <= j < 16 && j % 4 == k % 4
  {
    4 * ((k / 4 + k % 4) % 4) + k % 4
  }

  /** invShiftRows: the byte that lands in row r of column c comes from column (c - r) mod 4. */
  function UnshiftSource(k: int): (j: int)
    requires 0 <= k < 16
    ensures 0 <= j < 16 && j % 4 == k % 4
  {
    4 * ((k / 4 + 4 - k % 4) % 4) + k % 4
  }

  lemma UnshiftShift(k: int)
    requires 0 <= k < 16
    ensures ShiftSource(UnshiftSource(k)) == k
  {
    var c, r := k / 4, k % 4;
    var j := UnshiftSource(k);
    var c' := (c + 4 - r) % 4;
    assert j == 4 * c' + r;
    assert j / 4 == c' && j % 4 == r;
    assert (c' + r) % 4 == c;
  }

  function RowsShifted(s: seq<bv8>): (r: seq<bv8>)
    requires |s| == 16
    ensures |r| == 16
  {
    seq(16, k requires 0 <= k < 16 => s[ShiftSource(k)])
  }

  function RowsUnshifted(s: seq<bv8>): (r: seq<bv8>)
    requires |s| == 16
    ensures |r| == 16
  {
    seq(16, k requires 0 <= k < 16 => s[UnshiftSource(k)])
  }

  lemma RowsShiftedInverse(s: seq<bv8>)
    requires |s| == 16
    ensures RowsUnshifted(RowsShifted(s)) == s
  {
    forall k | 0 <= k < 16
      ensures RowsUnshifted(RowsShifted(s))[k] == s[k]
    {
      UnshiftShift(k);
    }
  }

  /** Row r of the state rotated left by r, the other rows untouched: one pass of shiftRows. */
  function RowRotated(s: seq<bv8>, r: int): (t: seq<bv8>)
    requires |s| == 16 && 0 <= r < 4
    ensures |t| == 16
  {
    seq(16, k requires 0 <= k < 16 => if k % 4 == r then s[ShiftSource(k)] else s[k])
  }

  /** Row r of the state rotated right by r, the other rows untouched: one pass of invShiftRows. */
  function RowUnrotated(s: seq<bv8>, r: int): (t: seq<bv8>)
    requires |s| == 16 && 0 <= r < 4
    ensures |t| == 16
  {
    seq(16, k requires 0 <= k < 16 => if k % 4 == r then s[UnshiftSource(k)] else s[k])
  }

  /** The state with the rows below r shifted and the others as they were. */
  function RowsShiftedBelow(s: seq<bv8>, r: int): (t: seq<bv8>)
    requires |s| == 16 && 0 <= r <= 4
    ensures |t| == 16
  {
    seq(16, k requires 0 <= k < 16 => if k % 4 < r then s[ShiftSource(k)] else s[k])
  }

  /** The state with the rows below r unshifted and the others as they were. */
  function RowsUnshiftedBelow(s: seq<bv8>, r: int): (t: seq<bv8>)
    requires |s| == 16 && 0 <= r <= 4
    ensures |t| == 16
  {
    seq(16, k requires 0 <= k < 16 => if k % 4 < r then s[UnshiftSource(k)] else s[k])
  }

  /** Row 0 is not moved, and rotating row r of a state whose rows below r are shifted shifts one more row. */
  lemma RowsShiftedStep(s: seq<bv8>, r: int)
    requires |s| == 16 && 1 <= r < 4
    ensures RowsShiftedBelow(s, 1) == s
    ensures RowRotated(RowsShiftedBelow(s, r), r) == RowsShiftedBelow(s, r + 1)
    ensures RowsShiftedBelow(s, 4) == RowsShifted(s)
  {
    forall k | 0 <= k < 16 && k % 4 == 0
      ensures ShiftSource(k) == k
    {
    }
  }

  lemma RowsUnshiftedStep(s: seq<bv8>, r: int)
    requires |s| == 16 && 1 <= r < 4
    ensures RowsUnshiftedBelow(s, 1) == s
    ensures RowUnrotated(RowsUnshiftedBelow(s, r), r) == RowsUnshiftedBelow(s, r + 1)
    ensures RowsUnshiftedBelow(s, 4) == RowsUnshifted(s)
  {
    forall k | 0 <= k < 16 && k % 4 == 0
      ensures UnshiftSource(k) == k
    {
    }
  }

  /** The state with row r replaced by the four bytes m, column by column. */
  function RowReplaced(s: seq<bv8>, r: int, m: seq<bv8>): (t: seq<bv8>)
    requires |s| == 16 && 0 <= r < 4 && |m| == 4
    ensures |t| == 16
  {
    seq(16, k requires 0 <= k < 16 => if k % 4 == r then m[k / 4] else s[k])
  }

  /** Rotating row r left writes, into column c, the byte of column (c + r) mod 4. */
  lemma RowRotatedReplaced(s: seq<bv8>, r: int)
    requires |s| == 16 && 0 <= r < 4
    ensures RowRotated(s, r) ==
            RowReplaced(s, r, [s[4 * ((r + 0) % 4) + r], s[4 * ((r + 1) % 4) + r],
                               s[4 * ((r + 2) % 4) + r], s[4 * ((r + 3) % 4) + r]])
  {
    forall k | 0 <= k < 16 && k % 4 == r
      ensures ShiftSource(k) == 4 * ((k / 4 + r) % 4) + r
    {
    }
  }

  /** Rotating row r right writes, into column (c + r) mod 4, the byte of column c. */
  lemma RowUnrotatedReplaced(s: seq<bv8>, r: int)
    requires |s| == 16 && 0 <= r < 4
    ensures RowUnrotated(s, r) ==
            RowReplaced(s, r, [s[4 * ((4 - r) % 4) + r], s[4 * ((5 - r) % 4) + r],
                               s[4 * ((6 - r) % 4) + r], s[4 * ((7 - r) % 4) + r]])
  {
    forall k | 0 <= k < 16 && k % 4 == r
      ensures UnshiftSource(k) == 4 * ((k / 4 + 4 - r) % 4) + r
    {
    }
  }

  /** mixColumns: every column of the state replaced by its mixed column. */
  function ColumnsMixed(gf: (bv8, bv8) -> bv8, s: seq<bv8>): (r: seq<bv8>)
    requires |s| == 16
    ensures |r| == 16
  {
    MixColumn(gf, s[0..4]) + MixColumn(gf, s[4..8]) + MixColumn(gf, s[8..12]) + MixColumn(gf, s[12..16])
  }

  /** invMixColumns: every column of the state replaced by its unmixed column. */
  function ColumnsUnmixed(gf: (bv8, bv8) -> bv8, s: seq<bv8>): (r: seq<bv8>)
    requires |s| == 16
    ensures |r| == 16
  {
    InvMixColumn(gf, s[0..4]) + InvMixColumn(gf, s[4..8]) + InvMixColumn(gf, s[8..12]) + InvMixColumn(gf, s[12..16])
  }

  /**
   * The column transform of section 5.3.3 of FIPS 197 inverts that of
   * section 5.1.3. The model takes this as a stated hypothesis of the
   * round-trip lemmas rather than proving it.
   */
  ghost predicate MixColumnInvertible(gf: (bv8, bv8) -> bv8)
  {
    forall col: seq<bv8> {:trigger InvMixColumn(gf, MixColumn(gf, col))} :: |col| == 4 ==> InvMixColumn(gf, MixColumn(gf, col)) == col
  }

  /** The four columns of a state built from four columns. */
  lemma Columns(a: seq<bv8>, b: seq<bv8>, c: seq<bv8>, d: seq<bv8>)
    requires |a| == 4 && |b| == 4 && |c| == 4 && |d| == 4
    ensures (a + b + c + d)[0..4] == a && (a + b + c + d)[4..8] == b
    ensures (a + b + c + d)[8..12] == c && (a + b + c + d)[12..16] == d
  {
  }

  lemma Unmix(gf: (bv8, bv8) -> bv8, col: seq<bv8>)
    requires |col| == 4 && MixColumnInvertible(gf)
    ensures InvMixColumn(gf, MixColumn(gf, col)) == col
  {
  }

  lemma ColumnsUnmixedColumns(gf: (bv8, bv8) -> bv8, a: seq<bv8>, b: seq<bv8>, c: seq<bv8>, d: seq<bv8>)
    requires |a| == 4 && |b| == 4 && |c| == 4 && |d| == 4
    ensures ColumnsUnmixed(gf, a + b + c + d) == InvMixColumn(gf, a) + InvMixColumn(gf, b) + InvMixColumn(gf, c) + InvMixColumn(gf, d)
  {
    Columns(a, b, c, d);
  }

  lemma Quarters(s: seq<bv8>)
    requires |s| == 16
    ensures s == s[0..4] + s[4..8] + s[8..12] + s[12..16]
  {
  }

  lemma KeyAddedColumns(a: seq<bv8>, b: seq<bv8>, c: seq<bv8>, d: seq<bv8>, ws: seq<bv32>, round: int)
    requires |a| == 4 && |b| == 4 && |c| == 4 && |d| == 4 && |ws| == 44 && 0 <= round <= 10
    ensures KeyAdded(a + b + c + d, ws, round) ==
            ColumnKeyed(a, ws[4 * round]) + ColumnKeyed(b, ws[4 * round + 1]) +
            ColumnKeyed(c, ws[4 * round + 2]) + ColumnKeyed(d, ws[4 * round + 3])
  {
    Columns(a, b, c, d);
  }

  /** Adding the same round key twice restores the state. */
  lemma KeyAddedTwice(s: seq<bv8>, ws: seq<bv32>, round: int)
    requires |s| == 16 && |ws| == 44 && 0 <= round <= 10
    ensures KeyAdded(KeyAdded(s, ws, round), ws, round) == s
  {
    var a, b, c, d := s[0..4], s[4..8], s[8..12], s[12..16];
    var x0, x1, x2, x3 := ws[4 * round], ws[4 * round + 1], ws[4 * round + 2], ws[4 * round + 3];
    ColumnKeyedTwice(a, x0);
    ColumnKeyedTwice(b, x1);
    ColumnKeyedTwice(c, x2);
    ColumnKeyedTwice(d, x3);
    KeyAddedColumns(ColumnKeyed(a, x0), ColumnKeyed(b, x1), ColumnKeyed(c, x2), ColumnKeyed(d, x3), ws, round);
    Quarters(s);
  }

  lemma ColumnsMixedInverse(gf: (bv8, bv8) -> bv8, s: seq<bv8>)
    requires |s| == 16 && MixColumnInvertible(gf)
    ensures ColumnsUnmixed(gf, ColumnsMixed(gf, s)) == s
  {
    var a, b, c, d := s[0..4], s[4..8], s[8..12], s[12..16];
    Unmix(gf, a);
    Unmix(gf, b);
    Unmix(gf, c);
    Unmix(gf, d);
    calc {
      ColumnsUnmixed(gf, ColumnsMixed(gf, s));
      ColumnsUnmixed(gf, MixColumn(gf, a) + MixColumn(gf, b) + MixColumn(gf, c) + MixColumn(gf, d));
      { ColumnsUnmixedColumns(gf, MixColumn(gf, a), MixColumn(gf, b), MixColumn(gf, c), MixColumn(gf, d)); }
      InvMixColumn(gf, MixColumn(gf, a)) + InvMixColumn(gf, MixColumn(gf, b)) + InvMixColumn(gf, MixColumn(gf, c)) + InvMixColumn(gf, MixColumn(gf, d));
      a + b + c + d;
      { Quarters(s); }
      s;
    }
  }

  // ---------------------------------------------------------------------
  // The cipher (section 5.1) and the inverse cipher (section 5.3)
  // ---------------------------------------------------------------------

  /** The step cipher and invCipher start from. */
  const FirstStep: int := 0

  /** One of the rounds 1 .. 9 of cipher. */
  function Round(gf: (bv8, bv8) -> bv8, ws: seq<bv32>, s: seq<bv8>, round: int): (r: seq<bv8>)
    requires |ws| == 44 && |s| == 16 && 1 <= round <= 9
    ensures |r| == 16
  {
    KeyAdded(ColumnsMixed(gf, RowsShifted(Substituted(s))), ws, round)
  }

  /** The state of cipher after addRoundKey(0) and the rounds 1 .. r. */
  function EncRounds(gf: (bv8, bv8) -> bv8, ws: seq<bv32>, s: seq<bv8>, r: int): (t: seq<bv8>)
    requires |ws| == 44 && |s| == 16 && 0 <= r <= 9
    ensures |t| == 16
  {
    StepsKeepLength(gf, ws);
    RoundsKeepLength(RoundStep(gf, ws), KeyAdded(s, ws, 0), 0, r);
    Rounds(RoundStep(gf, ws), KeyAdded(s, ws, 0), 0, r)
  }

  /** Step r of cipher: addRoundKey(0) at step 0, round r at steps 1 .. 9, the last round, without mixColumns, at step 10. */
  function CipherStep(gf: (bv8, bv8) -> bv8, ws: seq<bv32>, s: seq<bv8>, r: int): (t: seq<bv8>)
    requires |ws| == 44 && |s| == 16 && 0 <= r <= 10
    ensures |t| == 16
  {
    if r == 0 then KeyAdded(s, ws, 0)
    else if r <= 9 then Round(gf, ws, s, r)
    else KeyAdded(RowsShifted(Substituted(s)), ws, 10)
  }

  /** The steps r .. 10 of cipher applied in turn to s. */
  function CipherFrom(gf: (bv8, bv8) -> bv8, ws: seq<bv32>, s: seq<bv8>, r: int): (t: seq<bv8>)
    requires |ws| == 44 && |s| == 16 && 0 <= r <= 11
    ensures |t| == 16
    decreases ws, 11 - r
  {
    if r == 11 then s else CipherFrom(gf, ws, CipherStep(gf, ws, s, r), r + 1)
  }

  /** cipher: the steps 0 .. 10 applied in turn to the block s. */
  function EncryptBlock(gf: (bv8, bv8) -> bv8, ws: seq<bv32>, s: seq<bv8>): (c: seq<bv8>)
    requires |ws| == 44 && |s| == 16
    ensures |c| == 16
  {
    CipherFrom(gf, ws, s, FirstStep)
  }

  /** One of the rounds 9 .. 1 of invCipher. */
  function InvRound(gf: (bv8, bv8) -> bv8, ws: seq<bv32>, s: seq<bv8>, round: int): (r: seq<bv8>)
    requires |ws| == 44 && |s| == 16 && 1 <= round <= 9
    ensures |r| == 16
  {
    ColumnsUnmixed(gf, KeyAdded(InvSubstituted(RowsUnshifted(s)), ws, round))
  }

  /** The first n inverse rounds of invCipher, rounds 9, 8, .., 10 - n, applied to t. */
  function DecRounds(gf: (bv8, bv8) -> bv8, ws: seq<bv32>, t: seq<bv8>, n: int): (u: seq<bv8>)
    requires |ws| == 44 && |t| == 16 && 0 <= n <= 9
    ensures |u| == 16
  {
    StepsKeepLength(gf, ws);
    InvRoundsKeepLength(InvRoundStep(gf, ws), t, 9 - n, 9);
    InvRounds(InvRoundStep(gf, ws), t, 9 - n, 9)
  }

  /**
   * Step r of invCipher: addRoundKey(10) at step 0, the inverse round 10 - r
   * at steps 1 .. 9, and at step 10 invShiftRows, invSubBytes and addRoundKey(0).
   */
  function InvCipherStep(gf: (bv8, bv8) -> bv8, ws: seq<bv32>, s: seq<bv8>, r: int): (t: seq<bv8>)
    requires |ws| == 44 && |s| == 16 && 0 <= r <= 10
    ensures |t| == 16
  {
    if r == 0 then KeyAdded(s, ws, 10)
    else if r <= 9 then InvRound(gf, ws, s, 10 - r)
    else KeyAdded(InvSubstituted(RowsUnshifted(s)), ws, 0)
  }

  /** The steps r .. 10 of invCipher applied in turn to s. */
  function InvCipherFrom(gf: (bv8, bv8) -> bv8, ws: seq<bv32>, s: seq<bv8>, r: int): (t: seq<bv8>)
    requires |ws| == 44 && |s| == 16 && 0 <= r <= 11
    ensures |t| == 16
    decreases ws, 11 - r
  {
    if r == 11 then s else InvCipherFrom(gf, ws, InvCipherStep(gf, ws, s, r), r + 1)
  }

  /** invCipher: the steps 0 .. 10 applied in turn to the block c. */
  function DecryptBlock(gf: (bv8, bv8) -> bv8, ws: seq<bv32>, c: seq<bv8>): (s: seq<bv8>)
    requires |ws| == 44 && |c| == 16
    ensures |s| == 16
  {
    InvCipherFrom(gf, ws, c, FirstStep)
  }

  /** Round r of cipher follows the rounds before it. */
  lemma {:induction false} EncRoundsStep(gf: (bv8, bv8) -> bv8, ws: seq<bv32>, s: seq<bv8>, r: int)
    requires |ws| == 44 && |s| == 16 && 1 <= r <= 9
    ensures EncRounds(gf, ws, s, r) == Round(gf, ws, EncRounds(gf, ws, s, r - 1), r)
  {
    var f := RoundStep(gf, ws);
    var k0 := KeyAdded(s, ws, 0);
    assert Rounds(f, k0, 0, r) == f(Rounds(f, k0, 0, r - 1), r);
  }

  /** Inverse round 10 - n of invCipher follows the inverse rounds before it. */
  lemma {:induction false} DecRoundsStep(gf: (bv8, bv8) -> bv8, ws: seq<bv32>, t: seq<bv8>, n: int)
    requires |ws| == 44 && |t| == 16 && 1 <= n <= 9
    ensures DecRounds(gf, ws, t, n) == InvRound(gf, ws, DecRounds(gf, ws, t, n - 1), 10 - n)
  {
    var g := InvRoundStep(gf, ws);
    var u := DecRounds(gf, ws, t, n - 1);
    assert u == InvRounds(g, t, 10 - n, 9);
    assert InvRounds(g, t, 9 - n, 9) == g(u, 10 - n);
  }

  /** Running cipher from step r on the state after the rounds before r gives the cipher of s. */
  lemma {:induction false} CipherFromRounds(gf: (bv8, bv8) -> bv8, ws: seq<bv32>, s: seq<bv8>, r: int)
    requires |ws| == 44 && |s| == 16 && 1 <= r <= 10
    ensures CipherFrom(gf, ws, EncRounds(gf, ws, s, r - 1), r) == EncryptBlock(gf, ws, s)
    decreases r
  {
    if r == 1 {
      assert EncRounds(gf, ws, s, 0) == KeyAdded(s, ws, 0);
      assert CipherFrom(gf, ws, s, 0) == CipherFrom(gf, ws, KeyAdded(s, ws, 0), 1);
    } else {
      CipherFromRounds(gf, ws, s, r - 1);
      var e := EncRounds(gf, ws, s, r - 2);
      EncRoundsStep(gf, ws, s, r - 1);
      assert CipherFrom(gf, ws, e, r - 1) == CipherFrom(gf, ws, Round(gf, ws, e, r - 1), r);
    }
  }

  /** cipher is addRoundKey(0), the rounds 1 .. 9, subBytes, shiftRows and addRoundKey(10). */
  lemma EncryptBlockRounds(gf: (bv8, bv8) -> bv8, ws: seq<bv32>, s: seq<bv8>)
    requires |ws| == 44 && |s| == 16
    ensures EncryptBlock(gf, ws, s) == KeyAdded(RowsShifted(Substituted(EncRounds(gf, ws, s, 9))), ws, 10)
  {
    var e := EncRounds(gf, ws, s, 9);
    CipherFromRounds(gf, ws, s, 10);
    assert CipherFrom(gf, ws, e, 10) == CipherFrom(gf, ws, CipherStep(gf, ws, e, 10), 11);
  }

  /** Running invCipher from step r on the state after the steps before r gives the inverse cipher of c. */
  lemma {:induction false} InvCipherFromRounds(gf: (bv8, bv8) -> bv8, ws: seq<bv32>, c: seq<bv8>, r: int)
    requires |ws| == 44 && |c| == 16 && 1 <= r <= 10
    ensures InvCipherFrom(gf, ws, DecRounds(gf, ws, KeyAdded(c, ws, 10), r - 1), r) == DecryptBlock(gf, ws, c)
    decreases r
  {
    var t := KeyAdded(c, ws, 10);
    if r == 1 {
      assert DecRounds(gf, ws, t, 0) == t;
      assert InvCipherFrom(gf, ws, c, 0) == InvCipherFrom(gf, ws, t, 1);
    } else {
      InvCipherFromRounds(gf, ws, c, r - 1);
      var u := DecRounds(gf, ws, t, r - 2);
      DecRoundsStep(gf, ws, t, r - 1);
      assert InvCipherFrom(gf, ws, u, r - 1) == InvCipherFrom(gf, ws, InvRound(gf, ws, u, 11 - r), r);
    }
  }

  /** invCipher is addRoundKey(10), the inverse rounds 9 .. 1, invShiftRows, invSubBytes and addRoundKey(0). */
  lemma DecryptBlockRounds(gf: (bv8, bv8) -> bv8, ws: seq<bv32>, c: seq<bv8>)
    requires |ws| == 44 && |c| == 16
    ensures DecryptBlock(gf, ws, c) == KeyAdded(InvSubstituted(RowsUnshifted(DecRounds(gf, ws, KeyAdded(c, ws, 10), 9))), ws, 0)
  {
    var u := DecRounds(gf, ws, KeyAdded(c, ws, 10), 9);
    InvCipherFromRounds(gf, ws, c, 10);
    assert InvCipherFrom(gf, ws, u, 10) == InvCipherFrom(gf, ws, InvCipherStep(gf, ws, u, 10), 11);
  }

  /** The inverse round r takes the shifted, substituted state of round r back one round. */
  lemma InvRoundUndoes(gf: (bv8, bv8) -> bv8, ws: seq<bv32>, x: seq<bv8>, round: int)
    requires |ws| == 44 && |x| == 16 && 1 <= round <= 9 && MixColumnInvertible(gf)
    ensures InvRound(gf, ws, RowsShifted(Substituted(Round(gf, ws, x, round))), round) == RowsShifted(Substituted(x))
  {
    var y := Round(gf, ws, x, round);
    RowsShiftedInverse(Substituted(y));
    SubstitutedInverse(y);
    var z := ColumnsMixed(gf, RowsShifted(Substituted(x)));
    KeyAddedTwice(z, ws, round);
    ColumnsMixedInverse(gf, RowsShifted(Substituted(x)));
  }

  /** f(., lo + 1), .., f(., hi) applied in turn to x. */
  function Rounds(f: (seq<bv8>, int) -> seq<bv8>, x: seq<bv8>, lo: int, hi: int): seq<bv8>
    requires lo <= hi
    decreases hi - lo
  {
    if hi == lo then x else f(Rounds(f, x, lo, hi - 1), hi)
  }

  /** g(., hi), .., g(., lo + 1) applied in turn to y. */
  function InvRounds(g: (seq<bv8>, int) -> seq<bv8>, y: seq<bv8>, lo: int, hi: int): seq<bv8>
    requires lo <= hi
    decreases hi - lo
  {
    if hi == lo then y else g(InvRounds(g, y, lo + 1, hi), lo + 1)
  }

  /**
   * When each g(., r) undoes f(., r) up to the conjugation h, the inverse
   * rounds hi .. m + 1 undo the rounds m + 1 .. hi.
   */
  lemma {:induction false} InvRoundsUnwind(f: (seq<bv8>, int) -> seq<bv8>, g: (seq<bv8>, int) -> seq<bv8>,
                                           h: seq<bv8> -> seq<bv8>, x: seq<bv8>, lo: int, m: int, hi: int)
    requires lo <= m <= hi
    requires forall y, r :: lo < r <= hi ==> g(h(f(y, r)), r) == h(y)
    ensures InvRounds(g, h(Rounds(f, x, lo, hi)), m, hi) == h(Rounds(f, x, lo, m))
    decreases hi - m
  {
    if m < hi {
      InvRoundsUnwind(f, g, h, x, lo, m + 1, hi);
      var y := Rounds(f, x, lo, m);
      assert Rounds(f, x, lo, m + 1) == f(y, m + 1);
      assert g(h(f(y, m + 1)), m + 1) == h(y);
    }
  }

  /** Round r of cipher as a function value (the identity off the state size and the round range). */
  function RoundStep(gf: (bv8, bv8) -> bv8, ws: seq<bv32>): (seq<bv8>, int) -> seq<bv8>
    requires |ws| == 44
  {
    (x: seq<bv8>, r: int) => if |x| == 16 && 1 <= r <= 9 then Round(gf, ws, x, r) else x
  }

  /** Inverse round r of invCipher as a function value. */
  function InvRoundStep(gf: (bv8, bv8) -> bv8, ws: seq<bv32>): (seq<bv8>, int) -> seq<bv8>
    requires |ws| == 44
  {
    (x: seq<bv8>, r: int) => if |x| == 16 && 1 <= r <= 9 then InvRound(gf, ws, x, r) else x
  }

  /** subBytes then shiftRows, as a function value. */
  function ShiftedSubstituted(x: seq<bv8>): seq<bv8>
  {
    if |x| == 16 then RowsShifted(Substituted(x)) else x
  }

  /** The round steps keep the length of the state. */
  lemma StepsKeepLength(gf: (bv8, bv8) -> bv8, ws: seq<bv32>)
    requires |ws| == 44
    ensures forall y, r :: |RoundStep(gf, ws)(y, r)| == |y|
    ensures forall y, r :: |InvRoundStep(gf, ws)(y, r)| == |y|
  {
  }

  lemma {:induction false} RoundsKeepLength(f: (seq<bv8>, int) -> seq<bv8>, x: seq<bv8>, lo: int, hi: int)
    requires lo <= hi && forall y, r :: |f(y, r)| == |y|
    ensures |Rounds(f, x, lo, hi)| == |x|
    decreases hi - lo
  {
    if hi > lo {
      RoundsKeepLength(f, x, lo, hi - 1);
    }
  }

  lemma {:induction false} InvRoundsKeepLength(g: (seq<bv8>, int) -> seq<bv8>, y: seq<bv8>, lo: int, hi: int)
    requires lo <= hi && forall x, r :: |g(x, r)| == |x|
    ensures |InvRounds(g, y, lo, hi)| == |y|
    decreases hi - lo
  {
    if hi > lo {
      InvRoundsKeepLength(g, y, lo + 1, hi);
    }
  }

  /** Every inverse round undoes its round, up to subBytes and shiftRows. */
  lemma RoundStepsConjugate(gf: (bv8, bv8) -> bv8, ws: seq<bv32>)
    requires |ws| == 44 && MixColumnInvertible(gf)
    ensures forall y, r :: 0 < r <= 9 ==>
              InvRoundStep(gf, ws)(ShiftedSubstituted(RoundStep(gf, ws)(y, r)), r) == ShiftedSubstituted(y)
  {
    forall y, r | 0 < r <= 9
      ensures InvRoundStep(gf, ws)(ShiftedSubstituted(RoundStep(gf, ws)(y, r)), r) == ShiftedSubstituted(y)
    {
      if |y| == 16 {
        InvRoundUndoes(gf, ws, y, r);
      }
    }
  }

  /** The nine inverse rounds undo the nine rounds of cipher, up to subBytes and shiftRows. */
  lemma DecRoundsUndo(gf: (bv8, bv8) -> bv8, ws: seq<bv32>, s: seq<bv8>, e: seq<bv8>)
    requires |ws| == 44 && |s| == 16 && MixColumnInvertible(gf)
    requires e == EncRounds(gf, ws, s, 9)
    ensures DecRounds(gf, ws, RowsShifted(Substituted(e)), 9) == RowsShifted(Substituted(KeyAdded(s, ws, 0)))
  {
    var k0 := KeyAdded(s, ws, 0);
    RoundStepsUnwind(gf, ws, k0);
    assert ShiftedSubstituted(Rounds(RoundStep(gf, ws), k0, 0, 9)) == RowsShifted(Substituted(e));
  }

  /** The inverse round steps 9 .. 1 undo the round steps 1 .. 9, up to subBytes and shiftRows. */
  lemma RoundStepsUnwind(gf: (bv8, bv8) -> bv8, ws: seq<bv32>, k0: seq<bv8>)
    requires |ws| == 44 && |k0| == 16 && MixColumnInvertible(gf)
    ensures InvRounds(InvRoundStep(gf, ws), ShiftedSubstituted(Rounds(RoundStep(gf, ws), k0, 0, 9)), 0, 9) ==
            RowsShifted(Substituted(k0))
  {
    RoundStepsConjugate(gf, ws);
    InvRoundsUnwind(RoundStep(gf, ws), InvRoundStep(gf, ws), ShiftedSubstituted, k0, 0, 0, 9);
  }

  /** invCipher undoes cipher under every key schedule. */
  lemma CipherInverse(gf: (bv8, bv8) -> bv8, ws: seq<bv32>, s: seq<bv8>)
    requires |ws| == 44 && |s| == 16 && MixColumnInvertible(gf)
    ensures DecryptBlock(gf, ws, EncryptBlock(gf, ws, s)) == s
  {
    var e := EncRounds(gf, ws, s, 9);
    EncryptBlockRounds(gf, ws, s);
    DecryptBlockRounds(gf, ws, EncryptBlock(gf, ws, s));
    KeyAddedTwice(RowsShifted(Substituted(e)), ws, 10);
    DecRoundsUndo(gf, ws, s, e);
    FirstRoundUndone(ws, s);
  }

  /** The last steps of invCipher undo addRoundKey(0). */
  lemma FirstRoundUndone(ws: seq<bv32>, s: seq<bv8>)
    requires |ws| == 44 && |s| == 16
    ensures KeyAdded(InvSubstituted(RowsUnshifted(RowsShifted(Substituted(KeyAdded(s, ws, 0))))), ws, 0) == s
  {
    var a := KeyAdded(s, ws, 0);
    RowsShiftedInverse(Substituted(a));
    SubstitutedInverse(a);
    KeyAddedTwice(s, ws, 0);
  }

  // ---------------------------------------------------------------------
  // The key expansion (section 5.2)
  // ---------------------------------------------------------------------

  /** _RCON: the round constants x^(i-1) in the most significant byte. */
  const Rcon: seq<bv32> := [0x01000000, 0x02000000, 0x04000000, 0x08000000, 0x10000000,
                            0x20000000, 0x40000000, 0x80000000, 0x1b000000, 0x36000000]

  /**
   * The word xored with w[i - 4] to give w[i]: w[i - 1], rotated,
   * substituted and xored with a round constant at every fourth word.
   */
  function ScheduleTemp(prev: bv32, i: int): bv32
    requires 4 <= i < 44
  {
    if i % 4 == 0 then SubWord(RotWord(prev)) ^ Rcon[i / 4 - 1] else prev
  }

  /** The key's four words, as the first four words of the expansion. */
  function KeyWords(key: seq<bv8>): (r: seq<bv32>)
    requires |key| == 16
  {
    [ToWord(key[0], key[1], key[2], key[3]), ToWord(key[4], key[5], key[6], key[7]),
     ToWord(key[8], key[9], key[10], key[11]), ToWord(key[12], key[13], key[14], key[15])]
  }

  /** The temporary word of one pass of the loop of keyExpansion. */
  method ExpansionTemp(prev: bv32, i: int) returns (temp: bv32)
    requires 4 <= i < 44
    ensures temp == ScheduleTemp(prev, i)
  {
    temp := prev;
    if i % 4 == 0 {
      temp := SubWord(RotWord(temp)) ^ Rcon[i / 4 - 1];
    }
  }

  /** Word i of an expansion from the words before it: w[i - 4] xored with the temporary word. */
  function NextWord(ws: seq<bv32>, i: int): bv32
    requires 4 <= i <= |ws| && i < 44
  {
    ws[i - 4] ^ ScheduleTemp(ws[i - 1], i)
  }

  /** ws is the expansion of the 16-byte key: the key's words, then the recurrence. */
  ghost predicate IsKeySchedule(key: seq<bv8>, ws: seq<bv32>)
  {
    && |key| == 16 && |ws| == 44
    && ws[..4] == KeyWords(key)
    && (forall i {:trigger NextWord(ws, i)} :: 4 <= i < 44 ==> ws[i] == NextWord(ws, i))
  }

  /** The first n words of the expansion of the key. */
  function Expansion(key: seq<bv8>, n: int): (ws: seq<bv32>)
    requires |key| == 16 && 4 <= n <= 44
    ensures |ws| == n
    decreases n
  {
    if n == 4 then KeyWords(key)
    else
      var ws := Expansion(key, n - 1);
      ws + [NextWord(ws, n - 1)]
  }

  lemma {:induction false} ExpansionRecurrence(key: seq<bv8>, n: int)
    requires |key| == 16 && 4 <= n <= 44
    ensures Expansion(key, n)[..4] == KeyWords(key)
    ensures forall i {:trigger NextWord(Expansion(key, n), i)} :: 4 <= i < n ==>
              Expansion(key, n)[i] == NextWord(Expansion(key, n), i)
    decreases n
  {
    if n > 4 {
      ExpansionRecurrence(key, n - 1);
      var ws := Expansion(key, n - 1);
      var ws' := Expansion(key, n);
      assert ws' == ws + [NextWord(ws, n - 1)];
      assert ws'[..n - 1] == ws;
      assert ws'[..4] == ws[..4];
      forall i | 4 <= i < n
        ensures ws'[i] == NextWord(ws', i)
      {
        NextWordPrefix(ws, ws', i);
      }
    }
  }

  /** NextWord reads only the words before i. */
  lemma NextWordPrefix(ws: seq<bv32>, ws': seq<bv32>, i: int)
    requires 4 <= i <= |ws| < |ws'| && i < 44 && ws'[..|ws|] == ws
    ensures NextWord(ws', i) == NextWord(ws, i)
    ensures i < |ws| ==> ws'[i] == ws[i]
  {
    assert ws'[i - 4] == ws[i - 4] && ws'[i - 1] == ws[i - 1];
  }

  /** The expansion satisfies the recurrence of section 5.2 of FIPS 197. */
  lemma ExpansionIsKeySchedule(key: seq<bv8>)
    requires |key| == 16
    ensures IsKeySchedule(key, Expansion(key, 44))
  {
    ExpansionRecurrence(key, 44);
  }

  lemma {:induction false} SchedulesAgree(key: seq<bv8>, a: seq<bv32>, b: seq<bv32>, n: int)
    requires IsKeySchedule(key, a) && IsKeySchedule(key, b) && 4 <= n <= 44
    ensures a[..n] == b[..n]
    decreases n
  {
    if n > 4 {
      SchedulesAgree(key, a, b, n - 1);
      ForwardStep(key, a, b, n - 1);
    }
  }

  /** Agreement of two key schedules below word i extends to word i. */
  lemma ForwardStep(key: seq<bv8>, a: seq<bv32>, b: seq<bv32>, i: int)
    requires IsKeySchedule(key, a) && IsKeySchedule(key, b) && 4 <= i < 44
    requires a[..i] == b[..i]
    ensures a[..i + 1] == b[..i + 1]
  {
    NextWordPrefix(a[..i], a, i);
    NextWordPrefix(b[..i], b, i);
    assert a[i] == NextWord(a, i) && b[i] == NextWord(b, i);
    assert a[..i + 1] == a[..i] + [a[i]];
    assert b[..i + 1] == b[..i] + [b[i]];
  }

  /** A key has exactly one expansion. */
  lemma KeyScheduleUnique(key: seq<bv8>, a: seq<bv32>, b: seq<bv32>)
    requires IsKeySchedule(key, a) && IsKeySchedule(key, b)
    ensures a == b
  {
    SchedulesAgree(key, a, b, 44);
    assert a == a[..44] && b == b[..44];
  }

  /** The key can be read back from its four words. */
  lemma KeyWordsInjective(k1: seq<bv8>, k2: seq<bv8>)
    requires |k1| == 16 && |k2| == 16 && KeyWords(k1) == KeyWords(k2)
    ensures k1 == k2
  {
    BytesOfWord(k1[0], k1[1], k1[2], k1[3]);
    BytesOfWord(k2[0], k2[1], k2[2], k2[3]);
    BytesOfWord(k1[4], k1[5], k1[6], k1[7]);
    BytesOfWord(k2[4], k2[5], k2[6], k2[7]);
    BytesOfWord(k1[8], k1[9], k1[10], k1[11]);
    BytesOfWord(k2[8], k2[9], k2[10], k2[11]);
    BytesOfWord(k1[12], k1[13], k1[14], k1[15]);
    BytesOfWord(k2[12], k2[13], k2[14], k2[15]);
    assert KeyWords(k1)[0] == KeyWords(k2)[0] && KeyWords(k1)[1] == KeyWords(k2)[1];
    assert KeyWords(k1)[2] == KeyWords(k2)[2] && KeyWords(k1)[3] == KeyWords(k2)[3];
  }

  /** The key can be read back from the first four words of its expansion. */
  lemma KeyScheduleInjective(k1: seq<bv8>, k2: seq<bv8>, ws: seq<bv32>)
    requires IsKeySchedule(k1, ws) && IsKeySchedule(k2, ws)
    ensures k1 == k2
  {
    KeyWordsInjective(k1, k2);
  }

  /** Xoring the same word twice gives the word back. */
  lemma XorTwice(x: bv32, t: bv32)
    ensures (x ^ t) ^ t == x
  {
  }

  /** The recurrence read backwards: word i - 4 is word i xored with the temporary word. */
  lemma WordBack(ws: seq<bv32>, i: int)
    requires |ws| == 44 && 4 <= i < 44 && ws[i] == NextWord(ws, i)
    ensures ws[i - 4] == ws[i] ^ ScheduleTemp(ws[i - 1], i)
  {
    XorTwice(ws[i - 4], ScheduleTemp(ws[i - 1], i));
  }

  /** The suffix from n - 1 is word n - 1 followed by the suffix from n. */
  lemma ConsTail<T>(s: seq<T>, n: int)
    requires 1 <= n <= |s|
    ensures s[n - 1..] == [s[n - 1]] + s[n..]
  {
  }

  /** Agreement of two key schedules from word n on extends one word down. */
  lemma AgreeStep(k1: seq<bv8>, k2: seq<bv8>, a: seq<bv32>, b: seq<bv32>, n: int)
    requires IsKeySchedule(k1, a) && IsKeySchedule(k2, b) && 1 <= n <= 40
    requires a[n..] == b[n..]
    ensures a[n - 1..] == b[n - 1..]
  {
    assert a[n + 2] == a[n..][2] == b[n..][2] == b[n + 2];
    assert a[n + 3] == a[n..][3] == b[n..][3] == b[n + 3];
    WordBack(a, n + 3);
    WordBack(b, n + 3);
    ConsTail(a, n);
    ConsTail(b, n);
  }

  /** The recurrence runs backwards too: agreement from word n on means agreement everywhere. */
  lemma {:induction false} SchedulesAgreeBelow(k1: seq<bv8>, k2: seq<bv8>, a: seq<bv32>, b: seq<bv32>, n: int)
    requires IsKeySchedule(k1, a) && IsKeySchedule(k2, b) && 0 <= n <= 40
    requires a[n..] == b[n..]
    ensures a == b
    decreases n
  {
    if n > 0 {
      AgreeStep(k1, k2, a, b, n);
      SchedulesAgreeBelow(k1, k2, a, b, n - 1);
    } else {
      assert a == a[0..] && b == b[0..];
    }
  }

  /** Words 11 .. 43 of an expansion determine the key. */
  lemma TailDeterminesKey(k1: seq<bv8>, k2: seq<bv8>, a: seq<bv32>, b: seq<bv32>)
    requires IsKeySchedule(k1, a) && IsKeySchedule(k2, b) && a[11..] == b[11..]
    ensures k1 == k2
  {
    SchedulesAgreeBelow(k1, k2, a, b, 11);
    KeyScheduleInjective(k1, k2, a);
  }

  /**
   * Copying the first 11 words of one expansion over another of a
   * different key leaves words that are the expansion of no key.
   */
  lemma AssignAsWrittenBreaksSchedule(k1: seq<bv8>, k2: seq<bv8>, dst: seq<bv32>, src: seq<bv32>, k: seq<bv8>)
    requires IsKeySchedule(k1, dst) && IsKeySchedule(k2, src) && k1 != k2
    ensures !IsKeySchedule(k, src[..11] + dst[11..])
  {
    var m := src[..11] + dst[11..];
    if IsKeySchedule(k, m) {
      assert m[..4] == src[..4];
      KeyWordsInjective(k, k2);
      KeyScheduleUnique(k2, m, src);
      assert dst[11..] == m[11..] == src[11..];
      TailDeterminesKey(k1, k2, dst, src);
    }
  }

  // ---------------------------------------------------------------------
  // Cipher-block chaining with a zero initialisation vector
  // ---------------------------------------------------------------------

  const ZeroBlock: seq<bv8> := [0, 0, 0, 0, 0, 0, 0, 0, 0, 0, 0, 0, 0, 0, 0, 0]

  /** mxor8: the bytewise exclusive or of two blocks. */
  function Xor16(a: seq<bv8>, b: seq<bv8>): (r: seq<bv8>)
    requires |a| == 16 && |b| == 16
    ensures |r| == 16
  {
    seq(16, j requires 0 <= j < 16 => a[j] ^ b[j])
  }

  lemma XorZero(b: seq<bv8>)
    requires |b| == 16
    ensures Xor16(ZeroBlock, b) == b
  {
  }

  lemma XorCancel(a: seq<bv8>, b: seq<bv8>)
    requires |a| == 16 && |b| == 16
    ensures Xor16(a, Xor16(a, b)) == b
  {
    forall j | 0 <= j < 16
      ensures Xor16(a, Xor16(a, b))[j] == b[j]
    {
      assert Xor16(a, Xor16(a, b))[j] == a[j] ^ (a[j] ^ b[j]);
    }
  }

  /** Block k of a message. */
  function Block(s: seq<bv8>, k: int): (b: seq<bv8>)
    requires 0 <= k && 16 * k + 16 <= |s|
    ensures |b| == 16
  {
    s[16 * k .. 16 * k + 16]
  }

  /** The block chained into the block that follows the ciphertext c: zero at the start. */
  function PreviousBlock(c: seq<bv8>): (b: seq<bv8>)
    requires |c| % 16 == 0
    ensures |b| == 16
  {
    if |c| == 0 then ZeroBlock else c[|c| - 16..]
  }

  /** A block that starts inside a message of whole blocks ends inside it too. */
  lemma NextBlockFits(i: int, n: int)
    requires 0 <= i < n && i % 16 == 0 && n % 16 == 0
    ensures i + 16 <= n && (i + 16) % 16 == 0
  {
    var a, b := i / 16, n / 16;
    assert i == 16 * a && n == 16 * b;
    assert a < b;
  }

  /**
   * encrypt: the message p in cipher-block chaining mode, block by block
   * from the front; each plaintext block is xored with the ciphertext
   * block before it (the zero block for the first) and enciphered.
   */
  function CbcEncrypted(gf: (bv8, bv8) -> bv8, ws: seq<bv32>, p: seq<bv8>): (c: seq<bv8>)
    requires |ws| == 44 && |p| % 16 == 0
    ensures |c| == |p|
    decreases |p|
  {
    if |p| == 0 then []
    else
      var c' := CbcEncrypted(gf, ws, p[..|p| - 16]);
      c' + EncryptBlock(gf, ws, Xor16(PreviousBlock(c'), p[|p| - 16..]))
  }

  /**
   * decrypt: every ciphertext block deciphered and xored with the
   * ciphertext block before it (the zero block for the first).
   */
  function CbcDecrypted(gf: (bv8, bv8) -> bv8, ws: seq<bv32>, c: seq<bv8>): (p: seq<bv8>)
    requires |ws| == 44 && |c| % 16 == 0
    ensures |p| == |c|
    decreases |c|
  {
    if |c| == 0 then []
    else
      var c' := c[..|c| - 16];
      CbcDecrypted(gf, ws, c') + Xor16(PreviousBlock(c'), DecryptBlock(gf, ws, c[|c| - 16..]))
  }

  /** Deciphering a chained block and xoring the chained block back recovers the plaintext block. */
  lemma ChainedBlockRoundTrip(gf: (bv8, bv8) -> bv8, ws: seq<bv32>, x: seq<bv8>, pb: seq<bv8>)
    requires |ws| == 44 && |x| == 16 && |pb| == 16 && MixColumnInvertible(gf)
    ensures Xor16(x, DecryptBlock(gf, ws, EncryptBlock(gf, ws, Xor16(x, pb)))) == pb
  {
    CipherInverse(gf, ws, Xor16(x, pb));
    XorCancel(x, pb);
  }

  /** Encrypting one more block appends its chained encryption. */
  lemma CbcEncryptedAppend(gf: (bv8, bv8) -> bv8, ws: seq<bv32>, p: seq<bv8>, pb: seq<bv8>)
    requires |ws| == 44 && |p| % 16 == 0 && |pb| == 16
    ensures CbcEncrypted(gf, ws, p + pb) ==
            CbcEncrypted(gf, ws, p) + EncryptBlock(gf, ws, Xor16(PreviousBlock(CbcEncrypted(gf, ws, p)), pb))
  {
    assert (p + pb)[..|p + pb| - 16] == p && (p + pb)[|p + pb| - 16..] == pb;
  }

  /** Decrypting one more block appends its deciphered block, xored with the block before it. */
  lemma CbcDecryptedAppend(gf: (bv8, bv8) -> bv8, ws: seq<bv32>, c: seq<bv8>, cb: seq<bv8>)
    requires |ws| == 44 && |c| % 16 == 0 && |cb| == 16
    ensures CbcDecrypted(gf, ws, c + cb) == CbcDecrypted(gf, ws, c) + Xor16(PreviousBlock(c), DecryptBlock(gf, ws, cb))
  {
    assert (c + cb)[..|c + cb| - 16] == c && (c + cb)[|c + cb| - 16..] == cb;
  }

  /** Encrypting one more block leaves the encryption of the message before it in place. */
  lemma CbcEncryptedExtends(gf: (bv8, bv8) -> bv8, ws: seq<bv32>, p: seq<bv8>, pb: seq<bv8>)
    requires |ws| == 44 && |p| % 16 == 0 && |pb| == 16
    ensures CbcEncrypted(gf, ws, p + pb)[..|p|] == CbcEncrypted(gf, ws, p)
  {
    CbcEncryptedAppend(gf, ws, p, pb);
  }

  /** Decrypting one more block leaves the decryption of the ciphertext before it in place. */
  lemma CbcDecryptedExtends(gf: (bv8, bv8) -> bv8, ws: seq<bv32>, c: seq<bv8>, cb: seq<bv8>)
    requires |ws| == 44 && |c| % 16 == 0 && |cb| == 16
    ensures CbcDecrypted(gf, ws, c + cb)[..|c|] == CbcDecrypted(gf, ws, c)
  {
    CbcDecryptedAppend(gf, ws, c, cb);
  }

  /** AES-128 in CBC mode: decryption undoes encryption, for every key schedule and message. */
  lemma {:induction false} CbcRoundTrip(gf: (bv8, bv8) -> bv8, ws: seq<bv32>, p: seq<bv8>)
    requires |ws| == 44 && |p| % 16 == 0 && MixColumnInvertible(gf)
    ensures CbcDecrypted(gf, ws, CbcEncrypted(gf, ws, p)) == p
    decreases |p|
  {
    if |p| > 0 {
      var p', pb := p[..|p| - 16], p[|p| - 16..];
      assert p == p' + pb;
      var c' := CbcEncrypted(gf, ws, p');
      var x := PreviousBlock(c');
      var cb := EncryptBlock(gf, ws, Xor16(x, pb));
      CbcEncryptedAppend(gf, ws, p', pb);
      CbcDecryptedAppend(gf, ws, c', cb);
      CbcRoundTrip(gf, ws, p');
      ChainedBlockRoundTrip(gf, ws, x, pb);
    }
  }

  /** The block at i of p, chained with the ciphertext so far and enciphered, extends the ciphertext to i + 16. */
  lemma {:induction false} CbcEncryptedStep(gf: (bv8, bv8) -> bv8, ws: seq<bv32>, p: seq<bv8>, i: int, c: seq<bv8>, e: seq<bv8>)
    requires |ws| == 44 && 0 <= i && i + 16 <= |p| && i % 16 == 0
    requires c == CbcEncrypted(gf, ws, p[..i])
    requires e == EncryptBlock(gf, ws, Xor16(PreviousBlock(c), p[i..i + 16]))
    ensures c + e == CbcEncrypted(gf, ws, p[..i + 16])
  {
    TakeSplit(p, i, i + 16);
    CbcEncryptedAppend(gf, ws, p[..i], p[i..i + 16]);
  }

  /** The first block of p, enciphered as it is, is the ciphertext of that block: the chained block is zero. */
  lemma CbcEncryptedFirst(gf: (bv8, bv8) -> bv8, ws: seq<bv32>, p: seq<bv8>, e: seq<bv8>)
    requires |ws| == 44 && 16 <= |p|
    requires e == EncryptBlock(gf, ws, p[0..16])
    ensures e == CbcEncrypted(gf, ws, p[..16])
  {
    var b := p[..16];
    assert b[..0] == [] && b[0..] == p[0..16];
    XorZero(p[0..16]);
  }

  /** The first block of c, deciphered as it is, is the plaintext of that block: the chained block is zero. */
  lemma CbcDecryptedFirst(gf: (bv8, bv8) -> bv8, ws: seq<bv32>, c: seq<bv8>, d: seq<bv8>)
    requires |ws| == 44 && 16 <= |c|
    requires d == DecryptBlock(gf, ws, c[0..16])
    ensures d == CbcDecrypted(gf, ws, c[..16])
  {
    var b := c[..16];
    assert b[..0] == [] && b[0..] == c[0..16];
    XorZero(d);
  }

  /** The block at i of c, deciphered and xored with the block before it, extends the plaintext to i + 16. */
  lemma {:induction false} CbcDecryptedStep(gf: (bv8, bv8) -> bv8, ws: seq<bv32>, c: seq<bv8>, i: int, q: seq<bv8>, d: seq<bv8>)
    requires |ws| == 44 && 0 <= i && i + 16 <= |c| && i % 16 == 0
    requires q == CbcDecrypted(gf, ws, c[..i])
    requires d == Xor16(PreviousBlock(c[..i]), DecryptBlock(gf, ws, c[i..i + 16]))
    ensures q + d == CbcDecrypted(gf, ws, c[..i + 16])
  {
    TakeSplit(c, i, i + 16);
    CbcDecryptedAppend(gf, ws, c[..i], c[i..i + 16]);
  }

  /** The three parts of a spliced sequence, read back. */
  lemma Spliced<T>(s: seq<T>, a: seq<T>, b: seq<T>, d: seq<T>)
    requires s == a + b + d
    ensures s[..|a| + |b|] == a + b && s[|a|..|a| + |b|] == b && s[|a| + |b|..] == d
    ensures |a| == 0 ==> s[..|b|] == b
  {
  }

  /** Overwriting x[i..j] with b leaves x[j..n] in place. */
  lemma SplicedKeeps<T>(s: seq<T>, x: seq<T>, b: seq<T>, i: int, j: int, n: int)
    requires 0 <= i <= j <= n <= |x| && |b| == j - i && s == x[..i] + b + x[j..]
    ensures s[j..n] == x[j..n]
  {
  }

  /** The prefix up to j is the prefix up to i followed by the slice from i to j. */
  lemma TakeSplit<T>(p: seq<T>, i: int, j: int)
    requires 0 <= i <= j <= |p|
    ensures p[..j] == p[..i] + p[i..j]
  {
  }

  /** A sequence whose prefix up to k is a and whose rest is b is a followed by b; its prefix up to its length is itself. */
  lemma JoinAt<T>(s: seq<T>, k: int, a: seq<T>, b: seq<T>)
    requires 0 <= k <= |s| && s[..k] == a && s[k..] == b
    ensures s == a + b && s[..|s|] == s
  {
    assert s == s[..k] + s[k..];
  }

  /** The prefix up to k of the prefix up to n is the prefix up to k. */
  lemma TakeOfTake<T>(s: seq<T>, k: int, n: int)
    requires 0 <= k <= n <= |s|
    ensures s[..n][..k] == s[..k]
  {
  }

  /** Where a agrees with p from i to n, it agrees from i to j and from j to n. */
  lemma SliceWithin<T>(a: seq<T>, p: seq<T>, i: int, j: int, n: int)
    requires 0 <= i <= j <= n <= |a| && |p| == n && a[i..n] == p[i..]
    ensures a[i..j] == p[i..j] && a[j..n] == p[j..]
  {
    assert a[i..j] == a[i..n][..j - i] && p[i..j] == p[i..][..j - i];
    assert a[j..n] == a[i..n][j - i..] && p[j..] == p[i..][j - i..];
  }

  /** Where a agrees with o from i on, it agrees from j on. */
  lemma TailWithin<T>(a: seq<T>, o: seq<T>, i: int, j: int)
    requires 0 <= i <= j <= |a| && |o| == |a| && a[i..] == o[i..]
    ensures a[j..] == o[j..]
  {
    assert a[j..] == a[i..][j - i..] && o[j..] == o[i..][j - i..];
  }

  /** Where a agrees with x from j on, it agrees from j to n. */
  lemma TailPrefix<T>(a: seq<T>, x: seq<T>, j: int, n: int)
    requires 0 <= j <= n <= |a| && |x| == |a| && a[j..] == x[j..]
    ensures a[j..n] == x[j..n]
  {
    assert a[j..n] == a[j..][..n - j] && x[j..n] == x[j..][..n - j];
  }

  /** The block before i is the last block of the prefix up to i. */
  lemma PreviousBlockOf(a: seq<bv8>, i: int)
    requires 16 <= i <= |a| && i % 16 == 0
    ensures PreviousBlock(a[..i]) == a[i - 16..i]
  {
  }

  /** Column c of the state with the round key added. */
  lemma KeyAddedColumn(s: seq<bv8>, ws: seq<bv32>, round: int, c: int)
    requires |s| == 16 && |ws| == 44 && 0 <= round <= 10 && 0 <= c < 4
    ensures KeyAdded(s, ws, round)[4 * c .. 4 * c + 4] == ColumnKeyed(s[4 * c .. 4 * c + 4], ws[4 * round + c])
  {
    var a, b, d, e := s[0..4], s[4..8], s[8..12], s[12..16];
    Columns(ColumnKeyed(a, ws[4 * round]), ColumnKeyed(b, ws[4 * round + 1]),
            ColumnKeyed(d, ws[4 * round + 2]), ColumnKeyed(e, ws[4 * round + 3]));
    if c == 0 {
      assert s[4 * c .. 4 * c + 4] == a;
    } else if c == 1 {
      assert s[4 * c .. 4 * c + 4] == b;
    } else if c == 2 {
      assert s[4 * c .. 4 * c + 4] == d;
    } else {
      assert s[4 * c .. 4 * c + 4] == e;
    }
  }

  lemma ShiftSourceAt(c: int, r: int)
    requires 0 <= c < 4 && 0 <= r < 4
    ensures ShiftSource(4 * c + r) == 4 * ((c + r) % 4) + r
    ensures UnshiftSource(4 * ((c + r) % 4) + r) == 4 * c + r
  {
    var k := 4 * c + r;
    assert k / 4 == c && k % 4 == r;
    var j := 4 * ((c + r) % 4) + r;
    assert j / 4 == (c + r) % 4 && j % 4 == r;
  }

  /** Column c of the mixed state is the mixed column c. */
  lemma ColumnsMixedAt(gf: (bv8, bv8) -> bv8, s: seq<bv8>, c: int)
    requires |s| == 16 && 0 <= c < 4
    ensures ColumnsMixed(gf, s)[4 * c .. 4 * c + 4] == MixColumn(gf, s[4 * c .. 4 * c + 4])
  {
    var a, b, d, e := s[0..4], s[4..8], s[8..12], s[12..16];
    Columns(MixColumn(gf, a), MixColumn(gf, b), MixColumn(gf, d), MixColumn(gf, e));
    if c == 0 {
      assert s[4 * c .. 4 * c + 4] == a;
    } else if c == 1 {
      assert s[4 * c .. 4 * c + 4] == b;
    } else if c == 2 {
      assert s[4 * c .. 4 * c + 4] == d;
    } else {
      assert s[4 * c .. 4 * c + 4] == e;
    }
  }

  /** Column c of the unmixed state is the unmixed column c. */
  lemma ColumnsUnmixedAt(gf: (bv8, bv8) -> bv8, s: seq<bv8>, c: int)
    requires |s| == 16 && 0 <= c < 4
    ensures ColumnsUnmixed(gf, s)[4 * c .. 4 * c + 4] == InvMixColumn(gf, s[4 * c .. 4 * c + 4])
  {
    var a, b, d, e := s[0..4], s[4..8], s[8..12], s[12..16];
    Columns(InvMixColumn(gf, a), InvMixColumn(gf, b), InvMixColumn(gf, d), InvMixColumn(gf, e));
    if c == 0 {
      assert s[4 * c .. 4 * c + 4] == a;
    } else if c == 1 {
      assert s[4 * c .. 4 * c + 4] == b;
    } else if c == 2 {
      assert s[4 * c .. 4 * c + 4] == d;
    } else {
      assert s[4 * c .. 4 * c + 4] == e;
    }
  }

  /**
   * One pass of a column loop: with the columns before c done and the
   * rest untouched, writing the target's column c does column c.
   */
  lemma ColumnStep(t: seq<bv8>, s0: seq<bv8>, target: seq<bv8>, c: int, m: seq<bv8>)
    requires |t| == 16 && |s0| == 16 && |target| == 16 && 0 <= c < 4 && |m| == 4
    requires t[..4 * c] == target[..4 * c] && t[4 * c..] == s0[4 * c..]
    requires target[4 * c .. 4 * c + 4] == m
    ensures (t[..4 * c] + m + t[4 * c + 4..])[..4 * c + 4] == target[..4 * c + 4]
    ensures (t[..4 * c] + m + t[4 * c + 4..])[4 * c + 4..] == s0[4 * c + 4..]
    ensures t[4 * c .. 4 * c + 4] == s0[4 * c .. 4 * c + 4]
  {
    assert t[4 * c .. 4 * c + 4] == t[4 * c..][..4];
    assert s0[4 * c .. 4 * c + 4] == s0[4 * c..][..4];
    assert target[..4 * c + 4] == target[..4 * c] + m;
    assert t[4 * c + 4..] == t[4 * c..][4..];
    assert s0[4 * c + 4..] == s0[4 * c..][4..];
  }

  // ---------------------------------------------------------------------
  // The AES128 object
  // ---------------------------------------------------------------------

  /**
   * An AES128 object: the expanded key w (44 words) and the 16-byte state
   * that the cipher transforms in place.
   */
  class Aes128 {
    /** The multiplication of the field _GF shared by all instances. */
    const gf: (bv8, bv8) -> bv8
    const w: array<bv32>
    const state: array<bv8>

    ghost predicate Valid()
      reads this
    {
      w.Length == 44 && state.Length == 16 && (w as object) != (state as object)
    }

    /** AES128(key): the key expanded and the state zero. */
    constructor (key: seq<bv8>)
      requires |key| == 16
      ensures Valid() && fresh(w) && fresh(state) && gf == FieldMul
      ensures w[..] == Expansion(key, 44) && state[..] == ZeroBlock
    {
      gf := FieldMul;
      w := new bv32[44];
      state := new bv8[16];
      new;
      forall i | 0 <= i < 16 {
        state[i] := 0;
      }
      KeyExpansion(key);
    }

    /**
     * AES128(password): the key is the first 16 bytes of the password's
     * SHA-1 digest, which is given here as digest.
     */
    constructor FromDigest(digest: seq<bv8>)
      requires |digest| == 20
      ensures Valid() && fresh(w) && fresh(state) && gf == FieldMul
      ensures w[..] == Expansion(digest[..16], 44) && state[..] == ZeroBlock
    {
      gf := FieldMul;
      w := new bv32[44];
      state := new bv8[16];
      new;
      forall i | 0 <= i < 16 {
        state[i] := 0;
      }
      KeyExpansion(digest[..16]);
    }

    /** The copy constructor: the 44 words and the state copied. */
    constructor Copy(other: Aes128)
      requires other.Valid()
      ensures Valid() && fresh(w) && fresh(state) && gf == other.gf
      ensures w[..] == other.w[..] && state[..] == other.state[..]
    {
      gf := other.gf;
      w := new bv32[44];
      state := new bv8[16];
      new;
      forall i | 0 <= i < 44 {
        w[i] := other.w[i];
      }
      forall i | 0 <= i < 16 {
        state[i] := other.state[i];
      }
    }

    /** operator= as written: a copy of 44 bytes, which is the first 11 of the 44 words. */
    method AssignAsWritten(other: Aes128)
      requires Valid() && other.Valid()
      modifies w, state
      ensures w[..] == old(other.w[..11]) + old(w[11..])
      ensures state[..] == old(other.state[..])
    {
      forall i | 0 <= i < 11 {
        w[i] := other.w[i];
      }
      forall i | 0 <= i < 16 {
        state[i] := other.state[i];
      }
    }

    /** operator= as intended: all 44 words and the state copied. */
    method Assign(other: Aes128)
      requires Valid() && other.Valid()
      modifies w, state
      ensures w[..] == old(other.w[..]) && state[..] == old(other.state[..])
    {
      forall i | 0 <= i < 44 {
        w[i] := other.w[i];
      }
      forall i | 0 <= i < 16 {
        state[i] := other.state[i];
      }
    }

    /** The destructor as written: 44 bytes of w cleared, which is its first 11 words. */
    method WipeAsWritten()
      requires Valid()
      modifies w, state
      ensures w[..] == seq(11, _ => 0) + old(w[11..]) && state[..] == ZeroBlock
    {
      forall i | 0 <= i < 11 {
        w[i] := 0;
      }
      forall i | 0 <= i < 16 {
        state[i] := 0;
      }
    }

    /** The destructor as intended: every word of w and every byte of the state cleared. */
    method Wipe()
      requires Valid()
      modifies w, state
      ensures w[..] == seq(44, _ => 0) && state[..] == ZeroBlock
    {
      forall i | 0 <= i < 44 {
        w[i] := 0;
      }
      forall i | 0 <= i < 16 {
        state[i] := 0;
      }
    }

    /** keyExpansion: w becomes the expansion of the key. */
    method KeyExpansion(key: seq<bv8>)
      requires Valid() && |key| == 16
      modifies w
      ensures w[..] == Expansion(key, 44)
    {
      w[0] := ToWord(key[0], key[1], key[2], key[3]);
      w[1] := ToWord(key[4], key[5], key[6], key[7]);
      w[2] := ToWord(key[8], key[9], key[10], key[11]);
      w[3] := ToWord(key[12], key[13], key[14], key[15]);
      var i := 4;
      while i < 44
        invariant 4 <= i <= 44
        invariant w[..i] == Expansion(key, i)
      {
        ExpandWord(i);
        i := i + 1;
      }
      assert w[..] == w[..44];
    }

    /** One pass of the loop of keyExpansion: word i from the words before it. */
    method ExpandWord(i: int)
      requires Valid() && 4 <= i < 44
      modifies w
      ensures w[..i + 1] == old(w[..i]) + [NextWord(old(w[..i]), i)]
    {
      ghost var ws := w[..i];
      assert w[i - 4] == ws[i - 4] && w[i - 1] == ws[i - 1];
      var temp := ExpansionTemp(w[i - 1], i);
      w[i] := w[i - 4] ^ temp;
      assert w[..i + 1] == ws + [w[i]];
    }

    /** addRoundKey(round): the state xored with the round key, column by column. */
    method AddRoundKey(round: int)
      requires Valid() && 0 <= round <= 10
      modifies state
      ensures w[..] == old(w[..])
      ensures state[..] == KeyAdded(old(state[..]), w[..], round)
    {
      ghost var s0 := state[..];
      ghost var target := KeyAdded(s0, w[..], round);
      var c := 0;
      while c < 4
        invariant 0 <= c <= 4
        invariant state[..4 * c] == target[..4 * c]
        invariant state[4 * c..] == s0[4 * c..]
      {
        ghost var t := state[..];
        KeyAddedColumn(s0, w[..], round, c);
        ColumnStep(t, s0, target, c, ColumnKeyed(s0[4 * c .. 4 * c + 4], w[round * 4 + c]));
        SetColumn(c, ColumnKeyed(state[4 * c .. 4 * c + 4], w[round * 4 + c]));
        c := c + 1;
      }
    }

    /** subBytes: every byte of the state through the S-box. */
    method SubBytes()
      requires Valid()
      modifies state
      ensures w[..] == old(w[..])
      ensures state[..] == Substituted(old(state[..]))
    {
      var i := 0;
      while i < 16
        invariant 0 <= i <= 16
        invariant forall j :: 0 <= j < i ==> state[j] == SubByte(old(state[j]))
        invariant forall j :: i <= j < 16 ==> state[j] == old(state[j])
      {
        state[i] := SubByte(state[i]);
        i := i + 1;
      }
    }

    /** invSubBytes: every byte of the state through the inverse S-box. */
    method InvSubBytes()
      requires Valid()
      modifies state
      ensures w[..] == old(w[..])
      ensures state[..] == InvSubstituted(old(state[..]))
    {
      var i := 0;
      while i < 16
        invariant 0 <= i <= 16
        invariant forall j :: 0 <= j < i ==> state[j] == InvSubByte(old(state[j]))
        invariant forall j :: i <= j < 16 ==> state[j] == old(state[j])
      {
        state[i] := InvSubByte(state[i]);
        i := i + 1;
      }
    }

    /** shiftRows: rows 1 .. 3 rotated left by their index. */
    method ShiftRows()
      requires Valid()
      modifies state
      ensures w[..] == old(w[..])
      ensures state[..] == RowsShifted(old(state[..]))
    {
      ghost var s0 := state[..];
      var r := 1;
      RowsShiftedStep(s0, 1);
      while r < 4
        invariant 1 <= r <= 4
        invariant state[..] == RowsShiftedBelow(s0, r)
      {
        RowsShiftedStep(s0, r);
        RotateRow(r);
        r := r + 1;
      }
      RowsShiftedStep(s0, 1);
    }

    /** One pass of the loop of shiftRows: row r read rotated into s, then written back. */
    method RotateRow(r: int)
      requires Valid() && 1 <= r < 4
      modifies state
      ensures state[..] == RowRotated(old(state[..]), r)
    {
      RowRotatedReplaced(state[..], r);
      var s := [state[4 * ((r + 0) % 4) + r], state[4 * ((r + 1) % 4) + r],
                state[4 * ((r + 2) % 4) + r], state[4 * ((r + 3) % 4) + r]];
      SetRow(r, s);
    }

    /** Row r of the state overwritten with the four bytes m. */
    method SetRow(r: int, m: seq<bv8>)
      requires Valid() && 0 <= r < 4 && |m| == 4
      modifies state
      ensures state[..] == RowReplaced(old(state[..]), r, m)
    {
      state[4 * 0 + r], state[4 * 1 + r], state[4 * 2 + r], state[4 * 3 + r] := m[0], m[1], m[2], m[3];
      forall k | 0 <= k < 16
        ensures state[k] == RowReplaced(old(state[..]), r, m)[k]
      {
        if k % 4 == r {
          assert k == 4 * (k / 4) + r;
        }
      }
    }

    /** invShiftRows: rows 1 .. 3 rotated right by their index. */
    method InvShiftRows()
      requires Valid()
      modifies state
      ensures w[..] == old(w[..])
      ensures state[..] == RowsUnshifted(old(state[..]))
    {
      ghost var s0 := state[..];
      var r := 1;
      RowsUnshiftedStep(s0, 1);
      while r < 4
        invariant 1 <= r <= 4
        invariant state[..] == RowsUnshiftedBelow(s0, r)
      {
        RowsUnshiftedStep(s0, r);
        UnrotateRow(r);
        r := r + 1;
      }
      RowsUnshiftedStep(s0, 1);
    }

    /**
     * One pass of the loop of invShiftRows: byte c of row r moves to
     * column (c + r) mod 4, so column c receives the byte of column
     * (c - r) mod 4.
     */
    method UnrotateRow(r: int)
      requires Valid() && 1 <= r < 4
      modifies state
      ensures state[..] == RowUnrotated(old(state[..]), r)
    {
      RowUnrotatedReplaced(state[..], r);
      var s := [state[4 * ((4 - r) % 4) + r], state[4 * ((5 - r) % 4) + r],
                state[4 * ((6 - r) % 4) + r], state[4 * ((7 - r) % 4) + r]];
      SetRow(r, s);
    }

    /** Column c of the state overwritten with the four bytes m. */
    method SetColumn(c: int, m: seq<bv8>)
      requires Valid() && 0 <= c < 4 && |m| == 4
      modifies state
      ensures state[..] == old(state[..4 * c]) + m + old(state[4 * c + 4..])
    {
      state[4 * c], state[4 * c + 1], state[4 * c + 2], state[4 * c + 3] := m[0], m[1], m[2], m[3];
      assert state[..] == old(state[..4 * c]) + m + old(state[4 * c + 4..]);
    }

    /** mixColumns: every column of the state mixed. */
    method MixColumns()
      requires Valid()
      modifies state
      ensures w[..] == old(w[..])
      ensures state[..] == ColumnsMixed(gf, old(state[..]))
    {
      ghost var s0 := state[..];
      ghost var target := ColumnsMixed(gf, s0);
      var c := 0;
      while c < 4
        invariant 0 <= c <= 4
        invariant state[..4 * c] == target[..4 * c]
        invariant state[4 * c..] == s0[4 * c..]
      {
        ghost var t := state[..];
        ColumnsMixedAt(gf, s0, c);
        ColumnStep(t, s0, target, c, MixColumn(gf, s0[4 * c .. 4 * c + 4]));
        SetColumn(c, MixColumn(gf, state[4 * c .. 4 * c + 4]));
        c := c + 1;
      }
    }

    /** invMixColumns: every column of the state unmixed. */
    method InvMixColumns()
      requires Valid()
      modifies state
      ensures w[..] == old(w[..])
      ensures state[..] == ColumnsUnmixed(gf, old(state[..]))
    {
      ghost var s0 := state[..];
      ghost var target := ColumnsUnmixed(gf, s0);
      var c := 0;
      while c < 4
        invariant 0 <= c <= 4
        invariant state[..4 * c] == target[..4 * c]
        invariant state[4 * c..] == s0[4 * c..]
      {
        ghost var t := state[..];
        ColumnsUnmixedAt(gf, s0, c);
        ColumnStep(t, s0, target, c, InvMixColumn(gf, s0[4 * c .. 4 * c + 4]));
        SetColumn(c, InvMixColumn(gf, state[4 * c .. 4 * c + 4]));
        c := c + 1;
      }
    }

    /**
     * encrypt(out, in, n): the first n bytes of inp in cipher-block chaining
     * mode with a zero initialisation vector, written to out. The result is
     * false where the source prints an error and exits: n not a multiple of
     * 16 (C's remainder is non-zero exactly when Dafny's is). out and inp
     * may be the same array.
     */
    method Encrypt(out: array<bv8>, inp: array<bv8>, n: int) returns (ok: bool)
      requires Valid() && out != state && inp != state
      requires n <= inp.Length && n <= out.Length
      modifies state, out
      ensures ok <==> n % 16 == 0
      ensures !ok || n <= 0 ==> out[..] == old(out[..])
      ensures ok && n > 0 ==> out[..] == CbcEncrypted(gf, w[..], old(inp[..n])) + old(out[n..])
    {
      if n % 16 != 0 {
        return false;
      }
      if n <= 0 {
        return true;
      }
      ghost var ws, p, o := w[..], inp[..n], out[..];
      EncryptFirst(out, inp, n, ws, p, o);
      var i := 16;
      while i < n
        invariant 16 <= i <= n && i % 16 == 0
        invariant w[..] == ws && out[..i] == CbcEncrypted(gf, ws, p[..i])
        invariant out[i..] == o[i..] && inp[i..n] == p[i..]
        invariant state[..] == out[i - 16..i]
      {
        NextBlockFits(i, n);
        EncryptNext(out, inp, n, i, ws, p, o);
        i := i + 16;
      }
      JoinAt(out[..], n, CbcEncrypted(gf, ws, p[..n]), o[n..]);
      JoinAt(p, n, p, []);
      ok := true;
    }

    /** The first block of encrypt: enciphered as it is, which is chaining with the zero block. */
    method EncryptFirst(out: array<bv8>, inp: array<bv8>, n: int, ghost ws: seq<bv32>, ghost p: seq<bv8>, ghost o: seq<bv8>)
      requires Valid() && out != state && inp != state
      requires 16 <= n <= inp.Length && n <= out.Length && ws == w[..] && p == inp[..n] && o == out[..]
      modifies state, out
      ensures w[..] == ws && out[..16] == CbcEncrypted(gf, ws, p[..16])
      ensures out[16..] == o[16..] && inp[16..n] == p[16..]
      ensures state[..] == out[..16]
    {
      SliceWithin(inp[..], p, 0, 16, n);
      LoadBlock(inp, 0);
      Cipher();
      CbcEncryptedFirst(gf, ws, p, state[..]);
      ghost var before := out[..];
      StoreBlock(out, 0);
      if inp == out {
        TailPrefix(out[..], before, 16, n);
      }
    }

    /** One more block of encrypt: xored with the ciphertext block in the state, enciphered and stored. */
    method EncryptNext(out: array<bv8>, inp: array<bv8>, n: int, i: int, ghost ws: seq<bv32>, ghost p: seq<bv8>, ghost o: seq<bv8>)
      requires Valid() && out != state && inp != state
      requires n <= inp.Length && n <= out.Length && ws == w[..] && |p| == n && |o| == out.Length
      requires 16 <= i && i + 16 <= n && i % 16 == 0 && (i + 16) % 16 == 0
      requires out[..i] == CbcEncrypted(gf, ws, p[..i])
      requires out[i..] == o[i..] && inp[i..n] == p[i..]
      requires state[..] == out[i - 16..i]
      modifies state, out
      ensures w[..] == ws && out[..i + 16] == CbcEncrypted(gf, ws, p[..i + 16])
      ensures out[i + 16..] == o[i + 16..] && inp[i + 16..n] == p[i + 16..]
      ensures state[..] == out[i..i + 16]
    {
      ghost var c := out[..i];
      PreviousBlockOf(out[..], i);
      SliceWithin(inp[..], p, i, i + 16, n);
      TailWithin(out[..], o, i, i + 16);
      XorIntoState(inp, i);
      Cipher();
      ghost var e := state[..];
      CbcEncryptedStep(gf, ws, p, i, c, e);
      ghost var before := out[..];
      StoreBlock(out, i);
      Spliced(out[..], before[..i], e, before[i + 16..]);
      if inp == out {
        SplicedKeeps(out[..], before, e, i, i + 16, n);
      }
    }

    /**
     * decrypt(out, in, n): the first n bytes of inp decrypted in
     * cipher-block chaining mode with a zero initialisation vector, written
     * to out; false where the source exits on n not a multiple of 16. The
     * local buffer tmp1 of the source is prev here; out and inp may be the
     * same array.
     */
    method Decrypt(out: array<bv8>, inp: array<bv8>, n: int) returns (ok: bool)
      requires Valid() && out != state && inp != state
      requires n <= inp.Length && n <= out.Length
      modifies state, out
      ensures ok <==> n % 16 == 0
      ensures !ok || n <= 0 ==> out[..] == old(out[..])
      ensures ok && n > 0 ==> out[..] == CbcDecrypted(gf, w[..], old(inp[..n])) + old(out[n..])
    {
      if n % 16 != 0 {
        return false;
      }
      if n <= 0 {
        return true;
      }
      ghost var ws, c, o := w[..], inp[..n], out[..];
      var prev := DecryptFirst(out, inp, n, ws, c, o);
      var i := 16;
      while i < n
        invariant 16 <= i <= n && i % 16 == 0
        invariant w[..] == ws && out[..i] == CbcDecrypted(gf, ws, c[..i])
        invariant out[i..] == o[i..] && inp[i..n] == c[i..]
        invariant prev == c[i - 16..i]
      {
        NextBlockFits(i, n);
        prev := DecryptNext(out, inp, n, i, prev, ws, c, o);
        i := i + 16;
      }
      JoinAt(out[..], n, CbcDecrypted(gf, ws, c[..n]), o[n..]);
      JoinAt(c, n, c, []);
      ok := true;
    }

    /** The first block of decrypt: deciphered as it is, which is chaining with the zero block; tmp1 keeps the block. */
    method DecryptFirst(out: array<bv8>, inp: array<bv8>, n: int, ghost ws: seq<bv32>, ghost c: seq<bv8>, ghost o: seq<bv8>)
      returns (prev: seq<bv8>)
      requires Valid() && out != state && inp != state
      requires 16 <= n <= inp.Length && n <= out.Length && ws == w[..] && c == inp[..n] && o == out[..]
      modifies state, out
      ensures w[..] == ws && out[..16] == CbcDecrypted(gf, ws, c[..16])
      ensures out[16..] == o[16..] && inp[16..n] == c[16..]
      ensures prev == c[..16]
    {
      SliceWithin(inp[..], c, 0, 16, n);
      TakeOfTake(inp[..], 16, n);
      prev := inp[..16];
      LoadBlock(inp, 0);
      InvCipher();
      CbcDecryptedFirst(gf, ws, c, state[..]);
      ghost var before := out[..];
      StoreBlock(out, 0);
      if inp == out {
        TailPrefix(out[..], before, 16, n);
      }
    }

    /** One more block of decrypt: deciphered, xored with the block before it (tmp1) and stored; returns this block (tmp2). */
    method DecryptNext(out: array<bv8>, inp: array<bv8>, n: int, i: int, prev: seq<bv8>, ghost ws: seq<bv32>, ghost c: seq<bv8>, ghost o: seq<bv8>)
      returns (next: seq<bv8>)
      requires Valid() && out != state && inp != state
      requires n <= inp.Length && n <= out.Length && ws == w[..] && |c| == n && |o| == out.Length
      requires 16 <= i && i + 16 <= n && i % 16 == 0 && (i + 16) % 16 == 0
      requires out[..i] == CbcDecrypted(gf, ws, c[..i])
      requires out[i..] == o[i..] && inp[i..n] == c[i..]
      requires prev == c[i - 16..i]
      modifies state, out
      ensures w[..] == ws && out[..i + 16] == CbcDecrypted(gf, ws, c[..i + 16])
      ensures out[i + 16..] == o[i + 16..] && inp[i + 16..n] == c[i + 16..]
      ensures next == c[i..i + 16]
    {
      ghost var q := out[..i];
      PreviousBlockOf(c, i);
      SliceWithin(inp[..], c, i, i + 16, n);
      TailWithin(out[..], o, i, i + 16);
      next := inp[i..i + 16];
      LoadBlock(inp, i);
      InvCipher();
      ghost var d := Xor16(prev, state[..]);
      CbcDecryptedStep(gf, ws, c, i, q, d);
      ghost var before := out[..];
      StoreXored(out, i, prev);
      Spliced(out[..], before[..i], d, before[i + 16..]);
      if inp == out {
        SplicedKeeps(out[..], before, d, i, i + 16, n);
      }
    }

    /** cipher: addRoundKey(0), rounds 1 .. 9, then the final round without mixColumns. */
    method Cipher()
      requires Valid()
      modifies state
      ensures state[..] == EncryptBlock(gf, w[..], old(state[..]))
      ensures w[..] == old(w[..])
    {
      ghost var ws, s0 := w[..], state[..];
      AddRoundKey(0);
      var round := 1;
      while round < 10
        invariant 1 <= round <= 10 && w[..] == ws
        invariant state[..] == EncRounds(gf, ws, s0, round - 1)
      {
        RoundPass(round, ws, s0);
        round := round + 1;
      }
      LastRound(ws, state[..]);
      EncryptBlockRounds(gf, ws, s0);
    }

    /** Pass `round` of the loop of cipher: subBytes, shiftRows, mixColumns, addRoundKey(round). */
    method RoundPass(round: int, ghost ws: seq<bv32>, ghost s0: seq<bv8>)
      requires Valid() && 1 <= round <= 9 && |s0| == 16 && w[..] == ws
      requires state[..] == EncRounds(gf, ws, s0, round - 1)
      modifies state
      ensures w[..] == ws
      ensures state[..] == EncRounds(gf, ws, s0, round)
    {
      ghost var s := state[..];
      SubBytes();
      ghost var s1 := state[..];
      ShiftRows();
      ghost var s2 := state[..];
      MixColumns();
      ghost var s3 := state[..];
      assert s3 == ColumnsMixed(gf, RowsShifted(Substituted(s))) by {
        assert s1 == Substituted(s) && s2 == RowsShifted(s1);
      }
      AddRoundKey(round);
      assert state[..] == KeyAdded(s3, ws, round);
      var f := RoundStep(gf, ws);
      assert Rounds(f, KeyAdded(s0, ws, 0), 0, round) == f(s, round) == Round(gf, ws, s, round);
    }

    /** The steps of cipher after its loop: subBytes, shiftRows, addRoundKey(10). */
    method LastRound(ghost ws: seq<bv32>, ghost e: seq<bv8>)
      requires Valid() && w[..] == ws && state[..] == e
      modifies state
      ensures w[..] == ws
      ensures state[..] == KeyAdded(RowsShifted(Substituted(e)), ws, 10)
    {
      SubBytes();
      ShiftRows();
      AddRoundKey(10);
    }

    /** invCipher: addRoundKey(10), the inverse rounds 9 .. 1, then the final inverse round. */
    method InvCipher()
      requires Valid()
      modifies state
      ensures state[..] == DecryptBlock(gf, w[..], old(state[..]))
      ensures w[..] == old(w[..])
    {
      ghost var ws, c := w[..], state[..];
      AddRoundKey(10);
      ghost var t0 := state[..];
      assert t0 == KeyAdded(c, ws, 10);
      var n := 0;
      while n < 9
        invariant 0 <= n <= 9 && w[..] == ws
        invariant state[..] == DecRounds(gf, ws, t0, n)
      {
        InvRoundPass(n, ws, t0);
        n := n + 1;
      }
      InvLastRound(ws, state[..]);
      DecryptBlockRounds(gf, ws, c);
    }

    /** Pass n of the loop of invCipher: the inverse round 9 - n after the rounds above it. */
    method InvRoundPass(n: int, ghost ws: seq<bv32>, ghost t0: seq<bv8>)
      requires Valid() && 0 <= n < 9 && |t0| == 16 && w[..] == ws
      requires state[..] == DecRounds(gf, ws, t0, n)
      modifies state
      ensures w[..] == ws
      ensures state[..] == DecRounds(gf, ws, t0, n + 1)
    {
      ghost var s := state[..];
      var round := 9 - n;
      InvShiftRows();
      ghost var s1 := state[..];
      InvSubBytes();
      ghost var s2 := state[..];
      AddRoundKey(round);
      ghost var s3 := state[..];
      assert s3 == KeyAdded(InvSubstituted(RowsUnshifted(s)), ws, round) by {
        assert s1 == RowsUnshifted(s) && s2 == InvSubstituted(s1);
      }
      InvMixColumns();
      assert state[..] == ColumnsUnmixed(gf, s3);
      var g := InvRoundStep(gf, ws);
      assert InvRounds(g, t0, 8 - n, 9) == g(s, 9 - n) == InvRound(gf, ws, s, round);
    }

    /** The steps of invCipher after its loop: unshift, unsubstitute, add the first round key. */
    method InvLastRound(ghost ws: seq<bv32>, ghost d: seq<bv8>)
      requires Valid() && w[..] == ws && state[..] == d
      modifies state
      ensures w[..] == ws
      ensures state[..] == KeyAdded(InvSubstituted(RowsUnshifted(d)), ws, 0)
    {
      InvShiftRows();
      InvSubBytes();
      AddRoundKey(0);
    }

    /** memcpy(state, src + i, 16): block i / 16 of src loaded into the state. */
    method LoadBlock(src: array<bv8>, i: int)
      requires Valid() && src != state && 0 <= i && i + 16 <= src.Length
      modifies state
      ensures state[..] == src[i .. i + 16] && src[..] == old(src[..])
      ensures w[..] == old(w[..])
    {
      forall j | 0 <= j < 16 {
        state[j] := src[i + j];
      }
    }

    /** mxor8(state, src + i): block i / 16 of src xored into the state. */
    method XorIntoState(src: array<bv8>, i: int)
      requires Valid() && src != state && 0 <= i && i + 16 <= src.Length
      modifies state
      ensures state[..] == Xor16(old(state[..]), src[i .. i + 16]) && src[..] == old(src[..])
      ensures w[..] == old(w[..])
    {
      forall j | 0 <= j < 16 {
        state[j] := state[j] ^ src[i + j];
      }
    }

    /** memcpy(dst + i, state, 16): the state stored as block i / 16 of dst. */
    method StoreBlock(dst: array<bv8>, i: int)
      requires Valid() && dst != state && 0 <= i && i + 16 <= dst.Length
      modifies dst
      ensures dst[..] == old(dst[..i]) + state[..] + old(dst[i + 16..]) && state[..] == old(state[..])
      ensures i == 0 ==> dst[..16] == state[..] && dst[16..] == old(dst[16..])
      ensures w[..] == old(w[..])
    {
      forall j | 0 <= j < 16 {
        dst[i + j] := state[j];
      }
      assert dst[..] == old(dst[..i]) + state[..] + old(dst[i + 16..]);
    }

    /** memcpy(dst + i, prev, 16) then mxor8(dst + i, state): the state xored with prev, stored as block i / 16 of dst. */
    method StoreXored(dst: array<bv8>, i: int, prev: seq<bv8>)
      requires Valid() && dst != state && 0 <= i && i + 16 <= dst.Length && |prev| == 16
      modifies dst
      ensures dst[..] == old(dst[..i]) + Xor16(prev, state[..]) + old(dst[i + 16..]) && state[..] == old(state[..])
      ensures w[..] == old(w[..])
    {
      forall j | 0 <= j < 16 {
        dst[i + j] := prev[j];
      }
      forall j | 0 <= j < 16 {
        dst[i + j] := dst[i + j] ^ state[j];
      }
      assert dst[..] == old(dst[..i]) + Xor16(prev, state[..]) + old(dst[i + 16..]);
    }
  }
}
