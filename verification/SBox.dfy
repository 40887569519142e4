/**
 The substitution tables of the cipher. A table look-up is written as a search on the index,
 which is how the verifier evaluates it; the entries are those of the source's arrays.
 */
module SBox {
  import opened Gf256

  /** The forward S-box. */
  function FSb(b: bv8): bv8 {
    if b < 0x80 then
      if b < 0x40 then
        if b < 0x20 then
          if b < 0x10 then
            if b < 0x08 then
              if b < 0x04 then
                (if b < 0x02 then (if b < 0x01 then 0x63 else 0x7C) else (if b < 0x03 then 0x77 else 0x7B))
              else
                (if b < 0x06 then (if b < 0x05 then 0xF2 else 0x6B) else (if b < 0x07 then 0x6F else 0xC5))
            else
              if b < 0x0C then
                (if b < 0x0A then (if b < 0x09 then 0x30 else 0x01) else (if b < 0x0B then 0x67 else 0x2B))
              else
                (if b < 0x0E then (if b < 0x0D then 0xFE else 0xD7) else (if b < 0x0F then 0xAB else 0x76))
          else
            if b < 0x18 then
              if b < 0x14 then
                (if b < 0x12 then (if b < 0x11 then 0xCA else 0x82) else (if b < 0x13 then 0xC9 else 0x7D))
              else
                (if b < 0x16 then (if b < 0x15 then 0xFA else 0x59) else (if b < 0x17 then 0x47 else 0xF0))
            else
              if b < 0x1C then
                (if b < 0x1A then (if b < 0x19 then 0xAD else 0xD4) else (if b < 0x1B then 0xA2 else 0xAF))
              else
                (if b < 0x1E then (if b < 0x1D then 0x9C else 0xA4) else (if b < 0x1F then 0x72 else 0xC0))
        else
          if b < 0x30 then
            if b < 0x28 then
              if b < 0x24 then
                (if b < 0x22 then (if b < 0x21 then 0xB7 else 0xFD) else (if b < 0x23 then 0x93 else 0x26))
              else
                (if b < 0x26 then (if b < 0x25 then 0x36 else 0x3F) else (if b < 0x27 then 0xF7 else 0xCC))
            else
              if b < 0x2C then
                (if b < 0x2A then (if b < 0x29 then 0x34 else 0xA5) else (if b < 0x2B then 0xE5 else 0xF1))
              else
                (if b < 0x2E then (if b < 0x2D then 0x71 else 0xD8) else (if b < 0x2F then 0x31 else 0x15))
          else
            if b < 0x38 then
              if b < 0x34 then
                (if b < 0x32 then (if b < 0x31 then 0x04 else 0xC7) else (if b < 0x33 then 0x23 else 0xC3))
              else
                (if b < 0x36 then (if b < 0x35 then 0x18 else 0x96) else (if b < 0x37 then 0x05 else 0x9A))
            else
              if b < 0x3C then
                (if b < 0x3A then (if b < 0x39 then 0x07 else 0x12) else (if b < 0x3B then 0x80 else 0xE2))
              else
                (if b < 0x3E then (if b < 0x3D then 0xEB else 0x27) else (if b < 0x3F then 0xB2 else 0x75))
      else
        if b < 0x60 then
          if b < 0x50 then
            if b < 0x48 then
              if b < 0x44 then
                (if b < 0x42 then (if b < 0x41 then 0x09 else 0x83) else (if b < 0x43 then 0x2C else 0x1A))
              else
                (if b < 0x46 then (if b < 0x45 then 0x1B else 0x6E) else (if b < 0x47 then 0x5A else 0xA0))
            else
              if b < 0x4C then
                (if b < 0x4A then (if b < 0x49 then 0x52 else 0x3B) else (if b < 0x4B then 0xD6 else 0xB3))
              else
                (if b < 0x4E then (if b < 0x4D then 0x29 else 0xE3) else (if b < 0x4F then 0x2F else 0x84))
          else
            if b < 0x58 then
              if b < 0x54 then
                (if b < 0x52 then (if b < 0x51 then 0x53 else 0xD1) else (if b < 0x53 then 0x00 else 0xED))
              else
                (if b < 0x56 then (if b < 0x55 then 0x20 else 0xFC) else (if b < 0x57 then 0xB1 else 0x5B))
            else
              if b < 0x5C then
                (if b < 0x5A then (if b < 0x59 then 0x6A else 0xCB) else (if b < 0x5B then 0xBE else 0x39))
              else
                (if b < 0x5E then (if b < 0x5D then 0x4A else 0x4C) else (if b < 0x5F then 0x58 else 0xCF))
        else
          if b < 0x70 then
            if b < 0x68 then
              if b < 0x64 then
                (if b < 0x62 then (if b < 0x61 then 0xD0 else 0xEF) else (if b < 0x63 then 0xAA else 0xFB))
              else
                (if b < 0x66 then (if b < 0x65 then 0x43 else 0x4D) else (if b < 0x67 then 0x33 else 0x85))
            else
              if b < 0x6C then
                (if b < 0x6A then (if b < 0x69 then 0x45 else 0xF9) else (if b < 0x6B then 0x02 else 0x7F))
              else
                (if b < 0x6E then (if b < 0x6D then 0x50 else 0x3C) else (if b < 0x6F then 0x9F else 0xA8))
          else
            if b < 0x78 then
              if b < 0x74 then
                (if b < 0x72 then (if b < 0x71 then 0x51 else 0xA3) else (if b < 0x73 then 0x40 else 0x8F))
              else
                (if b < 0x76 then (if b < 0x75 then 0x92 else 0x9D) else (if b < 0x77 then 0x38 else 0xF5))
            else
              if b < 0x7C then
                (if b < 0x7A then (if b < 0x79 then 0xBC else 0xB6) else (if b < 0x7B then 0xDA else 0x21))
              else
                (if b < 0x7E then (if b < 0x7D then 0x10 else 0xFF) else (if b < 0x7F then 0xF3 else 0xD2))
    else
      if b < 0xC0 then
        if b < 0xA0 then
          if b < 0x90 then
            if b < 0x88 then
              if b < 0x84 then
                (if b < 0x82 then (if b < 0x81 then 0xCD else 0x0C) else (if b < 0x83 then 0x13 else 0xEC))
              else
                (if b < 0x86 then (if b < 0x85 then 0x5F else 0x97) else (if b < 0x87 then 0x44 else 0x17))
            else
              if b < 0x8C then
                (if b < 0x8A then (if b < 0x89 then 0xC4 else 0xA7) else (if b < 0x8B then 0x7E else 0x3D))
              else
                (if b < 0x8E then (if b < 0x8D then 0x64 else 0x5D) else (if b < 0x8F then 0x19 else 0x73))
          else
            if b < 0x98 then
              if b < 0x94 then
                (if b < 0x92 then (if b < 0x91 then 0x60 else 0x81) else (if b < 0x93 then 0x4F else 0xDC))
              else
                (if b < 0x96 then (if b < 0x95 then 0x22 else 0x2A) else (if b < 0x97 then 0x90 else 0x88))
            else
              if b < 0x9C then
                (if b < 0x9A then (if b < 0x99 then 0x46 else 0xEE) else (if b < 0x9B then 0xB8 else 0x14))
              else
                (if b < 0x9E then (if b < 0x9D then 0xDE else 0x5E) else (if b < 0x9F then 0x0B else 0xDB))
        else
          if b < 0xB0 then
            if b < 0xA8 then
              if b < 0xA4 then
                (if b < 0xA2 then (if b < 0xA1 then 0xE0 else 0x32) else (if b < 0xA3 then 0x3A else 0x0A))
              else
                (if b < 0xA6 then (if b < 0xA5 then 0x49 else 0x06) else (if b < 0xA7 then 0x24 else 0x5C))
            else
              if b < 0xAC then
                (if b < 0xAA then (if b < 0xA9 then 0xC2 else 0xD3) else (if b < 0xAB then 0xAC else 0x62))
              else
                (if b < 0xAE then (if b < 0xAD then 0x91 else 0x95) else (if b < 0xAF then 0xE4 else 0x79))
          else
            if b < 0xB8 then
              if b < 0xB4 then
                (if b < 0xB2 then (if b < 0xB1 then 0xE7 else 0xC8) else (if b < 0xB3 then 0x37 else 0x6D))
              else
                (if b < 0xB6 then (if b < 0xB5 then 0x8D else 0xD5) else (if b < 0xB7 then 0x4E else 0xA9))
            else
              if b < 0xBC then
                (if b < 0xBA then (if b < 0xB9 then 0x6C else 0x56) else (if b < 0xBB then 0xF4 else 0xEA))
              else
                (if b < 0xBE then (if b < 0xBD then 0x65 else 0x7A) else (if b < 0xBF then 0xAE else 0x08))
      else
        if b < 0xE0 then
          if b < 0xD0 then
            if b < 0xC8 then
              if b < 0xC4 then
                (if b < 0xC2 then (if b < 0xC1 then 0xBA else 0x78) else (if b < 0xC3 then 0x25 else 0x2E))
              else
                (if b < 0xC6 then (if b < 0xC5 then 0x1C else 0xA6) else (if b < 0xC7 then 0xB4 else 0xC6))
            else
              if b < 0xCC then
                (if b < 0xCA then (if b < 0xC9 then 0xE8 else 0xDD) else (if b < 0xCB then 0x74 else 0x1F))
              else
                (if b < 0xCE then (if b < 0xCD then 0x4B else 0xBD) else (if b < 0xCF then 0x8B else 0x8A))
          else
            if b < 0xD8 then
              if b < 0xD4 then
                (if b < 0xD2 then (if b < 0xD1 then 0x70 else 0x3E) else (if b < 0xD3 then 0xB5 else 0x66))
              else
                (if b < 0xD6 then (if b < 0xD5 then 0x48 else 0x03) else (if b < 0xD7 then 0xF6 else 0x0E))
            else
              if b < 0xDC then
                (if b < 0xDA then (if b < 0xD9 then 0x61 else 0x35) else (if b < 0xDB then 0x57 else 0xB9))
              else
                (if b < 0xDE then (if b < 0xDD then 0x86 else 0xC1) else (if b < 0xDF then 0x1D else 0x9E))
        else
          if b < 0xF0 then
            if b < 0xE8 then
              if b < 0xE4 then
                (if b < 0xE2 then (if b < 0xE1 then 0xE1 else 0xF8) else (if b < 0xE3 then 0x98 else 0x11))
              else
                (if b < 0xE6 then (if b < 0xE5 then 0x69 else 0xD9) else (if b < 0xE7 then 0x8E else 0x94))
            else
              if b < 0xEC then
                (if b < 0xEA then (if b < 0xE9 then 0x9B else 0x1E) else (if b < 0xEB then 0x87 else 0xE9))
              else
                (if b < 0xEE then (if b < 0xED then 0xCE else 0x55) else (if b < 0xEF then 0x28 else 0xDF))
          else
            if b < 0xF8 then
              if b < 0xF4 then
                (if b < 0xF2 then (if b < 0xF1 then 0x8C else 0xA1) else (if b < 0xF3 then 0x89 else 0x0D))
              else
                (if b < 0xF6 then (if b < 0xF5 then 0xBF else 0xE6) else (if b < 0xF7 then 0x42 else 0x68))
            else
              if b < 0xFC then
                (if b < 0xFA then (if b < 0xF9 then 0x41 else 0x99) else (if b < 0xFB then 0x2D else 0x0F))
              else
                (if b < 0xFE then (if b < 0xFD then 0xB0 else 0x54) else (if b < 0xFF then 0xBB else 0x16))
  }

  /** The reverse S-box. */
  function RSb(b: bv8): bv8 {
    if b < 0x80 then
      if b < 0x40 then
        if b < 0x20 then
          if b < 0x10 then
            if b < 0x08 then
              if b < 0x04 then
                (if b < 0x02 then (if b < 0x01 then 0x52 else 0x09) else (if b < 0x03 then 0x6A else 0xD5))
              else
                (if b < 0x06 then (if b < 0x05 then 0x30 else 0x36) else (if b < 0x07 then 0xA5 else 0x38))
            else
              if b < 0x0C then
                (if b < 0x0A then (if b < 0x09 then 0xBF else 0x40) else (if b < 0x0B then 0xA3 else 0x9E))
              else
                (if b < 0x0E then (if b < 0x0D then 0x81 else 0xF3) else (if b < 0x0F then 0xD7 else 0xFB))
          else
            if b < 0x18 then
              if b < 0x14 then
                (if b < 0x12 then (if b < 0x11 then 0x7C else 0xE3) else (if b < 0x13 then 0x39 else 0x82))
              else
                (if b < 0x16 then (if b < 0x15 then 0x9B else 0x2F) else (if b < 0x17 then 0xFF else 0x87))
            else
              if b < 0x1C then
                (if b < 0x1A then (if b < 0x19 then 0x34 else 0x8E) else (if b < 0x1B then 0x43 else 0x44))
              else
                (if b < 0x1E then (if b < 0x1D then 0xC4 else 0xDE) else (if b < 0x1F then 0xE9 else 0xCB))
        else
          if b < 0x30 then
            if b < 0x28 then
              if b < 0x24 then
                (if b < 0x22 then (if b < 0x21 then 0x54 else 0x7B) else (if b < 0x23 then 0x94 else 0x32))
              else
                (if b < 0x26 then (if b < 0x25 then 0xA6 else 0xC2) else (if b < 0x27 then 0x23 else 0x3D))
            else
              if b < 0x2C then
                (if b < 0x2A then (if b < 0x29 then 0xEE else 0x4C) else (if b < 0x2B then 0x95 else 0x0B))
              else
                (if b < 0x2E then (if b < 0x2D then 0x42 else 0xFA) else (if b < 0x2F then 0xC3 else 0x4E))
          else
            if b < 0x38 then
              if b < 0x34 then
                (if b < 0x32 then (if b < 0x31 then 0x08 else 0x2E) else (if b < 0x33 then 0xA1 else 0x66))
              else
                (if b < 0x36 then (if b < 0x35 then 0x28 else 0xD9) else (if b < 0x37 then 0x24 else 0xB2))
            else
              if b < 0x3C then
                (if b < 0x3A then (if b < 0x39 then 0x76 else 0x5B) else (if b < 0x3B then 0xA2 else 0x49))
              else
                (if b < 0x3E then (if b < 0x3D then 0x6D else 0x8B) else (if b < 0x3F then 0xD1 else 0x25))
      else
        if b < 0x60 then
          if b < 0x50 then
            if b < 0x48 then
              if b < 0x44 then
                (if b < 0x42 then (if b < 0x41 then 0x72 else 0xF8) else (if b < 0x43 then 0xF6 else 0x64))
              else
                (if b < 0x46 then (if b < 0x45 then 0x86 else 0x68) else (if b < 0x47 then 0x98 else 0x16))
            else
              if b < 0x4C then
                (if b < 0x4A then (if b < 0x49 then 0xD4 else 0xA4) else (if b < 0x4B then 0x5C else 0xCC))
              else
                (if b < 0x4E then (if b < 0x4D then 0x5D else 0x65) else (if b < 0x4F then 0xB6 else 0x92))
          else
            if b < 0x58 then
              if b < 0x54 then
                (if b < 0x52 then (if b < 0x51 then 0x6C else 0x70) else (if b < 0x53 then 0x48 else 0x50))
              else
                (if b < 0x56 then (if b < 0x55 then 0xFD else 0xED) else (if b < 0x57 then 0xB9 else 0xDA))
            else
              if b < 0x5C then
                (if b < 0x5A then (if b < 0x59 then 0x5E else 0x15) else (if b < 0x5B then 0x46 else 0x57))
              else
                (if b < 0x5E then (if b < 0x5D then 0xA7 else 0x8D) else (if b < 0x5F then 0x9D else 0x84))
        else
          if b < 0x70 then
            if b < 0x68 then
              if b < 0x64 then
                (if b < 0x62 then (if b < 0x61 then 0x90 else 0xD8) else (if b < 0x63 then 0xAB else 0x00))
              else
                (if b < 0x66 then (if b < 0x65 then 0x8C else 0xBC) else (if b < 0x67 then 0xD3 else 0x0A))
            else
              if b < 0x6C then
                (if b < 0x6A then (if b < 0x69 then 0xF7 else 0xE4) else (if b < 0x6B then 0x58 else 0x05))
              else
                (if b < 0x6E then (if b < 0x6D then 0xB8 else 0xB3) else (if b < 0x6F then 0x45 else 0x06))
          else
            if b < 0x78 then
              if b < 0x74 then
                (if b < 0x72 then (if b < 0x71 then 0xD0 else 0x2C) else (if b < 0x73 then 0x1E else 0x8F))
              else
                (if b < 0x76 then (if b < 0x75 then 0xCA else 0x3F) else (if b < 0x77 then 0x0F else 0x02))
            else
              if b < 0x7C then
                (if b < 0x7A then (if b < 0x79 then 0xC1 else 0xAF) else (if b < 0x7B then 0xBD else 0x03))
              else
                (if b < 0x7E then (if b < 0x7D then 0x01 else 0x13) else (if b < 0x7F then 0x8A else 0x6B))
    else
      if b < 0xC0 then
        if b < 0xA0 then
          if b < 0x90 then
            if b < 0x88 then
              if b < 0x84 then
                (if b < 0x82 then (if b < 0x81 then 0x3A else 0x91) else (if b < 0x83 then 0x11 else 0x41))
              else
                (if b < 0x86 then (if b < 0x85 then 0x4F else 0x67) else (if b < 0x87 then 0xDC else 0xEA))
            else
              if b < 0x8C then
                (if b < 0x8A then (if b < 0x89 then 0x97 else 0xF2) else (if b < 0x8B then 0xCF else 0xCE))
              else
                (if b < 0x8E then (if b < 0x8D then 0xF0 else 0xB4) else (if b < 0x8F then 0xE6 else 0x73))
          else
            if b < 0x98 then
              if b < 0x94 then
                (if b < 0x92 then (if b < 0x91 then 0x96 else 0xAC) else (if b < 0x93 then 0x74 else 0x22))
              else
                (if b < 0x96 then (if b < 0x95 then 0xE7 else 0xAD) else (if b < 0x97 then 0x35 else 0x85))
            else
              if b < 0x9C then
                (if b < 0x9A then (if b < 0x99 then 0xE2 else 0xF9) else (if b < 0x9B then 0x37 else 0xE8))
              else
                (if b < 0x9E then (if b < 0x9D then 0x1C else 0x75) else (if b < 0x9F then 0xDF else 0x6E))
        else
          if b < 0xB0 then
            if b < 0xA8 then
              if b < 0xA4 then
                (if b < 0xA2 then (if b < 0xA1 then 0x47 else 0xF1) else (if b < 0xA3 then 0x1A else 0x71))
              else
                (if b < 0xA6 then (if b < 0xA5 then 0x1D else 0x29) else (if b < 0xA7 then 0xC5 else 0x89))
            else
              if b < 0xAC then
                (if b < 0xAA then (if b < 0xA9 then 0x6F else 0xB7) else (if b < 0xAB then 0x62 else 0x0E))
              else
                (if b < 0xAE then (if b < 0xAD then 0xAA else 0x18) else (if b < 0xAF then 0xBE else 0x1B))
          else
            if b < 0xB8 then
              if b < 0xB4 then
                (if b < 0xB2 then (if b < 0xB1 then 0xFC else 0x56) else (if b < 0xB3 then 0x3E else 0x4B))
              else
                (if b < 0xB6 then (if b < 0xB5 then 0xC6 else 0xD2) else (if b < 0xB7 then 0x79 else 0x20))
            else
              if b < 0xBC then
                (if b < 0xBA then (if b < 0xB9 then 0x9A else 0xDB) else (if b < 0xBB then 0xC0 else 0xFE))
              else
                (if b < 0xBE then (if b < 0xBD then 0x78 else 0xCD) else (if b < 0xBF then 0x5A else 0xF4))
      else
        if b < 0xE0 then
          if b < 0xD0 then
            if b < 0xC8 then
              if b < 0xC4 then
                (if b < 0xC2 then (if b < 0xC1 then 0x1F else 0xDD) else (if b < 0xC3 then 0xA8 else 0x33))
              else
                (if b < 0xC6 then (if b < 0xC5 then 0x88 else 0x07) else (if b < 0xC7 then 0xC7 else 0x31))
            else
              if b < 0xCC then
                (if b < 0xCA then (if b < 0xC9 then 0xB1 else 0x12) else (if b < 0xCB then 0x10 else 0x59))
              else
                (if b < 0xCE then (if b < 0xCD then 0x27 else 0x80) else (if b < 0xCF then 0xEC else 0x5F))
          else
            if b < 0xD8 then
              if b < 0xD4 then
                (if b < 0xD2 then (if b < 0xD1 then 0x60 else 0x51) else (if b < 0xD3 then 0x7F else 0xA9))
              else
                (if b < 0xD6 then (if b < 0xD5 then 0x19 else 0xB5) else (if b < 0xD7 then 0x4A else 0x0D))
            else
              if b < 0xDC then
                (if b < 0xDA then (if b < 0xD9 then 0x2D else 0xE5) else (if b < 0xDB then 0x7A else 0x9F))
              else
                (if b < 0xDE then (if b < 0xDD then 0x93 else 0xC9) else (if b < 0xDF then 0x9C else 0xEF))
        else
          if b < 0xF0 then
            if b < 0xE8 then
              if b < 0xE4 then
                (if b < 0xE2 then (if b < 0xE1 then 0xA0 else 0xE0) else (if b < 0xE3 then 0x3B else 0x4D))
              else
                (if b < 0xE6 then (if b < 0xE5 then 0xAE else 0x2A) else (if b < 0xE7 then 0xF5 else 0xB0))
            else
              if b < 0xEC then
                (if b < 0xEA then (if b < 0xE9 then 0xC8 else 0xEB) else (if b < 0xEB then 0xBB else 0x3C))
              else
                (if b < 0xEE then (if b < 0xED then 0x83 else 0x53) else (if b < 0xEF then 0x99 else 0x61))
          else
            if b < 0xF8 then
              if b < 0xF4 then
                (if b < 0xF2 then (if b < 0xF1 then 0x17 else 0x2B) else (if b < 0xF3 then 0x04 else 0x7E))
              else
                (if b < 0xF6 then (if b < 0xF5 then 0xBA else 0x77) else (if b < 0xF7 then 0xD6 else 0x26))
            else
              if b < 0xFC then
                (if b < 0xFA then (if b < 0xF9 then 0xE1 else 0x69) else (if b < 0xFB then 0x14 else 0x63))
              else
                (if b < 0xFE then (if b < 0xFD then 0x55 else 0x21) else (if b < 0xFF then 0x0C else 0x7D))
  }

  lemma ReverseOfForward(b: bv8)
    ensures RSb(FSb(b)) == b
  {
  }

  lemma ForwardOfReverse(b: bv8)
    ensures FSb(RSb(b)) == b
  {
  }

  function RotateLeft(b: bv8, n: nat): bv8
    requires 0 < n < 8
  {
    (b << n) | (b >> (8 - n))
  }

  /** The affine transformation of section 5.1.1 of FIPS 197. */
  function Affine(b: bv8): bv8 {
    b ^ RotateLeft(b, 1) ^ RotateLeft(b, 2) ^ RotateLeft(b, 3) ^ RotateLeft(b, 4) ^ 0x63
  }

  function AffineInverse(b: bv8): bv8 {
    RotateLeft(b, 1) ^ RotateLeft(b, 3) ^ RotateLeft(b, 6) ^ 0x05
  }

  lemma AffineOfAffineInverse(b: bv8)
    ensures Affine(AffineInverse(b)) == b
  {
  }

  lemma ForwardTimesInverse(b: bv8)
    requires b != 0
    ensures Mul(AffineInverse(FSb(b)), b) == 1
  {
  }

  lemma ForwardOfZero()
    ensures AffineInverse(FSb(0)) == 0
  {
  }

  /** s is the S-box value of b by section 5.1.1 of FIPS 197: 0 is taken as its own inverse. */
  ghost predicate IsSBoxValue(s: bv8, b: bv8) {
    exists inverse: bv8 :: s == Affine(inverse) && (if b == 0 then inverse == 0 else Mul(inverse, b) == 1)
  }

  lemma SBoxValueFromInverse(s: bv8, b: bv8, inverse: bv8)
    requires s == Affine(inverse)
    requires if b == 0 then inverse == 0 else Mul(inverse, b) == 1
    ensures IsSBoxValue(s, b)
  {
  }

  /** Every entry of the forward table is the affine image of the inverse of its index. */
  lemma ForwardIsSBox(b: bv8)
    ensures IsSBoxValue(FSb(b), b)
  {
    AffineOfAffineInverse(FSb(b));
    if b == 0 {
      ForwardOfZero();
    } else {
      ForwardTimesInverse(b);
    }
    SBoxValueFromInverse(FSb(b), b, AffineInverse(FSb(b)));
  }
}
