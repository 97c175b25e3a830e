/** The table of the checksum: entry x is x after eight steps of the division. */
module CrcTable {
  import opened CrcSteps

  // crctable, in rows of sixteen
  const ROW0: seq<bv32> :=
    [ 0x00000000, 0x77073096, 0xee0e612c, 0x990951ba, 0x076dc419, 0x706af48f, 0xe963a535, 0x9e6495a3,
      0x0edb8832, 0x79dcb8a4, 0xe0d5e91e, 0x97d2d988, 0x09b64c2b, 0x7eb17cbd, 0xe7b82d07, 0x90bf1d91 ]
  const ROW1: seq<bv32> :=
    [ 0x1db71064, 0x6ab020f2, 0xf3b97148, 0x84be41de, 0x1adad47d, 0x6ddde4eb, 0xf4d4b551, 0x83d385c7,
      0x136c9856, 0x646ba8c0, 0xfd62f97a, 0x8a65c9ec, 0x14015c4f, 0x63066cd9, 0xfa0f3d63, 0x8d080df5 ]
  const ROW2: seq<bv32> :=
    [ 0x3b6e20c8, 0x4c69105e, 0xd56041e4, 0xa2677172, 0x3c03e4d1, 0x4b04d447, 0xd20d85fd, 0xa50ab56b,
      0x35b5a8fa, 0x42b2986c, 0xdbbbc9d6, 0xacbcf940, 0x32d86ce3, 0x45df5c75, 0xdcd60dcf, 0xabd13d59 ]
  const ROW3: seq<bv32> :=
    [ 0x26d930ac, 0x51de003a, 0xc8d75180, 0xbfd06116, 0x21b4f4b5, 0x56b3c423, 0xcfba9599, 0xb8bda50f,
      0x2802b89e, 0x5f058808, 0xc60cd9b2, 0xb10be924, 0x2f6f7c87, 0x58684c11, 0xc1611dab, 0xb6662d3d ]
  const ROW4: seq<bv32> :=
    [ 0x76dc4190, 0x01db7106, 0x98d220bc, 0xefd5102a, 0x71b18589, 0x06b6b51f, 0x9fbfe4a5, 0xe8b8d433,
      0x7807c9a2, 0x0f00f934, 0x9609a88e, 0xe10e9818, 0x7f6a0dbb, 0x086d3d2d, 0x91646c97, 0xe6635c01 ]
  const ROW5: seq<bv32> :=
    [ 0x6b6b51f4, 0x1c6c6162, 0x856530d8, 0xf262004e, 0x6c0695ed, 0x1b01a57b, 0x8208f4c1, 0xf50fc457,
      0x65b0d9c6, 0x12b7e950, 0x8bbeb8ea, 0xfcb9887c, 0x62dd1ddf, 0x15da2d49, 0x8cd37cf3, 0xfbd44c65 ]
  const ROW6: seq<bv32> :=
    [ 0x4db26158, 0x3ab551ce, 0xa3bc0074, 0xd4bb30e2, 0x4adfa541, 0x3dd895d7, 0xa4d1c46d, 0xd3d6f4fb,
      0x4369e96a, 0x346ed9fc, 0xad678846, 0xda60b8d0, 0x44042d73, 0x33031de5, 0xaa0a4c5f, 0xdd0d7cc9 ]
  const ROW7: seq<bv32> :=
    [ 0x5005713c, 0x270241aa, 0xbe0b1010, 0xc90c2086, 0x5768b525, 0x206f85b3, 0xb966d409, 0xce61e49f,
      0x5edef90e, 0x29d9c998, 0xb0d09822, 0xc7d7a8b4, 0x59b33d17, 0x2eb40d81, 0xb7bd5c3b, 0xc0ba6cad ]
  const ROW8: seq<bv32> :=
    [ 0xedb88320, 0x9abfb3b6, 0x03b6e20c, 0x74b1d29a, 0xead54739, 0x9dd277af, 0x04db2615, 0x73dc1683,
      0xe3630b12, 0x94643b84, 0x0d6d6a3e, 0x7a6a5aa8, 0xe40ecf0b, 0x9309ff9d, 0x0a00ae27, 0x7d079eb1 ]
  const ROW9: seq<bv32> :=
    [ 0xf00f9344, 0x8708a3d2, 0x1e01f268, 0x6906c2fe, 0xf762575d, 0x806567cb, 0x196c3671, 0x6e6b06e7,
      0xfed41b76, 0x89d32be0, 0x10da7a5a, 0x67dd4acc, 0xf9b9df6f, 0x8ebeeff9, 0x17b7be43, 0x60b08ed5 ]
  const ROWA: seq<bv32> :=
    [ 0xd6d6a3e8, 0xa1d1937e, 0x38d8c2c4, 0x4fdff252, 0xd1bb67f1, 0xa6bc5767, 0x3fb506dd, 0x48b2364b,
      0xd80d2bda, 0xaf0a1b4c, 0x36034af6, 0x41047a60, 0xdf60efc3, 0xa867df55, 0x316e8eef, 0x4669be79 ]
  const ROWB: seq<bv32> :=
    [ 0xcb61b38c, 0xbc66831a, 0x256fd2a0, 0x5268e236, 0xcc0c7795, 0xbb0b4703, 0x220216b9, 0x5505262f,
      0xc5ba3bbe, 0xb2bd0b28, 0x2bb45a92, 0x5cb36a04, 0xc2d7ffa7, 0xb5d0cf31, 0x2cd99e8b, 0x5bdeae1d ]
  const ROWC: seq<bv32> :=
    [ 0x9b64c2b0, 0xec63f226, 0x756aa39c, 0x026d930a, 0x9c0906a9, 0xeb0e363f, 0x72076785, 0x05005713,
      0x95bf4a82, 0xe2b87a14, 0x7bb12bae, 0x0cb61b38, 0x92d28e9b, 0xe5d5be0d, 0x7cdcefb7, 0x0bdbdf21 ]
  const ROWD: seq<bv32> :=
    [ 0x86d3d2d4, 0xf1d4e242, 0x68ddb3f8, 0x1fda836e, 0x81be16cd, 0xf6b9265b, 0x6fb077e1, 0x18b74777,
      0x88085ae6, 0xff0f6a70, 0x66063bca, 0x11010b5c, 0x8f659eff, 0xf862ae69, 0x616bffd3, 0x166ccf45 ]
  const ROWE: seq<bv32> :=
    [ 0xa00ae278, 0xd70dd2ee, 0x4e048354, 0x3903b3c2, 0xa7672661, 0xd06016f7, 0x4969474d, 0x3e6e77db,
      0xaed16a4a, 0xd9d65adc, 0x40df0b66, 0x37d83bf0, 0xa9bcae53, 0xdebb9ec5, 0x47b2cf7f, 0x30b5ffe9 ]
  const ROWF: seq<bv32> :=
    [ 0xbdbdf21c, 0xcabac28a, 0x53b39330, 0x24b4a3a6, 0xbad03605, 0xcdd70693, 0x54de5729, 0x23d967bf,
      0xb3667a2e, 0xc4614ab8, 0x5d681b02, 0x2a6f2b94, 0xb40bbe37, 0xc30c8ea1, 0x5a05df1b, 0x2d02ef8d ]

  function TableRow(r: int): (row: seq<bv32>)
    ensures |row| == 16
  {
    if r == 0 then ROW0
    else if r == 1 then ROW1
    else if r == 2 then ROW2
    else if r == 3 then ROW3
    else if r == 4 then ROW4
    else if r == 5 then ROW5
    else if r == 6 then ROW6
    else if r == 7 then ROW7
    else if r == 8 then ROW8
    else if r == 9 then ROW9
    else if r == 10 then ROWA
    else if r == 11 then ROWB
    else if r == 12 then ROWC
    else if r == 13 then ROWD
    else if r == 14 then ROWE
    else ROWF
  }

  lemma NibbleFits(x: bv32)
    ensures 0 <= (x & 15) as int < 16 && 0 <= ((x >> 4) & 15) as int < 16
  {}

  function TableEntry(x: bv32): bv32
    requires x < 256
  {
    NibbleFits(x);
    TableRow(((x >> 4) & 15) as int)[(x & 15) as int]
  }

  lemma StepTo(x: bv32, y: bv32)
    requires Shift(x) == y
    ensures Step(x) == y
  {
    StepIsShift(x);
  }

  lemma PowerSteps()
    ensures EightSteps(1) == 0x77073096 && EightSteps(2) == 0xee0e612c && EightSteps(4) == 0x076dc419
            && EightSteps(8) == 0x0edb8832
    ensures EightSteps(16) == 0x1db71064 && EightSteps(32) == 0x3b6e20c8 && EightSteps(64) == 0x76dc4190
            && EightSteps(128) == 0xedb88320
    ensures EightSteps(0) == 0
  {
    StepTo(0, 0); StepTo(128, 64); StepTo(64, 32); StepTo(32, 16); StepTo(16, 8); StepTo(8, 4); StepTo(4, 2);
    StepTo(2, 1);
    StepTo(1, 0xedb88320); StepTo(0xedb88320, 0x76dc4190); StepTo(0x76dc4190, 0x3b6e20c8);
    StepTo(0x3b6e20c8, 0x1db71064);
    StepTo(0x1db71064, 0x0edb8832); StepTo(0x0edb8832, 0x076dc419); StepTo(0x076dc419, 0xee0e612c);
    StepTo(0xee0e612c, 0x77073096);
  }

  // The eight powers of two below 256
  lemma Powers()
    ensures Step8(1) == 0x77073096 && Step8(2) == 0xee0e612c && Step8(4) == 0x076dc419 && Step8(8) == 0x0edb8832
    ensures Step8(16) == 0x1db71064 && Step8(32) == 0x3b6e20c8 && Step8(64) == 0x76dc4190 && Step8(128) == 0xedb88320
    ensures Step8(0) == 0
  {
    Step8Is(0); Step8Is(1); Step8Is(2); Step8Is(4); Step8Is(8); Step8Is(16); Step8Is(32); Step8Is(64); Step8Is(128);
    PowerSteps();
  }

  lemma Sum(a: bv32, b: bv32, x: bv32, p: bv32, q: bv32, r: bv32)
    requires x == a ^ b && r == p ^ q && Step8(a) == p && Step8(b) == q
    ensures Step8(x) == r
  {
    PlusIsXor(a, b); PlusIsXor(p, q); Step8Linear(a, b);
  }

  lemma LowNibbles()
    ensures Step8(3) == 0x990951ba && Step8(5) == 0x706af48f && Step8(6) == 0xe963a535 && Step8(7) == 0x9e6495a3
            && Step8(9) == 0x79dcb8a4
    ensures Step8(10) == 0xe0d5e91e && Step8(11) == 0x97d2d988 && Step8(12) == 0x09b64c2b && Step8(13) == 0x7eb17cbd
            && Step8(14) == 0xe7b82d07 && Step8(15) == 0x90bf1d91
  {
    Powers();
    Sum(2, 1, 3, 0xee0e612c, 0x77073096, 0x990951ba);
    Sum(4, 1, 5, 0x076dc419, 0x77073096, 0x706af48f);
    Sum(4, 2, 6, 0x076dc419, 0xee0e612c, 0xe963a535);
    Sum(4, 3, 7, 0x076dc419, 0x990951ba, 0x9e6495a3);
    Sum(8, 1, 9, 0x0edb8832, 0x77073096, 0x79dcb8a4);
    Sum(8, 2, 10, 0x0edb8832, 0xee0e612c, 0xe0d5e91e);
    Sum(8, 3, 11, 0x0edb8832, 0x990951ba, 0x97d2d988);
    Sum(8, 4, 12, 0x0edb8832, 0x076dc419, 0x09b64c2b);
    Sum(8, 5, 13, 0x0edb8832, 0x706af48f, 0x7eb17cbd);
    Sum(8, 6, 14, 0x0edb8832, 0xe963a535, 0xe7b82d07);
    Sum(8, 7, 15, 0x0edb8832, 0x9e6495a3, 0x90bf1d91);
  }

  lemma FirstRow(x: bv32)
    requires x < 16
    ensures 0 <= x as int < 16 && ROW0[x as int] == Step8(x)
  {
    Powers(); LowNibbles();
    if x == 0 {}
    else if x == 1 {}
    else if x == 2 {}
    else if x == 3 {}
    else if x == 4 {}
    else if x == 5 {}
    else if x == 6 {}
    else if x == 7 {}
    else if x == 8 {}
    else if x == 9 {}
    else if x == 10 {}
    else if x == 11 {}
    else if x == 12 {}
    else if x == 13 {}
    else if x == 14 {}
    else if x == 15 {}
  }

  // The first entries of the rows
  lemma FirstColumn()
    ensures Step8(0) == ROW0[0] && Step8(16) == ROW1[0] && Step8(32) == ROW2[0] && Step8(48) == ROW3[0]
            && Step8(64) == ROW4[0] && Step8(80) == ROW5[0] && Step8(96) == ROW6[0] && Step8(112) == ROW7[0]
    ensures Step8(128) == ROW8[0] && Step8(144) == ROW9[0] && Step8(160) == ROWA[0] && Step8(176) == ROWB[0]
            && Step8(192) == ROWC[0] && Step8(208) == ROWD[0] && Step8(224) == ROWE[0] && Step8(240) == ROWF[0]
  {
    Powers();
    Sum(32, 16, 48, 0x3b6e20c8, 0x1db71064, 0x26d930ac);
    Sum(64, 16, 80, 0x76dc4190, 0x1db71064, 0x6b6b51f4);
    Sum(64, 32, 96, 0x76dc4190, 0x3b6e20c8, 0x4db26158);
    Sum(64, 48, 112, 0x76dc4190, 0x26d930ac, 0x5005713c);
    Sum(128, 16, 144, 0xedb88320, 0x1db71064, 0xf00f9344);
    Sum(128, 32, 160, 0xedb88320, 0x3b6e20c8, 0xd6d6a3e8);
    Sum(128, 48, 176, 0xedb88320, 0x26d930ac, 0xcb61b38c);
    Sum(128, 64, 192, 0xedb88320, 0x76dc4190, 0x9b64c2b0);
    Sum(128, 80, 208, 0xedb88320, 0x6b6b51f4, 0x86d3d2d4);
    Sum(128, 96, 224, 0xedb88320, 0x4db26158, 0xa00ae278);
    Sum(128, 112, 240, 0xedb88320, 0x5005713c, 0xbdbdf21c);
  }

  // Each row is the first row with the row's first entry added.
  ghost predicate Displaced(row: seq<bv32>) { |row| == 16 && forall j :: 0 <= j < 16 ==> row[j] == ROW0[j] ^ row[0] }

  lemma Row0() ensures Displaced(ROW0) {}
  lemma Row1() ensures Displaced(ROW1) {}
  lemma Row2() ensures Displaced(ROW2) {}
  lemma Row3() ensures Displaced(ROW3) {}
  lemma Row4() ensures Displaced(ROW4) {}
  lemma Row5() ensures Displaced(ROW5) {}
  lemma Row6() ensures Displaced(ROW6) {}
  lemma Row7() ensures Displaced(ROW7) {}
  lemma Row8() ensures Displaced(ROW8) {}
  lemma Row9() ensures Displaced(ROW9) {}
  lemma RowA() ensures Displaced(ROWA) {}
  lemma RowB() ensures Displaced(ROWB) {}
  lemma RowC() ensures Displaced(ROWC) {}
  lemma RowD() ensures Displaced(ROWD) {}
  lemma RowE() ensures Displaced(ROWE) {}
  lemma RowF() ensures Displaced(ROWF) {}

  lemma RowOf(r: bv32)
    requires r < 16
    ensures 0 <= r as int < 16 && Displaced(TableRow(r as int))
  {
    if r == 0 { Row0(); }
    else if r == 1 { Row1(); }
    else if r == 2 { Row2(); }
    else if r == 3 { Row3(); }
    else if r == 4 { Row4(); }
    else if r == 5 { Row5(); }
    else if r == 6 { Row6(); }
    else if r == 7 { Row7(); }
    else if r == 8 { Row8(); }
    else if r == 9 { Row9(); }
    else if r == 10 { RowA(); }
    else if r == 11 { RowB(); }
    else if r == 12 { RowC(); }
    else if r == 13 { RowD(); }
    else if r == 14 { RowE(); }
    else if r == 15 { RowF(); }
  }

  lemma RowHead(r: bv32)
    requires r < 16
    ensures 0 <= r as int < 16 && TableRow(r as int)[0] == Step8(r << 4)
  {
    FirstColumn();
    if r == 0 {}
    else if r == 1 {}
    else if r == 2 {}
    else if r == 3 {}
    else if r == 4 {}
    else if r == 5 {}
    else if r == 6 {}
    else if r == 7 {}
    else if r == 8 {}
    else if r == 9 {}
    else if r == 10 {}
    else if r == 11 {}
    else if r == 12 {}
    else if r == 13 {}
    else if r == 14 {}
    else if r == 15 {}
  }

  lemma Nibbles(x: bv32)
    requires x < 256
    ensures (x >> 4) & 15 < 16 && x & 15 < 16 && x == (x & 15) ^ (((x >> 4) & 15) << 4)
  {}

  // Entry x of the table is x after eight steps.
  lemma TableIsStep8(x: bv32)
    requires x < 256
    ensures TableEntry(x) == Step8(x)
  {
    var lo, hi := x & 15, (x >> 4) & 15;
    Nibbles(x); NibbleFits(x); FirstRow(lo); RowOf(hi); RowHead(hi);
    Sum(lo, hi << 4, x, Step8(lo), Step8(hi << 4), TableEntry(x));
  }
}
