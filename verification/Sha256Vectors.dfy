/** Known answers: the worked examples of FIPS 180-4, one block and two, through the schedule, the rounds and
    the text, with every intermediate word a literal. */
module Sha256Vectors {
  import opened Bits
  import opened Sha256

  // ---------------------------------------------------------------- eight words and eight rounds at a time

  /** Words `t` to `t + 7` of the message schedule. */
  ghost predicate Words(block: seq<Byte>, t: nat, w0: Word, w1: Word, w2: Word, w3: Word, w4: Word, w5: Word,
        w6: Word, w7: Word)
  {
    && |block| == 64
    && ScheduleWord(block, t) == w0 && ScheduleWord(block, t + 1) == w1
    && ScheduleWord(block, t + 2) == w2 && ScheduleWord(block, t + 3) == w3
    && ScheduleWord(block, t + 4) == w4 && ScheduleWord(block, t + 5) == w5
    && ScheduleWord(block, t + 6) == w6 && ScheduleWord(block, t + 7) == w7
  }

  /** Rounds have reached `v` after `t` of them. */
  ghost predicate Reaches(start: Working, block: seq<Byte>, t: nat, v: Working) {
    |block| == 64 && t <= 64 && Rounds(start, block, t) == v
  }

  lemma NextScheduled(block: seq<Byte>, t: nat, w16: Word, w15: Word, w7: Word, w2: Word, w: Word)
    requires |block| == 64 && t >= 16
    requires ScheduleWord(block, t - 16) == w16 && ScheduleWord(block, t - 15) == w15
    requires ScheduleWord(block, t - 7) == w7 && ScheduleWord(block, t - 2) == w2
    requires NextWord(w16, w15, w7, w2) == w
    ensures ScheduleWord(block, t) == w
  {
    hide NextWord;
  }

  /** One round, its two new words given. */
  lemma OneRound(start: Working, block: seq<Byte>, t: nat, v: Working, k: Word, w: Word, a: Word, e: Word)
    returns (next: Working)
    requires t < 64 && Reaches(start, block, t, v)
    requires RoundConstant(t) == k && ScheduleWord(block, t) == w
    requires Round(v, k, w) == Working(a, v.a, v.b, v.c, e, v.e, v.f, v.g)
    ensures next == Working(a, v.a, v.b, v.c, e, v.e, v.f, v.g) && Reaches(start, block, t + 1, next)
  {
    hide ScheduleWord, RoundConstant, Round;
    next := Round(v, k, w);
  }

  lemma NoRounds(start: Working, block: seq<Byte>)
    requires |block| == 64
    ensures Reaches(start, block, 0, start)
  {}

  lemma Literals0()
    ensures WordOf(0x428a2f98) == 0x428a2f98 && WordOf(0x71374491) == 0x71374491
    ensures WordOf(0xb5c0fbcf) == 0xb5c0fbcf && WordOf(0xe9b5dba5) == 0xe9b5dba5
    ensures WordOf(0x3956c25b) == 0x3956c25b && WordOf(0x59f111f1) == 0x59f111f1
    ensures WordOf(0x923f82a4) == 0x923f82a4 && WordOf(0xab1c5ed5) == 0xab1c5ed5
  {}

  lemma Constants0()
    ensures RoundConstant(0) == 0x428a2f98 && RoundConstant(1) == 0x71374491
    ensures RoundConstant(2) == 0xb5c0fbcf && RoundConstant(3) == 0xe9b5dba5
    ensures RoundConstant(4) == 0x3956c25b && RoundConstant(5) == 0x59f111f1
    ensures RoundConstant(6) == 0x923f82a4 && RoundConstant(7) == 0xab1c5ed5
  {
    hide WordOf;
    Literals0();
  }

  lemma Literals1()
    ensures WordOf(0xd807aa98) == 0xd807aa98 && WordOf(0x12835b01) == 0x12835b01
    ensures WordOf(0x243185be) == 0x243185be && WordOf(0x550c7dc3) == 0x550c7dc3
    ensures WordOf(0x72be5d74) == 0x72be5d74 && WordOf(0x80deb1fe) == 0x80deb1fe
    ensures WordOf(0x9bdc06a7) == 0x9bdc06a7 && WordOf(0xc19bf174) == 0xc19bf174
  {}

  lemma Constants1()
    ensures RoundConstant(8) == 0xd807aa98 && RoundConstant(9) == 0x12835b01
    ensures RoundConstant(10) == 0x243185be && RoundConstant(11) == 0x550c7dc3
    ensures RoundConstant(12) == 0x72be5d74 && RoundConstant(13) == 0x80deb1fe
    ensures RoundConstant(14) == 0x9bdc06a7 && RoundConstant(15) == 0xc19bf174
  {
    hide WordOf;
    Literals1();
  }

  lemma Literals2()
    ensures WordOf(0xe49b69c1) == 0xe49b69c1 && WordOf(0xefbe4786) == 0xefbe4786
    ensures WordOf(0x0fc19dc6) == 0x0fc19dc6 && WordOf(0x240ca1cc) == 0x240ca1cc
    ensures WordOf(0x2de92c6f) == 0x2de92c6f && WordOf(0x4a7484aa) == 0x4a7484aa
    ensures WordOf(0x5cb0a9dc) == 0x5cb0a9dc && WordOf(0x76f988da) == 0x76f988da
  {}

  lemma Constants2()
    ensures RoundConstant(16) == 0xe49b69c1 && RoundConstant(17) == 0xefbe4786
    ensures RoundConstant(18) == 0x0fc19dc6 && RoundConstant(19) == 0x240ca1cc
    ensures RoundConstant(20) == 0x2de92c6f && RoundConstant(21) == 0x4a7484aa
    ensures RoundConstant(22) == 0x5cb0a9dc && RoundConstant(23) == 0x76f988da
  {
    hide WordOf;
    Literals2();
  }

  lemma Literals3()
    ensures WordOf(0x983e5152) == 0x983e5152 && WordOf(0xa831c66d) == 0xa831c66d
    ensures WordOf(0xb00327c8) == 0xb00327c8 && WordOf(0xbf597fc7) == 0xbf597fc7
    ensures WordOf(0xc6e00bf3) == 0xc6e00bf3 && WordOf(0xd5a79147) == 0xd5a79147
    ensures WordOf(0x06ca6351) == 0x06ca6351 && WordOf(0x14292967) == 0x14292967
  {}

  lemma Constants3()
    ensures RoundConstant(24) == 0x983e5152 && RoundConstant(25) == 0xa831c66d
    ensures RoundConstant(26) == 0xb00327c8 && RoundConstant(27) == 0xbf597fc7
    ensures RoundConstant(28) == 0xc6e00bf3 && RoundConstant(29) == 0xd5a79147
    ensures RoundConstant(30) == 0x06ca6351 && RoundConstant(31) == 0x14292967
  {
    hide WordOf;
    Literals3();
  }

  lemma Literals4()
    ensures WordOf(0x27b70a85) == 0x27b70a85 && WordOf(0x2e1b2138) == 0x2e1b2138
    ensures WordOf(0x4d2c6dfc) == 0x4d2c6dfc && WordOf(0x53380d13) == 0x53380d13
    ensures WordOf(0x650a7354) == 0x650a7354 && WordOf(0x766a0abb) == 0x766a0abb
    ensures WordOf(0x81c2c92e) == 0x81c2c92e && WordOf(0x92722c85) == 0x92722c85
  {}

  lemma Constants4()
    ensures RoundConstant(32) == 0x27b70a85 && RoundConstant(33) == 0x2e1b2138
    ensures RoundConstant(34) == 0x4d2c6dfc && RoundConstant(35) == 0x53380d13
    ensures RoundConstant(36) == 0x650a7354 && RoundConstant(37) == 0x766a0abb
    ensures RoundConstant(38) == 0x81c2c92e && RoundConstant(39) == 0x92722c85
  {
    hide WordOf;
    Literals4();
  }

  lemma Literals5()
    ensures WordOf(0xa2bfe8a1) == 0xa2bfe8a1 && WordOf(0xa81a664b) == 0xa81a664b
    ensures WordOf(0xc24b8b70) == 0xc24b8b70 && WordOf(0xc76c51a3) == 0xc76c51a3
    ensures WordOf(0xd192e819) == 0xd192e819 && WordOf(0xd6990624) == 0xd6990624
    ensures WordOf(0xf40e3585) == 0xf40e3585 && WordOf(0x106aa070) == 0x106aa070
  {}

  lemma Constants5()
    ensures RoundConstant(40) == 0xa2bfe8a1 && RoundConstant(41) == 0xa81a664b
    ensures RoundConstant(42) == 0xc24b8b70 && RoundConstant(43) == 0xc76c51a3
    ensures RoundConstant(44) == 0xd192e819 && RoundConstant(45) == 0xd6990624
    ensures RoundConstant(46) == 0xf40e3585 && RoundConstant(47) == 0x106aa070
  {
    hide WordOf;
    Literals5();
  }

  lemma Literals6()
    ensures WordOf(0x19a4c116) == 0x19a4c116 && WordOf(0x1e376c08) == 0x1e376c08
    ensures WordOf(0x2748774c) == 0x2748774c && WordOf(0x34b0bcb5) == 0x34b0bcb5
    ensures WordOf(0x391c0cb3) == 0x391c0cb3 && WordOf(0x4ed8aa4a) == 0x4ed8aa4a
    ensures WordOf(0x5b9cca4f) == 0x5b9cca4f && WordOf(0x682e6ff3) == 0x682e6ff3
  {}

  lemma Constants6()
    ensures RoundConstant(48) == 0x19a4c116 && RoundConstant(49) == 0x1e376c08
    ensures RoundConstant(50) == 0x2748774c && RoundConstant(51) == 0x34b0bcb5
    ensures RoundConstant(52) == 0x391c0cb3 && RoundConstant(53) == 0x4ed8aa4a
    ensures RoundConstant(54) == 0x5b9cca4f && RoundConstant(55) == 0x682e6ff3
  {
    hide WordOf;
    Literals6();
  }

  lemma Literals7()
    ensures WordOf(0x748f82ee) == 0x748f82ee && WordOf(0x78a5636f) == 0x78a5636f
    ensures WordOf(0x84c87814) == 0x84c87814 && WordOf(0x8cc70208) == 0x8cc70208
    ensures WordOf(0x90befffa) == 0x90befffa && WordOf(0xa4506ceb) == 0xa4506ceb
    ensures WordOf(0xbef9a3f7) == 0xbef9a3f7 && WordOf(0xc67178f2) == 0xc67178f2
  {}

  lemma Constants7()
    ensures RoundConstant(56) == 0x748f82ee && RoundConstant(57) == 0x78a5636f
    ensures RoundConstant(58) == 0x84c87814 && RoundConstant(59) == 0x8cc70208
    ensures RoundConstant(60) == 0x90befffa && RoundConstant(61) == 0xa4506ceb
    ensures RoundConstant(62) == 0xbef9a3f7 && RoundConstant(63) == 0xc67178f2
  {
    hide WordOf;
    Literals7();
  }

  // ---------------------------------------------------------------- "abc"

  const ABC: seq<Byte> := [0x61, 0x62, 0x63]

  lemma AbcWords2(block: seq<Byte>)
    requires Words(block, 0,
              0x61626380, 0x00000000, 0x00000000, 0x00000000, 0x00000000, 0x00000000, 0x00000000, 0x00000000)
    requires Words(block, 8,
              0x00000000, 0x00000000, 0x00000000, 0x00000000, 0x00000000, 0x00000000, 0x00000000, 0x00000018)
    ensures Words(block, 16,
              0x61626380, 0x000f0000, 0x7da86405, 0x600003c6, 0x3e9d7b78, 0x0183fc00, 0x12dcbfdb, 0xe2e2c38e)
  {
    hide ScheduleWord;
    NextScheduled(block, 16, 0x61626380, 0x00000000, 0x00000000, 0x00000000, 0x61626380);
    NextScheduled(block, 17, 0x00000000, 0x00000000, 0x00000000, 0x00000018, 0x000f0000);
    NextScheduled(block, 18, 0x00000000, 0x00000000, 0x00000000, 0x61626380, 0x7da86405);
    NextScheduled(block, 19, 0x00000000, 0x00000000, 0x00000000, 0x000f0000, 0x600003c6);
    NextScheduled(block, 20, 0x00000000, 0x00000000, 0x00000000, 0x7da86405, 0x3e9d7b78);
    NextScheduled(block, 21, 0x00000000, 0x00000000, 0x00000000, 0x600003c6, 0x0183fc00);
    NextScheduled(block, 22, 0x00000000, 0x00000000, 0x00000018, 0x3e9d7b78, 0x12dcbfdb);
    NextScheduled(block, 23, 0x00000000, 0x00000000, 0x61626380, 0x0183fc00, 0xe2e2c38e);
  }

  lemma AbcWords3(block: seq<Byte>)
    requires Words(block, 8,
              0x00000000, 0x00000000, 0x00000000, 0x00000000, 0x00000000, 0x00000000, 0x00000000, 0x00000018)
    requires Words(block, 16,
              0x61626380, 0x000f0000, 0x7da86405, 0x600003c6, 0x3e9d7b78, 0x0183fc00, 0x12dcbfdb, 0xe2e2c38e)
    ensures Words(block, 24,
              0xc8215c1a, 0xb73679a2, 0xe5bc3909, 0x32663c5b, 0x9d209d67, 0xec8726cb, 0x702138a4, 0xd3b7973b)
  {
    hide ScheduleWord;
    NextScheduled(block, 24, 0x00000000, 0x00000000, 0x000f0000, 0x12dcbfdb, 0xc8215c1a);
    NextScheduled(block, 25, 0x00000000, 0x00000000, 0x7da86405, 0xe2e2c38e, 0xb73679a2);
    NextScheduled(block, 26, 0x00000000, 0x00000000, 0x600003c6, 0xc8215c1a, 0xe5bc3909);
    NextScheduled(block, 27, 0x00000000, 0x00000000, 0x3e9d7b78, 0xb73679a2, 0x32663c5b);
    NextScheduled(block, 28, 0x00000000, 0x00000000, 0x0183fc00, 0xe5bc3909, 0x9d209d67);
    NextScheduled(block, 29, 0x00000000, 0x00000000, 0x12dcbfdb, 0x32663c5b, 0xec8726cb);
    NextScheduled(block, 30, 0x00000000, 0x00000018, 0xe2e2c38e, 0x9d209d67, 0x702138a4);
    NextScheduled(block, 31, 0x00000018, 0x61626380, 0xc8215c1a, 0xec8726cb, 0xd3b7973b);
  }

  lemma AbcWords4(block: seq<Byte>)
    requires Words(block, 16,
              0x61626380, 0x000f0000, 0x7da86405, 0x600003c6, 0x3e9d7b78, 0x0183fc00, 0x12dcbfdb, 0xe2e2c38e)
    requires Words(block, 24,
              0xc8215c1a, 0xb73679a2, 0xe5bc3909, 0x32663c5b, 0x9d209d67, 0xec8726cb, 0x702138a4, 0xd3b7973b)
    ensures Words(block, 32,
              0x93f5997f, 0x3b68ba73, 0xaff4ffc1, 0xf10a5c62, 0x0a8b3996, 0x72af830a, 0x9409e33e, 0x24641522)
  {
    hide ScheduleWord;
    NextScheduled(block, 32, 0x61626380, 0x000f0000, 0xb73679a2, 0x702138a4, 0x93f5997f);
    NextScheduled(block, 33, 0x000f0000, 0x7da86405, 0xe5bc3909, 0xd3b7973b, 0x3b68ba73);
    NextScheduled(block, 34, 0x7da86405, 0x600003c6, 0x32663c5b, 0x93f5997f, 0xaff4ffc1);
    NextScheduled(block, 35, 0x600003c6, 0x3e9d7b78, 0x9d209d67, 0x3b68ba73, 0xf10a5c62);
    NextScheduled(block, 36, 0x3e9d7b78, 0x0183fc00, 0xec8726cb, 0xaff4ffc1, 0x0a8b3996);
    NextScheduled(block, 37, 0x0183fc00, 0x12dcbfdb, 0x702138a4, 0xf10a5c62, 0x72af830a);
    NextScheduled(block, 38, 0x12dcbfdb, 0xe2e2c38e, 0xd3b7973b, 0x0a8b3996, 0x9409e33e);
    NextScheduled(block, 39, 0xe2e2c38e, 0xc8215c1a, 0x93f5997f, 0x72af830a, 0x24641522);
  }

  lemma AbcWords5(block: seq<Byte>)
    requires Words(block, 24,
              0xc8215c1a, 0xb73679a2, 0xe5bc3909, 0x32663c5b, 0x9d209d67, 0xec8726cb, 0x702138a4, 0xd3b7973b)
    requires Words(block, 32,
              0x93f5997f, 0x3b68ba73, 0xaff4ffc1, 0xf10a5c62, 0x0a8b3996, 0x72af830a, 0x9409e33e, 0x24641522)
    ensures Words(block, 40,
              0x9f47bf94, 0xf0a64f5a, 0x3e246a79, 0x27333ba3, 0x0c4763f2, 0x840abf27, 0x7a290d5d, 0x065c43da)
  {
    hide ScheduleWord;
    NextScheduled(block, 40, 0xc8215c1a, 0xb73679a2, 0x3b68ba73, 0x9409e33e, 0x9f47bf94);
    NextScheduled(block, 41, 0xb73679a2, 0xe5bc3909, 0xaff4ffc1, 0x24641522, 0xf0a64f5a);
    NextScheduled(block, 42, 0xe5bc3909, 0x32663c5b, 0xf10a5c62, 0x9f47bf94, 0x3e246a79);
    NextScheduled(block, 43, 0x32663c5b, 0x9d209d67, 0x0a8b3996, 0xf0a64f5a, 0x27333ba3);
    NextScheduled(block, 44, 0x9d209d67, 0xec8726cb, 0x72af830a, 0x3e246a79, 0x0c4763f2);
    NextScheduled(block, 45, 0xec8726cb, 0x702138a4, 0x9409e33e, 0x27333ba3, 0x840abf27);
    NextScheduled(block, 46, 0x702138a4, 0xd3b7973b, 0x24641522, 0x0c4763f2, 0x7a290d5d);
    NextScheduled(block, 47, 0xd3b7973b, 0x93f5997f, 0x9f47bf94, 0x840abf27, 0x065c43da);
  }

  lemma AbcWords6(block: seq<Byte>)
    requires Words(block, 32,
              0x93f5997f, 0x3b68ba73, 0xaff4ffc1, 0xf10a5c62, 0x0a8b3996, 0x72af830a, 0x9409e33e, 0x24641522)
    requires Words(block, 40,
              0x9f47bf94, 0xf0a64f5a, 0x3e246a79, 0x27333ba3, 0x0c4763f2, 0x840abf27, 0x7a290d5d, 0x065c43da)
    ensures Words(block, 48,
              0xfb3e89cb, 0xcc7617db, 0xb9e66c34, 0xa9993667, 0x84badedd, 0xc21462bc, 0x1487472c, 0xb20f7a99)
  {
    hide ScheduleWord;
    NextScheduled(block, 48, 0x93f5997f, 0x3b68ba73, 0xf0a64f5a, 0x7a290d5d, 0xfb3e89cb);
    NextScheduled(block, 49, 0x3b68ba73, 0xaff4ffc1, 0x3e246a79, 0x065c43da, 0xcc7617db);
    NextScheduled(block, 50, 0xaff4ffc1, 0xf10a5c62, 0x27333ba3, 0xfb3e89cb, 0xb9e66c34);
    NextScheduled(block, 51, 0xf10a5c62, 0x0a8b3996, 0x0c4763f2, 0xcc7617db, 0xa9993667);
    NextScheduled(block, 52, 0x0a8b3996, 0x72af830a, 0x840abf27, 0xb9e66c34, 0x84badedd);
    NextScheduled(block, 53, 0x72af830a, 0x9409e33e, 0x7a290d5d, 0xa9993667, 0xc21462bc);
    NextScheduled(block, 54, 0x9409e33e, 0x24641522, 0x065c43da, 0x84badedd, 0x1487472c);
    NextScheduled(block, 55, 0x24641522, 0x9f47bf94, 0xfb3e89cb, 0xc21462bc, 0xb20f7a99);
  }

  lemma AbcWords7(block: seq<Byte>)
    requires Words(block, 40,
              0x9f47bf94, 0xf0a64f5a, 0x3e246a79, 0x27333ba3, 0x0c4763f2, 0x840abf27, 0x7a290d5d, 0x065c43da)
    requires Words(block, 48,
              0xfb3e89cb, 0xcc7617db, 0xb9e66c34, 0xa9993667, 0x84badedd, 0xc21462bc, 0x1487472c, 0xb20f7a99)
    ensures Words(block, 56,
              0xef57b9cd, 0xebe6b238, 0x9fe3095e, 0x78bc8d4b, 0xa43fcf15, 0x668b2ff8, 0xeeaba2cc, 0x12b1edeb)
  {
    hide ScheduleWord;
    NextScheduled(block, 56, 0x9f47bf94, 0xf0a64f5a, 0xcc7617db, 0x1487472c, 0xef57b9cd);
    NextScheduled(block, 57, 0xf0a64f5a, 0x3e246a79, 0xb9e66c34, 0xb20f7a99, 0xebe6b238);
    NextScheduled(block, 58, 0x3e246a79, 0x27333ba3, 0xa9993667, 0xef57b9cd, 0x9fe3095e);
    NextScheduled(block, 59, 0x27333ba3, 0x0c4763f2, 0x84badedd, 0xebe6b238, 0x78bc8d4b);
    NextScheduled(block, 60, 0x0c4763f2, 0x840abf27, 0xc21462bc, 0x9fe3095e, 0xa43fcf15);
    NextScheduled(block, 61, 0x840abf27, 0x7a290d5d, 0x1487472c, 0x78bc8d4b, 0x668b2ff8);
    NextScheduled(block, 62, 0x7a290d5d, 0x065c43da, 0xb20f7a99, 0xa43fcf15, 0xeeaba2cc);
    NextScheduled(block, 63, 0x065c43da, 0xfb3e89cb, 0xef57b9cd, 0x668b2ff8, 0x12b1edeb);
  }

  lemma AbcRounds0(start: Working, block: seq<Byte>)
    requires Words(block, 0,
              0x61626380, 0x00000000, 0x00000000, 0x00000000, 0x00000000, 0x00000000, 0x00000000, 0x00000000)
    requires Reaches(start, block, 0,
               Working(0x6a09e667, 0xbb67ae85, 0x3c6ef372, 0xa54ff53a, 0x510e527f, 0x9b05688c, 0x1f83d9ab, 0x5be0cd19))
    ensures Reaches(start, block, 8,
              Working(0x85a07b5f, 0xe5030380, 0x2b4209f5, 0x04409a6a, 0x0c657a79, 0x9b27a401, 0x714260ad, 0x43ada245))
  {
    hide Rounds, ScheduleWord, Reaches, RoundConstant;
    Constants0();
    var v := Working(0x6a09e667, 0xbb67ae85, 0x3c6ef372, 0xa54ff53a, 0x510e527f, 0x9b05688c, 0x1f83d9ab, 0x5be0cd19);
    v := OneRound(start, block, 0, v, 0x428a2f98, 0x61626380, 0x5d6aebcd, 0xfa2a4622);
    v := OneRound(start, block, 1, v, 0x71374491, 0x00000000, 0x5a6ad9ad, 0x78ce7989);
    v := OneRound(start, block, 2, v, 0xb5c0fbcf, 0x00000000, 0xc8c347a7, 0xf92939eb);
    v := OneRound(start, block, 3, v, 0xe9b5dba5, 0x00000000, 0xd550f666, 0x24e00850);
    v := OneRound(start, block, 4, v, 0x3956c25b, 0x00000000, 0x04409a6a, 0x43ada245);
    v := OneRound(start, block, 5, v, 0x59f111f1, 0x00000000, 0x2b4209f5, 0x714260ad);
    v := OneRound(start, block, 6, v, 0x923f82a4, 0x00000000, 0xe5030380, 0x9b27a401);
    v := OneRound(start, block, 7, v, 0xab1c5ed5, 0x00000000, 0x85a07b5f, 0x0c657a79);
  }

  lemma AbcRounds1(start: Working, block: seq<Byte>)
    requires Words(block, 8,
              0x00000000, 0x00000000, 0x00000000, 0x00000000, 0x00000000, 0x00000000, 0x00000000, 0x00000018)
    requires Reaches(start, block, 8,
               Working(0x85a07b5f, 0xe5030380, 0x2b4209f5, 0x04409a6a, 0x0c657a79, 0x9b27a401, 0x714260ad, 0x43ada245))
    ensures Reaches(start, block, 16,
              Working(0xb0fa238e, 0xc0645fde, 0xd932eb16, 0x87912990, 0x07590dcd, 0x0b92f20c, 0x745a48de, 0x1e578218))
  {
    hide Rounds, ScheduleWord, Reaches, RoundConstant;
    Constants1();
    var v := Working(0x85a07b5f, 0xe5030380, 0x2b4209f5, 0x04409a6a, 0x0c657a79, 0x9b27a401, 0x714260ad, 0x43ada245);
    v := OneRound(start, block, 8, v, 0xd807aa98, 0x00000000, 0x8e04ecb9, 0x32ca2d8c);
    v := OneRound(start, block, 9, v, 0x12835b01, 0x00000000, 0x8c87346b, 0x1cc92596);
    v := OneRound(start, block, 10, v, 0x243185be, 0x00000000, 0x4798a3f4, 0x436b23e8);
    v := OneRound(start, block, 11, v, 0x550c7dc3, 0x00000000, 0xf71fc5a9, 0x816fd6e9);
    v := OneRound(start, block, 12, v, 0x72be5d74, 0x00000000, 0x87912990, 0x1e578218);
    v := OneRound(start, block, 13, v, 0x80deb1fe, 0x00000000, 0xd932eb16, 0x745a48de);
    v := OneRound(start, block, 14, v, 0x9bdc06a7, 0x00000000, 0xc0645fde, 0x0b92f20c);
    v := OneRound(start, block, 15, v, 0xc19bf174, 0x00000018, 0xb0fa238e, 0x07590dcd);
  }

  lemma AbcRounds2(start: Working, block: seq<Byte>)
    requires Words(block, 16,
              0x61626380, 0x000f0000, 0x7da86405, 0x600003c6, 0x3e9d7b78, 0x0183fc00, 0x12dcbfdb, 0xe2e2c38e)
    requires Reaches(start, block, 16,
               Working(0xb0fa238e, 0xc0645fde, 0xd932eb16, 0x87912990, 0x07590dcd, 0x0b92f20c, 0x745a48de, 0x1e578218))
    ensures Reaches(start, block, 24,
              Working(0xc5d53d8d, 0xa7a3623f, 0xc2606d6d, 0x9dc68b63, 0xaa47c347, 0x49f5114a, 0xe1257970, 0x8ada8930))
  {
    hide Rounds, ScheduleWord, Reaches, RoundConstant;
    Constants2();
    var v := Working(0xb0fa238e, 0xc0645fde, 0xd932eb16, 0x87912990, 0x07590dcd, 0x0b92f20c, 0x745a48de, 0x1e578218);
    v := OneRound(start, block, 16, v, 0xe49b69c1, 0x61626380, 0x21da9a9b, 0x8034229c);
    v := OneRound(start, block, 17, v, 0xefbe4786, 0x000f0000, 0xc2fbd9d1, 0x846ee454);
    v := OneRound(start, block, 18, v, 0x0fc19dc6, 0x7da86405, 0xfe777bbf, 0xcc899961);
    v := OneRound(start, block, 19, v, 0x240ca1cc, 0x600003c6, 0xe1f20c33, 0xb0638179);
    v := OneRound(start, block, 20, v, 0x2de92c6f, 0x3e9d7b78, 0x9dc68b63, 0x8ada8930);
    v := OneRound(start, block, 21, v, 0x4a7484aa, 0x0183fc00, 0xc2606d6d, 0xe1257970);
    v := OneRound(start, block, 22, v, 0x5cb0a9dc, 0x12dcbfdb, 0xa7a3623f, 0x49f5114a);
    v := OneRound(start, block, 23, v, 0x76f988da, 0xe2e2c38e, 0xc5d53d8d, 0xaa47c347);
  }

  lemma AbcRounds3(start: Working, block: seq<Byte>)
    requires Words(block, 24,
              0xc8215c1a, 0xb73679a2, 0xe5bc3909, 0x32663c5b, 0x9d209d67, 0xec8726cb, 0x702138a4, 0xd3b7973b)
    requires Reaches(start, block, 24,
               Working(0xc5d53d8d, 0xa7a3623f, 0xc2606d6d, 0x9dc68b63, 0xaa47c347, 0x49f5114a, 0xe1257970, 0x8ada8930))
    ensures Reaches(start, block, 32,
              Working(0x73b33bf5, 0xea992a22, 0xa0060b30, 0x363482c9, 0xba591112, 0x0109ab3a, 0xade79437, 0x6112a3b7))
  {
    hide Rounds, ScheduleWord, Reaches, RoundConstant;
    Constants3();
    var v := Working(0xc5d53d8d, 0xa7a3623f, 0xc2606d6d, 0x9dc68b63, 0xaa47c347, 0x49f5114a, 0xe1257970, 0x8ada8930);
    v := OneRound(start, block, 24, v, 0x983e5152, 0xc8215c1a, 0x1c2c2838, 0x2823ef91);
    v := OneRound(start, block, 25, v, 0xa831c66d, 0xb73679a2, 0xcde8037d, 0x14383d8e);
    v := OneRound(start, block, 26, v, 0xb00327c8, 0xe5bc3909, 0xb62ec4bc, 0xc74c6516);
    v := OneRound(start, block, 27, v, 0xbf597fc7, 0x32663c5b, 0x77d37528, 0xedffbff8);
    v := OneRound(start, block, 28, v, 0xc6e00bf3, 0x9d209d67, 0x363482c9, 0x6112a3b7);
    v := OneRound(start, block, 29, v, 0xd5a79147, 0xec8726cb, 0xa0060b30, 0xade79437);
    v := OneRound(start, block, 30, v, 0x06ca6351, 0x702138a4, 0xea992a22, 0x0109ab3a);
    v := OneRound(start, block, 31, v, 0x14292967, 0xd3b7973b, 0x73b33bf5, 0xba591112);
  }

  lemma AbcRounds4(start: Working, block: seq<Byte>)
    requires Words(block, 32,
              0x93f5997f, 0x3b68ba73, 0xaff4ffc1, 0xf10a5c62, 0x0a8b3996, 0x72af830a, 0x9409e33e, 0x24641522)
    requires Reaches(start, block, 32,
               Working(0x73b33bf5, 0xea992a22, 0xa0060b30, 0x363482c9, 0xba591112, 0x0109ab3a, 0xade79437, 0x6112a3b7))
    ensures Reaches(start, block, 40,
              Working(0x79ea687a, 0x6dc57a8a, 0x34df1604, 0x41a65cb1, 0x1efbc0a0, 0xf0781bc8, 0xa507a53d, 0x0772a26b))
  {
    hide Rounds, ScheduleWord, Reaches, RoundConstant;
    Constants4();
    var v := Working(0x73b33bf5, 0xea992a22, 0xa0060b30, 0x363482c9, 0xba591112, 0x0109ab3a, 0xade79437, 0x6112a3b7);
    v := OneRound(start, block, 32, v, 0x27b70a85, 0x93f5997f, 0x98e12507, 0x9cd9f5f6);
    v := OneRound(start, block, 33, v, 0x2e1b2138, 0x3b68ba73, 0xfe604df5, 0x59249dd3);
    v := OneRound(start, block, 34, v, 0x4d2c6dfc, 0xaff4ffc1, 0xa9a7738c, 0x085f3833);
    v := OneRound(start, block, 35, v, 0x53380d13, 0xf10a5c62, 0x65a0cfe4, 0xf4b002d6);
    v := OneRound(start, block, 36, v, 0x650a7354, 0x0a8b3996, 0x41a65cb1, 0x0772a26b);
    v := OneRound(start, block, 37, v, 0x766a0abb, 0x72af830a, 0x34df1604, 0xa507a53d);
    v := OneRound(start, block, 38, v, 0x81c2c92e, 0x9409e33e, 0x6dc57a8a, 0xf0781bc8);
    v := OneRound(start, block, 39, v, 0x92722c85, 0x24641522, 0x79ea687a, 0x1efbc0a0);
  }

  lemma AbcRounds5(start: Working, block: seq<Byte>)
    requires Words(block, 40,
              0x9f47bf94, 0xf0a64f5a, 0x3e246a79, 0x27333ba3, 0x0c4763f2, 0x840abf27, 0x7a290d5d, 0x065c43da)
    requires Reaches(start, block, 40,
               Working(0x79ea687a, 0x6dc57a8a, 0x34df1604, 0x41a65cb1, 0x1efbc0a0, 0xf0781bc8, 0xa507a53d, 0x0772a26b))
    ensures Reaches(start, block, 48,
              Working(0x4172328d, 0xa14c14b0, 0x72ab4b91, 0x26628815, 0xfecf0bc6, 0xd57b94a9, 0xb7755da1, 0xa80f11f0))
  {
    hide Rounds, ScheduleWord, Reaches, RoundConstant;
    Constants5();
    var v := Working(0x79ea687a, 0x6dc57a8a, 0x34df1604, 0x41a65cb1, 0x1efbc0a0, 0xf0781bc8, 0xa507a53d, 0x0772a26b);
    v := OneRound(start, block, 40, v, 0xa2bfe8a1, 0x9f47bf94, 0xd6670766, 0x26352d63);
    v := OneRound(start, block, 41, v, 0xa81a664b, 0xf0a64f5a, 0xdf46652f, 0x838b2711);
    v := OneRound(start, block, 42, v, 0xc24b8b70, 0x3e246a79, 0x17aa0dfe, 0xdecd4715);
    v := OneRound(start, block, 43, v, 0xc76c51a3, 0x27333ba3, 0x9d4baf93, 0xfda24c2e);
    v := OneRound(start, block, 44, v, 0xd192e819, 0x0c4763f2, 0x26628815, 0xa80f11f0);
    v := OneRound(start, block, 45, v, 0xd6990624, 0x840abf27, 0x72ab4b91, 0xb7755da1);
    v := OneRound(start, block, 46, v, 0xf40e3585, 0x7a290d5d, 0xa14c14b0, 0xd57b94a9);
    v := OneRound(start, block, 47, v, 0x106aa070, 0x065c43da, 0x4172328d, 0xfecf0bc6);
  }

  lemma AbcRounds6(start: Working, block: seq<Byte>)
    requires Words(block, 48,
              0xfb3e89cb, 0xcc7617db, 0xb9e66c34, 0xa9993667, 0x84badedd, 0xc21462bc, 0x1487472c, 0xb20f7a99)
    requires Reaches(start, block, 48,
               Working(0x4172328d, 0xa14c14b0, 0x72ab4b91, 0x26628815, 0xfecf0bc6, 0xd57b94a9, 0xb7755da1, 0xa80f11f0))
    ensures Reaches(start, block, 56,
              Working(0x38cc9913, 0x3ec45cdb, 0xf5702fdb, 0x101fd28f, 0x54cb266b, 0xe50e1b4f, 0x9f4787c3, 0x529e7d00))
  {
    hide Rounds, ScheduleWord, Reaches, RoundConstant;
    Constants6();
    var v := Working(0x4172328d, 0xa14c14b0, 0x72ab4b91, 0x26628815, 0xfecf0bc6, 0xd57b94a9, 0xb7755da1, 0xa80f11f0);
    v := OneRound(start, block, 48, v, 0x19a4c116, 0xfb3e89cb, 0x05757ceb, 0xbd714038);
    v := OneRound(start, block, 49, v, 0x1e376c08, 0xcc7617db, 0xf11bfaa8, 0x6e5c390c);
    v := OneRound(start, block, 50, v, 0x2748774c, 0xb9e66c34, 0x7a0508a1, 0x52f1ccf7);
    v := OneRound(start, block, 51, v, 0x34b0bcb5, 0xa9993667, 0x886e7a22, 0x49231c1e);
    v := OneRound(start, block, 52, v, 0x391c0cb3, 0x84badedd, 0x101fd28f, 0x529e7d00);
    v := OneRound(start, block, 53, v, 0x4ed8aa4a, 0xc21462bc, 0xf5702fdb, 0x9f4787c3);
    v := OneRound(start, block, 54, v, 0x5b9cca4f, 0x1487472c, 0x3ec45cdb, 0xe50e1b4f);
    v := OneRound(start, block, 55, v, 0x682e6ff3, 0xb20f7a99, 0x38cc9913, 0x54cb266b);
  }

  lemma AbcRounds7(start: Working, block: seq<Byte>)
    requires Words(block, 56,
              0xef57b9cd, 0xebe6b238, 0x9fe3095e, 0x78bc8d4b, 0xa43fcf15, 0x668b2ff8, 0xeeaba2cc, 0x12b1edeb)
    requires Reaches(start, block, 56,
               Working(0x38cc9913, 0x3ec45cdb, 0xf5702fdb, 0x101fd28f, 0x54cb266b, 0xe50e1b4f, 0x9f4787c3, 0x529e7d00))
    ensures Reaches(start, block, 64,
              Working(0x506e3058, 0xd39a2165, 0x04d24d6c, 0xb85e2ce9, 0x5ef50f24, 0xfb121210, 0x948d25b6, 0x961f4894))
  {
    hide Rounds, ScheduleWord, Reaches, RoundConstant;
    Constants7();
    var v := Working(0x38cc9913, 0x3ec45cdb, 0xf5702fdb, 0x101fd28f, 0x54cb266b, 0xe50e1b4f, 0x9f4787c3, 0x529e7d00);
    v := OneRound(start, block, 56, v, 0x748f82ee, 0xef57b9cd, 0xfcd1887b, 0x9b5e906c);
    v := OneRound(start, block, 57, v, 0x78a5636f, 0xebe6b238, 0xc062d46f, 0x7e44008e);
    v := OneRound(start, block, 58, v, 0x84c87814, 0x9fe3095e, 0xffb70472, 0x6d83bfc6);
    v := OneRound(start, block, 59, v, 0x8cc70208, 0x78bc8d4b, 0xb6ae8fff, 0xb21bad3d);
    v := OneRound(start, block, 60, v, 0x90befffa, 0xa43fcf15, 0xb85e2ce9, 0x961f4894);
    v := OneRound(start, block, 61, v, 0xa4506ceb, 0x668b2ff8, 0x04d24d6c, 0x948d25b6);
    v := OneRound(start, block, 62, v, 0xbef9a3f7, 0xeeaba2cc, 0xd39a2165, 0xfb121210);
    v := OneRound(start, block, 63, v, 0xc67178f2, 0x12b1edeb, 0x506e3058, 0x5ef50f24);
  }

  /** All 64 rounds of this block. */
  lemma AbcAllRounds(start: Working, block: seq<Byte>)
    requires start ==
              Working(0x6a09e667, 0xbb67ae85, 0x3c6ef372, 0xa54ff53a, 0x510e527f, 0x9b05688c, 0x1f83d9ab, 0x5be0cd19)
    requires Words(block, 0,
              0x61626380, 0x00000000, 0x00000000, 0x00000000, 0x00000000, 0x00000000, 0x00000000, 0x00000000)
    requires Words(block, 8,
              0x00000000, 0x00000000, 0x00000000, 0x00000000, 0x00000000, 0x00000000, 0x00000000, 0x00000018)
    ensures Reaches(start, block, 64,
              Working(0x506e3058, 0xd39a2165, 0x04d24d6c, 0xb85e2ce9, 0x5ef50f24, 0xfb121210, 0x948d25b6, 0x961f4894))
  {
    NoRounds(start, block);
    hide *;
    AbcWords2(block);
    AbcWords3(block);
    AbcWords4(block);
    AbcWords5(block);
    AbcWords6(block);
    AbcWords7(block);
    AbcRounds0(start, block);
    AbcRounds1(start, block);
    AbcRounds2(start, block);
    AbcRounds3(start, block);
    AbcRounds4(start, block);
    AbcRounds5(start, block);
    AbcRounds6(start, block);
    AbcRounds7(start, block);
  }

  lemma AbcCompressed(block: seq<Byte>)
    requires Words(block, 0,
              0x61626380, 0x00000000, 0x00000000, 0x00000000, 0x00000000, 0x00000000, 0x00000000, 0x00000000)
    requires Words(block, 8,
              0x00000000, 0x00000000, 0x00000000, 0x00000000, 0x00000000, 0x00000000, 0x00000000, 0x00000018)
    ensures Compressed(
              [0x6a09e667, 0xbb67ae85, 0x3c6ef372, 0xa54ff53a, 0x510e527f, 0x9b05688c, 0x1f83d9ab, 0x5be0cd19], block)
         == [0xba7816bf, 0x8f01cfea, 0x414140de, 0x5dae2223, 0xb00361a3, 0x96177a9c, 0xb410ff61, 0xf20015ad]
  {
    hide Rounds, Words;
    var start :=
      Working(0x6a09e667, 0xbb67ae85, 0x3c6ef372, 0xa54ff53a, 0x510e527f, 0x9b05688c, 0x1f83d9ab, 0x5be0cd19);
    AbcAllRounds(start, block);
    var end := Working(0x506e3058, 0xd39a2165, 0x04d24d6c, 0xb85e2ce9, 0x5ef50f24, 0xfb121210, 0x948d25b6, 0x961f4894);
    assert Rounds(start, block, 64) == end;
  }

  // ---------------------------------------------------------------- from the message to the text

  lemma AbcLength()
    ensures BigEndianDigits(24, 8) == [0, 0, 0, 0, 0, 0, 0, 0x18]
  {
    assert LowByte(24) == 0x18 && LowByte(0) == 0;
    hide LowByte;
    assert BigEndianDigits(0, 4) == [0, 0, 0, 0];
    assert BigEndianDigits(0, 7) == [0, 0, 0, 0, 0, 0, 0];
  }

  lemma AbcPadded()
    ensures PaddedWith(ABC, 24) == ABC + [0x80] + Zeros(52) + [0, 0, 0, 0, 0, 0, 0, 0x18]
  {
    AbcLength();
    hide BigEndianDigits;
  }

  lemma AbcBlock(block: seq<Byte>)
    requires block == ABC + [0x80] + Zeros(52) + [0, 0, 0, 0, 0, 0, 0, 0x18]
    ensures Words(block, 0,
              0x61626380, 0x00000000, 0x00000000, 0x00000000, 0x00000000, 0x00000000, 0x00000000, 0x00000000)
    ensures Words(block, 8,
              0x00000000, 0x00000000, 0x00000000, 0x00000000, 0x00000000, 0x00000000, 0x00000000, 0x00000018)
  {
    assert BigEndian(0x61, 0x62, 0x63, 0x80) == 0x61626380;
    assert BigEndian(0, 0, 0, 0) == 0 && BigEndian(0, 0, 0, 0x18) == 0x18;
    hide BigEndian, NextWord;
  }

  lemma OneBlock(message: seq<Byte>, bits: nat)
    requires |message| <= 55
    ensures |PaddedWith(message, bits)| == 64
    ensures DigestWith(message, bits) == Compressed(Initial(), PaddedWith(message, bits))
  {
    PaddedLength(message, bits);
    hide Compressed, Initial;
    var block := PaddedWith(message, bits);
    assert HashBlocks(Initial(), block, 0) == Initial();
    assert block[0..64] == block;
  }

  /** The hash of the three bytes "abc". */
  lemma AbcDigest()
    ensures Digest(ABC)
         == [0xba7816bf, 0x8f01cfea, 0x414140de, 0x5dae2223, 0xb00361a3, 0x96177a9c, 0xb410ff61, 0xf20015ad]
  {
    var block := PaddedWith(ABC, 24);
    OneBlock(ABC, 24);
    hide DigestWith, PaddedWith, Compressed, Words;
    AbcPadded();
    AbcBlock(block);
    AbcCompressed(block);
  }

  /** Two lowercase digits, the high half first. */
  function ByteText(b: Byte): string { [HexDigit(High(b)), HexDigit(Low(b))] }

  function TextOf(w: Word): string { HexText(DigestBytes([w])) }

  lemma WordText(w: Word, b0: Byte, b1: Byte, b2: Byte, b3: Byte)
    requires ByteOfWord(w, 0) == b0 && ByteOfWord(w, 1) == b1 && ByteOfWord(w, 2) == b2 && ByteOfWord(w, 3) == b3
    ensures TextOf(w) == ByteText(b0) + ByteText(b1) + ByteText(b2) + ByteText(b3)
  {
    hide ByteOfWord, HexDigit, High, Low;
    assert DigestBytes([w]) == [b0, b1, b2, b3];
    HexOfTwo([b0], [b1]);
    HexOfTwo([b0] + [b1], [b2]);
    HexOfTwo([b0] + [b1] + [b2], [b3]);
    OneByte(b0);
    OneByte(b1);
    OneByte(b2);
    OneByte(b3);
    assert [b0] + [b1] + [b2] + [b3] == [b0, b1, b2, b3];
    hide HexText;
  }

  lemma OneByte(b: Byte)
    ensures HexText([b]) == ByteText(b)
  {
    hide HexDigit, High, Low;
    assert [b][..0] == [];
    assert HexText([]) == "";
  }

  lemma MoreText(words: seq<Word>, w: Word)
    ensures HexText(DigestBytes(words + [w])) == HexText(DigestBytes(words)) + TextOf(w)
  {
    hide HexText, DigestBytes;
    BigEndianDigitsTwo(words, [w]);
    HexOfTwo(DigestBytes(words), DigestBytes([w]));
  }

  lemma FourWords(a: Word, b: Word, c: Word, d: Word)
    ensures HexText(DigestBytes([a, b, c, d])) == TextOf(a) + TextOf(b) + TextOf(c) + TextOf(d)
  {
    hide HexText, DigestBytes;
    MoreText([a], b);
    MoreText([a] + [b], c);
    MoreText([a] + [b] + [c], d);
    assert [a] + [b] + [c] + [d] == [a, b, c, d];
  }

  lemma EightWords(first: seq<Word>, second: seq<Word>, whole: seq<Word>)
    requires whole == first + second
    ensures HexText(DigestBytes(whole)) == HexText(DigestBytes(first)) + HexText(DigestBytes(second))
  {
    hide HexText, DigestBytes;
    BigEndianDigitsTwo(first, second);
    HexOfTwo(DigestBytes(first), DigestBytes(second));
  }

  lemma WordBytes0()
    ensures ByteOfWord(0xba7816bf, 0) == 0xba && ByteOfWord(0xba7816bf, 1) == 0x78
    ensures ByteOfWord(0xba7816bf, 2) == 0x16 && ByteOfWord(0xba7816bf, 3) == 0xbf
  {}

  lemma AbcText0()
    ensures TextOf(0xba7816bf) == "ba7816bf"
  {
    hide TextOf, HexText, DigestBytes, ByteOfWord;
    assert ByteText(0xba) == "ba"; assert ByteText(0x78) == "78";
    assert ByteText(0x16) == "16"; assert ByteText(0xbf) == "bf";
    hide ByteText;
    WordBytes0();
    WordText(0xba7816bf, 0xba, 0x78, 0x16, 0xbf);
  }

  lemma WordBytes1()
    ensures ByteOfWord(0x8f01cfea, 0) == 0x8f && ByteOfWord(0x8f01cfea, 1) == 0x01
    ensures ByteOfWord(0x8f01cfea, 2) == 0xcf && ByteOfWord(0x8f01cfea, 3) == 0xea
  {}

  lemma AbcText1()
    ensures TextOf(0x8f01cfea) == "8f01cfea"
  {
    hide TextOf, HexText, DigestBytes, ByteOfWord;
    assert ByteText(0x8f) == "8f"; assert ByteText(0x01) == "01";
    assert ByteText(0xcf) == "cf"; assert ByteText(0xea) == "ea";
    hide ByteText;
    WordBytes1();
    WordText(0x8f01cfea, 0x8f, 0x01, 0xcf, 0xea);
  }

  lemma WordBytes2()
    ensures ByteOfWord(0x414140de, 0) == 0x41 && ByteOfWord(0x414140de, 1) == 0x41
    ensures ByteOfWord(0x414140de, 2) == 0x40 && ByteOfWord(0x414140de, 3) == 0xde
  {}

  lemma AbcText2()
    ensures TextOf(0x414140de) == "414140de"
  {
    hide TextOf, HexText, DigestBytes, ByteOfWord;
    assert ByteText(0x41) == "41"; assert ByteText(0x41) == "41";
    assert ByteText(0x40) == "40"; assert ByteText(0xde) == "de";
    hide ByteText;
    WordBytes2();
    WordText(0x414140de, 0x41, 0x41, 0x40, 0xde);
  }

  lemma WordBytes3()
    ensures ByteOfWord(0x5dae2223, 0) == 0x5d && ByteOfWord(0x5dae2223, 1) == 0xae
    ensures ByteOfWord(0x5dae2223, 2) == 0x22 && ByteOfWord(0x5dae2223, 3) == 0x23
  {}

  lemma AbcText3()
    ensures TextOf(0x5dae2223) == "5dae2223"
  {
    hide TextOf, HexText, DigestBytes, ByteOfWord;
    assert ByteText(0x5d) == "5d"; assert ByteText(0xae) == "ae";
    assert ByteText(0x22) == "22"; assert ByteText(0x23) == "23";
    hide ByteText;
    WordBytes3();
    WordText(0x5dae2223, 0x5d, 0xae, 0x22, 0x23);
  }

  lemma WordBytes4()
    ensures ByteOfWord(0xb00361a3, 0) == 0xb0 && ByteOfWord(0xb00361a3, 1) == 0x03
    ensures ByteOfWord(0xb00361a3, 2) == 0x61 && ByteOfWord(0xb00361a3, 3) == 0xa3
  {}

  lemma AbcText4()
    ensures TextOf(0xb00361a3) == "b00361a3"
  {
    hide TextOf, HexText, DigestBytes, ByteOfWord;
    assert ByteText(0xb0) == "b0"; assert ByteText(0x03) == "03";
    assert ByteText(0x61) == "61"; assert ByteText(0xa3) == "a3";
    hide ByteText;
    WordBytes4();
    WordText(0xb00361a3, 0xb0, 0x03, 0x61, 0xa3);
  }

  lemma WordBytes5()
    ensures ByteOfWord(0x96177a9c, 0) == 0x96 && ByteOfWord(0x96177a9c, 1) == 0x17
    ensures ByteOfWord(0x96177a9c, 2) == 0x7a && ByteOfWord(0x96177a9c, 3) == 0x9c
  {}

  lemma AbcText5()
    ensures TextOf(0x96177a9c) == "96177a9c"
  {
    hide TextOf, HexText, DigestBytes, ByteOfWord;
    assert ByteText(0x96) == "96"; assert ByteText(0x17) == "17";
    assert ByteText(0x7a) == "7a"; assert ByteText(0x9c) == "9c";
    hide ByteText;
    WordBytes5();
    WordText(0x96177a9c, 0x96, 0x17, 0x7a, 0x9c);
  }

  lemma WordBytes6()
    ensures ByteOfWord(0xb410ff61, 0) == 0xb4 && ByteOfWord(0xb410ff61, 1) == 0x10
    ensures ByteOfWord(0xb410ff61, 2) == 0xff && ByteOfWord(0xb410ff61, 3) == 0x61
  {}

  lemma AbcText6()
    ensures TextOf(0xb410ff61) == "b410ff61"
  {
    hide TextOf, HexText, DigestBytes, ByteOfWord;
    assert ByteText(0xb4) == "b4"; assert ByteText(0x10) == "10";
    assert ByteText(0xff) == "ff"; assert ByteText(0x61) == "61";
    hide ByteText;
    WordBytes6();
    WordText(0xb410ff61, 0xb4, 0x10, 0xff, 0x61);
  }

  lemma WordBytes7()
    ensures ByteOfWord(0xf20015ad, 0) == 0xf2 && ByteOfWord(0xf20015ad, 1) == 0x00
    ensures ByteOfWord(0xf20015ad, 2) == 0x15 && ByteOfWord(0xf20015ad, 3) == 0xad
  {}

  lemma AbcText7()
    ensures TextOf(0xf20015ad) == "f20015ad"
  {
    hide TextOf, HexText, DigestBytes, ByteOfWord;
    assert ByteText(0xf2) == "f2"; assert ByteText(0x00) == "00";
    assert ByteText(0x15) == "15"; assert ByteText(0xad) == "ad";
    hide ByteText;
    WordBytes7();
    WordText(0xf20015ad, 0xf2, 0x00, 0x15, 0xad);
  }

  lemma AbcFirstHalf()
    ensures HexText(DigestBytes([0xba7816bf, 0x8f01cfea, 0x414140de, 0x5dae2223]))
         == "ba7816bf8f01cfea414140de5dae2223"
  {
    FourWords(0xba7816bf, 0x8f01cfea, 0x414140de, 0x5dae2223);
    hide TextOf, HexText, DigestBytes;
    AbcText0();
    AbcText1();
    AbcText2();
    AbcText3();
  }

  lemma AbcSecondHalf()
    ensures HexText(DigestBytes([0xb00361a3, 0x96177a9c, 0xb410ff61, 0xf20015ad]))
         == "b00361a396177a9cb410ff61f20015ad"
  {
    FourWords(0xb00361a3, 0x96177a9c, 0xb410ff61, 0xf20015ad);
    hide TextOf, HexText, DigestBytes;
    AbcText4();
    AbcText5();
    AbcText6();
    AbcText7();
  }

  /** What `sha256_hex` prints for the three bytes "abc". */
  lemma AbcText()
    ensures HexText(DigestBytes(DigestWith(ABC, BitCount(3))))
         == "ba7816bf8f01cfea414140de5dae2223" + "b00361a396177a9cb410ff61f20015ad"
  {
    hide HexText, DigestBytes, DigestWith;
    AbcDigest();
    assert BitCount(3) == 24;
    AbcFirstHalf();
    AbcSecondHalf();
    EightWords([0xba7816bf, 0x8f01cfea, 0x414140de, 0x5dae2223],
               [0xb00361a3, 0x96177a9c, 0xb410ff61, 0xf20015ad],
               DigestWith(ABC, 24));
  }
}
