/** Known answers of the digest and the accept key: the first test of section 7.3 of RFC 3174 and the example of
    section 1.3 of RFC 6455. The runs are checked step by step against tables of intermediate words. */
module Sha1Vectors {
  import opened Bytes
  import opened Sha1
  import Base64

  // ---- runs as sequences -----------------------------------------------------------------------

  /** A message schedule, last word first. */
  predicate IsSchedule(w: seq<word>) {
    |w| <= 16 ||
    (var t := |w| - 1;
     w[t] == S(1, Xor4(w[t - 3], w[t - 8], w[t - 14], w[t - 16])) && IsSchedule(w[..t]))
  }

  /** The working variables before and after each step, last step first. */
  predicate IsRun(w: seq<word>, r: seq<Words>)
    requires |r| <= |w| + 1 <= 81
  {
    |r| <= 1 ||
    (var t := |r| - 2;
     var s := r[t];
     && r[t + 1] == Words(Sum5(S(5, s.a), F(t, s.b, s.c, s.d), s.e, w[t], K(t)), s.a, S(30, s.b), s.c, s.d)
     && IsRun(w, r[..t + 1]))
  }

  lemma {:induction false} WordIs(w: seq<word>, t: nat, x: word)
    requires IsSchedule(w) && 16 <= t < |w| && x == S(1, Xor4(w[t - 3], w[t - 8], w[t - 14], w[t - 16]))
    ensures w[t] == x
  {
    hide S, Xor4;
    if t < |w| - 1 {
      WordIs(w[..|w| - 1], t, x);
    }
  }

  lemma {:induction false} Round(w: seq<word>, r: seq<Words>, t: nat, x: word)
    requires |r| <= |w| + 1 <= 81 && IsRun(w, r) && t < |r| - 1
    requires x == Sum5(S(5, r[t].a), F(t, r[t].b, r[t].c, r[t].d), r[t].e, w[t], K(t))
    ensures r[t + 1] == Words(x, r[t].a, S(30, r[t].b), r[t].c, r[t].d)
  {
    hide S, F, K, Sum5;
    if t < |r| - 2 {
      Round(w, r[..|r| - 1], t, x);
    }
  }

  function ScheduleOf(block: seq<byte>, n: nat): (w: seq<word>)
    requires |block| == 64 && n <= 80
    ensures |w| == n
  {
    seq(n, t requires 0 <= t < n => W(block, t))
  }

  function RunOf(block: seq<byte>, h: Words, n: nat): (r: seq<Words>)
    requires |block| == 64 && n <= 81
    ensures |r| == n
  {
    seq(n, t requires 0 <= t < n => Rounds(block, h, t))
  }

  lemma {:induction false} ScheduleHolds(block: seq<byte>, n: nat)
    requires |block| == 64 && n <= 80
    ensures IsSchedule(ScheduleOf(block, n))
  {
    hide S, Xor4, W;
    if n > 16 {
      ScheduleHolds(block, n - 1);
      ScheduleStep(block, n - 1);
      assert ScheduleOf(block, n)[..n - 1] == ScheduleOf(block, n - 1);
    }
  }

  lemma {:induction false} RunHolds(block: seq<byte>, h: Words, n: nat)
    requires |block| == 64 && n <= 81
    ensures IsRun(ScheduleOf(block, 80), RunOf(block, h, n))
    ensures n > 0 ==> RunOf(block, h, n)[0] == h
  {
    hide S, F, K, Sum5, W, Rounds;
    if n > 0 {
      RunHolds(block, h, n - 1);
      RoundsStep(block, h, if n > 1 then n - 2 else 0);
      assert RunOf(block, h, n)[..n - 1] == RunOf(block, h, n - 1);
    }
  }

  lemma FirstWord(block: seq<byte>, w: seq<word>, t: nat, b0: byte, b1: byte, b2: byte, b3: byte)
    requires |block| == 64 && w == ScheduleOf(block, 80) && t < 16
    requires block[4 * t] == b0 && block[4 * t + 1] == b1 && block[4 * t + 2] == b2 && block[4 * t + 3] == b3
    ensures w[t] == BigEndian(b0, b1, b2, b3)
  {
    hide W, BigEndian;
    FirstWords(block, t);
  }

  predicate AbcBytes(block: seq<byte>) {
    && |block| == 64
    && block[0] == 97 && block[1] == 98 && block[2] == 99 && block[3] == 128 && block[4] == 0
    && block[5] == 0 && block[6] == 0 && block[7] == 0 && block[8] == 0 && block[9] == 0
    && block[10] == 0 && block[11] == 0 && block[12] == 0 && block[13] == 0 && block[14] == 0
    && block[15] == 0 && block[16] == 0 && block[17] == 0 && block[18] == 0 && block[19] == 0
    && block[20] == 0 && block[21] == 0 && block[22] == 0 && block[23] == 0 && block[24] == 0
    && block[25] == 0 && block[26] == 0 && block[27] == 0 && block[28] == 0 && block[29] == 0
    && block[30] == 0 && block[31] == 0 && block[32] == 0 && block[33] == 0 && block[34] == 0
    && block[35] == 0 && block[36] == 0 && block[37] == 0 && block[38] == 0 && block[39] == 0
    && block[40] == 0 && block[41] == 0 && block[42] == 0 && block[43] == 0 && block[44] == 0
    && block[45] == 0 && block[46] == 0 && block[47] == 0 && block[48] == 0 && block[49] == 0
    && block[50] == 0 && block[51] == 0 && block[52] == 0 && block[53] == 0 && block[54] == 0
    && block[55] == 0 && block[56] == 0 && block[57] == 0 && block[58] == 0 && block[59] == 0
    && block[60] == 0 && block[61] == 0 && block[62] == 0 && block[63] == 24
  }

  predicate KeyBytes(block: seq<byte>) {
    && |block| == 64
    && block[0] == 100 && block[1] == 71 && block[2] == 104 && block[3] == 108 && block[4] == 73
    && block[5] == 72 && block[6] == 78 && block[7] == 104 && block[8] == 98 && block[9] == 88
    && block[10] == 66 && block[11] == 115 && block[12] == 90 && block[13] == 83 && block[14] == 66
    && block[15] == 117 && block[16] == 98 && block[17] == 50 && block[18] == 53 && block[19] == 106
    && block[20] == 90 && block[21] == 81 && block[22] == 61 && block[23] == 61 && block[24] == 50
    && block[25] == 53 && block[26] == 56 && block[27] == 69 && block[28] == 65 && block[29] == 70
    && block[30] == 65 && block[31] == 53 && block[32] == 45 && block[33] == 69 && block[34] == 57
    && block[35] == 49 && block[36] == 52 && block[37] == 45 && block[38] == 52 && block[39] == 55
    && block[40] == 68 && block[41] == 65 && block[42] == 45 && block[43] == 57 && block[44] == 53
    && block[45] == 67 && block[46] == 65 && block[47] == 45 && block[48] == 67 && block[49] == 53
    && block[50] == 65 && block[51] == 66 && block[52] == 48 && block[53] == 68 && block[54] == 67
    && block[55] == 56 && block[56] == 53 && block[57] == 66 && block[58] == 49 && block[59] == 49
    && block[60] == 128 && block[61] == 0 && block[62] == 0 && block[63] == 0
  }

  predicate GuidBytes(block: seq<byte>) {
    && |block| == 64
    && block[0] == 0 && block[1] == 0 && block[2] == 0 && block[3] == 0 && block[4] == 0
    && block[5] == 0 && block[6] == 0 && block[7] == 0 && block[8] == 0 && block[9] == 0
    && block[10] == 0 && block[11] == 0 && block[12] == 0 && block[13] == 0 && block[14] == 0
    && block[15] == 0 && block[16] == 0 && block[17] == 0 && block[18] == 0 && block[19] == 0
    && block[20] == 0 && block[21] == 0 && block[22] == 0 && block[23] == 0 && block[24] == 0
    && block[25] == 0 && block[26] == 0 && block[27] == 0 && block[28] == 0 && block[29] == 0
    && block[30] == 0 && block[31] == 0 && block[32] == 0 && block[33] == 0 && block[34] == 0
    && block[35] == 0 && block[36] == 0 && block[37] == 0 && block[38] == 0 && block[39] == 0
    && block[40] == 0 && block[41] == 0 && block[42] == 0 && block[43] == 0 && block[44] == 0
    && block[45] == 0 && block[46] == 0 && block[47] == 0 && block[48] == 0 && block[49] == 0
    && block[50] == 0 && block[51] == 0 && block[52] == 0 && block[53] == 0 && block[54] == 0
    && block[55] == 0 && block[56] == 0 && block[57] == 0 && block[58] == 0 && block[59] == 0
    && block[60] == 0 && block[61] == 0 && block[62] == 1 && block[63] == 224
  }

  // ---- the message "abc" ----

  predicate AbcWords(w: seq<word>)
    requires |w| == 80
  {
    && w[0] == 0x61626380 && w[1] == 0x00000000 && w[2] == 0x00000000 && w[3] == 0x00000000
    && w[4] == 0x00000000 && w[5] == 0x00000000 && w[6] == 0x00000000 && w[7] == 0x00000000
    && w[8] == 0x00000000 && w[9] == 0x00000000 && w[10] == 0x00000000 && w[11] == 0x00000000
    && w[12] == 0x00000000 && w[13] == 0x00000000 && w[14] == 0x00000000 && w[15] == 0x00000018
  }

  lemma AbcSchedule48(w: seq<word>)
    requires |w| == 80 && IsSchedule(w) && AbcWords(w)
    ensures w[16] == 0xC2C4C700 && w[17] == 0x00000000 && w[18] == 0x00000030 && w[19] == 0x85898E01
    ensures w[20] == 0x00000000 && w[21] == 0x00000060 && w[22] == 0x0B131C03 && w[23] == 0x00000030
    ensures w[24] == 0x85898EC1 && w[25] == 0x16263806 && w[26] == 0x00000000 && w[27] == 0x00000180
    ensures w[28] == 0x2C4C700C && w[29] == 0x000000F0 && w[30] == 0x93AFB507 && w[31] == 0x5898E048
    ensures w[32] == 0x8E9A9202 && w[33] == 0x00000600 && w[34] == 0xB131C0F0 && w[35] == 0x16263BC6
    ensures w[36] == 0x4EBED41E && w[37] == 0x626380A1 && w[38] == 0x16263806 && w[39] == 0x000018C0
    ensures w[40] == 0xD2E138C4 && w[41] == 0x00000F00 && w[42] == 0x3AFB5079 && w[43] == 0x898E04E5
    ensures w[44] == 0xE2BA3C2B && w[45] == 0x000060C0 && w[46] == 0x053A37CD && w[47] == 0x74458547
  {
    hide IsSchedule;
    WordIs(w, 16, 0xC2C4C700); WordIs(w, 17, 0x00000000); WordIs(w, 18, 0x00000030); WordIs(w, 19, 0x85898E01);
    WordIs(w, 20, 0x00000000); WordIs(w, 21, 0x00000060); WordIs(w, 22, 0x0B131C03); WordIs(w, 23, 0x00000030);
    WordIs(w, 24, 0x85898EC1); WordIs(w, 25, 0x16263806); WordIs(w, 26, 0x00000000); WordIs(w, 27, 0x00000180);
    WordIs(w, 28, 0x2C4C700C); WordIs(w, 29, 0x000000F0); WordIs(w, 30, 0x93AFB507); WordIs(w, 31, 0x5898E048);
    WordIs(w, 32, 0x8E9A9202); WordIs(w, 33, 0x00000600); WordIs(w, 34, 0xB131C0F0); WordIs(w, 35, 0x16263BC6);
    WordIs(w, 36, 0x4EBED41E); WordIs(w, 37, 0x626380A1); WordIs(w, 38, 0x16263806); WordIs(w, 39, 0x000018C0);
    WordIs(w, 40, 0xD2E138C4); WordIs(w, 41, 0x00000F00); WordIs(w, 42, 0x3AFB5079); WordIs(w, 43, 0x898E04E5);
    WordIs(w, 44, 0xE2BA3C2B); WordIs(w, 45, 0x000060C0); WordIs(w, 46, 0x053A37CD); WordIs(w, 47, 0x74458547);
  }

  lemma AbcSchedule80(w: seq<word>)
    requires |w| == 80 && IsSchedule(w) && AbcWords(w)
    ensures w[48] == 0xDA9415ED && w[49] == 0x26380A16 && w[50] == 0x626383A1 && w[51] == 0x4EBF54DE
    ensures w[52] == 0x3835B44B && w[53] == 0x0000F600 && w[54] == 0x1E84C7A3 && w[55] == 0x98E04D98
    ensures w[56] == 0x651D16A0 && w[57] == 0x62658CA1 && w[58] == 0x458544D6 && w[59] == 0x44584CB7
    ensures w[60] == 0x7BA06619 && w[61] == 0x6380AEA2 && w[62] == 0x0AE55269 && w[63] == 0x627B49A1
    ensures w[64] == 0x7CD45C9D && w[65] == 0x000F0000 && w[66] == 0xFB50753A && w[67] == 0xEC6765E8
    ensures w[68] == 0xBA3C2BE2 && w[69] == 0x0060C000 && w[70] == 0x3A37CD05 && w[71] == 0x458546F4
    ensures w[72] == 0xB8599DD6 && w[73] == 0x380A1A26 && w[74] == 0x01E02203 && w[75] == 0xE7CC3456
    ensures w[76] == 0xE6E60B69 && w[77] == 0x00F60A00 && w[78] == 0x5795EF4F && w[79] == 0x822E0879
  {
    hide IsSchedule;
    AbcSchedule48(w);
    WordIs(w, 48, 0xDA9415ED); WordIs(w, 49, 0x26380A16); WordIs(w, 50, 0x626383A1); WordIs(w, 51, 0x4EBF54DE);
    WordIs(w, 52, 0x3835B44B); WordIs(w, 53, 0x0000F600); WordIs(w, 54, 0x1E84C7A3); WordIs(w, 55, 0x98E04D98);
    WordIs(w, 56, 0x651D16A0); WordIs(w, 57, 0x62658CA1); WordIs(w, 58, 0x458544D6); WordIs(w, 59, 0x44584CB7);
    WordIs(w, 60, 0x7BA06619); WordIs(w, 61, 0x6380AEA2); WordIs(w, 62, 0x0AE55269); WordIs(w, 63, 0x627B49A1);
    WordIs(w, 64, 0x7CD45C9D); WordIs(w, 65, 0x000F0000); WordIs(w, 66, 0xFB50753A); WordIs(w, 67, 0xEC6765E8);
    WordIs(w, 68, 0xBA3C2BE2); WordIs(w, 69, 0x0060C000); WordIs(w, 70, 0x3A37CD05); WordIs(w, 71, 0x458546F4);
    WordIs(w, 72, 0xB8599DD6); WordIs(w, 73, 0x380A1A26); WordIs(w, 74, 0x01E02203); WordIs(w, 75, 0xE7CC3456);
    WordIs(w, 76, 0xE6E60B69); WordIs(w, 77, 0x00F60A00); WordIs(w, 78, 0x5795EF4F); WordIs(w, 79, 0x822E0879);
  }

  lemma AbcRounds20(w: seq<word>, r: seq<Words>)
    requires |w| == 80 && |r| == 81 && IsSchedule(w) && IsRun(w, r) && AbcWords(w)
    requires r[0] == Words(0x67452301, 0xEFCDAB89, 0x98BADCFE, 0x10325476, 0xC3D2E1F0)
    ensures r[20] == Words(0xFD9E1D7D, 0xDC64901D, 0x20AA99CA, 0xD3A49608, 0xC82F758B)
  {
    hide IsRun, IsSchedule;
    AbcSchedule48(w);
    AbcSchedule80(w);
    Round(w, r, 0, 0x0116FC33); Round(w, r, 1, 0x8990536D); Round(w, r, 2, 0xA1390F08);
    Round(w, r, 3, 0xCDD8E11B); Round(w, r, 4, 0xCFD499DE); Round(w, r, 5, 0x3FC7CA40);
    Round(w, r, 6, 0x993E30C1); Round(w, r, 7, 0x9E8C07D4); Round(w, r, 8, 0x4B6AE328);
    Round(w, r, 9, 0x8351F929); Round(w, r, 10, 0xFBDA9E89); Round(w, r, 11, 0x63188FE4);
    Round(w, r, 12, 0x4607B664); Round(w, r, 13, 0x9128F695); Round(w, r, 14, 0x196BEE77);
    Round(w, r, 15, 0x20BDD62F); Round(w, r, 16, 0x4E925823); Round(w, r, 17, 0x82AA6728);
    Round(w, r, 18, 0xDC64901D); Round(w, r, 19, 0xFD9E1D7D);
  }

  lemma AbcRounds40(w: seq<word>, r: seq<Words>)
    requires |w| == 80 && |r| == 81 && IsSchedule(w) && IsRun(w, r) && AbcWords(w)
    requires r[20] == Words(0xFD9E1D7D, 0xDC64901D, 0x20AA99CA, 0xD3A49608, 0xC82F758B)
    ensures r[40] == Words(0x32DE1CBA, 0x4C986405, 0xF718E5CF, 0x03D447F6, 0xF72EEC32)
  {
    hide IsRun, IsSchedule;
    AbcSchedule48(w);
    AbcSchedule80(w);
    Round(w, r, 20, 0x1A37B0CA); Round(w, r, 21, 0x33A23BFC); Round(w, r, 22, 0x21283486);
    Round(w, r, 23, 0xD541F12D); Round(w, r, 24, 0xC7567DC6); Round(w, r, 25, 0x48413BA4);
    Round(w, r, 26, 0xBE35FBD5); Round(w, r, 27, 0x4AA84D97); Round(w, r, 28, 0x8370B52E);
    Round(w, r, 29, 0xC5FBAF5D); Round(w, r, 30, 0x1267B407); Round(w, r, 31, 0x3B845D33);
    Round(w, r, 32, 0x046FAA0A); Round(w, r, 33, 0x2C0EBC11); Round(w, r, 34, 0x21796AD4);
    Round(w, r, 35, 0xDCBBB0CB); Round(w, r, 36, 0x0F511FD8); Round(w, r, 37, 0xDC63973F);
    Round(w, r, 38, 0x4C986405); Round(w, r, 39, 0x32DE1CBA);
  }

  lemma AbcRounds60(w: seq<word>, r: seq<Words>)
    requires |w| == 80 && |r| == 81 && IsSchedule(w) && IsRun(w, r) && AbcWords(w)
    requires r[40] == Words(0x32DE1CBA, 0x4C986405, 0xF718E5CF, 0x03D447F6, 0xF72EEC32)
    ensures r[60] == Words(0x3F52DE5A, 0x09D785FD, 0x3498BFD4, 0xF211824F, 0xD79915AB)
  {
    hide IsRun, IsSchedule;
    AbcSchedule48(w);
    AbcSchedule80(w);
    Round(w, r, 40, 0xFC87DEDF); Round(w, r, 41, 0x970A0D5C); Round(w, r, 42, 0x7F193DC5);
    Round(w, r, 43, 0xEE1B1AAF); Round(w, r, 44, 0x40F28E09); Round(w, r, 45, 0x1C51E1F2);
    Round(w, r, 46, 0xA01B846C); Round(w, r, 47, 0xBEAD02CA); Round(w, r, 48, 0xBAF39337);
    Round(w, r, 49, 0x120731C5); Round(w, r, 50, 0x641DB2CE); Round(w, r, 51, 0x3847AD66);
    Round(w, r, 52, 0xE490436D); Round(w, r, 53, 0x27E9F1D8); Round(w, r, 54, 0x7B71F76D);
    Round(w, r, 55, 0x5E6456AF); Round(w, r, 56, 0xC846093F); Round(w, r, 57, 0xD262FF50);
    Round(w, r, 58, 0x09D785FD); Round(w, r, 59, 0x3F52DE5A);
  }

  lemma AbcRounds80(w: seq<word>, r: seq<Words>)
    requires |w| == 80 && |r| == 81 && IsSchedule(w) && IsRun(w, r) && AbcWords(w)
    requires r[60] == Words(0x3F52DE5A, 0x09D785FD, 0x3498BFD4, 0xF211824F, 0xD79915AB)
    ensures r[80] == Words(0x42541B35, 0x5738D5E1, 0x21834873, 0x681E6DF6, 0xD8FDF6AD)
  {
    hide IsRun, IsSchedule;
    AbcSchedule48(w);
    AbcSchedule80(w);
    Round(w, r, 60, 0xD756C147); Round(w, r, 61, 0x548C9CB2); Round(w, r, 62, 0xB66C020B);
    Round(w, r, 63, 0x6B61C9E1); Round(w, r, 64, 0x19DFA7AC); Round(w, r, 65, 0x101655F9);
    Round(w, r, 66, 0x0C3DF2B4); Round(w, r, 67, 0x78DD4D2B); Round(w, r, 68, 0x497093C0);
    Round(w, r, 69, 0x3F2588C2); Round(w, r, 70, 0xC199F8C7); Round(w, r, 71, 0x39859DE7);
    Round(w, r, 72, 0xEDB42DE4); Round(w, r, 73, 0x11793F6F); Round(w, r, 74, 0x5EE76897);
    Round(w, r, 75, 0x63F7DAB7); Round(w, r, 76, 0xA079B7D9); Round(w, r, 77, 0x860D21CC);
    Round(w, r, 78, 0x5738D5E1); Round(w, r, 79, 0x42541B35);
  }

  lemma AbcUpdate(block: seq<byte>)
    requires AbcBytes(block)
    ensures Update(Words(0x67452301, 0xEFCDAB89, 0x98BADCFE, 0x10325476, 0xC3D2E1F0), block)
         == Words(0xA9993E36, 0x4706816A, 0xBA3E2571, 0x7850C26C, 0x9CD0D89D)
  {
    hide S, F, K, Sum5, W, Rounds, BigEndian, IsSchedule, IsRun;
    var h := Words(0x67452301, 0xEFCDAB89, 0x98BADCFE, 0x10325476, 0xC3D2E1F0);
    var w, r := ScheduleOf(block, 80), RunOf(block, h, 81);
    ScheduleHolds(block, 80);
    RunHolds(block, h, 81);
    AbcFirst4(block, w);
    AbcFirst8(block, w);
    AbcFirst12(block, w);
    AbcFirst16(block, w);
    AbcRounds20(w, r);
    AbcRounds40(w, r);
    AbcRounds60(w, r);
    AbcRounds80(w, r);
  }


  lemma AbcFirst4(block: seq<byte>, w: seq<word>)
    requires AbcBytes(block) && w == ScheduleOf(block, 80)
    ensures w[0] == 0x61626380 && w[1] == 0x00000000 && w[2] == 0x00000000 && w[3] == 0x00000000
  {
    hide W;
    FirstWord(block, w, 0, 97, 98, 99, 128); FirstWord(block, w, 1, 0, 0, 0, 0);
    FirstWord(block, w, 2, 0, 0, 0, 0); FirstWord(block, w, 3, 0, 0, 0, 0);
  }

  lemma AbcFirst8(block: seq<byte>, w: seq<word>)
    requires AbcBytes(block) && w == ScheduleOf(block, 80)
    ensures w[4] == 0x00000000 && w[5] == 0x00000000 && w[6] == 0x00000000 && w[7] == 0x00000000
  {
    hide W;
    FirstWord(block, w, 4, 0, 0, 0, 0); FirstWord(block, w, 5, 0, 0, 0, 0);
    FirstWord(block, w, 6, 0, 0, 0, 0); FirstWord(block, w, 7, 0, 0, 0, 0);
  }

  lemma AbcFirst12(block: seq<byte>, w: seq<word>)
    requires AbcBytes(block) && w == ScheduleOf(block, 80)
    ensures w[8] == 0x00000000 && w[9] == 0x00000000 && w[10] == 0x00000000 && w[11] == 0x00000000
  {
    hide W;
    FirstWord(block, w, 8, 0, 0, 0, 0); FirstWord(block, w, 9, 0, 0, 0, 0);
    FirstWord(block, w, 10, 0, 0, 0, 0); FirstWord(block, w, 11, 0, 0, 0, 0);
  }

  lemma AbcFirst16(block: seq<byte>, w: seq<word>)
    requires AbcBytes(block) && w == ScheduleOf(block, 80)
    ensures w[12] == 0x00000000 && w[13] == 0x00000000 && w[14] == 0x00000000 && w[15] == 0x00000018
  {
    hide W;
    FirstWord(block, w, 12, 0, 0, 0, 0); FirstWord(block, w, 13, 0, 0, 0, 0);
    FirstWord(block, w, 14, 0, 0, 0, 0); FirstWord(block, w, 15, 0, 0, 0, 24);
  }

  // ---- the sample key, first block ----

  predicate KeyWords(w: seq<word>)
    requires |w| == 80
  {
    && w[0] == 0x6447686C && w[1] == 0x49484E68 && w[2] == 0x62584273 && w[3] == 0x5A534275
    && w[4] == 0x6232356A && w[5] == 0x5A513D3D && w[6] == 0x32353845 && w[7] == 0x41464135
    && w[8] == 0x2D453931 && w[9] == 0x342D3437 && w[10] == 0x44412D39 && w[11] == 0x3543412D
    && w[12] == 0x43354142 && w[13] == 0x30444338 && w[14] == 0x35423131 && w[15] == 0x80000000
  }

  lemma KeySchedule48(w: seq<word>)
    requires |w| == 80 && IsSchedule(w) && KeyWords(w)
    ensures w[16] == 0x363CA02C && w[17] == 0x24E81236 && w[18] == 0x8856B441 && w[19] == 0x06FB3C92
    ensures w[20] == 0x6FB4BCB6 && w[21] == 0x460B16E3 && w[22] == 0x599219AE && w[23] == 0x35BF9369
    ensures w[24] == 0x3267458E && w[25] == 0xF828FD04 && w[26] == 0x753A96A7 && w[27] == 0x6336F612
    ensures w[28] == 0xC3D66383 && w[29] == 0x06EB86F9 && w[30] == 0x73B4FD42 && w[31] == 0xA503C5B8
    ensures w[32] == 0x15CDAE35 && w[33] == 0x531E5DC5 && w[34] == 0x6FB6B7D0 && w[35] == 0x6C16E4AC
    ensures w[36] == 0x4DDD36BD && w[37] == 0x35D36946 && w[38] == 0xE8AE8B9C && w[39] == 0x4A933AD0
    ensures w[40] == 0xCE8628B4 && w[41] == 0x415DBA9E && w[42] == 0x2792F049 && w[43] == 0x8E9B79E7
    ensures w[44] == 0x79C425C5 && w[45] == 0x6353B49D && w[46] == 0x00994218 && w[47] == 0x8A950ED1
  {
    hide IsSchedule;
    WordIs(w, 16, 0x363CA02C); WordIs(w, 17, 0x24E81236); WordIs(w, 18, 0x8856B441); WordIs(w, 19, 0x06FB3C92);
    WordIs(w, 20, 0x6FB4BCB6); WordIs(w, 21, 0x460B16E3); WordIs(w, 22, 0x599219AE); WordIs(w, 23, 0x35BF9369);
    WordIs(w, 24, 0x3267458E); WordIs(w, 25, 0xF828FD04); WordIs(w, 26, 0x753A96A7); WordIs(w, 27, 0x6336F612);
    WordIs(w, 28, 0xC3D66383); WordIs(w, 29, 0x06EB86F9); WordIs(w, 30, 0x73B4FD42); WordIs(w, 31, 0xA503C5B8);
    WordIs(w, 32, 0x15CDAE35); WordIs(w, 33, 0x531E5DC5); WordIs(w, 34, 0x6FB6B7D0); WordIs(w, 35, 0x6C16E4AC);
    WordIs(w, 36, 0x4DDD36BD); WordIs(w, 37, 0x35D36946); WordIs(w, 38, 0xE8AE8B9C); WordIs(w, 39, 0x4A933AD0);
    WordIs(w, 40, 0xCE8628B4); WordIs(w, 41, 0x415DBA9E); WordIs(w, 42, 0x2792F049); WordIs(w, 43, 0x8E9B79E7);
    WordIs(w, 44, 0x79C425C5); WordIs(w, 45, 0x6353B49D); WordIs(w, 46, 0x00994218); WordIs(w, 47, 0x8A950ED1);
  }

  lemma KeySchedule80(w: seq<word>)
    requires |w| == 80 && IsSchedule(w) && KeyWords(w)
    ensures w[48] == 0xAF5D0B99 && w[49] == 0xFD9883DE && w[50] == 0x1ED8FFEB && w[51] == 0xF007FF28
    ensures w[52] == 0x425E3674 && w[53] == 0x059631C0 && w[54] == 0xAD6C3C31 && w[55] == 0x860B71D7
    ensures w[56] == 0x87BFC548 && w[57] == 0x3E64F92D && w[58] == 0x8D0AB761 && w[59] == 0x34E1EE35
    ensures w[60] == 0x0ACF5108 && w[61] == 0xC2B479DA && w[62] == 0x6C93370A && w[63] == 0xF7935BA1
    ensures w[64] == 0xE91C91C1 && w[65] == 0xBED165A2 && w[66] == 0x4C3E4ABE && w[67] == 0x50D96238
    ensures w[68] == 0xB6587DDE && w[69] == 0x1A2EE6E6 && w[70] == 0x2D335896 && w[71] == 0xF3495D0B
    ensures w[72] == 0xF30E0A1D && w[73] == 0x32CE5459 && w[74] == 0x7165E3B8 && w[75] == 0xAB05FF94
    ensures w[76] == 0xC5949F0B && w[77] == 0xBCD84E4A && w[78] == 0x07720392 && w[79] == 0xFF3FF806
  {
    hide IsSchedule;
    KeySchedule48(w);
    WordIs(w, 48, 0xAF5D0B99); WordIs(w, 49, 0xFD9883DE); WordIs(w, 50, 0x1ED8FFEB); WordIs(w, 51, 0xF007FF28);
    WordIs(w, 52, 0x425E3674); WordIs(w, 53, 0x059631C0); WordIs(w, 54, 0xAD6C3C31); WordIs(w, 55, 0x860B71D7);
    WordIs(w, 56, 0x87BFC548); WordIs(w, 57, 0x3E64F92D); WordIs(w, 58, 0x8D0AB761); WordIs(w, 59, 0x34E1EE35);
    WordIs(w, 60, 0x0ACF5108); WordIs(w, 61, 0xC2B479DA); WordIs(w, 62, 0x6C93370A); WordIs(w, 63, 0xF7935BA1);
    WordIs(w, 64, 0xE91C91C1); WordIs(w, 65, 0xBED165A2); WordIs(w, 66, 0x4C3E4ABE); WordIs(w, 67, 0x50D96238);
    WordIs(w, 68, 0xB6587DDE); WordIs(w, 69, 0x1A2EE6E6); WordIs(w, 70, 0x2D335896); WordIs(w, 71, 0xF3495D0B);
    WordIs(w, 72, 0xF30E0A1D); WordIs(w, 73, 0x32CE5459); WordIs(w, 74, 0x7165E3B8); WordIs(w, 75, 0xAB05FF94);
    WordIs(w, 76, 0xC5949F0B); WordIs(w, 77, 0xBCD84E4A); WordIs(w, 78, 0x07720392); WordIs(w, 79, 0xFF3FF806);
  }

  lemma KeyRounds20(w: seq<word>, r: seq<Words>)
    requires |w| == 80 && |r| == 81 && IsSchedule(w) && IsRun(w, r) && KeyWords(w)
    requires r[0] == Words(0x67452301, 0xEFCDAB89, 0x98BADCFE, 0x10325476, 0xC3D2E1F0)
    ensures r[20] == Words(0x091AB97C, 0x8DC510B6, 0xDFAECA5A, 0x75F6BD5D, 0x2801311A)
  {
    hide IsRun, IsSchedule;
    KeySchedule48(w);
    KeySchedule80(w);
    Round(w, r, 0, 0x03FC011F); Round(w, r, 1, 0x2F793F55); Round(w, r, 2, 0xBE90EE8F);
    Round(w, r, 3, 0x53E039AC); Round(w, r, 4, 0xDD8C7C12); Round(w, r, 5, 0x7320B969);
    Round(w, r, 6, 0x73553E84); Round(w, r, 7, 0x2E0CE601); Round(w, r, 8, 0x32BEB05A);
    Round(w, r, 9, 0xFAAD2675); Round(w, r, 10, 0x5FF4238C); Round(w, r, 11, 0x34CEB986);
    Round(w, r, 12, 0x61BDB2BF); Round(w, r, 13, 0xAE1A096E); Round(w, r, 14, 0xE922CC9D);
    Round(w, r, 15, 0xA004C468); Round(w, r, 16, 0xD7DAF575); Round(w, r, 17, 0x7EBB296B);
    Round(w, r, 18, 0x8DC510B6); Round(w, r, 19, 0x091AB97C);
  }

  lemma KeyRounds40(w: seq<word>, r: seq<Words>)
    requires |w| == 80 && |r| == 81 && IsSchedule(w) && IsRun(w, r) && KeyWords(w)
    requires r[20] == Words(0x091AB97C, 0x8DC510B6, 0xDFAECA5A, 0x75F6BD5D, 0x2801311A)
    ensures r[40] == Words(0x2BA2C83E, 0xD0869081, 0x1A1D8209, 0xD3334889, 0x2779E4F2)
  {
    hide IsRun, IsSchedule;
    KeySchedule48(w);
    KeySchedule80(w);
    Round(w, r, 20, 0x518470A3); Round(w, r, 21, 0xD12F0B56); Round(w, r, 22, 0xBEAFD554);
    Round(w, r, 23, 0x250E26EF); Round(w, r, 24, 0x23D1C91B); Round(w, r, 25, 0x748B39A0);
    Round(w, r, 26, 0xEF012F20); Round(w, r, 27, 0x571F7D82); Round(w, r, 28, 0x1ABB1C37);
    Round(w, r, 29, 0x081B63E5); Round(w, r, 30, 0xB7DABC8B); Round(w, r, 31, 0xA6680A1F);
    Round(w, r, 32, 0x1AE360A9); Round(w, r, 33, 0xEEABA35A); Round(w, r, 34, 0x149BB4D3);
    Round(w, r, 35, 0x9DE793C8); Round(w, r, 36, 0x4CCD2227); Round(w, r, 37, 0x68760824);
    Round(w, r, 38, 0xD0869081); Round(w, r, 39, 0x2BA2C83E);
  }

  lemma KeyRounds60(w: seq<word>, r: seq<Words>)
    requires |w| == 80 && |r| == 81 && IsSchedule(w) && IsRun(w, r) && KeyWords(w)
    requires r[40] == Words(0x2BA2C83E, 0xD0869081, 0x1A1D8209, 0xD3334889, 0x2779E4F2)
    ensures r[60] == Words(0x4872D85A, 0xD284F163, 0x83091F0B, 0x1BBDBFBD, 0x9F8490BC)
  {
    hide IsRun, IsSchedule;
    KeySchedule48(w);
    KeySchedule80(w);
    Round(w, r, 40, 0xCB8C52D0); Round(w, r, 41, 0x4F589A44); Round(w, r, 42, 0x868829B7);
    Round(w, r, 43, 0x6DC6A3D7); Round(w, r, 44, 0x5F5F3452); Round(w, r, 45, 0x72FF334D);
    Round(w, r, 46, 0xDEE4B7A8); Round(w, r, 47, 0xABE1748A); Round(w, r, 48, 0x7510D04F);
    Round(w, r, 49, 0x065F8486); Round(w, r, 50, 0x0E5D77C4); Round(w, r, 51, 0x10E7F671);
    Round(w, r, 52, 0x26C69395); Round(w, r, 53, 0x4C608AC4); Round(w, r, 54, 0x50C9104C);
    Round(w, r, 55, 0x7E1242F2); Round(w, r, 56, 0x6EF6FEF4); Round(w, r, 57, 0x0C247C2E);
    Round(w, r, 58, 0xD284F163); Round(w, r, 59, 0x4872D85A);
  }

  lemma KeyRounds80(w: seq<word>, r: seq<Words>)
    requires |w| == 80 && |r| == 81 && IsSchedule(w) && IsRun(w, r) && KeyWords(w)
    requires r[60] == Words(0x4872D85A, 0xD284F163, 0x83091F0B, 0x1BBDBFBD, 0x9F8490BC)
    ensures r[80] == Words(0xF48A5426, 0x835995E1, 0x25C11EFB, 0x4A45C402, 0x9A73C2F2)
  {
    hide IsRun, IsSchedule;
    KeySchedule48(w);
    KeySchedule80(w);
    Round(w, r, 60, 0xCD4200B8); Round(w, r, 61, 0x90F00D8F); Round(w, r, 62, 0x840054D3);
    Round(w, r, 63, 0x685E2FF6); Round(w, r, 64, 0xA4CEE018); Round(w, r, 65, 0xC3C2E45B);
    Round(w, r, 66, 0x53131A40); Round(w, r, 67, 0xCF8658EC); Round(w, r, 68, 0x966E049A);
    Round(w, r, 69, 0x07381B7E); Round(w, r, 70, 0x80D59773); Round(w, r, 71, 0x7E65E044);
    Round(w, r, 72, 0x628E7B47); Round(w, r, 73, 0x143A8388); Round(w, r, 74, 0xE20983F9);
    Round(w, r, 75, 0x69CF0BCA); Round(w, r, 76, 0x29171009); Round(w, r, 77, 0x97047BEC);
    Round(w, r, 78, 0x835995E1); Round(w, r, 79, 0xF48A5426);
  }

  lemma KeyUpdate(block: seq<byte>)
    requires KeyBytes(block)
    ensures Update(Words(0x67452301, 0xEFCDAB89, 0x98BADCFE, 0x10325476, 0xC3D2E1F0), block)
         == Words(0x5BCF7727, 0x7327416A, 0xBE7BFBF9, 0x5A781878, 0x5E46A4E2)
  {
    hide S, F, K, Sum5, W, Rounds, BigEndian, IsSchedule, IsRun;
    var h := Words(0x67452301, 0xEFCDAB89, 0x98BADCFE, 0x10325476, 0xC3D2E1F0);
    var w, r := ScheduleOf(block, 80), RunOf(block, h, 81);
    ScheduleHolds(block, 80);
    RunHolds(block, h, 81);
    KeyFirst4(block, w);
    KeyFirst8(block, w);
    KeyFirst12(block, w);
    KeyFirst16(block, w);
    KeyRounds20(w, r);
    KeyRounds40(w, r);
    KeyRounds60(w, r);
    KeyRounds80(w, r);
  }


  lemma KeyFirst4(block: seq<byte>, w: seq<word>)
    requires KeyBytes(block) && w == ScheduleOf(block, 80)
    ensures w[0] == 0x6447686C && w[1] == 0x49484E68 && w[2] == 0x62584273 && w[3] == 0x5A534275
  {
    hide W;
    FirstWord(block, w, 0, 100, 71, 104, 108); FirstWord(block, w, 1, 73, 72, 78, 104);
    FirstWord(block, w, 2, 98, 88, 66, 115); FirstWord(block, w, 3, 90, 83, 66, 117);
  }

  lemma KeyFirst8(block: seq<byte>, w: seq<word>)
    requires KeyBytes(block) && w == ScheduleOf(block, 80)
    ensures w[4] == 0x6232356A && w[5] == 0x5A513D3D && w[6] == 0x32353845 && w[7] == 0x41464135
  {
    hide W;
    FirstWord(block, w, 4, 98, 50, 53, 106); FirstWord(block, w, 5, 90, 81, 61, 61);
    FirstWord(block, w, 6, 50, 53, 56, 69); FirstWord(block, w, 7, 65, 70, 65, 53);
  }

  lemma KeyFirst12(block: seq<byte>, w: seq<word>)
    requires KeyBytes(block) && w == ScheduleOf(block, 80)
    ensures w[8] == 0x2D453931 && w[9] == 0x342D3437 && w[10] == 0x44412D39 && w[11] == 0x3543412D
  {
    hide W;
    FirstWord(block, w, 8, 45, 69, 57, 49); FirstWord(block, w, 9, 52, 45, 52, 55);
    FirstWord(block, w, 10, 68, 65, 45, 57); FirstWord(block, w, 11, 53, 67, 65, 45);
  }

  lemma KeyFirst16(block: seq<byte>, w: seq<word>)
    requires KeyBytes(block) && w == ScheduleOf(block, 80)
    ensures w[12] == 0x43354142 && w[13] == 0x30444338 && w[14] == 0x35423131 && w[15] == 0x80000000
  {
    hide W;
    FirstWord(block, w, 12, 67, 53, 65, 66); FirstWord(block, w, 13, 48, 68, 67, 56);
    FirstWord(block, w, 14, 53, 66, 49, 49); FirstWord(block, w, 15, 128, 0, 0, 0);
  }

  // ---- the sample key, second block ----

  predicate GuidWords(w: seq<word>)
    requires |w| == 80
  {
    && w[0] == 0x00000000 && w[1] == 0x00000000 && w[2] == 0x00000000 && w[3] == 0x00000000
    && w[4] == 0x00000000 && w[5] == 0x00000000 && w[6] == 0x00000000 && w[7] == 0x00000000
    && w[8] == 0x00000000 && w[9] == 0x00000000 && w[10] == 0x00000000 && w[11] == 0x00000000
    && w[12] == 0x00000000 && w[13] == 0x00000000 && w[14] == 0x00000000 && w[15] == 0x000001E0
  }

  lemma GuidSchedule48(w: seq<word>)
    requires |w| == 80 && IsSchedule(w) && GuidWords(w)
    ensures w[16] == 0x00000000 && w[17] == 0x00000000 && w[18] == 0x000003C0 && w[19] == 0x00000000
    ensures w[20] == 0x00000000 && w[21] == 0x00000780 && w[22] == 0x00000000 && w[23] == 0x000003C0
    ensures w[24] == 0x00000F00 && w[25] == 0x00000000 && w[26] == 0x00000000 && w[27] == 0x00001E00
    ensures w[28] == 0x00000000 && w[29] == 0x00000CC0 && w[30] == 0x00003C00 && w[31] == 0x00000440
    ensures w[32] == 0x00000000 && w[33] == 0x00007800 && w[34] == 0x00000F00 && w[35] == 0x00003300
    ensures w[36] == 0x0000F000 && w[37] == 0x00000F00 && w[38] == 0x00000000 && w[39] == 0x0001EF00
    ensures w[40] == 0x00000000 && w[41] == 0x0000CC00 && w[42] == 0x0003C000 && w[43] == 0x00004380
    ensures w[44] == 0x00000000 && w[45] == 0x00078F00 && w[46] == 0x0000FF00 && w[47] == 0x00032680
  {
    hide IsSchedule;
    WordIs(w, 16, 0x00000000); WordIs(w, 17, 0x00000000); WordIs(w, 18, 0x000003C0); WordIs(w, 19, 0x00000000);
    WordIs(w, 20, 0x00000000); WordIs(w, 21, 0x00000780); WordIs(w, 22, 0x00000000); WordIs(w, 23, 0x000003C0);
    WordIs(w, 24, 0x00000F00); WordIs(w, 25, 0x00000000); WordIs(w, 26, 0x00000000); WordIs(w, 27, 0x00001E00);
    WordIs(w, 28, 0x00000000); WordIs(w, 29, 0x00000CC0); WordIs(w, 30, 0x00003C00); WordIs(w, 31, 0x00000440);
    WordIs(w, 32, 0x00000000); WordIs(w, 33, 0x00007800); WordIs(w, 34, 0x00000F00); WordIs(w, 35, 0x00003300);
    WordIs(w, 36, 0x0000F000); WordIs(w, 37, 0x00000F00); WordIs(w, 38, 0x00000000); WordIs(w, 39, 0x0001EF00);
    WordIs(w, 40, 0x00000000); WordIs(w, 41, 0x0000CC00); WordIs(w, 42, 0x0003C000); WordIs(w, 43, 0x00004380);
    WordIs(w, 44, 0x00000000); WordIs(w, 45, 0x00078F00); WordIs(w, 46, 0x0000FF00); WordIs(w, 47, 0x00032680);
  }

  lemma GuidSchedule80(w: seq<word>)
    requires |w| == 80 && IsSchedule(w) && GuidWords(w)
    ensures w[48] == 0x000F0000 && w[49] == 0x0000F000 && w[50] == 0x00003300 && w[51] == 0x001EFF00
    ensures w[52] == 0x00000000 && w[53] == 0x000CB800 && w[54] == 0x003C0000 && w[55] == 0x00040B00
    ensures w[56] == 0x0000F000 && w[57] == 0x0078FF00 && w[58] == 0x000FF000 && w[59] == 0x00338700
    ensures w[60] == 0x00F00000 && w[61] == 0x000FC300 && w[62] == 0x0000F000 && w[63] == 0x01EFBB00
    ensures w[64] == 0x00000000 && w[65] == 0x00CC0000 && w[66] == 0x03C0F000 && w[67] == 0x00438000
    ensures w[68] == 0x00000000 && w[69] == 0x078F0000 && w[70] == 0x00FF0000 && w[71] == 0x03269E00
    ensures w[72] == 0x0F000000 && w[73] == 0x00F0F000 && w[74] == 0x00333C00 && w[75] == 0x1EFF8800
    ensures w[76] == 0x00000000 && w[77] == 0x0CB88800 && w[78] == 0x3C00F000 && w[79] == 0x040A4A00
  {
    hide IsSchedule;
    GuidSchedule48(w);
    WordIs(w, 48, 0x000F0000); WordIs(w, 49, 0x0000F000); WordIs(w, 50, 0x00003300); WordIs(w, 51, 0x001EFF00);
    WordIs(w, 52, 0x00000000); WordIs(w, 53, 0x000CB800); WordIs(w, 54, 0x003C0000); WordIs(w, 55, 0x00040B00);
    WordIs(w, 56, 0x0000F000); WordIs(w, 57, 0x0078FF00); WordIs(w, 58, 0x000FF000); WordIs(w, 59, 0x00338700);
    WordIs(w, 60, 0x00F00000); WordIs(w, 61, 0x000FC300); WordIs(w, 62, 0x0000F000); WordIs(w, 63, 0x01EFBB00);
    WordIs(w, 64, 0x00000000); WordIs(w, 65, 0x00CC0000); WordIs(w, 66, 0x03C0F000); WordIs(w, 67, 0x00438000);
    WordIs(w, 68, 0x00000000); WordIs(w, 69, 0x078F0000); WordIs(w, 70, 0x00FF0000); WordIs(w, 71, 0x03269E00);
    WordIs(w, 72, 0x0F000000); WordIs(w, 73, 0x00F0F000); WordIs(w, 74, 0x00333C00); WordIs(w, 75, 0x1EFF8800);
    WordIs(w, 76, 0x00000000); WordIs(w, 77, 0x0CB88800); WordIs(w, 78, 0x3C00F000); WordIs(w, 79, 0x040A4A00);
  }

  lemma GuidRounds20(w: seq<word>, r: seq<Words>)
    requires |w| == 80 && |r| == 81 && IsSchedule(w) && IsRun(w, r) && GuidWords(w)
    requires r[0] == Words(0x5BCF7727, 0x7327416A, 0xBE7BFBF9, 0x5A781878, 0x5E46A4E2)
    ensures r[20] == Words(0x2A008B51, 0x2F193A09, 0x9C8663C1, 0x8EB5D103, 0x261B7C9A)
  {
    hide IsRun, IsSchedule;
    GuidSchedule48(w);
    GuidSchedule80(w);
    Round(w, r, 0, 0x6D335CDE); Round(w, r, 1, 0x186006B8); Round(w, r, 2, 0xF9FB295D);
    Round(w, r, 3, 0x15855523); Round(w, r, 4, 0xE43DD2F2); Round(w, r, 5, 0x93A5EFBB);
    Round(w, r, 6, 0xB3BBCAFE); Round(w, r, 7, 0x25C018BE); Round(w, r, 8, 0x80946593);
    Round(w, r, 9, 0x0B0814C3); Round(w, r, 10, 0x4CE92417); Round(w, r, 11, 0x250601AD);
    Round(w, r, 12, 0x6576D2DC); Round(w, r, 13, 0xAD43F39E); Round(w, r, 14, 0x990B7BE7);
    Round(w, r, 15, 0x986DF268); Round(w, r, 16, 0x3AD7440E); Round(w, r, 17, 0x72198F06);
    Round(w, r, 18, 0x2F193A09); Round(w, r, 19, 0x2A008B51);
  }

  lemma GuidRounds40(w: seq<word>, r: seq<Words>)
    requires |w| == 80 && |r| == 81 && IsSchedule(w) && IsRun(w, r) && GuidWords(w)
    requires r[20] == Words(0x2A008B51, 0x2F193A09, 0x9C8663C1, 0x8EB5D103, 0x261B7C9A)
    ensures r[40] == Words(0x6F698F1A, 0xC6FF0CD3, 0xDE5AB7BC, 0x5F6F3CBB, 0x1DA48A85)
  {
    hide IsRun, IsSchedule;
    GuidSchedule48(w);
    GuidSchedule80(w);
    Round(w, r, 20, 0x12315B2B); Round(w, r, 21, 0x40FBCF98); Round(w, r, 22, 0x3E5179E7);
    Round(w, r, 23, 0x53C73650); Round(w, r, 24, 0x1D24C44A); Round(w, r, 25, 0x646C677D);
    Round(w, r, 26, 0xD2E726DA); Round(w, r, 27, 0x9327DF6F); Round(w, r, 28, 0xF57CB53E);
    Round(w, r, 29, 0x243EE057); Round(w, r, 30, 0xF4DDD7B7); Round(w, r, 31, 0x3CF6EB58);
    Round(w, r, 32, 0x730E9170); Round(w, r, 33, 0x96D9E59E); Round(w, r, 34, 0x942AC4D3);
    Round(w, r, 35, 0x76922A14); Round(w, r, 36, 0x7DBCF2ED); Round(w, r, 37, 0x796ADEF3);
    Round(w, r, 38, 0xC6FF0CD3); Round(w, r, 39, 0x6F698F1A);
  }

  lemma GuidRounds60(w: seq<word>, r: seq<Words>)
    requires |w| == 80 && |r| == 81 && IsSchedule(w) && IsRun(w, r) && GuidWords(w)
    requires r[40] == Words(0x6F698F1A, 0xC6FF0CD3, 0xDE5AB7BC, 0x5F6F3CBB, 0x1DA48A85)
    ensures r[60] == Words(0x56119F19, 0x085EB2FE, 0x484A25C5, 0xC140CFE8, 0x686DA050)
  {
    hide IsRun, IsSchedule;
    GuidSchedule48(w);
    GuidSchedule80(w);
    Round(w, r, 40, 0x78716769); Round(w, r, 41, 0xFC343A02); Round(w, r, 42, 0xEDFCD85B);
    Round(w, r, 43, 0x1E934ACF); Round(w, r, 44, 0xFC7BD35F); Round(w, r, 45, 0x3BD9203B);
    Round(w, r, 46, 0xC8CDA3DA); Round(w, r, 47, 0xA3EF857E); Round(w, r, 48, 0xA39F2041);
    Round(w, r, 49, 0xA516F265); Round(w, r, 50, 0xA3ABE4F5); Round(w, r, 51, 0x5FE2A3DB);
    Round(w, r, 52, 0x9E540637); Round(w, r, 53, 0x2C73BD78); Round(w, r, 54, 0x660DD0B1);
    Round(w, r, 55, 0xA1B68141); Round(w, r, 56, 0x05033FA3); Round(w, r, 57, 0x21289715);
    Round(w, r, 58, 0x085EB2FE); Round(w, r, 59, 0x56119F19);
  }

  lemma GuidRounds80(w: seq<word>, r: seq<Words>)
    requires |w| == 80 && |r| == 81 && IsSchedule(w) && IsRun(w, r) && GuidWords(w)
    requires r[60] == Words(0x56119F19, 0x085EB2FE, 0x484A25C5, 0xC140CFE8, 0x686DA050)
    ensures r[80] == Words(0x57AAD805, 0x4D3B0DAC, 0xD27A4A0D, 0x74C040CD, 0x54782008)
  {
    hide IsRun, IsSchedule;
    GuidSchedule48(w);
    GuidSchedule80(w);
    Round(w, r, 60, 0x77489E23); Round(w, r, 61, 0x11132F8F); Round(w, r, 62, 0xD5EF1ED7);
    Round(w, r, 63, 0xA5937450); Round(w, r, 64, 0x9ECFA66C); Round(w, r, 65, 0x17A22EF7);
    Round(w, r, 66, 0xC97F1968); Round(w, r, 67, 0x097A511C); Round(w, r, 68, 0x4E363DB9);
    Round(w, r, 69, 0xBF3A7F95); Round(w, r, 70, 0xF6D1AFEE); Round(w, r, 71, 0xC90888CA);
    Round(w, r, 72, 0xC7652EDB); Round(w, r, 73, 0x26F99990); Round(w, r, 74, 0xE22B36D1);
    Round(w, r, 75, 0x51E08021); Round(w, r, 76, 0xD3010335); Round(w, r, 77, 0x49E92837);
    Round(w, r, 78, 0x4D3B0DAC); Round(w, r, 79, 0x57AAD805);
  }

  lemma GuidUpdate(block: seq<byte>)
    requires GuidBytes(block)
    ensures Update(Words(0x5BCF7727, 0x7327416A, 0xBE7BFBF9, 0x5A781878, 0x5E46A4E2), block)
         == Words(0xB37A4F2C, 0xC0624F16, 0x90F64606, 0xCF385945, 0xB2BEC4EA)
  {
    hide S, F, K, Sum5, W, Rounds, BigEndian, IsSchedule, IsRun;
    var h := Words(0x5BCF7727, 0x7327416A, 0xBE7BFBF9, 0x5A781878, 0x5E46A4E2);
    var w, r := ScheduleOf(block, 80), RunOf(block, h, 81);
    ScheduleHolds(block, 80);
    RunHolds(block, h, 81);
    GuidFirst4(block, w);
    GuidFirst8(block, w);
    GuidFirst12(block, w);
    GuidFirst16(block, w);
    GuidRounds20(w, r);
    GuidRounds40(w, r);
    GuidRounds60(w, r);
    GuidRounds80(w, r);
  }


  lemma GuidFirst4(block: seq<byte>, w: seq<word>)
    requires GuidBytes(block) && w == ScheduleOf(block, 80)
    ensures w[0] == 0x00000000 && w[1] == 0x00000000 && w[2] == 0x00000000 && w[3] == 0x00000000
  {
    hide W;
    FirstWord(block, w, 0, 0, 0, 0, 0); FirstWord(block, w, 1, 0, 0, 0, 0);
    FirstWord(block, w, 2, 0, 0, 0, 0); FirstWord(block, w, 3, 0, 0, 0, 0);
  }

  lemma GuidFirst8(block: seq<byte>, w: seq<word>)
    requires GuidBytes(block) && w == ScheduleOf(block, 80)
    ensures w[4] == 0x00000000 && w[5] == 0x00000000 && w[6] == 0x00000000 && w[7] == 0x00000000
  {
    hide W;
    FirstWord(block, w, 4, 0, 0, 0, 0); FirstWord(block, w, 5, 0, 0, 0, 0);
    FirstWord(block, w, 6, 0, 0, 0, 0); FirstWord(block, w, 7, 0, 0, 0, 0);
  }

  lemma GuidFirst12(block: seq<byte>, w: seq<word>)
    requires GuidBytes(block) && w == ScheduleOf(block, 80)
    ensures w[8] == 0x00000000 && w[9] == 0x00000000 && w[10] == 0x00000000 && w[11] == 0x00000000
  {
    hide W;
    FirstWord(block, w, 8, 0, 0, 0, 0); FirstWord(block, w, 9, 0, 0, 0, 0);
    FirstWord(block, w, 10, 0, 0, 0, 0); FirstWord(block, w, 11, 0, 0, 0, 0);
  }

  lemma GuidFirst16(block: seq<byte>, w: seq<word>)
    requires GuidBytes(block) && w == ScheduleOf(block, 80)
    ensures w[12] == 0x00000000 && w[13] == 0x00000000 && w[14] == 0x00000000 && w[15] == 0x000001E0
  {
    hide W;
    FirstWord(block, w, 12, 0, 0, 0, 0); FirstWord(block, w, 13, 0, 0, 0, 0);
    FirstWord(block, w, 14, 0, 0, 0, 0); FirstWord(block, w, 15, 0, 0, 1, 224);
  }

  // ---- the answers -----------------------------------------------------------------------------

  /** The digest of "abc" is A9993E36 4706816A BA3E2571 7850C26C 9CD0D89D. */
  lemma DigestOfAbc()
    ensures Digest([97, 98, 99])
         == [0xA9, 0x99, 0x3E, 0x36, 0x47, 0x06, 0x81, 0x6A, 0xBA, 0x3E,
             0x25, 0x71, 0x78, 0x50, 0xC2, 0x6C, 0x9C, 0xD0, 0xD8, 0x9D]
  {
    hide Update, Compress, WordBytes, LengthBytes;
    var pad := Padded([97, 98, 99]);
    assert Fill(3) == 52;
    LengthOf(3);
    AbcBlockOf(pad);
    assert pad[..64] == pad;
    CompressTail(H0, pad);
    AbcUpdate(pad);
    BytesOfAbc();
  }

  lemma AbcBlockOf(pad: seq<byte>)
    requires pad == [97, 98, 99] + [0x80] + ZeroBytes(52) + [0, 0, 0, 0, 0, 0, 0, 24]
    ensures AbcBytes(pad)
  {
  }

  lemma LengthOf(n: nat)
    requires n < 8192
    ensures LengthBytes(n) == [0, 0, 0, 0, 0, 0, n * 8 / 256, n * 8 % 256]
  {
  }

  lemma BytesOfAbc()
    ensures Output(Words(0xA9993E36, 0x4706816A, 0xBA3E2571, 0x7850C26C, 0x9CD0D89D))
         == [0xA9, 0x99, 0x3E, 0x36, 0x47, 0x06, 0x81, 0x6A, 0xBA, 0x3E,
             0x25, 0x71, 0x78, 0x50, 0xC2, 0x6C, 0x9C, 0xD0, 0xD8, 0x9D]
  {
  }

  /** The characters of the sample key. */
  predicate KeyChars(s: seq<byte>) {
    && |s| == 24
    && s[0] == 100 && s[1] == 71 && s[2] == 104 && s[3] == 108 && s[4] == 73 && s[5] == 72
    && s[6] == 78 && s[7] == 104 && s[8] == 98 && s[9] == 88 && s[10] == 66 && s[11] == 115
    && s[12] == 90 && s[13] == 83 && s[14] == 66 && s[15] == 117 && s[16] == 98 && s[17] == 50
    && s[18] == 53 && s[19] == 106 && s[20] == 90 && s[21] == 81 && s[22] == 61 && s[23] == 61
  }

  /** The characters of the GUID. */
  predicate GuidChars(s: seq<byte>) {
    && |s| == 36
    && s[0] == 50 && s[1] == 53 && s[2] == 56 && s[3] == 69 && s[4] == 65 && s[5] == 70
    && s[6] == 65 && s[7] == 53 && s[8] == 45 && s[9] == 69 && s[10] == 57 && s[11] == 49
    && s[12] == 52 && s[13] == 45 && s[14] == 52 && s[15] == 55 && s[16] == 68 && s[17] == 65
    && s[18] == 45 && s[19] == 57 && s[20] == 53 && s[21] == 67 && s[22] == 65 && s[23] == 45
    && s[24] == 67 && s[25] == 53 && s[26] == 65 && s[27] == 66 && s[28] == 48 && s[29] == 68
    && s[30] == 67 && s[31] == 56 && s[32] == 53 && s[33] == 66 && s[34] == 49 && s[35] == 49
  }

  /** The digest of both. */
  predicate DigestChars(s: seq<byte>) {
    && |s| == 20
    && s[0] == 179 && s[1] == 122 && s[2] == 79 && s[3] == 44 && s[4] == 192 && s[5] == 98
    && s[6] == 79 && s[7] == 22 && s[8] == 144 && s[9] == 246 && s[10] == 70 && s[11] == 6
    && s[12] == 207 && s[13] == 56 && s[14] == 89 && s[15] == 69 && s[16] == 178 && s[17] == 190
    && s[18] == 196 && s[19] == 234
  }

  /** The accept text of the key "dGhlIHNhbXBsZSBub25jZQ==" is "s3pPLMBiTxaQ9kYGzzhZRbK+xOo=". */
  lemma AcceptOfSampleKey(key: seq<byte>)
    requires KeyChars(key)
    ensures Base64.Encoded(Digest(key[..Min(64, |key|)] + WsGuid())) == [
              115, 51, 112, 80, 76, 77, 66, 105, 84, 120, 97, 81, 57, 107,
    89, 71, 122, 122, 104, 90, 82, 98, 75, 43, 120, 79, 111, 61]
  {
    hide Digest, Base64.Encoded, KeyChars;
    KeyUncut(key);
    DigestOfSampleKey(key);
    EncodedSample(Digest(key + WsGuid()));
  }

  lemma DigestOfSampleKey(key: seq<byte>)
    requires KeyChars(key)
    ensures |key| == 24 && DigestChars(Digest(key + WsGuid()))
  {
    hide Update, Compress, WordBytes, LengthBytes, WsGuid, GuidChars, DigestChars, KeyChars;
    GuidIs();
    CharCounts(key, WsGuid());
    var text := key + WsGuid();
    var pad := Padded(text);
    assert |text| == 60 && Fill(60) == 59;
    LengthOf(60);
    SampleBlocks(key, WsGuid(), pad);
    CompressTail(H0, pad);
    KeyUpdate(pad[..64]);
    GuidUpdate(pad[64..128]);
    BytesOfSample();
  }

  lemma CharCounts(key: seq<byte>, guid: seq<byte>)
    requires KeyChars(key) && GuidChars(guid)
    ensures |key| == 24 && |guid| == 36
  {
  }

  lemma SampleBlocks(key: seq<byte>, guid: seq<byte>, pad: seq<byte>)
    requires KeyChars(key) && GuidChars(guid) && |key| == 24 && |guid| == 36
    requires pad == key + guid + [0x80] + ZeroBytes(59) + [0, 0, 0, 0, 0, 0, 1, 224]
    ensures |pad| == 128 && KeyBytes(pad[..64]) && GuidBytes(pad[64..128])
  {
    hide KeyChars, GuidChars, KeyBytes, GuidBytes;
    var first, second := pad[..64], pad[64..128];
    var front, tail := key + guid + [0x80], [0, 0, 0, 0, 0, 0, 1, 224];
    assert pad == front + ZeroBytes(59) + tail && |front| == 61;
    forall k | 61 <= k < 120
      ensures pad[k] == 0
    {
      assert pad[k] == ZeroBytes(59)[k - 61];
    }
    assert front[..24] == key && front[24..60] == guid;
    assert first[..24] == front[..24] && first[24..60] == front[24..60];
    assert first[60..] == [0x80, 0, 0, 0];
    forall t | 0 <= t < 56
      ensures second[t] == 0
    {
      assert second[t] == pad[64 + t];
    }
    assert pad[120..] == tail && second[56..] == pad[120..];
    KeyBlockBytes(key, guid, first);
    GuidBlockBytes(second);
  }

  lemma KeyBlockBytes(key: seq<byte>, guid: seq<byte>, block: seq<byte>)
    requires KeyChars(key) && GuidChars(guid)
    requires |block| == 64 && block[..24] == key && block[24..60] == guid && block[60..] == [0x80, 0, 0, 0]
    ensures KeyBytes(block)
  {
    assert forall t | 0 <= t < 24 :: block[t] == key[t];
    assert forall t | 0 <= t < 36 :: block[24 + t] == guid[t];
    assert forall t | 0 <= t < 4 :: block[60 + t] == block[60..][t];
  }

  lemma GuidBlockBytes(block: seq<byte>)
    requires |block| == 64 && (forall t | 0 <= t < 56 :: block[t] == 0) && block[56..] == [0, 0, 0, 0, 0, 0, 1, 224]
    ensures GuidBytes(block)
  {
    assert forall t | 0 <= t < 8 :: block[56 + t] == block[56..][t];
  }

  lemma GuidIs()
    ensures GuidChars(WsGuid())
  {
  }

  lemma BytesOfSample()
    ensures DigestChars(Output(Words(0xB37A4F2C, 0xC0624F16, 0x90F64606, 0xCF385945, 0xB2BEC4EA)))
  {
  }

  lemma EncodedSample(d: seq<byte>)
    requires DigestChars(d)
    ensures Base64.Encoded(d) == [
              115, 51, 112, 80, 76, 77, 66, 105, 84, 120, 97, 81, 57, 107,
    89, 71, 122, 122, 104, 90, 82, 98, 75, 43, 120, 79, 111, 61]
  {
    hide Base64.Encoded, Base64.Group;
    OneGroup(d, 179, 122, 79, 44, 55, 41, 15);
    var d3 := d[3..];
    OneGroup(d3, 44, 192, 98, 11, 12, 1, 34);
    var d6 := d3[3..];
    OneGroup(d6, 79, 22, 144, 19, 49, 26, 16);
    var d9 := d6[3..];
    OneGroup(d9, 246, 70, 6, 61, 36, 24, 6);
    var d12 := d9[3..];
    OneGroup(d12, 207, 56, 89, 51, 51, 33, 25);
    var d15 := d12[3..];
    OneGroup(d15, 69, 178, 190, 17, 27, 10, 62);
    var d18 := d15[3..];
    assert d18 == [196, 234];
    Base64.EncodedChunk(d18);
    Base64.LastGroupIs(196, 234, 49, 14, 40);
  }

  lemma OneGroup(data: seq<byte>, b0: byte, b1: byte, b2: byte, a: nat, b: nat, c: nat, d: nat)
    requires |data| > 3 && data[0] == b0 && data[1] == b1 && data[2] == b2
    requires a < 64 && b < 64 && c < 64 && d < 64
    requires (b0 as int) * 65536 + (b1 as int) * 256 + b2 == a * 262144 + b * 4096 + c * 64 + d
    ensures Base64.Encoded(data)
         == [Base64.EncodeChar(a), Base64.EncodeChar(b), Base64.EncodeChar(c), Base64.EncodeChar(d)]
            + Base64.Encoded(data[3..])
  {
    hide Base64.Encoded, Base64.Group, Base64.EncodeChar;
    assert data[..3] == [b0, b1, b2];
    Base64.FirstGroup(data, b0, b1, b2);
    Base64.GroupIs(b0, b1, b2, a, b, c, d);
  }

  // ---- the logical functions, bit by bit -----------------------------------------------------------

  /** The first function takes each bit from `c` where `b` is set and from `d` elsewhere. */
  lemma ChooseBits(b: word, c: word, d: word)
    ensures F(0, b, c, d) & b == c & b && F(0, b, c, d) & !b == d & !b
  {
  }

  /** The second is set where an odd number of the three is: with two of them it gives the third back. */
  lemma ParityBits(b: word, c: word, d: word)
    ensures F(20, b, c, d) ^ b ^ c == d && F(60, b, c, d) == F(20, b, c, d)
  {
  }

  /** The third agrees with `b` and `c` where these agree, and is decided by `d` where they differ. */
  lemma MajorityBits(b: word, c: word, d: word)
    ensures F(40, b, c, d) & !(b ^ c) == b & !(b ^ c) && F(40, b, c, d) & (b ^ c) == d & (b ^ c)
  {
  }
}
