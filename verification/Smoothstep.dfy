/** The table of smoothstep.h: 200 steps of the smootherstep curve in 24-bit fixed point, in ten rows. */
module Smoothstep {
  const NSTEPS := 200
  const ONE := 0x100_0000     // two to the 24

  const ROW0: seq<nat> := [
    20, 165, 553, 1302, 2524, 4328, 6820, 10103, 14274, 19430,
    25660, 33055, 41698, 51672, 63055, 75921, 90343, 106389, 124124, 143612]
  const ROW1: seq<nat> := [
    164912, 188080, 213169, 240231, 269312, 300456, 333707, 369103, 406680, 446473,
    488511, 532823, 579435, 628369, 679647, 733287, 789304, 847710, 908518, 971736]
  const ROW2: seq<nat> := [
    1037369, 1105422, 1175896, 1248791, 1324104, 1401831, 1481964, 1564495, 1649412, 1736704,
    1826354, 1918347, 2012664, 2109285, 2208187, 2309347, 2412739, 2518336, 2626109, 2736028]
  const ROW3: seq<nat> := [
    2848061, 2962174, 3078332, 3196500, 3316639, 3438709, 3562672, 3688485, 3816104, 3945487,
    4076587, 4209358, 4343752, 4479721, 4617216, 4756184, 4896576, 5038338, 5181417, 5325759]
  const ROW4: seq<nat> := [
    5471309, 5618011, 5765809, 5914645, 6064462, 6215202, 6366805, 6519212, 6672363, 6826198,
    6980655, 7135675, 7291194, 7447152, 7603485, 7760133, 7917031, 8074119, 8231332, 8388608]
  const ROW5: seq<nat> := [
    8545883, 8703096, 8860184, 9017082, 9173730, 9330063, 9486021, 9641540, 9796560, 9951017,
    10104852, 10258003, 10410410, 10562013, 10712753, 10862570, 11011406, 11159204, 11305906, 11451456]
  const ROW6: seq<nat> := [
    11595798, 11738877, 11880639, 12021031, 12160000, 12297494, 12433463, 12567857, 12700628, 12831728,
    12961111, 13088730, 13214543, 13338506, 13460576, 13580715, 13698883, 13815041, 13929154, 14041187]
  const ROW7: seq<nat> := [
    14151106, 14258879, 14364476, 14467868, 14569028, 14667930, 14764551, 14858868, 14950861, 15040512,
    15127803, 15212720, 15295251, 15375384, 15453111, 15528424, 15601319, 15671793, 15739846, 15805479]
  const ROW8: seq<nat> := [
    15868697, 15929505, 15987911, 16043928, 16097568, 16148846, 16197780, 16244392, 16288704, 16330742,
    16370535, 16408112, 16443508, 16476759, 16507904, 16536984, 16564046, 16589135, 16612303, 16633603]
  const ROW9: seq<nat> := [
    16653091, 16670826, 16686872, 16701294, 16714160, 16725543, 16735517, 16744160, 16751555, 16757785,
    16762941, 16767112, 16770395, 16772887, 16774691, 16775913, 16776662, 16777050, 16777195, 16777216]

  function Row(q: nat): (r: seq<nat>)
    ensures |r| == 20
  {
    if q == 0 then ROW0 else if q == 1 then ROW1 else if q == 2 then ROW2 else if q == 3 then ROW3 else if q == 4 then ROW4
    else if q == 5 then ROW5 else if q == 6 then ROW6 else if q == 7 then ROW7 else if q == 8 then ROW8 else ROW9
  }

  /** h_steps. */
  function H(i: nat): nat {
    Row(i / 20)[i % 20]
  }

  /** The curve 6x^5 - 15x^4 + 10x^3 at x = i / 200, in fixed point, rounded down. */
  function Curve(i: nat): int {
    ONE * (i * i * i * (6 * i * i - 3000 * i + 400000)) / 320000000000
  }

  ghost predicate RowRight(q: nat) {
    && (forall k :: 0 <= k < 20 ==> Row(q)[k] == Curve(20 * q + k + 1))
    && (forall k :: 0 <= k < 19 ==> Row(q)[k] <= Row(q)[k + 1])
  }

  lemma Row0Right()
    ensures RowRight(0)
  {

    assert Curve(1) == 20; assert Curve(2) == 165; assert Curve(3) == 553; assert Curve(4) == 1302; assert Curve(5) == 2524;
    assert Curve(6) == 4328; assert Curve(7) == 6820; assert Curve(8) == 10103; assert Curve(9) == 14274; assert Curve(10) == 19430;
    assert Curve(11) == 25660; assert Curve(12) == 33055; assert Curve(13) == 41698; assert Curve(14) == 51672; assert Curve(15) == 63055;
    assert Curve(16) == 75921; assert Curve(17) == 90343; assert Curve(18) == 106389; assert Curve(19) == 124124; assert Curve(20) == 143612;
  }

  lemma Row1Right()
    ensures RowRight(1)
  {

    assert Curve(21) == 164912; assert Curve(22) == 188080; assert Curve(23) == 213169; assert Curve(24) == 240231; assert Curve(25) == 269312;
    assert Curve(26) == 300456; assert Curve(27) == 333707; assert Curve(28) == 369103; assert Curve(29) == 406680; assert Curve(30) == 446473;
    assert Curve(31) == 488511; assert Curve(32) == 532823; assert Curve(33) == 579435; assert Curve(34) == 628369; assert Curve(35) == 679647;
    assert Curve(36) == 733287; assert Curve(37) == 789304; assert Curve(38) == 847710; assert Curve(39) == 908518; assert Curve(40) == 971736;
  }

  lemma Row2Right()
    ensures RowRight(2)
  {

    assert Curve(41) == 1037369; assert Curve(42) == 1105422; assert Curve(43) == 1175896; assert Curve(44) == 1248791; assert Curve(45) == 1324104;
    assert Curve(46) == 1401831; assert Curve(47) == 1481964; assert Curve(48) == 1564495; assert Curve(49) == 1649412; assert Curve(50) == 1736704;
    assert Curve(51) == 1826354; assert Curve(52) == 1918347; assert Curve(53) == 2012664; assert Curve(54) == 2109285; assert Curve(55) == 2208187;
    assert Curve(56) == 2309347; assert Curve(57) == 2412739; assert Curve(58) == 2518336; assert Curve(59) == 2626109; assert Curve(60) == 2736028;
  }

  lemma Row3Right()
    ensures RowRight(3)
  {

    assert Curve(61) == 2848061; assert Curve(62) == 2962174; assert Curve(63) == 3078332; assert Curve(64) == 3196500; assert Curve(65) == 3316639;
    assert Curve(66) == 3438709; assert Curve(67) == 3562672; assert Curve(68) == 3688485; assert Curve(69) == 3816104; assert Curve(70) == 3945487;
    assert Curve(71) == 4076587; assert Curve(72) == 4209358; assert Curve(73) == 4343752; assert Curve(74) == 4479721; assert Curve(75) == 4617216;
    assert Curve(76) == 4756184; assert Curve(77) == 4896576; assert Curve(78) == 5038338; assert Curve(79) == 5181417; assert Curve(80) == 5325759;
  }

  lemma Row4Right()
    ensures RowRight(4)
  {

    assert Curve(81) == 5471309; assert Curve(82) == 5618011; assert Curve(83) == 5765809; assert Curve(84) == 5914645; assert Curve(85) == 6064462;
    assert Curve(86) == 6215202; assert Curve(87) == 6366805; assert Curve(88) == 6519212; assert Curve(89) == 6672363; assert Curve(90) == 6826198;
    assert Curve(91) == 6980655; assert Curve(92) == 7135675; assert Curve(93) == 7291194; assert Curve(94) == 7447152; assert Curve(95) == 7603485;
    assert Curve(96) == 7760133; assert Curve(97) == 7917031; assert Curve(98) == 8074119; assert Curve(99) == 8231332; assert Curve(100) == 8388608;
  }

  lemma Row5Right()
    ensures RowRight(5)
  {

    assert Curve(101) == 8545883; assert Curve(102) == 8703096; assert Curve(103) == 8860184; assert Curve(104) == 9017082; assert Curve(105) == 9173730;
    assert Curve(106) == 9330063; assert Curve(107) == 9486021; assert Curve(108) == 9641540; assert Curve(109) == 9796560; assert Curve(110) == 9951017;
    assert Curve(111) == 10104852; assert Curve(112) == 10258003; assert Curve(113) == 10410410; assert Curve(114) == 10562013; assert Curve(115) == 10712753;
    assert Curve(116) == 10862570; assert Curve(117) == 11011406; assert Curve(118) == 11159204; assert Curve(119) == 11305906; assert Curve(120) == 11451456;
  }

  lemma Row6Right()
    ensures RowRight(6)
  {

    assert Curve(121) == 11595798; assert Curve(122) == 11738877; assert Curve(123) == 11880639; assert Curve(124) == 12021031; assert Curve(125) == 12160000;
    assert Curve(126) == 12297494; assert Curve(127) == 12433463; assert Curve(128) == 12567857; assert Curve(129) == 12700628; assert Curve(130) == 12831728;
    assert Curve(131) == 12961111; assert Curve(132) == 13088730; assert Curve(133) == 13214543; assert Curve(134) == 13338506; assert Curve(135) == 13460576;
    assert Curve(136) == 13580715; assert Curve(137) == 13698883; assert Curve(138) == 13815041; assert Curve(139) == 13929154; assert Curve(140) == 14041187;
  }

  lemma Row7Right()
    ensures RowRight(7)
  {

    assert Curve(141) == 14151106; assert Curve(142) == 14258879; assert Curve(143) == 14364476; assert Curve(144) == 14467868; assert Curve(145) == 14569028;
    assert Curve(146) == 14667930; assert Curve(147) == 14764551; assert Curve(148) == 14858868; assert Curve(149) == 14950861; assert Curve(150) == 15040512;
    assert Curve(151) == 15127803; assert Curve(152) == 15212720; assert Curve(153) == 15295251; assert Curve(154) == 15375384; assert Curve(155) == 15453111;
    assert Curve(156) == 15528424; assert Curve(157) == 15601319; assert Curve(158) == 15671793; assert Curve(159) == 15739846; assert Curve(160) == 15805479;
  }

  lemma Row8Right()
    ensures RowRight(8)
  {

    assert Curve(161) == 15868697; assert Curve(162) == 15929505; assert Curve(163) == 15987911; assert Curve(164) == 16043928; assert Curve(165) == 16097568;
    assert Curve(166) == 16148846; assert Curve(167) == 16197780; assert Curve(168) == 16244392; assert Curve(169) == 16288704; assert Curve(170) == 16330742;
    assert Curve(171) == 16370535; assert Curve(172) == 16408112; assert Curve(173) == 16443508; assert Curve(174) == 16476759; assert Curve(175) == 16507904;
    assert Curve(176) == 16536984; assert Curve(177) == 16564046; assert Curve(178) == 16589135; assert Curve(179) == 16612303; assert Curve(180) == 16633603;
  }

  lemma Row9Right()
    ensures RowRight(9)
  {

    assert Curve(181) == 16653091; assert Curve(182) == 16670826; assert Curve(183) == 16686872; assert Curve(184) == 16701294; assert Curve(185) == 16714160;
    assert Curve(186) == 16725543; assert Curve(187) == 16735517; assert Curve(188) == 16744160; assert Curve(189) == 16751555; assert Curve(190) == 16757785;
    assert Curve(191) == 16762941; assert Curve(192) == 16767112; assert Curve(193) == 16770395; assert Curve(194) == 16772887; assert Curve(195) == 16774691;
    assert Curve(196) == 16775913; assert Curve(197) == 16776662; assert Curve(198) == 16777050; assert Curve(199) == 16777195; assert Curve(200) == 16777216;
  }

  lemma RowsRight(q: nat)
    requires q < 10
    ensures RowRight(q)
  {
    hide RowRight;
    match q {
      case 0 => Row0Right();
      case 1 => Row1Right();
      case 2 => Row2Right();
      case 3 => Row3Right();
      case 4 => Row4Right();
      case 5 => Row5Right();
      case 6 => Row6Right();
      case 7 => Row7Right();
      case 8 => Row8Right();
      case _ => Row9Right();
    }
  }

  /** Every entry of the table is the curve at its step, rounded down. */
  lemma TableIsCurve(i: nat)
    requires i < NSTEPS
    ensures H(i) == Curve(i + 1)
  {
    hide Row, Curve;
    RowsRight(i / 20);
    assert i == 20 * (i / 20) + i % 20;
  }

  /** The table never falls. */
  lemma {:induction false} Rises(i: nat, j: nat)
    requires i <= j < NSTEPS
    ensures H(i) <= H(j)
    decreases j - i
  {
    hide Curve, Row;
    if i < j {
      Rises(i, j - 1);
      var q, k := (j - 1) / 20, (j - 1) % 20;
      RowsRight(q);
      if k < 19 {
        assert j / 20 == q && j % 20 == k + 1;
      } else {
        assert j / 20 == q + 1 && j % 20 == 0;
        Across(q);
      }
    }
  }

  lemma Across(q: nat)
    requires q < 9
    ensures Row(q)[19] <= Row(q + 1)[0]
  {
  }

  /** Its last entry is one, so none is more. */
  lemma AtMostOne(i: nat)
    requires i < NSTEPS
    ensures H(i) <= ONE && H(NSTEPS - 1) == ONE
  {
    hide H;
    Rises(i, NSTEPS - 1);
    LastIsOne();
  }

  lemma LastIsOne()
    ensures H(NSTEPS - 1) == ONE
  {
    assert ROW9[19] == ONE;
  }
}
