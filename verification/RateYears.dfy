/** The yearly base rates, compounded without bound, as far as year 373. */
module RateYears {
  import opened Units
  import opened LShare

  /** The rate compounded without bound: seven percent a year, rounding down. */
  ghost function Grown(n: nat): int { if n == 0 then GENESIS_SHARE_RATE else Grown(n - 1) * 107 / 100 }

  lemma GrownStep(n: nat)
    ensures Grown(n) >= GENESIS_SHARE_RATE && Grown(n) < Grown(n + 1)
    ensures 100 * Grown(n + 1) <= 107 * Grown(n) < 100 * Grown(n + 1) + 100
    decreases n
  {
    if n > 0 { GrownStep(n - 1); }
    FloorBounds(Grown(n) * 107, 100);
  }

  lemma {:induction false} GrownRises(m: nat, n: nat)
    requires m <= n
    ensures GENESIS_SHARE_RATE <= Grown(m) <= Grown(n)
  {
    GrownStep(m);
    if m < n {
      GrownRises(m, n - 1);
      GrownStep(n - 1);
    }
  }

  // ----- year by year -----

  /** Yearly rates as a certificate: each the floor of seven percent over the one before. */
  datatype Rates = Done | Then(rate: int, more: Rates)

  predicate Follows(years: Rates, r: int) {
    match years
    case Done => true
    case Then(next, more) => 100 * next <= 107 * r < 100 * next + 100 && Follows(more, next)
  }

  function Years(years: Rates): nat { match years case Done => 0 case Then(_, more) => 1 + Years(more) }

  function Latest(years: Rates, r: int): int { match years case Done => r case Then(next, more) => Latest(more, next) }

  lemma {:induction false} FollowedIsGrown(n: nat, years: Rates)
    requires Follows(years, Grown(n))
    ensures Grown(n + Years(years)) == Latest(years, Grown(n))
    decreases years
  {
    match years
    case Done =>
    case Then(next, more) =>
      GrownStep(n);
      FollowedIsGrown(n + 1, more);
  }

  lemma From0To10()
    requires Grown(0) == 100_000_000
    ensures Grown(10) == 196_715_134
  {
    hide Grown;
    FollowedIsGrown(0, Then(107_000_000, Then(114_490_000, Then(122_504_300, Then(131_079_601, Then(140_255_173,
      Then(150_073_035, Then(160_578_147, Then(171_818_617, Then(183_845_920, Then(196_715_134, Done)))))))))));
  }

  lemma From10To20()
    requires Grown(10) == 196_715_134
    ensures Grown(20) == 386_968_435
  {
    hide Grown;
    FollowedIsGrown(10, Then(210_485_193, Then(225_219_156, Then(240_984_496, Then(257_853_410, Then(275_903_148,
      Then(295_216_368, Then(315_881_513, Then(337_993_218, Then(361_652_743, Then(386_968_435, Done)))))))))));
  }

  lemma From20To30()
    requires Grown(20) == 386_968_435
    ensures Grown(30) == 761_225_475
  {
    hide Grown;
    FollowedIsGrown(20, Then(414_056_225, Then(443_040_160, Then(474_052_971, Then(507_236_678, Then(542_743_245,
      Then(580_735_272, Then(621_386_741, Then(664_883_812, Then(711_425_678, Then(761_225_475, Done)))))))))));
  }

  lemma From30To40()
    requires Grown(30) == 761_225_475
    ensures Grown(40) == 1_497_445_721
  {
    hide Grown;
    FollowedIsGrown(30, Then(814_511_258, Then(871_527_046, Then(932_533_939, Then(997_811_314, Then(1_067_658_105,
      Then(1_142_394_172, Then(1_222_361_764, Then(1_307_927_087, Then(1_399_481_983, Then(1_497_445_721,
      Done)))))))))));
  }

  lemma From40To50()
    requires Grown(40) == 1_497_445_721
    ensures Grown(50) == 2_945_702_375
  {
    hide Grown;
    FollowedIsGrown(40, Then(1_602_266_921, Then(1_714_425_605, Then(1_834_435_397, Then(1_962_845_874,
      Then(2_100_245_085, Then(2_247_262_240, Then(2_404_570_596, Then(2_572_890_537, Then(2_752_992_874,
      Then(2_945_702_375, Done)))))))))));
  }

  lemma From50To60()
    requires Grown(50) == 2_945_702_375
    ensures Grown(60) == 5_794_642_420
  {
    hide Grown;
    FollowedIsGrown(50, Then(3_151_901_541, Then(3_372_534_648, Then(3_608_612_073, Then(3_861_214_918,
      Then(4_131_499_962, Then(4_420_704_959, Then(4_730_154_306, Then(5_061_265_107, Then(5_415_553_664,
      Then(5_794_642_420, Done)))))))))));
  }

  lemma From60To70()
    requires Grown(60) == 5_794_642_420
    ensures Grown(70) == 11_398_938_695
  {
    hide Grown;
    FollowedIsGrown(60, Then(6_200_267_389, Then(6_634_286_106, Then(7_098_686_133, Then(7_595_594_162,
      Then(8_127_285_753, Then(8_696_195_755, Then(9_304_929_457, Then(9_956_274_518, Then(10_653_213_734,
      Then(11_398_938_695, Done)))))))))));
  }

  lemma From70To80()
    requires Grown(70) == 11_398_938_695
    ensures Grown(80) == 22_423_437_718
  {
    hide Grown;
    FollowedIsGrown(70, Then(12_196_864_403, Then(13_050_644_911, Then(13_964_190_054, Then(14_941_683_357,
      Then(15_987_601_191, Then(17_106_733_274, Then(18_304_204_603, Then(19_585_498_925, Then(20_956_483_849,
      Then(22_423_437_718, Done)))))))))));
  }

  lemma From80To90()
    requires Grown(80) == 22_423_437_718
    ensures Grown(90) == 44_110_295_938
  {
    hide Grown;
    FollowedIsGrown(80, Then(23_993_078_358, Then(25_672_593_843, Then(27_469_675_412, Then(29_392_552_690,
      Then(31_450_031_378, Then(33_651_533_574, Then(36_007_140_924, Then(38_527_640_788, Then(41_224_575_643,
      Then(44_110_295_938, Done)))))))))));
  }

  lemma From90To100()
    requires Grown(90) == 44_110_295_938
    ensures Grown(100) == 86_771_628_517
  {
    hide Grown;
    FollowedIsGrown(90, Then(47_198_016_653, Then(50_501_877_818, Then(54_037_009_265, Then(57_819_599_913,
      Then(61_866_971_906, Then(66_197_659_939, Then(70_831_496_134, Then(75_789_700_863, Then(81_094_979_923,
      Then(86_771_628_517, Done)))))))))));
  }

  lemma From100To110()
    requires Grown(100) == 86_771_628_517
    ensures Grown(110) == 170_692_926_804
  {
    hide Grown;
    FollowedIsGrown(100, Then(92_845_642_513, Then(99_344_837_488, Then(106_298_976_112, Then(113_739_904_439,
      Then(121_701_697_749, Then(130_220_816_591, Then(139_336_273_752, Then(149_089_812_914, Then(159_526_099_817,
      Then(170_692_926_804, Done)))))))))));
  }

  lemma From110To120()
    requires Grown(110) == 170_692_926_804
    ensures Grown(120) == 335_778_822_636
  {
    hide Grown;
    FollowedIsGrown(110, Then(182_641_431_680, Then(195_426_331_897, Then(209_106_175_129, Then(223_743_607_388,
      Then(239_405_659_905, Then(256_164_056_098, Then(274_095_540_024, Then(293_282_227_825, Then(313_811_983_772,
      Then(335_778_822_636, Done)))))))))));
  }

  lemma From120To130()
    requires Grown(120) == 335_778_822_636
    ensures Grown(130) == 660_527_766_692
  {
    hide Grown;
    FollowedIsGrown(120, Then(359_283_340_220, Then(384_433_174_035, Then(411_343_496_217, Then(440_137_540_952,
      Then(470_947_168_818, Then(503_913_470_635, Then(539_187_413_579, Then(576_930_532_529, Then(617_315_669_806,
      Then(660_527_766_692, Done)))))))))));
  }

  lemma From130To140()
    requires Grown(130) == 660_527_766_692
    ensures Grown(140) == 1_299_358_092_770
  {
    hide Grown;
    FollowedIsGrown(130, Then(706_764_710_360, Then(756_238_240_085, Then(809_174_916_890, Then(865_817_161_072,
      Then(926_424_362_347, Then(991_274_067_711, Then(1_060_663_252_450, Then(1_134_909_680_121,
      Then(1_214_353_357_729, Then(1_299_358_092_770, Done)))))))))));
  }

  lemma From140To150()
    requires Grown(140) == 1_299_358_092_770
    ensures Grown(150) == 2_556_034_035_790
  {
    hide Grown;
    FollowedIsGrown(140, Then(1_390_313_159_263, Then(1_487_635_080_411, Then(1_591_769_536_039,
      Then(1_703_193_403_561, Then(1_822_416_941_810, Then(1_949_986_127_736, Then(2_086_485_156_677,
      Then(2_232_539_117_644, Then(2_388_816_855_879, Then(2_556_034_035_790, Done)))))))))));
  }

  lemma From150To160()
    requires Grown(150) == 2_556_034_035_790
    ensures Grown(160) == 5_028_105_822_776
  {
    hide Grown;
    FollowedIsGrown(150, Then(2_734_956_418_295, Then(2_926_403_367_575, Then(3_131_251_603_305,
      Then(3_350_439_215_536, Then(3_584_969_960_623, Then(3_835_917_857_866, Then(4_104_432_107_916,
      Then(4_391_742_355_470, Then(4_699_164_320_352, Then(5_028_105_822_776, Done)))))))))));
  }

  lemma From160To170()
    requires Grown(160) == 5_028_105_822_776
    ensures Grown(170) == 9_891_045_193_863
  {
    hide Grown;
    FollowedIsGrown(160, Then(5_380_073_230_370, Then(5_756_678_356_495, Then(6_159_645_841_449,
      Then(6_590_821_050_350, Then(7_052_178_523_874, Then(7_545_831_020_545, Then(8_074_039_191_983,
      Then(8_639_221_935_421, Then(9_243_967_470_900, Then(9_891_045_193_863, Done)))))))))));
  }

  lemma From170To180()
    requires Grown(170) == 9_891_045_193_863
    ensures Grown(180) == 19_457_182_978_113
  {
    hide Grown;
    FollowedIsGrown(170, Then(10_583_418_357_433, Then(11_324_257_642_453, Then(12_116_955_677_424,
      Then(12_965_142_574_843, Then(13_872_702_555_082, Then(14_843_791_733_937, Then(15_882_857_155_312,
      Then(16_994_657_156_183, Then(18_184_283_157_115, Then(19_457_182_978_113, Done)))))))))));
  }

  lemma From180To190()
    requires Grown(180) == 19_457_182_978_113
    ensures Grown(190) == 38_275_223_904_419
  {
    hide Grown;
    FollowedIsGrown(180, Then(20_819_185_786_580, Then(22_276_528_791_640, Then(23_835_885_807_054,
      Then(25_504_397_813_547, Then(27_289_705_660_495, Then(29_199_985_056_729, Then(31_243_984_010_700,
      Then(33_431_062_891_449, Then(35_771_237_293_850, Then(38_275_223_904_419, Done)))))))))));
  }

  lemma From190To200()
    requires Grown(190) == 38_275_223_904_419
    ensures Grown(200) == 75_293_158_654_132
  {
    hide Grown;
    FollowedIsGrown(190, Then(40_954_489_577_728, Then(43_821_303_848_168, Then(46_888_795_117_539,
      Then(50_171_010_775_766, Then(53_682_981_530_069, Then(57_440_790_237_173, Then(61_461_645_553_775,
      Then(65_763_960_742_539, Then(70_367_437_994_516, Then(75_293_158_654_132, Done)))))))))));
  }

  lemma From200To210()
    requires Grown(200) == 75_293_158_654_132
    ensures Grown(210) == 148_113_039_241_089
  {
    hide Grown;
    FollowedIsGrown(200, Then(80_563_679_759_921, Then(86_203_137_343_115, Then(92_237_356_957_133,
      Then(98_693_971_944_132, Then(105_602_549_980_221, Then(112_994_728_478_836, Then(120_904_359_472_354,
      Then(129_367_664_635_418, Then(138_423_401_159_897, Then(148_113_039_241_089, Done)))))))))));
  }

  lemma From210To220()
    requires Grown(210) == 148_113_039_241_089
    ensures Grown(220) == 291_360_766_175_385
  {
    hide Grown;
    FollowedIsGrown(210, Then(158_480_951_987_965, Then(169_574_618_627_122, Then(181_444_841_931_020,
      Then(194_145_980_866_191, Then(207_736_199_526_824, Then(222_277_733_493_701, Then(237_837_174_838_260,
      Then(254_485_777_076_938, Then(272_299_781_472_323, Then(291_360_766_175_385, Done)))))))))));
  }

  lemma From220To230()
    requires Grown(220) == 291_360_766_175_385
    ensures Grown(230) == 573_150_726_642_829
  {
    hide Grown;
    FollowedIsGrown(220, Then(311_756_019_807_661, Then(333_578_941_194_197, Then(356_929_467_077_790,
      Then(381_914_529_773_235, Then(408_648_546_857_361, Then(437_253_945_137_376, Then(467_861_721_296_992,
      Then(500_612_041_787_781, Then(535_654_884_712_925, Then(573_150_726_642_829, Done)))))))))));
  }

  lemma From230To240()
    requires Grown(230) == 573_150_726_642_829
    ensures Grown(240) == 1_127_474_229_846_936
  {
    hide Grown;
    FollowedIsGrown(230, Then(613_271_277_507_827, Then(656_200_266_933_374, Then(702_134_285_618_710,
      Then(751_283_685_612_019, Then(803_873_543_604_860, Then(860_144_691_657_200, Then(920_354_820_073_204,
      Then(984_779_657_478_328, Then(1_053_714_233_501_810, Then(1_127_474_229_846_936, Done)))))))))));
  }

  lemma From240To250()
    requires Grown(240) == 1_127_474_229_846_936
    ensures Grown(250) == 2_217_912_461_552_399
  {
    hide Grown;
    FollowedIsGrown(240, Then(1_206_397_425_936_221, Then(1_290_845_245_751_756, Then(1_381_204_412_954_378,
      Then(1_477_888_721_861_184, Then(1_581_340_932_391_466, Then(1_692_034_797_658_868, Then(1_810_477_233_494_988,
      Then(1_937_210_639_839_637, Then(2_072_815_384_628_411, Then(2_217_912_461_552_399, Done)))))))))));
  }

  lemma From250To260()
    requires Grown(250) == 2_217_912_461_552_399
    ensures Grown(260) == 4_362_969_509_092_235
  {
    hide Grown;
    FollowedIsGrown(250, Then(2_373_166_333_861_066, Then(2_539_287_977_231_340, Then(2_717_038_135_637_533,
      Then(2_907_230_805_132_160, Then(3_110_736_961_491_411, Then(3_328_488_548_795_809, Then(3_561_482_747_211_515,
      Then(3_810_786_539_516_321, Then(4_077_541_597_282_463, Then(4_362_969_509_092_235, Done)))))))))));
  }

  lemma From260To270()
    requires Grown(260) == 4_362_969_509_092_235
    ensures Grown(270) == 8_582_621_391_623_772
  {
    hide Grown;
    FollowedIsGrown(260, Then(4_668_377_374_728_691, Then(4_995_163_790_959_699, Then(5_344_825_256_326_877,
      Then(5_718_963_024_269_758, Then(6_119_290_435_968_641, Then(6_547_640_766_486_445, Then(7_005_975_620_140_496,
      Then(7_496_393_913_550_330, Then(8_021_141_487_498_853, Then(8_582_621_391_623_772, Done)))))))))));
  }

  lemma From270To280()
    requires Grown(270) == 8_582_621_391_623_772
    ensures Grown(280) == 16_883_315_319_635_156
  {
    hide Grown;
    FollowedIsGrown(270, Then(9_183_404_889_037_436, Then(9_826_243_231_270_056, Then(10_514_080_257_458_959,
      Then(11_250_065_875_481_086, Then(12_037_570_486_764_762, Then(12_880_200_420_838_295,
      Then(13_781_814_450_296_975, Then(14_746_541_461_817_763, Then(15_778_799_364_145_006,
      Then(16_883_315_319_635_156, Done)))))))))));
  }

  lemma From280To290()
    requires Grown(280) == 16_883_315_319_635_156
    ensures Grown(290) == 33_212_036_646_568_002
  {
    hide Grown;
    FollowedIsGrown(280, Then(18_065_147_392_009_616, Then(19_329_707_709_450_289, Then(20_682_787_249_111_809,
      Then(22_130_582_356_549_635, Then(23_679_723_121_508_109, Then(25_337_303_740_013_676,
      Then(27_110_915_001_814_633, Then(29_008_679_051_941_657, Then(31_039_286_585_577_572,
      Then(33_212_036_646_568_002, Done)))))))))));
  }

  lemma From290To300()
    requires Grown(290) == 33_212_036_646_568_002
    ensures Grown(300) == 65_333_102_967_647_025
  {
    hide Grown;
    FollowedIsGrown(290, Then(35_536_879_211_827_762, Then(38_024_460_756_655_705, Then(40_686_173_009_621_604,
      Then(43_534_205_120_295_116, Then(46_581_599_478_715_774, Then(49_842_311_442_225_878,
      Then(53_331_273_243_181_689, Then(57_064_462_370_204_407, Then(61_058_974_736_118_715,
      Then(65_333_102_967_647_025, Done)))))))))));
  }

  lemma From300To310()
    requires Grown(300) == 65_333_102_967_647_025
    ensures Grown(310) == 128_520_102_178_745_767
  {
    hide Grown;
    FollowedIsGrown(300, Then(69_906_420_175_382_316, Then(74_799_869_587_659_078, Then(80_035_860_458_795_213,
      Then(85_638_370_690_910_877, Then(91_633_056_639_274_638, Then(98_047_370_604_023_862,
      Then(104_910_686_546_305_532, Then(112_254_434_604_546_919, Then(120_112_245_026_865_203,
      Then(128_520_102_178_745_767, Done)))))))))));
  }

  lemma From310To320()
    requires Grown(310) == 128_520_102_178_745_767
    ensures Grown(320) == 252_818_493_439_913_348
  {
    hide Grown;
    FollowedIsGrown(310, Then(137_516_509_331_257_970, Then(147_142_664_984_446_027, Then(157_442_651_533_357_248,
      Then(168_463_637_140_692_255, Then(180_256_091_740_540_712, Then(192_874_018_162_378_561,
      Then(206_375_199_433_745_060, Then(220_821_463_394_107_214, Then(236_278_965_831_694_718,
      Then(252_818_493_439_913_348, Done)))))))))));
  }

  lemma From320To330()
    requires Grown(320) == 252_818_493_439_913_348
    ensures Grown(330) == 497_332_242_518_228_603
  {
    hide Grown;
    FollowedIsGrown(320, Then(270_515_787_980_707_282, Then(289_451_893_139_356_791, Then(309_713_525_659_111_766,
      Then(331_393_472_455_249_589, Then(354_591_015_527_117_060, Then(379_412_386_614_015_254,
      Then(405_971_253_676_996_321, Then(434_389_241_434_386_063, Then(464_796_488_334_793_087,
      Then(497_332_242_518_228_603, Done)))))))))));
  }

  lemma From330To340()
    requires Grown(330) == 497_332_242_518_228_603
    ensures Grown(340) == 978_327_795_893_596_659
  {
    hide Grown;
    FollowedIsGrown(330, Then(532_145_499_494_504_605, Then(569_395_684_459_119_927, Then(609_253_382_371_258_321,
      Then(651_901_119_137_246_403, Then(697_534_197_476_853_651, Then(746_361_591_300_233_406,
      Then(798_606_902_691_249_744, Then(854_509_385_879_637_226, Then(914_325_042_891_211_831,
      Then(978_327_795_893_596_659, Done)))))))))));
  }

  lemma From340To350()
    requires Grown(340) == 978_327_795_893_596_659
    ensures Grown(350) == 1_924_518_851_566_197_493
  {
    hide Grown;
    FollowedIsGrown(340, Then(1_046_810_741_606_148_425, Then(1_120_087_493_518_578_814,
      Then(1_198_493_618_064_879_330, Then(1_282_388_171_329_420_883, Then(1_372_155_343_322_480_344,
      Then(1_468_206_217_355_053_968, Then(1_570_980_652_569_907_745, Then(1_680_949_298_249_801_287,
      Then(1_798_615_749_127_287_377, Then(1_924_518_851_566_197_493, Done)))))))))));
  }

  lemma From350To360()
    requires Grown(350) == 1_924_518_851_566_197_493
    ensures Grown(360) == 3_785_819_870_987_800_890
  {
    hide Grown;
    FollowedIsGrown(350, Then(2_059_235_171_175_831_317, Then(2_203_381_633_158_139_509,
      Then(2_357_618_347_479_209_274, Then(2_522_651_631_802_753_923, Then(2_699_237_246_028_946_697,
      Then(2_888_183_853_250_972_965, Then(3_090_356_722_978_541_072, Then(3_306_681_693_587_038_947,
      Then(3_538_149_412_138_131_673, Then(3_785_819_870_987_800_890, Done)))))))))));
  }

  lemma From360To370()
    requires Grown(360) == 3_785_819_870_987_800_890
    ensures Grown(370) == 7_447_280_697_667_459_596
  {
    hide Grown;
    FollowedIsGrown(360, Then(4_050_827_261_956_946_952, Then(4_334_385_170_293_933_238,
      Then(4_637_792_132_214_508_564, Then(4_962_437_581_469_524_163, Then(5_309_808_212_172_390_854,
      Then(5_681_494_787_024_458_213, Then(6_079_199_422_116_170_287, Then(6_504_743_381_664_302_207,
      Then(6_960_075_418_380_803_361, Then(7_447_280_697_667_459_596, Done)))))))))));
  }

  lemma From370To373()
    requires Grown(370) == 7_447_280_697_667_459_596
    ensures Grown(373) == 9_123_239_087_712_637_704
  {
    hide Grown;
    FollowedIsGrown(370, Then(7_968_590_346_504_181_767, Then(8_526_391_670_759_474_490,
      Then(9_123_239_087_712_637_704, Done))));
  }

  /** Year 373, the last whose rate is an Amount. */
  lemma Year373()
    ensures Grown(373) == 9_123_239_087_712_637_704
  {
    assert Grown(0) == GENESIS_SHARE_RATE;
    hide Grown;
    From0To10(); From10To20(); From20To30(); From30To40(); From40To50(); From50To60(); From60To70(); From70To80();
    From80To90(); From90To100(); From100To110(); From110To120(); From120To130(); From130To140(); From140To150();
    From150To160(); From160To170(); From170To180(); From180To190(); From190To200(); From200To210(); From210To220();
    From220To230(); From230To240(); From240To250(); From250To260(); From260To270(); From270To280(); From280To290();
    From290To300(); From300To310(); From310To320(); From320To330(); From330To340(); From340To350(); From350To360();
    From360To370(); From370To373();
  }
}
