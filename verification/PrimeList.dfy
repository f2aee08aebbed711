/** The table sizes of the hash map, and why its probe sequence may rely on them being prime.
  * Each lemma below is a certificate: powers computed six exponent bits at a time, then
  * the criterion they satisfy.
  */
module PrimeList {
  import opened NumberTheory
  import opened Primality

  const PRIMES: seq<nat> := [
    3, 11, 23, 53, 97, 193, 389, 769, 1543, 3079, 6151, 12289, 24593, 49157, 98317, 196613,
    393241, 786433, 1572869, 3145739, 6291469, 12582917, 25165843, 50331653, 100663319,
    201326611, 402653189, 805306457, 1610612741, 3221225473, 4294967291
  ]

  /** The sizes that follow no rule: the three smallest, and the two largest, which are just above three times 2^30 and
    * just below 2^32. */
  lemma OtherSizes()
    ensures |PRIMES| == 31 && PRIMES[..3] == [3, 11, 23]
    ensures PRIMES[29] == 3 * 0x4000_0000 + 1 && PRIMES[30] == 0x1_0000_0000 - 5
  {
  }

  lemma TwoTo12()
    ensures Pow2(11) == 2048 && Pow2(12) == 4096
  {
    PowAdd(2, 6, 5);
    PowAdd(2, 6, 6);
  }

  lemma TwoTo18()
    ensures Pow2(17) == 131072 && Pow2(18) == 262144
  {
    PowAdd(2, 9, 8);
    PowAdd(2, 9, 9);
  }

  lemma Prime1543()
    ensures Prime(1543)
  {
    hide Pow;
    SmallPrime(257);
    var e := Start(2, 1543);
    e := Raise(2, 1543, e, 1, 1, 1, 1, 1, 1, 1, 1, 1, 2, 2);
    e := Raise(2, 1543, e, 2, 4, 64, 1, 177, 1, 855, 2, 303, 4, 1);
    var m := Start(2, 1543);
    m := Raise(2, 1543, m, 1, 1, 1, 1, 1, 1, 1, 2, 2, 4, 64);
    Pocklington(1543, 257, e, m, 64, 49, 0);
  }

  lemma Prime3079()
    ensures Prime(3079)
  {
    hide Pow;
    SmallestPrimes();
    var e := Start(2, 3079);
    e := Raise(2, 3079, e, 1, 1, 1, 1, 1, 1, 1, 1, 1, 8, 8);
    e := Raise(2, 3079, e, 8, 1, 1017, 1, 366, 1, 1150, 2, 1963, 4, 1);
    var m := Start(2, 3079);
    m := Raise(2, 3079, m, 1, 1, 1, 4, 4, 4, 1024, 1, 1132, 4, 1247);
    Pocklington(3079, 19, e, m, 1247, 556, 1);
  }

  lemma Prime6151()
    ensures Prime(6151)
  {
    hide Pow;
    SmallPrime(41);
    var e := Start(2, 6151);
    e := Raise(2, 6151, e, 1, 1, 1, 1, 1, 1, 1, 2, 2, 4, 64);
    e := Raise(2, 6151, e, 64, 1, 3439, 1, 4211, 1, 1187, 2, 2801, 4, 1);
    var m := Start(2, 6151);
    m := Raise(2, 6151, m, 1, 1, 1, 4, 4, 2, 512, 2, 708, 4, 1074);
    Pocklington(6151, 41, e, m, 1074, 4265, 0);
  }

  lemma Prime12289()
    ensures Prime(12289)
  {
    hide Pow;
    TwoTo12();
    hide Pow2;
    var e := Start1(1331, 12289);
    e := Raise(1331, 12289, e, 1331, 1, 10302, 1, 8340, 1, 7311, 1, 4134, 1, 1479);
    e := RaiseBit(1331, 12289, e, 1479, 12288);
    Proth(12289, 12, e, 1331);
  }

  lemma Prime24593()
    ensures Prime(24593)
  {
    hide Pow;
    SmallPrime(53);
    var e := Start(2, 24593);
    e := Raise(2, 24593, e, 1, 1, 1, 1, 1, 2, 2, 4, 64, 1, 4790);
    e := Raise(2, 24593, e, 4790, 1, 13946, 1, 3520, 2, 9350, 1, 24592, 1, 1);
    var m := Start(2, 24593);
    m := Raise(2, 24593, m, 1, 2, 2, 8, 128, 2, 5722, 1, 422, 1, 7906);
    Pocklington(24593, 53, e, m, 7906, 8207, 1);
  }

  lemma Prime49157()
    ensures Prime(49157)
  {
    hide Pow;
    Prime12289();
    var e := Start(2, 49157);
    e := Raise(2, 49157, e, 1, 1, 1, 1, 1, 8, 8, 1, 4096, 1, 17910);
    e := Raise(2, 49157, e, 17910, 1, 35867, 1, 47427, 1, 30494, 2, 11290, 1, 1);
    var m := Start(2, 49157);
    m := Raise(2, 49157, m, 1, 1, 1, 1, 1, 1, 1, 2, 2, 1, 16);
    Pocklington(49157, 12289, e, m, 16, 22940, 0);
  }

  lemma Prime2731()
    ensures Prime(2731)
  {
    hide Pow;
    SmallestPrimes();
    var e := Start(2, 2731);
    e := Raise(2, 2731, e, 1, 1, 1, 1, 1, 1, 1, 1, 1, 4, 4);
    e := Raise(2, 2731, e, 4, 4, 1024, 4, 2723, 4, 2729, 4, 64, 4, 1);
    var m := Start(2, 2731);
    m := Raise(2, 2731, m, 1, 1, 1, 8, 8, 2, 2730, 1, 1, 4, 4);
    Pocklington(2731, 13, e, m, 4, 1821, 1);
  }

  lemma Prime98317()
    ensures Prime(98317)
  {
    hide Pow;
    Prime2731();
    var e := Start(2, 98317);
    e := Raise(2, 98317, e, 1, 1, 1, 2, 2, 4, 64, 1, 63326, 1, 93467);
    e := Raise(2, 98317, e, 93467, 1, 92478, 1, 80715, 1, 82206, 8, 29763, 1, 1);
    var m := Start(2, 98317);
    m := Raise(2, 98317, m, 1, 1, 1, 1, 1, 4, 4, 2, 512, 1, 23050);
    Pocklington(98317, 2731, e, m, 23050, 35353, 0);
  }

  lemma Prime196613()
    ensures Prime(196613)
  {
    hide Pow;
    SmallPrime(199);
    var e := Start(2, 196613);
    e := Raise(2, 196613, e, 1, 1, 1, 8, 8, 1, 4096, 1, 72815, 1, 186288);
    e := Raise(2, 196613, e, 186288, 1, 115637, 1, 65847, 1, 173322, 2, 165784, 1, 1);
    var m := Start(2, 196613);
    m := Raise(2, 196613, m, 1, 8, 8, 8, 32768, 2, 173251, 8, 125463, 1, 182973);
    Pocklington(196613, 199, e, m, 182973, 3661, 1);
  }

  lemma Prime393241()
    ensures Prime(393241)
  {
    hide Pow;
    SmallPrime(113);
    var e := Start(2, 393241);
    e := Raise(2, 393241, e, 1, 2, 2, 4, 64, 1, 261094, 1, 386126, 1, 260413);
    e := Raise(2, 393241, e, 260413, 1, 313308, 1, 119356, 2, 321653, 4, 393240, 1, 1);
    var m := Start(2, 393241);
    m := Raise(2, 393241, m, 1, 1, 1, 1, 1, 1, 1, 1, 1, 8, 8);
    m := Raise(2, 393241, m, 8, 2, 8192, 4, 286660, 2, 86818, 4, 194881, 1, 221573);
    Pocklington(393241, 113, e, m, 221573, 217160, 2);
  }

  lemma Prime786433()
    ensures Prime(786433)
  {
    hide Pow;
    TwoTo18();
    hide Pow2;
    var e := Start1(125, 786433);
    e := Raise(125, 786433, e, 125, 1, 346395, 1, 626681, 1, 176405, 1, 122484, 1, 279886);
    e := RaiseDigit(125, 786433, e, 279886, 1, 189561);
    e := RaiseDigit(125, 786433, e, 189561, 1, 541396);
    e := RaiseDigit(125, 786433, e, 541396, 1, 686408);
    e := RaiseBit(125, 786433, e, 686408, 786432);
    Proth(786433, 18, e, 125);
  }

  lemma Prime35747()
    ensures Prime(35747)
  {
    hide Pow;
    SmallPrime(61);
    var e := Start(2, 35747);
    e := Raise(2, 35747, e, 1, 1, 1, 1, 1, 4, 4, 1, 256, 4, 3972);
    e := Raise(2, 35747, e, 3972, 8, 17108, 4, 5945, 4, 14606, 1, 29284, 4, 1);
    var m := Start(2, 35747);
    m := Raise(2, 35747, m, 1, 4, 4, 2, 512, 1, 15888, 4, 9257, 4, 4789);
    Pocklington(35747, 61, e, m, 4789, 19628, 1);
  }

  lemma Prime1572869()
    ensures Prime(1572869)
  {
    hide Pow;
    Prime35747();
    var e := Start(2, 1572869);
    e := Raise(2, 1572869, e, 1, 1, 1, 1, 1, 1, 1, 1, 1, 2, 2);
    e := Raise(2, 1572869, e, 2, 4, 64, 1, 1048526, 1, 770227, 1, 181047, 1, 1311253);
    e := Raise(2, 1572869, e, 1311253, 1, 346519, 1, 1526072, 1, 1266762, 2, 1204713, 1, 1);
    var m := Start(2, 1572869);
    m := Raise(2, 1572869, m, 1, 1, 1, 1, 1, 4, 4, 8, 2048, 1, 174941);
    Pocklington(1572869, 35747, e, m, 174941, 1325718, 0);
  }

  lemma Prime3145739()
    ensures Prime(3145739)
  {
    hide Pow;
    Prime1572869();
    var e := Start(2, 3145739);
    e := Raise(2, 3145739, e, 1, 1, 1, 1, 1, 1, 1, 1, 1, 8, 8);
    e := Raise(2, 3145739, e, 8, 1, 4096, 1, 1401548, 1, 3035998, 1, 1369162, 1, 1369882);
    e := Raise(2, 3145739, e, 1369882, 1, 661712, 1, 1139827, 1, 316061, 4, 2380116, 4, 1);
    var m := Start(2, 3145739);
    m := Raise(2, 3145739, m, 1, 1, 1, 1, 1, 1, 1, 1, 1, 4, 4);
    Pocklington(3145739, 1572869, e, m, 4, 1048580, 0);
  }

  lemma Prime174763()
    ensures Prime(174763)
  {
    hide Pow;
    SmallestPrimes();
    var e := Start(2, 174763);
    e := Raise(2, 174763, e, 1, 1, 1, 4, 4, 4, 1024, 4, 16, 4, 87381);
    e := Raise(2, 174763, e, 87381, 4, 43691, 4, 166571, 4, 65536, 4, 174251, 4, 1);
    var m := Start(2, 174763);
    m := Raise(2, 174763, m, 1, 1, 1, 1, 1, 1, 1, 4, 4, 1, 256);
    m := Raise(2, 174763, m, 256, 8, 109227, 8, 173739, 4, 16, 8, 174762, 4, 4);
    Pocklington(174763, 19, e, m, 4, 116509, 10);
  }

  lemma Prime6291469()
    ensures Prime(6291469)
  {
    hide Pow;
    Prime174763();
    var e := Start(2, 6291469);
    e := Raise(2, 6291469, e, 1, 1, 1, 1, 1, 1, 1, 2, 2, 4, 64);
    e := Raise(2, 6291469, e, 64, 1, 4194278, 1, 1133580, 1, 4420046, 1, 4357182, 1, 1607328);
    e := Raise(2, 6291469, e, 1607328, 1, 4435340, 1, 6011511, 1, 3794762, 8, 3304258, 1, 1);
    var m := Start(2, 6291469);
    m := Raise(2, 6291469, m, 1, 1, 1, 1, 1, 4, 4, 2, 512, 1, 4052318);
    Pocklington(6291469, 174763, e, m, 4052318, 5534018, 0);
  }

  lemma Prime12582917()
    ensures Prime(12582917)
  {
    hide Pow;
    SmallPrime(727);
    var e := Start(2, 12582917);
    e := Raise(2, 12582917, e, 1, 1, 1, 1, 1, 1, 1, 8, 8, 1, 4096);
    e := Raise(2, 12582917, e, 4096, 1, 5592452, 1, 1320438, 1, 11590158, 1, 9026116, 1, 3428004);
    e := Raise(2, 12582917, e, 3428004, 1, 8025954, 1, 6979767, 1, 3932035, 2, 2818780, 1, 1);
    var m := Start(2, 12582917);
    m := Raise(2, 12582917, m, 1, 1, 1, 1, 1, 2, 2, 1, 16, 1, 65536);
    m := Raise(2, 12582917, m, 65536, 8, 9320670, 4, 1986043, 2, 9782932, 8, 4790605, 1, 529054);
    Pocklington(12582917, 727, e, m, 529054, 6325624, 2);
  }

  lemma Prime16981()
    ensures Prime(16981)
  {
    hide Pow;
    SmallPrime(283);
    var e := Start(2, 16981);
    e := Raise(2, 16981, e, 1, 1, 1, 1, 1, 2, 2, 1, 16, 1, 14593);
    e := Raise(2, 16981, e, 14593, 4, 16954, 2, 10060, 2, 1544, 2, 3788, 1, 1);
    var m := Start(2, 16981);
    m := Raise(2, 16981, m, 1, 1, 1, 1, 1, 8, 8, 8, 15787, 1, 12470);
    Pocklington(16981, 283, e, m, 12470, 12875, 0);
  }

  lemma Prime25165843()
    ensures Prime(25165843)
  {
    hide Pow;
    Prime16981();
    var e := Start(2, 25165843);
    e := Raise(2, 25165843, e, 1, 1, 1, 1, 1, 2, 2, 4, 64, 1, 16777216);
    e := Raise(2, 25165843, e, 16777216, 1, 24880896, 1, 10259798, 1, 22487496, 1, 23265464, 1, 19825969);
    e := Raise(2, 25165843, e, 19825969, 1, 14013863, 1, 14302109, 2, 24875308, 1, 6849995, 4, 1);
    var m := Start(2, 25165843);
    m := Raise(2, 25165843, m, 1, 1, 1, 1, 1, 1, 1, 1, 1, 2, 2);
    m := Raise(2, 25165843, m, 2, 2, 32, 8, 8388608, 1, 1555056, 4, 23565956, 4, 12979417);
    Pocklington(25165843, 16981, e, m, 12979417, 15038212, 0);
  }

  lemma Prime5743()
    ensures Prime(5743)
  {
    hide Pow;
    SmallestPrimes();
    var e := Start(2, 5743);
    e := Raise(2, 5743, e, 1, 1, 1, 1, 1, 1, 1, 2, 2, 2, 32);
    e := Raise(2, 5743, e, 32, 4, 1914, 2, 4325, 4, 2316, 8, 3743, 4, 1);
    var m := Start(2, 5743);
    m := Raise(2, 5743, m, 1, 1, 1, 8, 8, 1, 4096, 2, 2556, 4, 901);
    Pocklington(5743, 29, e, m, 901, 3784, 1);
  }

  lemma Prime50331653()
    ensures Prime(50331653)
  {
    hide Pow;
    Prime5743();
    var e := Start(2, 50331653);
    e := Raise(2, 50331653, e, 1, 1, 1, 1, 1, 8, 8, 1, 4096, 1, 39146844);
    e := Raise(2, 50331653, e, 39146844, 1, 24632728, 1, 3667792, 1, 34695618, 1, 43163696, 1, 21447890);
    e := Raise(2, 50331653, e, 21447890, 1, 11950395, 1, 37928345, 1, 657620, 2, 29003647, 1, 1);
    var m := Start(2, 50331653);
    m := Raise(2, 50331653, m, 1, 1, 1, 1, 1, 1, 1, 4, 4, 1, 256);
    m := Raise(2, 50331653, m, 256, 4, 16775511, 1, 11170518, 8, 17410949, 8, 35315976, 1, 47381548);
    Pocklington(50331653, 5743, e, m, 47381548, 30092760, 0);
  }

  lemma Prime52103()
    ensures Prime(52103)
  {
    hide Pow;
    SmallPrime(239);
    var e := Start(2, 52103);
    e := Raise(2, 52103, e, 1, 1, 1, 1, 1, 8, 8, 1, 4096, 4, 10000);
    e := Raise(2, 52103, e, 10000, 8, 47834, 4, 22517, 1, 2059, 2, 10011, 4, 1);
    var m := Start(2, 52103);
    m := Raise(2, 52103, m, 1, 1, 1, 8, 8, 2, 8192, 4, 3691, 4, 9963);
    Pocklington(52103, 239, e, m, 9963, 33834, 0);
  }

  lemma Prime312619()
    ensures Prime(312619)
  {
    hide Pow;
    Prime52103();
    var e := Start(2, 312619);
    e := Raise(2, 312619, e, 1, 2, 2, 1, 16, 8, 211669, 1, 161310, 2, 98578);
    e := Raise(2, 312619, e, 98578, 2, 165615, 1, 220627, 4, 141292, 4, 133241, 4, 1);
    var m := Start(2, 312619);
    m := Raise(2, 312619, m, 1, 1, 1, 1, 1, 1, 1, 2, 2, 4, 64);
    Pocklington(312619, 52103, e, m, 64, 143904, 0);
  }

  lemma Prime100663319()
    ensures Prime(100663319)
  {
    hide Pow;
    Prime312619();
    var e := Start(2, 100663319);
    e := Raise(2, 100663319, e, 1, 1, 1, 2, 2, 4, 64, 1, 16777216, 1, 13126837);
    e := Raise(2, 100663319, e, 13126837, 1, 46196447, 1, 58274793, 1, 91299918, 1, 64952623, 1, 59401135);
    e := Raise(2, 100663319, e, 59401135, 1, 12153168, 1, 63076946, 2, 17658912, 2, 85016646, 4, 1);
    var m := Start(2, 100663319);
    m := Raise(2, 100663319, m, 1, 2, 2, 2, 32, 1, 1048576, 1, 7442122, 4, 37769703);
    Pocklington(100663319, 312619, e, m, 37769703, 68677938, 0);
  }

  lemma Prime6710887()
    ensures Prime(6710887)
  {
    hide Pow;
    SmallPrime(241);
    var e := Start(2, 6710887);
    e := Raise(2, 6710887, e, 1, 1, 1, 1, 1, 1, 1, 2, 2, 4, 64);
    e := Raise(2, 6710887, e, 64, 2, 6710884, 4, 324, 2, 1368244, 4, 5712452, 2, 4924365);
    e := Raise(2, 6710887, e, 4924365, 4, 1663359, 2, 1986762, 4, 4409989, 2, 6189606, 4, 1);
    var m := Start(2, 6710887);
    m := Raise(2, 6710887, m, 1, 1, 1, 1, 1, 2, 2, 4, 64, 8, 6710875);
    m := Raise(2, 6710887, m, 6710875, 1, 20736, 8, 5212310, 1, 5340523, 2, 1158530, 4, 4521135);
    Pocklington(6710887, 241, e, m, 4521135, 4647176, 5);
  }

  lemma Prime201326611()
    ensures Prime(201326611)
  {
    hide Pow;
    Prime6710887();
    var e := Start(2, 201326611);
    e := Raise(2, 201326611, e, 1, 1, 1, 8, 8, 1, 4096, 1, 40544945, 1, 34201926);
    e := Raise(2, 201326611, e, 34201926, 1, 2927113, 1, 175570346, 1, 18757223, 1, 199192675, 1, 180414564);
    e := Raise(2, 201326611, e, 180414564, 1, 144805510, 1, 152405496, 2, 49896433, 1, 61064002, 4, 1);
    var m := Start(2, 201326611);
    m := Raise(2, 201326611, m, 1, 1, 1, 1, 1, 2, 2, 8, 128, 4, 67108769);
    Pocklington(201326611, 6710887, e, m, 67108769, 101646986, 0);
  }

  lemma Prime1091()
    ensures Prime(1091)
  {
    hide Pow;
    SmallPrime(109);
    var e := Start(2, 1091);
    e := Raise(2, 1091, e, 1, 1, 1, 1, 1, 1, 1, 1, 1, 2, 2);
    e := Raise(2, 1091, e, 2, 1, 16, 2, 152, 1, 155, 1, 529, 4, 1);
    var m := Start(2, 1091);
    m := Raise(2, 1091, m, 1, 1, 1, 1, 1, 1, 1, 4, 4, 4, 1024);
    Pocklington(1091, 109, e, m, 1024, 369, 0);
  }

  lemma Prime402653189()
    ensures Prime(402653189)
  {
    hide Pow;
    Prime1091();
    var e := Start(2, 402653189);
    e := Raise(2, 402653189, e, 1, 2, 2, 4, 64, 1, 16777216, 1, 342849161, 1, 47459180);
    e := Raise(2, 402653189, e, 47459180, 1, 386457855, 1, 4306530, 1, 119532577, 1, 370099054, 1, 126203079);
    e := Raise(2, 402653189, e, 126203079, 1, 302051841, 1, 21704587, 1, 336274933, 2, 167300271, 1, 1);
    var m := Start(2, 402653189);
    m := Raise(2, 402653189, m, 1, 2, 2, 2, 32, 4, 4194304, 4, 74563035, 1, 174849125);
    m := Raise(2, 402653189, m, 174849125, 2, 385202083, 4, 320784395, 4, 350136563, 8, 368498428, 1, 275234938);
    Pocklington(402653189, 1091, e, m, 275234938, 183744784, 9);
  }

  lemma Prime5921371()
    ensures Prime(5921371)
  {
    hide Pow;
    SmallPrime(241);
    var e := Start(2, 5921371);
    e := Raise(2, 5921371, e, 1, 1, 1, 1, 1, 1, 1, 2, 2, 2, 32);
    e := Raise(2, 5921371, e, 32, 4, 4194304, 4, 4525340, 2, 499068, 2, 4695407, 4, 2623781);
    e := Raise(2, 5921371, e, 2623781, 4, 3030085, 2, 5083115, 2, 1305640, 4, 1272802, 4, 1);
    var m := Start(2, 5921371);
    m := Raise(2, 5921371, m, 1, 1, 1, 1, 1, 2, 2, 2, 32, 8, 2467237);
    m := Raise(2, 5921371, m, 2467237, 8, 2697976, 8, 2731946, 8, 281899, 4, 2497955, 4, 5456595);
    Pocklington(5921371, 241, e, m, 5456595, 4692906, 5);
  }

  lemma Prime805306457()
    ensures Prime(805306457)
  {
    hide Pow;
    Prime5921371();
    var e := Start(2, 805306457);
    e := Raise(2, 805306457, e, 1, 8, 8, 1, 4096, 1, 237327731, 1, 22925454, 1, 589815007);
    e := Raise(2, 805306457, e, 589815007, 1, 599995989, 1, 637537342, 1, 630183352, 1, 225883612, 1, 294091793);
    e := Raise(2, 805306457, e, 294091793, 1, 458617542, 2, 140585718, 2, 397730640, 4, 805306456, 1, 1);
    var m := Start(2, 805306457);
    m := Raise(2, 805306457, m, 1, 1, 1, 4, 4, 1, 256, 4, 268433587, 1, 456105428);
    Pocklington(805306457, 5921371, e, m, 456105428, 633581941, 0);
  }

  lemma Prime5233()
    ensures Prime(5233)
  {
    hide Pow;
    SmallPrime(109);
    var e := Start(2, 5233);
    e := Raise(2, 5233, e, 1, 1, 1, 1, 1, 1, 1, 2, 2, 2, 32);
    e := Raise(2, 5233, e, 32, 1, 1976, 2, 3101, 8, 2253, 1, 1, 1, 1);
    var m := Start(2, 5233);
    m := Raise(2, 5233, m, 1, 1, 1, 1, 1, 8, 8, 1, 4096, 1, 427);
    Pocklington(5233, 109, e, m, 427, 3157, 0);
  }

  lemma Prime1610612741()
    ensures Prime(1610612741)
  {
    hide Pow;
    Prime5233();
    var e := Start(2, 1610612741);
    e := Raise(2, 1610612741, e, 1, 1, 1, 1, 1, 1, 1, 1, 1, 2, 2);
    e := Raise(2, 1610612741, e, 2, 4, 64, 1, 16777216, 1, 835130162, 1, 1169759942, 1, 946414092);
    e := Raise(2, 1610612741, e, 946414092, 1, 47583578, 1, 502251690, 1, 1069057528, 1, 827300434, 1, 1246750226);
    e := Raise(2, 1610612741, e, 1246750226, 1, 196387797, 1, 1354400412, 1, 1543138730, 2, 456882646, 1, 1);
    var m := Start(2, 1610612741);
    m := Raise(2, 1610612741, m, 1, 2, 2, 1, 16, 4, 262144, 8, 895148945, 1, 1418923635);
    m := Raise(2, 1610612741, m, 1418923635, 4, 94008770, 2, 705045244, 1, 95532836, 2, 671333911, 1, 1492572786);
    Pocklington(1610612741, 5233, e, m, 1492572786, 290964600, 3);
  }

  /** Every table size up to 1610612741 is prime. */
  lemma AllPrime(i: nat)
    requires i <= 28
    ensures Prime(PRIMES[i])
  {
    hide Prime;
    SmallestPrimes();
    SmallPrime(53);
    SmallPrime(97);
    SmallPrime(193);
    SmallPrime(389);
    SmallPrime(769);
    Prime1543();
    Prime3079();
    Prime6151();
    Prime12289();
    Prime24593();
    Prime49157();
    Prime98317();
    Prime196613();
    Prime393241();
    Prime786433();
    Prime1572869();
    Prime3145739();
    Prime6291469();
    Prime12582917();
    Prime25165843();
    Prime50331653();
    Prime100663319();
    Prime201326611();
    Prime402653189();
    Prime805306457();
    Prime1610612741();
  }
}
