/** The multiplicative group modulo 2^61 - 1: its order and that order's prime factors, and which powers
  * of 37 generate it.
  */
module PolymurGroup {
  import opened NumberTheory
  import opened Primality

  const P611 := 0x1FFF_FFFF_FFFF_FFFF

  // ---------- The order ----------

  ghost predicate Coprime(a: nat, b: nat)
  {
    forall d :: 2 <= d && Divides(d, a) ==> !Divides(d, b)
  }

  lemma PeelFactor(q: nat, p: nat, rest: nat)
    requires Prime(q) && Prime(p) && Divides(q, p * rest)
    ensures q == p || Divides(q, rest)
  {
    Euclid(q, p, rest);
    if Divides(q, p) {
      DividesBound(q, p);
    }
  }

  lemma OrderPrimes()
    ensures forall p :: p in [2, 3, 5, 7, 11, 13, 31, 41, 61, 151, 331, 1321] ==> Prime(p)
  {
    hide Prime;
    SmallestPrimes();
    SmallPrime(41);
    SmallPrime(61);
    SmallPrime(151);
    SmallPrime(331);
    SmallPrime(1321);
  }

  /** The prime factors of the order 2^61 - 2 of the multiplicative group. */
  lemma OrderFactors(q: nat)
    requires Prime(q) && Divides(q, P611 - 1)
    ensures q in [2, 3, 5, 7, 11, 13, 31, 41, 61, 151, 331, 1321]
  {
    OrderPrimes();
    hide Prime, Divides;
    PeelFactor(q, 2, 1152921504606846975);
    if q == 2 {
      return;
    }
    PeelFactor(q, 3, 384307168202282325);
    if q == 3 {
      return;
    }
    PeelFactor(q, 3, 128102389400760775);
    if q == 3 {
      return;
    }
    PeelFactor(q, 5, 25620477880152155);
    if q == 5 {
      return;
    }
    PeelFactor(q, 5, 5124095576030431);
    if q == 5 {
      return;
    }
    PeelFactor(q, 7, 732013653718633);
    if q == 7 {
      return;
    }
    PeelFactor(q, 11, 66546695792603);
    if q == 11 {
      return;
    }
    PeelFactor(q, 13, 5118976599431);
    if q == 13 {
      return;
    }
    PeelFactor(q, 31, 165128277401);
    if q == 31 {
      return;
    }
    PeelFactor(q, 41, 4027518961);
    if q == 41 {
      return;
    }
    PeelFactor(q, 61, 66024901);
    if q == 61 {
      return;
    }
    PeelFactor(q, 151, 437251);
    if q == 151 {
      return;
    }
    PeelFactor(q, 331, 1321);
    if q == 331 {
      return;
    }
    PeelFactor(q, 1321, 1);
    NotDivisorOfOne(q);
  }

  lemma NotDivisorOfOne(q: nat)
    requires Prime(q)
    ensures !Divides(q, 1)
  {
    ModUnique(1, 0, 1, q);
  }

  lemma OrderDivisors()
    ensures forall p :: p in [3, 5, 7, 11, 13, 31, 41, 61, 151, 331, 1321] ==> Divides(p, P611 - 1)
  {
    forall p | p in [3, 5, 7, 11, 13, 31, 41, 61, 151, 331, 1321] ensures Divides(p, P611 - 1) {
      assert (P611 - 1) % p == 0;
    }
  }

  // ---------- Orders of elements ----------

  /** If two powers are one, so is that to a common divisor of the exponents. */
  lemma {:induction false} CommonPeriod(p: int, b: int, x: nat, y: nat) returns (h: nat)
    requires p > 1 && x > 0 && y > 0 && Cong(Pow(b, x), 1, p) && Cong(Pow(b, y), 1, p)
    ensures h > 0 && Divides(h, x) && Divides(h, y) && Cong(Pow(b, h), 1, p)
    decreases y
  {
    hide Pow, Cong;
    var r := x % y;
    var t := x / y;
    assert x == y * t + r;
    if r == 0 {
      h := y;
      DividesIntro(y, x, t);
      DividesIntro(y, y, 1);
    } else {
      PowRemainder(p, b, x, y);
      CongTrans(Pow(b, r), Pow(b, x), 1, p);
      h := CommonPeriod(p, b, y, r);
      var u := DividesElim(h, y);
      var v := DividesElim(h, r);
      MulAssoc(h, u, t);
      assert h * (u * t + v) == h * (u * t) + h * v;
      DividesIntro(h, x, u * t + v);
    }
  }

  /** No power below the `n`-th is one, if none to a quotient of `n` by a prime is. */
  lemma NoSmallerPeriod(p: int, b: int, n: nat, d: nat)
    requires p > 1 && Cong(Pow(b, n), 1, p)
    requires forall q: nat, m: nat :: Prime(q) && q * m == n ==> !Cong(Pow(b, m), 1, p)
    requires 0 < d < n
    ensures !Cong(Pow(b, d), 1, p)
  {
    hide Pow, Cong, Prime, Divides;
    if Cong(Pow(b, d), 1, p) {
      var h := CommonPeriod(p, b, n, d);
      var t := DividesElim(h, n);
      DividesBound(h, d);
      LargeCofactor(h, t, n);
      var q := PrimeDivisor(t);
      var u := DividesElim(q, t);
      PositiveCofactor(q, u, t);
      MulAssoc(q, u, h);
      assert q * (h * u) == n;
      PeriodTimes(p, b, h, u);
    }
  }

  lemma LargeCofactor(h: nat, t: int, n: nat)
    requires n == h * t && h < n
    ensures t >= 2
  {
    if t <= 1 {
      MulMonotone(t, 1, h);
    }
  }

  lemma PositiveCofactor(q: nat, u: int, t: nat)
    requires q > 0 && t > 0 && t == q * u
    ensures u > 0
  {
    if u <= 0 {
      MulMonotone(u, 0, q);
    }
  }

  lemma PeriodTimes(p: int, b: int, h: nat, u: nat)
    requires p > 1 && Cong(Pow(b, h), 1, p)
    ensures Cong(Pow(b, h * u), 1, p)
  {
    hide Pow, Cong;
    PowMul(b, h, u);
    CongPow(Pow(b, h), 1, u, p);
    PowOne(u);
  }

  // ---------- Generators ----------

  /** The powers of `b` come back to one after 2^61 - 2 steps and not before. */
  ghost predicate Generates(b: int)
  {
    && Cong(Pow(b, P611 - 1), 1, P611)
    && forall d: nat :: 0 < d < P611 - 1 ==> !Cong(Pow(b, d), 1, P611)
  }

  ghost predicate IsPower(b: int, a: int)
  {
    exists i: nat :: i < P611 - 1 && Cong(Pow(b, i), a, P611)
  }

  lemma Power2() returns (e: nat)
    ensures e * 2 == P611 - 1 && Cong(Pow(37, e), 2305843009213693950, P611)
  {
    hide Pow, Cong;
    e := Start(37, 2305843009213693951);
    e := Raise(37, 2305843009213693951, e, 1, 50653, 50653, 50653, 616232432238528334,
               50653, 2160247207917981979, 50653, 17559955930831155, 50653, 1620483921678490712);
    assert e == 1023;
    e := Raise(37, 2305843009213693951, e, 1620483921678490712, 50653, 1257334999016106904, 50653, 1027037413379420476,
               50653, 1031382600202606767, 50653, 1724925218690992514, 50653, 1099677923156926765);
    assert e == 1048575;
    e := Raise(37, 2305843009213693951, e, 1099677923156926765, 50653, 1605244839025374608, 50653, 183149001584008162,
               50653, 1746942060528806933, 50653, 376432223738409504, 50653, 1448294951189675369);
    assert e == 1073741823;
    e := Raise(37, 2305843009213693951, e, 1448294951189675369, 50653, 1199192266751270169, 50653, 480090538363525378,
               50653, 455104342175505871, 50653, 2045727898986795046, 50653, 1568695384996601055);
    assert e == 1099511627775;
    e := Raise(37, 2305843009213693951, e, 1568695384996601055, 50653, 1858495172298561556, 50653, 886333699051663696,
               50653, 1470276502997402596, 50653, 1414835963212151744, 50653, 986900387641965560);
    assert e == 1125899906842623;
    e := Raise(37, 2305843009213693951, e, 986900387641965560, 50653, 2232011143292030077, 50653, 1761649932630505639,
               50653, 240463311600167310, 50653, 445201096132025520, 50653, 2305843009213693950);
    assert e == 1152921504606846975;
  }

  lemma Power3() returns (e: nat)
    ensures e * 3 == P611 - 1 && Cong(Pow(37, e), 1669582390241348315, P611)
  {
    hide Pow, Cong;
    e := Start(37, 2305843009213693951);
    e := Raise(37, 2305843009213693951, e, 1, 1369, 1369, 1369, 4808584372417849,
               1369, 894912350165519413, 1369, 701131434997227562, 1369, 2036605303778127185);
    assert e == 682;
    e := Raise(37, 2305843009213693951, e, 2036605303778127185, 1369, 321343956040114611, 1369, 812136621146772022,
               1369, 1020017986162963204, 1369, 1533194195838376616, 1369, 155718072700530028);
    assert e == 699050;
    e := Raise(37, 2305843009213693951, e, 155718072700530028, 1369, 1047606006045650792, 1369, 1571764092410258675,
               1369, 442915905711901952, 1369, 1870461278028150258, 1369, 621721964039512615);
    assert e == 715827882;
    e := Raise(37, 2305843009213693951, e, 621721964039512615, 1369, 1489167355912447362, 1369, 923195156908011831,
               1369, 144926145359869064, 1369, 538461566152087671, 1369, 443787270311340831);
    assert e == 733007751850;
    e := Raise(37, 2305843009213693951, e, 443787270311340831, 1369, 1872168366718845815, 1369, 856854973097751333,
               1369, 2139670068156871055, 1369, 1777883566789543120, 1369, 1764762195221922132);
    assert e == 750599937895082;
    e := Raise(37, 2305843009213693951, e, 1764762195221922132, 1369, 1666146269762060579, 1369, 796481924047603137,
               1369, 2159224437699580815, 1369, 1600724798789556215, 1369, 1669582390241348315);
    assert e == 768614336404564650;
  }

  lemma Power5() returns (e: nat)
    ensures e * 5 == P611 - 1 && Cong(Pow(37, e), 725554454131936870, P611)
  {
    hide Pow, Cong;
    e := Start(37, 2305843009213693951);
    e := Raise(37, 2305843009213693951, e, 1, 37, 37, 1369, 2565726409,
               37, 915504708845722669, 1369, 92200521201836915, 37, 1876819355796539757);
    assert e == 409;
    e := Raise(37, 2305843009213693951, e, 1876819355796539757, 1369, 985893244345592266, 37, 849375002608753636,
               1369, 2153848202027799961, 37, 757857164750225696, 1369, 1603459955069609960);
    assert e == 419430;
    e := Raise(37, 2305843009213693951, e, 1603459955069609960, 37, 2218240285619047117, 1369, 426225928886305857,
               37, 1348074076142896630, 1369, 1067724814112099242, 37, 1330812745571184744);
    assert e == 429496729;
    e := Raise(37, 2305843009213693951, e, 1330812745571184744, 1369, 354488523461011054, 37, 95894439443205505,
               1369, 1592424462823494453, 37, 2202822284596980473, 1369, 740722046356123805);
    assert e == 439804651110;
    e := Raise(37, 2305843009213693951, e, 740722046356123805, 37, 1233538856747676243, 1369, 1324937114391066770,
               37, 23494523124286629, 1369, 437123442137237322, 37, 1768951835778280956);
    assert e == 450359962737049;
    e := Raise(37, 2305843009213693951, e, 1768951835778280956, 1369, 629618497200666380, 37, 1918469001560784304,
               1369, 223547569593002926, 37, 205404870913749255, 1369, 725554454131936870);
    assert e == 461168601842738790;
  }

  lemma Power7() returns (e: nat)
    ensures e * 7 == P611 - 1 && Cong(Pow(37, e), 1165310750493918737, P611)
  {
    hide Pow, Cong;
    e := Start(37, 2305843009213693951);
    e := Raise(37, 2305843009213693951, e, 1, 37, 37, 1, 1874161,
               1369, 2130417461614381366, 37, 858152069665194845, 1, 1782283889081069979);
    assert e == 292;
    e := Raise(37, 2305843009213693951, e, 1782283889081069979, 1369, 1017010712830157597, 37, 1125493316848410422,
               1, 1140820669172755891, 1369, 2210526432403221929, 37, 1324169013180806697);
    assert e == 299593;
    e := Raise(37, 2305843009213693951, e, 1324169013180806697, 1, 263882281454515095, 1369, 1813160678559705135,
               37, 675593686596135514, 1, 1351678081686781950, 1369, 240322821650746190);
    assert e == 306783378;
    e := Raise(37, 2305843009213693951, e, 240322821650746190, 37, 1954166566710201998, 1, 1625591862248997925,
               1369, 1025243051829880922, 37, 178161760022695398, 1, 783334626309882785);
    assert e == 314146179364;
    e := Raise(37, 2305843009213693951, e, 783334626309882785, 1369, 726651492048093752, 37, 358558050878135597,
               1, 1691288877370869632, 1369, 2174886491362978632, 37, 1731182392199903490);
    assert e == 321685687669321;
    e := Raise(37, 2305843009213693951, e, 1731182392199903490, 1, 2287148315999403586, 1369, 2042291364917644111,
               37, 326350606751194651, 1, 733037796054824281, 1369, 1165310750493918737);
    assert e == 329406144173384850;
  }

  lemma Power11() returns (e: nat)
    ensures e * 11 == P611 - 1 && Cong(Pow(37, e), 2266698407988980144, P611)
  {
    hide Pow, Cong;
    e := Start(37, 2305843009213693951);
    e := Raise(37, 2305843009213693951, e, 1, 1, 1, 1369, 1369,
               50653, 177917621779460413, 1369, 1877957767818366770, 1369, 697523968445991094);
    assert e == 186;
    e := Raise(37, 2305843009213693951, e, 697523968445991094, 1, 2274838273068976938, 1369, 855035248970970729,
               50653, 557660086910509705, 1369, 1154579138022930181, 1369, 1271571176372171503);
    assert e == 190650;
    e := Raise(37, 2305843009213693951, e, 1271571176372171503, 1, 71806490447180870, 1369, 1437811543577044739,
               50653, 1191781959706309946, 1369, 1319786045772048689, 1369, 1045216788358217664);
    assert e == 195225786;
    e := Raise(37, 2305843009213693951, e, 1045216788358217664, 1, 1661426788452037322, 1369, 1484581175454174194,
               50653, 2247922707053137514, 1369, 1719898029715368329, 1369, 681425966999145222);
    assert e == 199911205050;
    e := Raise(37, 2305843009213693951, e, 681425966999145222, 1, 1722704865526871423, 1369, 1170260398115875869,
               50653, 849782993975085613, 1369, 620138466931819316, 1369, 925417023639135397);
    assert e == 204709073971386;
    e := Raise(37, 2305843009213693951, e, 925417023639135397, 1, 1476233550525144340, 1369, 67019338146649427,
               50653, 574387842453315891, 1369, 1642673409062649626, 1369, 2266698407988980144);
    assert e == 209622091746699450;
  }

  lemma Power13() returns (e: nat)
    ensures e * 13 == P611 - 1 && Cong(Pow(37, e), 1032504562576723207, P611)
  {
    hide Pow, Cong;
    e := Start(37, 2305843009213693951);
    e := Raise(37, 2305843009213693951, e, 1, 1, 1, 1369, 1369,
               37, 129961739795077, 50653, 2134332505465307216, 37, 2010971979925150972);
    assert e == 157;
    e := Raise(37, 2305843009213693951, e, 2010971979925150972, 1369, 2129910550479417964, 1, 2092542480037908298,
               1369, 2116837273049637694, 37, 322249982928942277, 50653, 357530930724110154);
    assert e == 161319;
    e := Raise(37, 2305843009213693951, e, 357530930724110154, 37, 104331027905246157, 1369, 1854278429927242186,
               1, 52216996662813566, 1369, 2186252600791618047, 37, 775757113446050456);
    assert e == 165191049;
    e := Raise(37, 2305843009213693951, e, 775757113446050456, 50653, 1708180591397925930, 37, 1955552616238515249,
               1369, 1313607248510892221, 1, 2006575309144750265, 1369, 1008254015338213925);
    assert e == 169155635042;
    e := Raise(37, 2305843009213693951, e, 1008254015338213925, 37, 1803297852659617165, 50653, 1715529329136554471,
               37, 170645822325267524, 1369, 1563811603622147650, 1, 185707662480029622);
    assert e == 173215370283480;
    e := Raise(37, 2305843009213693951, e, 185707662480029622, 1369, 97310095717551342, 37, 1039081179817346827,
               50653, 302931652638852063, 37, 1228636871493548134, 1369, 1032504562576723207);
    assert e == 177372539170284150;
  }

  lemma Power31() returns (e: nat)
    ensures e * 31 == P611 - 1 && Cong(Pow(37, e), 484083891529811867, P611)
  {
    hide Pow, Cong;
    e := Start(37, 2305843009213693951);
    e := Raise(37, 2305843009213693951, e, 1, 1, 1, 37, 37,
               1, 1874161, 1, 2048012909902302799, 1369, 1527663442908431533);
    assert e == 66;
    e := Raise(37, 2305843009213693951, e, 1527663442908431533, 1, 1770736616454408763, 37, 2270998359986834751,
               1, 1247246905716300463, 1, 1778766330295578444, 1369, 105149161975553391);
    assert e == 67650;
    e := Raise(37, 2305843009213693951, e, 105149161975553391, 1, 2141973794995425617, 37, 1591872804477563524,
               1, 1293616430510614620, 1, 2060395795810129725, 1369, 772502744357113388);
    assert e == 69273666;
    e := Raise(37, 2305843009213693951, e, 772502744357113388, 1, 2154426754225061081, 37, 798714873386485544,
               1, 789645259658297330, 1, 1068040130857115079, 1369, 1202692236257763325);
    assert e == 70936234050;
    e := Raise(37, 2305843009213693951, e, 1202692236257763325, 1, 1451836919962698950, 37, 1328749747719066753,
               1, 1895351187208706988, 1, 193353082106618050, 1369, 789523400171074996);
    assert e == 72638703667266;
    e := Raise(37, 2305843009213693951, e, 789523400171074996, 1, 1944991342902115162, 37, 1456438557475723704,
               1, 646757903979545203, 1, 946354789294685549, 1369, 484083891529811867);
    assert e == 74382032555280450;
  }

  lemma Power41() returns (e: nat)
    ensures e * 41 == P611 - 1 && Cong(Pow(37, e), 1562651311446036838, P611)
  {
    hide Pow, Cong;
    e := Start(37, 2305843009213693951);
    e := Raise(37, 2305843009213693951, e, 1, 1, 1, 1, 1,
               50653, 50653, 1, 1971265987412647379, 37, 1253154211215440207);
    assert e == 49;
    e := Raise(37, 2305843009213693951, e, 1253154211215440207, 50653, 1280571195406621519, 50653, 130349614386036013,
               1, 219284513808312053, 50653, 1869859796848899022, 1369, 1694490217473059922);
    assert e == 51150;
    e := Raise(37, 2305843009213693951, e, 1694490217473059922, 1, 1760593197219293682, 1, 75927683510047834,
               50653, 1923927486642197054, 1, 942568288739213058, 37, 1924007716517896129);
    assert e == 52377649;
    e := Raise(37, 2305843009213693951, e, 1924007716517896129, 50653, 741346349486903901, 50653, 476740428229829238,
               1, 676129879129388771, 50653, 754477826986342222, 1369, 408742850539445589);
    assert e == 53634713550;
    e := Raise(37, 2305843009213693951, e, 408742850539445589, 1, 586375320340701312, 1, 1975295031131489547,
               50653, 90756861761671894, 1, 473806973239797212, 37, 145686032112531244);
    assert e == 54921946675249;
    e := Raise(37, 2305843009213693951, e, 145686032112531244, 50653, 142296816424993714, 50653, 1454763020008003839,
               1, 496148108913520374, 50653, 2038003554434167336, 1369, 1562651311446036838);
    assert e == 56240073395455950;
  }

  lemma Power61() returns (e: nat)
    ensures e * 61 == P611 - 1 && Cong(Pow(37, e), 35184372088832, P611)
  {
    hide Pow, Cong;
    e := Start(37, 2305843009213693951);
    e := Raise(37, 2305843009213693951, e, 1, 1, 1, 1, 1,
               1369, 1369, 1, 3512479453921, 37, 2166288977810054328);
    assert e == 33;
    e := Raise(37, 2305843009213693951, e, 2166288977810054328, 1369, 213441193572793910, 37, 957141291894918330,
               1, 1754931456696949085, 1369, 988107137094789728, 50653, 2163348570006373358);
    assert e == 34379;
    e := Raise(37, 2305843009213693951, e, 2163348570006373358, 1369, 2110217161857988208, 1, 687323875882474714,
               1369, 188538334095871618, 1369, 413753822477507423, 37, 1044507673453721203);
    assert e == 35204649;
    e := Raise(37, 2305843009213693951, e, 1044507673453721203, 50653, 1801089224994533444, 50653, 995437048177928506,
               37, 290440402385712906, 50653, 363377260186073550, 1369, 1841344606183256171);
    assert e == 36049561566;
    e := Raise(37, 2305843009213693951, e, 1841344606183256171, 37, 345791200442962668, 1369, 1609429910656894110,
               50653, 1181731694210734698, 37, 2248483136618441896, 1, 812941661938990639);
    assert e == 36914751044020;
    e := Raise(37, 2305843009213693951, e, 812941661938990639, 37, 909303406603622929, 50653, 400923851680376097,
               37, 405263573606771781, 37, 890332301824759925, 1369, 35184372088832);
    assert e == 37800705069076950;
  }

  lemma Power151() returns (e: nat)
    ensures e * 151 == P611 - 1 && Cong(Pow(37, e), 1433721343585656393, P611)
  {
    hide Pow, Cong;
    e := Start(37, 2305843009213693951);
    e := Raise(37, 2305843009213693951, e, 1, 1, 1, 1, 1,
               1, 1, 50653, 50653, 37, 1455708248643440542);
    assert e == 13;
    e := Raise(37, 2305843009213693951, e, 1455708248643440542, 1369, 1091349452027953358, 37, 1077878270572361752,
               1, 376923711229537248, 1, 37728920620822630, 1, 921623718492395228);
    assert e == 13888;
    e := Raise(37, 2305843009213693951, e, 921623718492395228, 37, 1418872290238940714, 1369, 2074582478826140785,
               50653, 314151073509115673, 1, 1255962243698527563, 1369, 1720169769625558843);
    assert e == 14221746;
    e := Raise(37, 2305843009213693951, e, 1720169769625558843, 1, 487123809281246237, 1, 404490060077652709,
               1, 2252932632060201894, 50653, 1631041166378516586, 37, 2149958194760359179);
    assert e == 14563067917;
    e := Raise(37, 2305843009213693951, e, 2149958194760359179, 1369, 536697731232903470, 37, 95364367546960113,
               1, 953472430199435278, 1, 86416242946414448, 1, 2112679117412952014);
    assert e == 14912581547584;
    e := Raise(37, 2305843009213693951, e, 2112679117412952014, 37, 408254041272210791, 1369, 1511142429613439500,
               50653, 1409204355254039165, 1, 904830826465624872, 1369, 1433721343585656393);
    assert e == 15270483504726450;
  }

  lemma Power331() returns (e: nat)
    ensures e * 331 == P611 - 1 && Cong(Pow(37, e), 185945230422323302, P611)
  {
    hide Pow, Cong;
    e := Start(37, 2305843009213693951);
    e := Raise(37, 2305843009213693951, e, 1, 1, 1, 1, 1,
               1, 1, 37, 37, 1369, 2565726409);
    assert e == 6;
    e := Raise(37, 2305843009213693951, e, 2565726409, 1, 398663858489942875, 1369, 1639602719609543274,
               50653, 1581628365781689195, 50653, 2065047843979438749, 50653, 936045626837881794);
    assert e == 6335;
    e := Raise(37, 2305843009213693951, e, 936045626837881794, 50653, 664791449394490029, 1, 397443731981868493,
               50653, 1015050315073746930, 1369, 787350629361550336, 1369, 887286010314584401);
    assert e == 6487866;
    e := Raise(37, 2305843009213693951, e, 887286010314584401, 1, 1478640314050531428, 1, 1719990106134480839,
               1, 1813308835624495303, 37, 996529838252725439, 1369, 1226371963323455181);
    assert e == 6643574790;
    e := Raise(37, 2305843009213693951, e, 1226371963323455181, 1, 1743686887285837804, 1369, 1651396226218083413,
               50653, 1165820085208611822, 50653, 2234971198286029566, 50653, 1278156668695897595);
    assert e == 6803020585151;
    e := Raise(37, 2305843009213693951, e, 1278156668695897595, 50653, 314881196813803081, 1, 693625213112729168,
               50653, 1899314672277124482, 1369, 1073986377252543548, 1369, 185945230422323302);
    assert e == 6966293079195450;
  }

  lemma Power1321() returns (e: nat)
    ensures e * 1321 == P611 - 1 && Cong(Pow(37, e), 30210013857155493, P611)
  {
    hide Pow, Cong;
    e := Start(37, 2305843009213693951);
    e := Raise(37, 2305843009213693951, e, 1, 1, 1, 1, 1,
               1, 1, 1, 1, 37, 37);
    assert e == 1;
    e := Raise(37, 2305843009213693951, e, 37, 1369, 2565726409, 1, 398663858489942875,
               50653, 713382385997058412, 1, 874174303580151440, 50653, 1462720670361678394);
    assert e == 1587;
    e := Raise(37, 2305843009213693951, e, 1462720670361678394, 1369, 621497757265893580, 1, 53350045692349326,
               50653, 2288678211812649998, 1, 2292940126354470532, 37, 2205404421398165623);
    assert e == 1625649;
    e := Raise(37, 2305843009213693951, e, 2205404421398165623, 50653, 990383470022917481, 50653, 1526705269841816002,
               50653, 1957841165473713867, 50653, 1538526906800861084, 1369, 63253708693872176);
    assert e == 1664665598;
    e := Raise(37, 2305843009213693951, e, 63253708693872176, 37, 900154906466593628, 50653, 974336029773150391,
               1, 1028174308127840095, 50653, 1861871283221949698, 1, 1780674643128744138);
    assert e == 1704617572812;
    e := Raise(37, 2305843009213693951, e, 1780674643128744138, 37, 739753190498860754, 50653, 1949687190117542660,
               1, 2108306817830658923, 50653, 1286955239450888582, 1369, 30210013857155493);
    assert e == 1745528394559950;
  }

  lemma WholePeriod()
    ensures Cong(Pow(37, P611 - 1), 1, P611)
  {
    hide Pow, Cong;
    var e := Power2();
    e := RaiseBit(37, 2305843009213693951, e, 2305843009213693950, 1);
  }

  /** 37 to a quotient of the order by one of its prime factors is not one. */
  lemma QuotientPowers(q: nat, m: nat)
    requires Prime(q) && q * m == P611 - 1
    ensures !Cong(Pow(37, m), 1, P611)
  {
    hide Pow, Prime, Divides;
    DividesIntro(q, P611 - 1, m);
    OrderFactors(q);
    var e: nat;
    if q == 2 {
      e := Power2();
    } else if q == 3 {
      e := Power3();
    } else if q == 5 {
      e := Power5();
    } else if q == 7 {
      e := Power7();
    } else if q == 11 {
      e := Power11();
    } else if q == 13 {
      e := Power13();
    } else if q == 31 {
      e := Power31();
    } else if q == 41 {
      e := Power41();
    } else if q == 61 {
      e := Power61();
    } else if q == 151 {
      e := Power151();
    } else if q == 331 {
      e := Power331();
    } else {
      e := Power1321();
    }
    assert e == m;
  }

  lemma PeriodOf37(x: nat)
    requires x > 0 && Cong(Pow(37, x), 1, P611)
    ensures Divides(P611 - 1, x)
  {
    hide Pow, Cong, Prime, Divides;
    WholePeriod();
    forall q: nat, m: nat | Prime(q) && q * m == P611 - 1 ensures !Cong(Pow(37, m), 1, P611) {
      QuotientPowers(q, m);
    }
    var h := CommonPeriod(P611, 37, x, P611 - 1);
    DividesBound(h, P611 - 1);
    if h < P611 - 1 {
      NoSmallerPeriod(P611, 37, P611 - 1, h);
    }
  }

  lemma PowersOfPower(k: int, e: nat, m: nat)
    requires Cong(k, Pow(37, e), P611)
    ensures Cong(Pow(k, m), Pow(37, e * m), P611)
  {
    hide Pow;
    CongPow(k, Pow(37, e), m, P611);
    PowMul(37, e, m);
  }

  /** A power of 37 generates if and only if its exponent is coprime to the order. */
  lemma GeneratesIffCoprime(k: int, e: nat)
    requires Cong(k, Pow(37, e), P611)
    ensures Generates(k) <==> Coprime(e, P611 - 1)
  {
    hide Pow, Cong, Coprime, Generates;
    if Coprime(e, P611 - 1) {
      CoprimeGenerates(k, e);
    } else {
      FactorNotGenerates(k, e);
    }
  }

  lemma CoprimeGenerates(k: int, e: nat)
    requires Cong(k, Pow(37, e), P611) && Coprime(e, P611 - 1)
    ensures Generates(k)
  {
    hide Pow, Cong, Prime, Divides, Coprime;
    WholePeriod();
    PeriodTimes(P611, 37, P611 - 1, e);
    PowersOfPower(k, e, P611 - 1);
    CongTrans(Pow(k, P611 - 1), Pow(37, e * (P611 - 1)), 1, P611);
    forall q: nat, m: nat | Prime(q) && q * m == P611 - 1 ensures !Cong(Pow(k, m), 1, P611) {
      QuotientNotOne(k, e, q, m);
    }
    forall d: nat | 0 < d < P611 - 1 ensures !Cong(Pow(k, d), 1, P611) {
      NoSmallerPeriod(P611, k, P611 - 1, d);
    }
  }

  lemma QuotientNotOne(k: int, e: nat, q: nat, m: nat)
    requires Cong(k, Pow(37, e), P611) && Coprime(e, P611 - 1)
    requires Prime(q) && q * m == P611 - 1
    ensures !Cong(Pow(k, m), 1, P611)
  {
    hide Pow, Cong, Divides, Coprime;
    if Cong(Pow(k, m), 1, P611) {
      PowersOfPower(k, e, m);
      CongSym(Pow(k, m), Pow(37, e * m));
      CongTrans(Pow(37, e * m), Pow(k, m), 1, P611);
      ExponentPositive(e, m);
      PeriodOf37(e * m);
      var t := DividesElim(P611 - 1, e * m);
      MulAssoc(q, m, t);
      MulAssoc(m, q, t);
      assert m * e == m * (q * t);
      CancelFactor(m, e, q * t);
      DividesIntro(q, e, t);
      DividesIntro(q, P611 - 1, m);
      CoprimeNone(e, q);
    }
  }

  lemma CongSym(a: int, b: int)
    requires Cong(a, b, P611)
    ensures Cong(b, a, P611)
  {
  }

  lemma CancelFactor(m: nat, x: int, y: int)
    requires m > 0 && m * x == m * y
    ensures x == y
  {
    if x < y {
      MulMonotone(x + 1, y, m);
    } else if y < x {
      MulMonotone(y + 1, x, m);
    }
  }

  lemma CoprimeNone(e: nat, q: nat)
    requires Coprime(e, P611 - 1) && q >= 2 && Divides(q, e)
    ensures !Divides(q, P611 - 1)
  {
  }

  lemma ExponentPositive(e: nat, m: nat)
    requires Coprime(e, P611 - 1) && m > 0
    ensures e > 0 && e * m > 0
  {
    if e == 0 {
      assert Divides(2, 0) && Divides(2, P611 - 1);
    } else {
      MulMonotone(1, e, m);
    }
  }

  lemma FactorNotGenerates(k: int, e: nat)
    requires Cong(k, Pow(37, e), P611) && !Coprime(e, P611 - 1)
    ensures !Generates(k)
  {
    var d := CommonFactor(e);
    hide Pow, Cong, Divides, Coprime;
    var m := DividesElim(d, P611 - 1);
    PositiveCofactor(d, m, P611 - 1);
    MulMonotone(2, d, m);
    var t := DividesElim(d, e);
    ExponentCofactor(d, t, e);
    WholePeriod();
    PeriodTimes(P611, 37, P611 - 1, t);
    MulAssoc(d, m, t);
    MulAssoc(d, t, m);
    assert e * m == (P611 - 1) * t;
    PowersOfPower(k, e, m);
    CongTrans(Pow(k, m), Pow(37, e * m), 1, P611);
  }

  lemma ExponentCofactor(d: nat, t: int, e: nat)
    requires d > 0 && e == d * t
    ensures t >= 0
  {
    if t < 0 {
      MulMonotone(t, -1, d);
    }
  }

  lemma CommonFactor(e: nat) returns (d: nat)
    requires !Coprime(e, P611 - 1)
    ensures d >= 2 && Divides(d, e) && Divides(d, P611 - 1)
  {
    d :| d >= 2 && Divides(d, e) && Divides(d, P611 - 1);
  }

  // ---------- Generators reach everything ----------

  /** The remainders of the first `n` powers. */
  function Powers(b: int, n: nat, p: nat): (s: seq<int>)
    requires p > 0
    ensures |s| == n && forall i :: 0 <= i < n ==> s[i] == Pow(b, i) % p
  {
    if n == 0 then [] else Powers(b, n - 1, p) + [Pow(b, n - 1) % p]
  }

  /** Powers that do not come back to one too early are all different, and none is zero. */
  lemma PowersDiffer(b: int, p: nat, i: nat, j: nat)
    requires p > 1 && Cong(Pow(b, p - 1), 1, p) && i < j < p - 1
    requires Cong(Pow(b, i), Pow(b, j), p)
    ensures Cong(Pow(b, j - i), 1, p)
  {
    hide Pow;
    var rest := p - 1 - i;
    CongMul(Pow(b, i), Pow(b, j), Pow(b, rest), Pow(b, rest), p);
    PowAdd(b, i, rest);
    PowAdd(b, j, rest);
    PowAdd(b, j - i, p - 1);
    CongMul(Pow(b, j - i), Pow(b, j - i), Pow(b, p - 1), 1, p);
  }

  lemma PowerNotZero(b: int, p: nat, i: nat)
    requires p > 1 && Cong(Pow(b, p - 1), 1, p) && i < p - 1
    ensures 1 <= Pow(b, i) % p <= p - 1
  {
    hide Pow;
    if Pow(b, i) % p == 0 {
      PowAdd(b, i, p - 1 - i);
      CongMul(Pow(b, i), 0, Pow(b, p - 1 - i), Pow(b, p - 1 - i), p);
      ModUnique(1, 0, 1, p);
    }
  }

  lemma PowersCover(b: int, p: nat, a: nat)
    requires p > 1 && Cong(Pow(b, p - 1), 1, p) && 0 < a < p
    requires forall d: nat :: 0 < d < p - 1 ==> !Cong(Pow(b, d), 1, p)
    ensures exists i: nat :: i < p - 1 && Cong(Pow(b, i), a, p)
  {
    hide Pow;
    var s := Powers(b, p - 1, p);
    forall i | 0 <= i < p - 1 ensures 1 <= s[i] <= p - 1 {
      PowerNotZero(b, p, i);
    }
    forall i, j | 0 <= i < j < p - 1 ensures s[i] != s[j] {
      if s[i] == s[j] {
        PowersDiffer(b, p, i, j);
      }
    }
    DistinctInRange(s, p - 1);
    assert Upto(p - 1)[a - 1] == a && a in multiset(Upto(p - 1));
    var i :| 0 <= i < |s| && s[i] == a;
    CongMod(Pow(b, i), p);
  }

  /** A generator deserves its name: every residue but zero is a power of it. */
  lemma GeneratorReachesAll(b: int, a: nat)
    requires Generates(b) && 0 < a < P611
    ensures IsPower(b, a)
  {
    hide Pow, Cong;
    PowersCover(b, P611, a);
  }
}
