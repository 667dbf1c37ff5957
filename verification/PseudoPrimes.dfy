/** Composite numbers that the prime test has to turn down: each of the bounds of its table but the last is one,
    and the base that tells is tried because no bound is larger than it may be. */
module PseudoPrimes {
  import opened Naturals
  import opened NumberTheory
  import opened PrimeTest

  // ----- powers modulo a number, one bit of the exponent after the other -----

  ghost predicate IsPower(b: nat, e: nat, n: nat, x: nat) {
    n > 1 && Remainder(Power(b, e), n) == x
  }

  lemma NoBits(b: nat, n: nat)
    requires n > 1
    ensures IsPower(b, 0, n, 1)
  {
    RemainderOfSmall(1, n);
  }

  lemma BitMore(b: nat, n: nat, e: nat, x: nat, bit: nat, y: nat)
    requires n > 1 && IsPower(b, e, n, x) && bit < 2 && x * x * (if bit == 0 then 1 else b) % n == y
    ensures IsPower(b, 2 * e + bit, n, y)
  {
    hide Remainder, Power;
    var p := Power(b, e);
    PowerAdds(b, e, e);
    RemainderTimesBoth(p, p, n);
    if bit == 1 {
      PowerAdds(b, e + e, 1);
      PowerOfOne(b);
      RemainderTimes(p * p, b, n);
      RemainderTimes(x * x, b, n);
    }
    AsRemainder(x * x * (if bit == 0 then 1 else b), n);
  }

  lemma PowerOfOne(b: nat)
    ensures Power(b, 1) == b
  {
    assert Power(b, 0) == 1;
  }

  lemma AsRemainder(a: nat, n: nat)
    requires n > 0
    ensures Remainder(a, n) == a % n
  {
  }

  // Four bits.
  lemma More(b: nat, n: nat, e: nat, x: nat, b1: nat, x1: nat, b2: nat, x2: nat, b3: nat, x3: nat, b4: nat, x4: nat)
    requires n > 1 && IsPower(b, e, n, x) && b1 < 2 && b2 < 2 && b3 < 2 && b4 < 2
    requires x * x * (if b1 == 0 then 1 else b) % n == x1
    requires x1 * x1 * (if b2 == 0 then 1 else b) % n == x2
    requires x2 * x2 * (if b3 == 0 then 1 else b) % n == x3
    requires x3 * x3 * (if b4 == 0 then 1 else b) % n == x4
    ensures IsPower(b, 16 * e + 8 * b1 + 4 * b2 + 2 * b3 + b4, n, x4)
  {
    hide IsPower;
    BitMore(b, n, e, x, b1, x1);
    BitMore(b, n, 2 * e + b1, x1, b2, x2);
    BitMore(b, n, 4 * e + 2 * b1 + b2, x2, b3, x3);
    BitMore(b, n, 8 * e + 4 * b1 + 2 * b2 + b3, x3, b4, x4);
  }

  // ----- a base that tells -----

  lemma TwoTo1()
    ensures Two(1) == 2
  {
    assert Two(0) == 1;
  }

  lemma TwoTo2()
    ensures Two(2) == 4
  {
    assert Two(0) == 1;
    assert Two(1) == 2;
  }

  lemma TwoTo4()
    ensures Two(4) == 16
  {
    assert Two(0) == 1;
    assert Two(1) == 2;
    assert Two(2) == 4;
    assert Two(3) == 8;
  }

  lemma TwoTo6()
    ensures Two(6) == 64
  {
    assert Two(0) == 1;
    assert Two(1) == 2;
    assert Two(2) == 4;
    assert Two(3) == 8;
    assert Two(4) == 16;
    assert Two(5) == 32;
  }

  ghost predicate NoneSoFar(n: nat, base: nat, i: nat, x: nat)
    requires n > 0
  {
    Square(n, base, i) == x && Square(n, base, 0) != 1 && forall j: nat | j <= i :: Square(n, base, j) != n - 1
  }

  // The first of the squares.
  lemma Starts(n: nat, base: nat, odd: nat, r: nat, x: nat)
    requires n > 2 && n - 1 == odd * Two(r) && odd % 2 == 1 && IsPower(base, odd, n, x) && x != 1 && x != n - 1
    ensures NoneSoFar(n, base, 0, x) && Squarings(n) == r
  {
    hide Two, Power, Remainder, Quotient, TrailingZeroBits;
    TrailingZerosAre(n - 1, odd, r);
    QuotientIs(n - 1, Two(r), odd, 0);
    FirstSquare(n, base);
  }

  lemma Squares(n: nat, base: nat, i: nat, x: nat, y: nat)
    requires n > 1 && NoneSoFar(n, base, i, x) && x * x % n == y && y != n - 1
    ensures NoneSoFar(n, base, i + 1, y)
  {
    hide Square;
    NextSquare(n, base, i);
    AsRemainder(x * x, n);
  }

  lemma Tells(n: nat, base: nat, i: nat, x: nat)
    requires n > 0 && NoneSoFar(n, base, i, x) && Squarings(n) == i + 1
    ensures !StrongProbablePrime(n, base)
  {
    hide Square;
  }

  // The base number k is tried on a number that none of the bounds before is above.
  lemma {:induction false} IsTried(v: nat, i: nat, k: nat)
    requires i <= k <= 12 && v < PrimeTest.PseudoPrimes()[12] && forall j | i <= j < k :: v >= PrimeTest.PseudoPrimes()[j]
    ensures BasesFrom(v, i) > k
    decreases k - i
  {
    hide PrimeTest.PseudoPrimes;
    if i < k {
      IsTried(v, i + 1, k);
    }
  }

  lemma TurnedDown(v: nat, k: nat, bases: seq<nat>)
    requires 41 < v < PrimeTest.PseudoPrimes()[12] && k <= 12 && !StrongProbablePrime(v, Primes()[k])
    requires forall j | 0 <= j < k :: v >= PrimeTest.PseudoPrimes()[j]
    ensures !Accepted(v, bases)
  {
    hide StrongProbablePrime, Divides, PrimeTest.PseudoPrimes;
    IsTried(v, 0, k);
  }

  // ----- 2047, to the base 3 -----

  lemma PowerOf3Modulo2047()
    ensures IsPower(3, 1023, 2047, 1565)
  {
    hide IsPower;
    NoBits(3, 2047);
    More(3, 2047, 0, 1, 0, 1, 0, 1, 1, 3, 1, 27);
    More(3, 2047, 3, 27, 1, 140, 1, 1484, 1, 1099, 1, 213);
    More(3, 2047, 63, 213, 1, 1005, 1, 515, 1, 1439, 1, 1565);
  }

  lemma TurnsDown2047(bases: seq<nat>)
    ensures 23 * 89 == 2047 && !Accepted(2047, bases)
  {
    hide IsPower, NoneSoFar, StrongProbablePrime, Accepted;
    PowerOf3Modulo2047();
    TwoTo1();
    Starts(2047, 3, 1023, 1, 1565);
    Tells(2047, 3, 0, 1565);
    TurnedDown(2047, 1, bases);
  }

  // ----- 1373653, to the base 5 -----

  lemma PowerOf5Modulo1373653()
    ensures IsPower(5, 343413, 1373653, 1199564)
  {
    hide IsPower;
    NoBits(5, 1373653);
    More(5, 1373653, 0, 1, 0, 1, 1, 5, 0, 25, 1, 3125);
    More(5, 1373653, 5, 3125, 0, 150054, 0, 656593, 1, 1209320, 1, 705504);
    More(5, 1373653, 83, 705504, 1, 735961, 1, 363127, 0, 145700, 1, 282690);
    More(5, 1373653, 1341, 282690, 0, 1372825, 1, 680614, 1, 320948, 1, 637700);
    More(5, 1373653, 21463, 637700, 0, 934921, 1, 843118, 0, 391913, 1, 1199564);
  }

  lemma TurnsDown1373653(bases: seq<nat>)
    ensures 829 * 1657 == 1373653 && !Accepted(1373653, bases)
  {
    hide IsPower, NoneSoFar, StrongProbablePrime, Accepted;
    PowerOf5Modulo1373653();
    TwoTo2();
    Starts(1373653, 5, 343413, 2, 1199564);
    Squares(1373653, 5, 0, 1199564, 73782);
    Tells(1373653, 5, 1, 73782);
    TurnedDown(1373653, 2, bases);
  }

  // ----- 25326001, to the base 7 -----

  lemma PowerOf7Modulo25326001()
    ensures IsPower(7, 1582875, 25326001, 19453141)
  {
    hide IsPower;
    NoBits(7, 25326001);
    More(7, 25326001, 0, 1, 0, 1, 0, 1, 0, 1, 1, 7);
    More(7, 25326001, 1, 7, 1, 343, 0, 117649, 0, 13290655, 0, 23220316);
    More(7, 25326001, 24, 23220316, 0, 10346152, 0, 10706505, 1, 17156134, 0, 510187);
    More(7, 25326001, 386, 510187, 0, 15462692, 1, 19041241, 1, 9898062, 1, 6015962);
    More(7, 25326001, 6183, 6015962, 0, 6294407, 0, 19385267, 0, 6219235, 1, 15525895);
    More(7, 25326001, 98929, 15525895, 1, 17983027, 0, 8427668, 1, 8398395, 1, 19453141);
  }

  lemma TurnsDown25326001(bases: seq<nat>)
    ensures 2251 * 11251 == 25326001 && !Accepted(25326001, bases)
  {
    hide IsPower, NoneSoFar, StrongProbablePrime, Accepted;
    PowerOf7Modulo25326001();
    TwoTo4();
    Starts(25326001, 7, 1582875, 4, 19453141);
    Squares(25326001, 7, 0, 19453141, 16857740);
    Squares(25326001, 7, 1, 16857740, 11448587);
    Squares(25326001, 7, 2, 11448587, 10127250);
    Tells(25326001, 7, 3, 10127250);
    TurnedDown(25326001, 3, bases);
  }

  // ----- 3215031751, to the base 11 -----

  lemma PowerOf11Modulo3215031751()
    ensures IsPower(11, 1607515875, 3215031751, 2129160099)
  {
    hide IsPower;
    NoBits(11, 3215031751);
    More(11, 3215031751, 0, 1, 0, 1, 1, 11, 0, 121, 1, 161051);
    More(11, 3215031751, 5, 161051, 1, 2388876523, 1, 2023912329, 1, 2657947342, 1, 2602314446);
    More(11, 3215031751, 95, 2602314446, 1, 1767353946, 1, 1205975126, 0, 308953336, 1, 813002140);
    More(11, 3215031751, 1533, 813002140, 0, 1539752685, 0, 982321984, 0, 1235672236, 0, 2441759515);
    More(11, 3215031751, 24528, 2441759515, 1, 764078137, 0, 2149208959, 1, 448316329, 1, 1091447014);
    More(11, 3215031751, 392459, 1091447014, 1, 763217645, 1, 817876387, 1, 117752414, 0, 2818702146);
    More(11, 3215031751, 6279358, 2818702146, 1, 2986396830, 1, 1549001918, 1, 142359861, 0, 1222795954);
    More(11, 3215031751, 100469742, 1222795954, 0, 1956811661, 0, 1225104603, 1, 236230773, 1, 2129160099);
  }

  lemma TurnsDown3215031751(bases: seq<nat>)
    ensures 151 * 751 * 28351 == 3215031751 && !Accepted(3215031751, bases)
  {
    hide IsPower, NoneSoFar, StrongProbablePrime, Accepted;
    PowerOf11Modulo3215031751();
    TwoTo1();
    Starts(3215031751, 11, 1607515875, 1, 2129160099);
    Tells(3215031751, 11, 0, 2129160099);
    TurnedDown(3215031751, 4, bases);
  }

  // ----- 2152302898747, to the base 13 -----

  lemma PowerOf13Modulo2152302898747()
    ensures IsPower(13, 1076151449373, 2152302898747, 1300674544902)
  {
    hide IsPower;
    NoBits(13, 2152302898747);
    More(13, 2152302898747, 0, 1, 1, 13, 1, 2197, 1, 62748517, 1, 1977778988350);
    More(13, 2152302898747, 15, 1977778988350, 1, 1731183527565, 0, 1779240070012, 1, 1599982883942, 0, 193966899793);
    More(13, 2152302898747, 250, 193966899793, 1, 124795043140, 0, 926065323326, 0, 1383956150737, 0, 379834533808);
    More(13, 2152302898747, 4008, 379834533808, 1, 63753725699, 1, 711112877215, 1, 1491571329832, 1, 1488893612115);
    More(13, 2152302898747, 64143, 1488893612115, 1, 1435467068694, 0, 1530449506312, 0, 1110655472133, 1, 1859952713891);
    More(13, 2152302898747, 1026297, 1859952713891, 1, 649654126120, 1, 1741048266410, 1, 809484176282, 1, 124981893798);
    More(13, 2152302898747, 16420767, 124981893798, 1, 759451451291, 1, 1378646285129, 1, 1427096105756, 1, 829303687784);
    More(13, 2152302898747, 262732287, 829303687784, 0, 219346646931, 1, 446830049025, 1, 1790214928747, 1, 2077332741249);
    More(13, 2152302898747, 4203716599, 2077332741249, 0, 160932942265, 0, 1867750209683, 0, 561198216846, 1, 1252204813337);
    More(13, 2152302898747, 67259465585, 1252204813337, 1, 1859615457712, 1, 1636826763996, 0, 2053953086842, 1,
         1300674544902);
  }

  lemma TurnsDown2152302898747(bases: seq<nat>)
    ensures 6763 * 10627 * 29947 == 2152302898747 && !Accepted(2152302898747, bases)
  {
    hide IsPower, NoneSoFar, StrongProbablePrime, Accepted;
    PowerOf13Modulo2152302898747();
    TwoTo1();
    Starts(2152302898747, 13, 1076151449373, 1, 1300674544902);
    Tells(2152302898747, 13, 0, 1300674544902);
    TurnedDown(2152302898747, 5, bases);
  }

  // ----- 3474749660383, to the base 17 -----

  lemma PowerOf17Modulo3474749660383Part1()
    ensures IsPower(17, 108585926886, 3474749660383, 1111961200066)
  {
    hide IsPower;
    NoBits(17, 3474749660383);
    More(17, 3474749660383, 0, 1, 0, 1, 0, 1, 0, 1, 1, 17);
    More(17, 3474749660383, 1, 17, 1, 4913, 0, 24137569, 0, 2339043945800, 1, 1954062580828);
    More(17, 3474749660383, 25, 1954062580828, 0, 1153233686666, 1, 2462180764029, 0, 2563903749926, 0, 901598360111);
    More(17, 3474749660383, 404, 901598360111, 1, 755279359851, 0, 1906154851704, 0, 1642532352606, 0, 816620980455);
    More(17, 3474749660383, 6472, 816620980455, 0, 2672309352436, 0, 1939660320544, 1, 3365621613591, 1, 554734361660);
    More(17, 3474749660383, 103555, 554734361660, 1, 1572799132733, 0, 296246004100, 0, 2050692318010, 1, 678908015632);
    More(17, 3474749660383, 1656889, 678908015632, 1, 154969355814, 1, 3106648781288, 0, 1325749850739, 0, 2206115808899);
    More(17, 3474749660383, 26510236, 2206115808899, 0, 1960574968482, 0, 2484180711384, 0, 179150154341, 0, 97476705926);
    More(17, 3474749660383, 424163776, 97476705926, 1, 1513916416290, 1, 2996024998413, 1, 1398322280951, 0, 1862523314526);
    More(17, 3474749660383, 6786620430, 1862523314526, 0, 3027218314257, 1, 1477422593399, 1, 3016824495966, 0,
         1111961200066);
  }

  lemma PowerOf17Modulo3474749660383()
    ensures IsPower(17, 1737374830191, 3474749660383, 124990677626)
  {
    hide IsPower;
    PowerOf17Modulo3474749660383Part1();
    More(17, 3474749660383, 108585926886, 1111961200066, 1, 3027344662259, 1, 3155505780022, 1, 88332016770, 1,
         124990677626);
  }

  lemma TurnsDown3474749660383(bases: seq<nat>)
    ensures 1303 * 16927 * 157543 == 3474749660383 && !Accepted(3474749660383, bases)
  {
    hide IsPower, NoneSoFar, StrongProbablePrime, Accepted;
    PowerOf17Modulo3474749660383();
    TwoTo1();
    Starts(3474749660383, 17, 1737374830191, 1, 124990677626);
    Tells(3474749660383, 17, 0, 124990677626);
    TurnedDown(3474749660383, 6, bases);
  }

  // ----- 341550071728321, to the base 23 -----

  lemma PowerOf23Modulo341550071728321Part1()
    ensures IsPower(23, 333544991922, 341550071728321, 16856286961668)
  {
    hide IsPower;
    NoBits(23, 341550071728321);
    More(23, 341550071728321, 0, 1, 0, 1, 1, 23, 0, 529, 0, 279841);
    More(23, 341550071728321, 4, 279841, 1, 1801152661463, 1, 3577126820032, 0, 197506711706544, 1, 208238252696963);
    More(23, 341550071728321, 77, 208238252696963, 1, 100713574228541, 0, 152566256142420, 1, 324525316746062, 0,
         156788251577262);
    More(23, 341550071728321, 1242, 156788251577262, 1, 59764504334735, 0, 208212567143704, 0, 21179609705303, 0,
         221867765075862);
    More(23, 341550071728321, 19880, 221867765075862, 1, 266247241003770, 1, 272576424117890, 0, 241778505047942, 1,
         175928403924140);
    More(23, 341550071728321, 318093, 175928403924140, 0, 152016659174324, 1, 153826153016325, 0, 221849624125111, 0,
         118368282950271);
    More(23, 341550071728321, 5089492, 118368282950271, 1, 270105208569068, 0, 316143294555941, 1, 72101916139672, 0,
         192901030174181);
    More(23, 341550071728321, 81431882, 192901030174181, 1, 161934543695601, 1, 292743087457442, 0, 55901781846651, 0,
         21480227487410);
    More(23, 341550071728321, 1302910124, 21480227487410, 1, 159127176110949, 0, 245902123903489, 1, 234159824972509, 1,
         297259572809978);
    More(23, 341550071728321, 20846561995, 297259572809978, 0, 163187979063191, 0, 267365473403902, 1, 251491302469694, 0,
         16856286961668);
  }

  lemma PowerOf23Modulo341550071728321()
    ensures IsPower(23, 5336719870755, 341550071728321, 235183663767964)
  {
    hide IsPower;
    PowerOf23Modulo341550071728321Part1();
    More(23, 341550071728321, 333544991922, 16856286961668, 0, 133036726471960, 0, 308801151248438, 1, 252846347497513, 1,
         235183663767964);
  }

  lemma TurnsDown341550071728321(bases: seq<nat>)
    ensures 10670053 * 32010157 == 341550071728321 && !Accepted(341550071728321, bases)
  {
    hide IsPower, NoneSoFar, StrongProbablePrime, Accepted;
    PowerOf23Modulo341550071728321();
    TwoTo6();
    Starts(341550071728321, 23, 5336719870755, 6, 235183663767964);
    Squares(341550071728321, 23, 0, 235183663767964, 17984566392455);
    Squares(341550071728321, 23, 1, 17984566392455, 188759586251536);
    Squares(341550071728321, 23, 2, 188759586251536, 323565473325709);
    Squares(341550071728321, 23, 3, 323565473325709, 188759586251536);
    Squares(341550071728321, 23, 4, 188759586251536, 323565473325709);
    Tells(341550071728321, 23, 5, 323565473325709);
    TurnedDown(341550071728321, 8, bases);
  }

  // ----- 3825123056546413051, to the base 37 -----

  lemma PowerOf37Modulo3825123056546413051Part1()
    ensures IsPower(37, 113997550503, 3825123056546413051, 1170682056287926536)
  {
    hide IsPower;
    NoBits(37, 3825123056546413051);
    More(37, 3825123056546413051, 0, 1, 0, 1, 0, 1, 0, 1, 1, 37);
    More(37, 3825123056546413051, 1, 37, 1, 50653, 0, 2565726409, 1, 2586471653657283184, 0, 3365357308871209855);
    More(37, 3825123056546413051, 26, 3365357308871209855, 1, 2720388424686881917, 0, 1160759929257586962, 0,
         3028040242537683931, 0, 2139810277885168170);
    More(37, 3825123056546413051, 424, 2139810277885168170, 1, 2432848120686077759, 0, 1506474477803918682, 1,
         601160954863452469, 0, 1570595910291735306);
    More(37, 3825123056546413051, 6794, 1570595910291735306, 1, 3653988782641344120, 1, 2595560215987691319, 0,
         40111082178270881, 0, 2782703508484059992);
    More(37, 3825123056546413051, 108716, 2782703508484059992, 1, 3054254116877314596, 0, 3069984094912309785, 0,
         1208157695290428858, 0, 2509304158827899107);
    More(37, 3825123056546413051, 1739464, 2509304158827899107, 1, 2610277891747635937, 0, 1406056693262637578, 0,
         2890248822864256075, 1, 355195206080475882);
    More(37, 3825123056546413051, 27831433, 355195206080475882, 0, 828623315813338312, 0, 2002511201056736667, 1,
         1257025252980643025, 1, 3805483043507276563);
    More(37, 3825123056546413051, 445302931, 3805483043507276563, 1, 2690798557882406617, 0, 2393966661538226948, 1,
         354942009118548843, 0, 3752162147955447365);
    More(37, 3825123056546413051, 7124846906, 3752162147955447365, 0, 548173247661399584, 1, 509289685661105360, 1,
         694214673843781187, 1, 1170682056287926536);
  }

  lemma PowerOf37Modulo3825123056546413051()
    ensures IsPower(37, 1912561528273206525, 3825123056546413051, 2228475994860574658)
  {
    hide IsPower;
    PowerOf37Modulo3825123056546413051Part1();
    More(37, 3825123056546413051, 113997550503, 1170682056287926536, 1, 3408749522535446040, 1, 505575754782501357, 0,
         554425139505565729, 0, 2452532168572780567);
    More(37, 3825123056546413051, 1823960808060, 2452532168572780567, 1, 2161632860552790450, 1, 2532855760915088435, 0,
         2895369418028322064, 1, 728634523421532774);
    More(37, 3825123056546413051, 29183372928973, 728634523421532774, 0, 2516723153559735729, 1, 2193043416405407376, 1,
         459148091398261765, 1, 1249568727434514930);
    More(37, 3825123056546413051, 466933966863575, 1249568727434514930, 1, 2112565657007198831, 1, 2898661437121969930, 0,
         1213604779450684018, 0, 3391152493569288518);
    More(37, 3825123056546413051, 7470943469817212, 3391152493569288518, 1, 2571505381215088307, 1, 1112143983347892155, 1,
         99803133864017027, 1, 1158985935983533209);
    More(37, 3825123056546413051, 119535095517075407, 1158985935983533209, 1, 1325748870946247426, 1, 2008200165761646720, 0,
         3269450461740652713, 1, 2228475994860574658);
  }

  lemma TurnsDown3825123056546413051(bases: seq<nat>)
    ensures 149491 * 747451 * 34233211 == 3825123056546413051 && !Accepted(3825123056546413051, bases)
  {
    hide IsPower, NoneSoFar, StrongProbablePrime, Accepted;
    PowerOf37Modulo3825123056546413051();
    TwoTo1();
    Starts(3825123056546413051, 37, 1912561528273206525, 1, 2228475994860574658);
    Tells(3825123056546413051, 37, 0, 2228475994860574658);
    TurnedDown(3825123056546413051, 11, bases);
  }

  // ----- 318665857834031151167461, to the base 41 -----

  lemma PowerOf41Modulo318665857834031151167461Part1()
    ensures IsPower(41, 72456227333, 318665857834031151167461, 58783873013459392173272)
  {
    hide IsPower;
    NoBits(41, 318665857834031151167461);
    More(41, 318665857834031151167461, 0, 1, 0, 1, 0, 1, 0, 1, 1, 41);
    More(41, 318665857834031151167461, 1, 41, 0, 1681, 0, 2825761, 0, 7984925229121, 0, 25859347846824112940441);
    More(41, 318665857834031151167461, 16, 25859347846824112940441, 1, 159739110280438430119003, 1, 224361812414287368150223,
         0, 218120657962841474123849, 1, 72929361926000703347181);
    More(41, 318665857834031151167461, 269, 72929361926000703347181, 1, 313894115976581552430243, 1,
         302000070372603298565401, 1, 259718593928377294963643, 0, 53228662339645194032389);
    More(41, 318665857834031151167461, 4318, 53228662339645194032389, 1, 228428160860295168799170, 0,
         185456498389795345346618, 1, 285036415021664423749319, 1, 168396368170892446706444);
    More(41, 318665857834031151167461, 69099, 168396368170892446706444, 1, 244536166774707857643740, 0,
         8644135052392853888192, 1, 301816255751415486863304, 0, 98810908216968799653221);
    More(41, 318665857834031151167461, 1105594, 98810908216968799653221, 0, 64607412827538378101346, 1,
         80237143208836328594430, 0, 273037887390698482492615, 0, 234809005224913896660731);
    More(41, 318665857834031151167461, 17689508, 234809005224913896660731, 1, 224772989223176792321671, 0,
         311406730748416350029664, 1, 256397316913403294291022, 0, 160552981100915261433949);
    More(41, 318665857834031151167461, 283032138, 160552981100915261433949, 0, 89095977717213763408642, 0,
         89250173438973533454571, 0, 278125677370022696438624, 0, 53097208695187868541347);
    More(41, 318665857834031151167461, 4528514208, 53097208695187868541347, 0, 170832195863024317489933, 1,
         271146318100483633009682, 0, 212191494199539621765611, 1, 58783873013459392173272);
  }

  lemma PowerOf41Modulo318665857834031151167461()
    ensures IsPower(41, 79666464458507787791865, 318665857834031151167461, 82678540903548800789352)
  {
    hide IsPower;
    PowerOf41Modulo318665857834031151167461Part1();
    More(41, 318665857834031151167461, 72456227333, 58783873013459392173272, 1, 216594541575207841171492, 1,
         26277615318528840674539, 1, 213729660774628765989364, 1, 206350604556836692304477);
    More(41, 318665857834031151167461, 1159299637343, 206350604556836692304477, 1, 162274032636150744656781, 1,
         78470745565466488813577, 1, 93317442956587713495338, 0, 117565156964070663291973);
    More(41, 318665857834031151167461, 18548794197502, 117565156964070663291973, 0, 313923419065089473450483, 1,
         226364811490131828601114, 1, 176376556647998886065989, 1, 172946411820209121764811);
    More(41, 318665857834031151167461, 296780707160039, 172946411820209121764811, 1, 57702219262504002750074, 1,
         95815038112073093831063, 1, 178427621603856865991830, 1, 193213117415891576089141);
    More(41, 318665857834031151167461, 4748491314560639, 193213117415891576089141, 0, 204933081640755000749163, 0,
         121303024342778096460901, 1, 285417560400775996680617, 0, 306793048625351447162733);
    More(41, 318665857834031151167461, 75975861032970226, 306793048625351447162733, 0, 285608879180870831768851, 0,
         138550159390451792309798, 0, 56773008022324846500670, 1, 261776587363198708841934);
    More(41, 318665857834031151167461, 1215613776527523617, 261776587363198708841934, 0, 41632924714629785277665, 1,
         174486149363165072154317, 1, 202434630145003022754260, 0, 241828474188485084337724);
    More(41, 318665857834031151167461, 19449820424440377878, 241828474188485084337724, 1, 121924164392846824335956, 1,
         32098638650379232774906, 0, 17400267121440809357787, 1, 16198956294444100645174);
    More(41, 318665857834031151167461, 311197126791046046061, 16198956294444100645174, 1, 71683605222112785462033, 1,
         12823522611840450991715, 1, 111343282842723668356433, 1, 117139923078555941042877);
    More(41, 318665857834031151167461, 4979154028656736736991, 117139923078555941042877, 1, 235643424014906622307383, 0,
         160654825001861996540032, 0, 115224528866202883739525, 1, 82678540903548800789352);
  }

  lemma TurnsDown318665857834031151167461(bases: seq<nat>)
    ensures 399165290221 * 798330580441 == 318665857834031151167461 && !Accepted(318665857834031151167461, bases)
  {
    hide IsPower, NoneSoFar, StrongProbablePrime, Accepted;
    PowerOf41Modulo318665857834031151167461();
    TwoTo2();
    Starts(318665857834031151167461, 41, 79666464458507787791865, 2, 82678540903548800789352);
    Squares(318665857834031151167461, 41, 0, 82678540903548800789352, 2053651857789237856000);
    Tells(318665857834031151167461, 41, 1, 2053651857789237856000);
    TurnedDown(318665857834031151167461, 12, bases);
  }

  // No bound of the table but the last is a number that the test accepts, whatever bases are drawn.
  lemma NoBoundIsAccepted(i: nat, bases: seq<nat>)
    requires i < 12
    ensures !Accepted(PrimeTest.PseudoPrimes()[i], bases)
  {
    hide Accepted;
    TurnsDown2047(bases);
    TurnsDown1373653(bases);
    TurnsDown25326001(bases);
    TurnsDown3215031751(bases);
    TurnsDown2152302898747(bases);
    TurnsDown3474749660383(bases);
    TurnsDown341550071728321(bases);
    TurnsDown3825123056546413051(bases);
    TurnsDown318665857834031151167461(bases);
  }
}
