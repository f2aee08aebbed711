/** How the table sizes were chosen: from 53 on each is the least prime above three times a power of two. */
module SizeGaps {
  import opened NumberTheory
  import opened PrimeList

  lemma Composite(m: nat, d: nat)
    requires 2 <= d < m && m % d == 0
    ensures !Prime(m)
  {
    assert Divides(d, m);
  }

  lemma Gap3(m: nat)
    requires 48 < m < 53
    ensures !Prime(m)
  {
    hide Prime;
    if m % 2 == 0 { Composite(m, 2); }
    if m == 49 { Composite(m, 7); }
    if m == 51 { Composite(m, 3); }
  }

  lemma Gap6(m: nat)
    requires 384 < m < 389
    ensures !Prime(m)
  {
    hide Prime;
    if m % 2 == 0 { Composite(m, 2); }
    if m == 385 { Composite(m, 5); }
    if m == 387 { Composite(m, 3); }
  }

  lemma Gap8(m: nat)
    requires 1536 < m < 1543
    ensures !Prime(m)
  {
    hide Prime;
    if m % 2 == 0 { Composite(m, 2); }
    if m == 1537 { Composite(m, 29); }
    if m == 1539 { Composite(m, 3); }
    if m == 1541 { Composite(m, 23); }
  }

  lemma Gap9(m: nat)
    requires 3072 < m < 3079
    ensures !Prime(m)
  {
    hide Prime;
    if m % 2 == 0 { Composite(m, 2); }
    if m == 3073 { Composite(m, 7); }
    if m == 3075 { Composite(m, 3); }
    if m == 3077 { Composite(m, 17); }
  }

  lemma Gap10(m: nat)
    requires 6144 < m < 6151
    ensures !Prime(m)
  {
    hide Prime;
    if m % 2 == 0 { Composite(m, 2); }
    if m == 6145 { Composite(m, 5); }
    if m == 6147 { Composite(m, 3); }
    if m == 6149 { Composite(m, 11); }
  }

  lemma Gap12(m: nat)
    requires 24576 < m < 24593
    ensures !Prime(m)
  {
    hide Prime;
    if m % 2 == 0 { Composite(m, 2); }
    if m == 24577 { Composite(m, 7); }
    if m == 24579 { Composite(m, 3); }
    if m == 24581 { Composite(m, 47); }
    if m == 24583 { Composite(m, 13); }
    if m == 24585 { Composite(m, 3); }
    if m == 24587 { Composite(m, 23); }
    if m == 24589 { Composite(m, 67); }
    if m == 24591 { Composite(m, 3); }
  }

  lemma Gap13(m: nat)
    requires 49152 < m < 49157
    ensures !Prime(m)
  {
    hide Prime;
    if m % 2 == 0 { Composite(m, 2); }
    if m == 49153 { Composite(m, 13); }
    if m == 49155 { Composite(m, 3); }
  }

  lemma Gap14(m: nat)
    requires 98304 < m < 98317
    ensures !Prime(m)
  {
    hide Prime;
    if m % 2 == 0 { Composite(m, 2); }
    if m == 98305 { Composite(m, 5); }
    if m == 98307 { Composite(m, 3); }
    if m == 98309 { Composite(m, 37); }
    if m == 98311 { Composite(m, 17); }
    if m == 98313 { Composite(m, 3); }
    if m == 98315 { Composite(m, 5); }
  }

  lemma Gap15(m: nat)
    requires 196608 < m < 196613
    ensures !Prime(m)
  {
    hide Prime;
    if m % 2 == 0 { Composite(m, 2); }
    if m == 196609 { Composite(m, 7); }
    if m == 196611 { Composite(m, 3); }
  }

  lemma Gap16(m: nat)
    requires 393216 < m < 393241
    ensures !Prime(m)
  {
    hide Prime;
    if m % 2 == 0 { Composite(m, 2); }
    if m == 393217 { Composite(m, 11); }
    if m == 393219 { Composite(m, 3); }
    if m == 393221 { Composite(m, 271); }
    if m == 393223 { Composite(m, 67); }
    if m == 393225 { Composite(m, 3); }
    if m == 393227 { Composite(m, 17); }
    if m == 393229 { Composite(m, 173); }
    if m == 393231 { Composite(m, 3); }
    if m == 393233 { Composite(m, 461); }
    if m == 393235 { Composite(m, 5); }
    if m == 393237 { Composite(m, 3); }
    if m == 393239 { Composite(m, 7); }
  }

  lemma Gap18(m: nat)
    requires 1572864 < m < 1572869
    ensures !Prime(m)
  {
    hide Prime;
    if m % 2 == 0 { Composite(m, 2); }
    if m == 1572865 { Composite(m, 5); }
    if m == 1572867 { Composite(m, 3); }
  }

  lemma Gap19(m: nat)
    requires 3145728 < m < 3145739
    ensures !Prime(m)
  {
    hide Prime;
    if m % 2 == 0 { Composite(m, 2); }
    if m == 3145729 { Composite(m, 727); }
    if m == 3145731 { Composite(m, 3); }
    if m == 3145733 { Composite(m, 23); }
    if m == 3145735 { Composite(m, 5); }
    if m == 3145737 { Composite(m, 3); }
  }

  lemma Gap20(m: nat)
    requires 6291456 < m < 6291469
    ensures !Prime(m)
  {
    hide Prime;
    if m % 2 == 0 { Composite(m, 2); }
    if m == 6291457 { Composite(m, 347); }
    if m == 6291459 { Composite(m, 3); }
    if m == 6291461 { Composite(m, 11); }
    if m == 6291463 { Composite(m, 29); }
    if m == 6291465 { Composite(m, 3); }
    if m == 6291467 { Composite(m, 7); }
  }

  lemma Gap21(m: nat)
    requires 12582912 < m < 12582917
    ensures !Prime(m)
  {
    hide Prime;
    if m % 2 == 0 { Composite(m, 2); }
    if m == 12582913 { Composite(m, 7); }
    if m == 12582915 { Composite(m, 3); }
  }

  lemma Gap22(m: nat)
    requires 25165824 < m < 25165843
    ensures !Prime(m)
  {
    hide Prime;
    if m % 2 == 0 { Composite(m, 2); }
    if m == 25165825 { Composite(m, 5); }
    if m == 25165827 { Composite(m, 3); }
    if m == 25165829 { Composite(m, 13); }
    if m == 25165831 { Composite(m, 17); }
    if m == 25165833 { Composite(m, 3); }
    if m == 25165835 { Composite(m, 5); }
    if m == 25165837 { Composite(m, 4133); }
    if m == 25165839 { Composite(m, 3); }
    if m == 25165841 { Composite(m, 23); }
  }

  lemma Gap23(m: nat)
    requires 50331648 < m < 50331653
    ensures !Prime(m)
  {
    hide Prime;
    if m % 2 == 0 { Composite(m, 2); }
    if m == 50331649 { Composite(m, 61); }
    if m == 50331651 { Composite(m, 3); }
  }

  lemma Gap24(m: nat)
    requires 100663296 < m < 100663319
    ensures !Prime(m)
  {
    hide Prime;
    if m % 2 == 0 { Composite(m, 2); }
    if m == 100663297 { Composite(m, 7); }
    if m == 100663299 { Composite(m, 3); }
    if m == 100663301 { Composite(m, 43); }
    if m == 100663303 { Composite(m, 13); }
    if m == 100663305 { Composite(m, 3); }
    if m == 100663307 { Composite(m, 17); }
    if m == 100663309 { Composite(m, 6899); }
    if m == 100663311 { Composite(m, 3); }
    if m == 100663313 { Composite(m, 83); }
    if m == 100663315 { Composite(m, 5); }
    if m == 100663317 { Composite(m, 3); }
  }

  lemma Gap25(m: nat)
    requires 201326592 < m < 201326611
    ensures !Prime(m)
  {
    hide Prime;
    if m % 2 == 0 { Composite(m, 2); }
    if m == 201326593 { Composite(m, 13); }
    if m == 201326595 { Composite(m, 3); }
    if m == 201326597 { Composite(m, 17); }
    if m == 201326599 { Composite(m, 107); }
    if m == 201326601 { Composite(m, 3); }
    if m == 201326603 { Composite(m, 19); }
    if m == 201326605 { Composite(m, 5); }
    if m == 201326607 { Composite(m, 3); }
    if m == 201326609 { Composite(m, 11); }
  }

  lemma Gap26(m: nat)
    requires 402653184 < m < 402653189
    ensures !Prime(m)
  {
    hide Prime;
    if m % 2 == 0 { Composite(m, 2); }
    if m == 402653185 { Composite(m, 5); }
    if m == 402653187 { Composite(m, 3); }
  }

  lemma Gap27(m: nat)
    requires 805306368 < m < 805306399
    ensures !Prime(m)
  {
    hide Prime;
    if m % 2 == 0 { Composite(m, 2); }
    if m == 805306369 { Composite(m, 7); }
    if m == 805306371 { Composite(m, 3); }
    if m == 805306373 { Composite(m, 653); }
    if m == 805306375 { Composite(m, 5); }
    if m == 805306377 { Composite(m, 3); }
    if m == 805306379 { Composite(m, 41); }
    if m == 805306381 { Composite(m, 11); }
    if m == 805306383 { Composite(m, 3); }
    if m == 805306385 { Composite(m, 5); }
    if m == 805306387 { Composite(m, 131); }
    if m == 805306389 { Composite(m, 3); }
    if m == 805306391 { Composite(m, 2111); }
    if m == 805306393 { Composite(m, 19); }
    if m == 805306395 { Composite(m, 3); }
    if m == 805306397 { Composite(m, 7); }
  }

  lemma Gap27a(m: nat)
    requires 805306398 < m < 805306429
    ensures !Prime(m)
  {
    hide Prime;
    if m % 2 == 0 { Composite(m, 2); }
    if m == 805306399 { Composite(m, 59); }
    if m == 805306401 { Composite(m, 3); }
    if m == 805306403 { Composite(m, 11); }
    if m == 805306405 { Composite(m, 5); }
    if m == 805306407 { Composite(m, 3); }
    if m == 805306409 { Composite(m, 149); }
    if m == 805306411 { Composite(m, 7); }
    if m == 805306413 { Composite(m, 3); }
    if m == 805306415 { Composite(m, 5); }
    if m == 805306417 { Composite(m, 7591); }
    if m == 805306419 { Composite(m, 3); }
    if m == 805306421 { Composite(m, 83); }
    if m == 805306423 { Composite(m, 29); }
    if m == 805306425 { Composite(m, 3); }
    if m == 805306427 { Composite(m, 103); }
  }

  lemma Gap27b(m: nat)
    requires 805306428 < m < 805306457
    ensures !Prime(m)
  {
    hide Prime;
    if m % 2 == 0 { Composite(m, 2); }
    if m == 805306429 { Composite(m, 23); }
    if m == 805306431 { Composite(m, 3); }
    if m == 805306433 { Composite(m, 53); }
    if m == 805306435 { Composite(m, 5); }
    if m == 805306437 { Composite(m, 3); }
    if m == 805306439 { Composite(m, 7); }
    if m == 805306441 { Composite(m, 757); }
    if m == 805306443 { Composite(m, 3); }
    if m == 805306445 { Composite(m, 5); }
    if m == 805306447 { Composite(m, 11); }
    if m == 805306449 { Composite(m, 3); }
    if m == 805306451 { Composite(m, 43); }
    if m == 805306453 { Composite(m, 7); }
    if m == 805306455 { Composite(m, 3); }
  }

  lemma Gap28(m: nat)
    requires 1610612736 < m < 1610612741
    ensures !Prime(m)
  {
    hide Prime;
    if m % 2 == 0 { Composite(m, 2); }
    if m == 1610612737 { Composite(m, 79); }
    if m == 1610612739 { Composite(m, 3); }
  }

  lemma NextPower(k: nat)
    ensures Pow2(k + 1) == 2 * Pow2(k)
  {
  }

  lemma Sixteen()
    ensures Pow2(4) == 16
  {
  }

  lemma Powers3()
    ensures Pow2(4) == 16 && Pow2(5) == 32 && Pow2(6) == 64 && Pow2(7) == 128
    ensures Pow2(8) == 256 && Pow2(9) == 512 && Pow2(10) == 1024 && Pow2(11) == 2048
  {
    hide Pow2;
    Sixteen();
    NextPower(4);
    NextPower(5);
    NextPower(6);
    NextPower(7);
    NextPower(8);
    NextPower(9);
    NextPower(10);
  }

  lemma InGapFrom3(i: nat, m: nat)
    requires 3 <= i <= 10 && 3 * Pow2(i + 1) < m < PRIMES[i]
    ensures !Prime(m)
  {
    hide Prime, Pow2;
    Powers3();
    if i == 3 {
      Gap3(m);
    } else if i == 6 {
      Gap6(m);
    } else if i == 8 {
      Gap8(m);
    } else if i == 9 {
      Gap9(m);
    } else if i == 10 {
      Gap10(m);
    }
  }

  lemma CloseFrom3(i: nat)
    requires 3 <= i <= 10
    ensures 3 * Pow2(i + 1) < PRIMES[i] < 3 * Pow2(i + 1) + 100
  {
    hide Pow2;
    Powers3();
  }

  lemma Powers11()
    ensures Pow2(12) == 4096 && Pow2(13) == 8192 && Pow2(14) == 16384
    ensures Pow2(15) == 32768 && Pow2(16) == 65536 && Pow2(17) == 131072
  {
    hide Pow2;
    Powers3();
    NextPower(11);
    NextPower(12);
    NextPower(13);
    NextPower(14);
    NextPower(15);
    NextPower(16);
  }

  lemma InGapFrom11(i: nat, m: nat)
    requires 11 <= i <= 16 && 3 * Pow2(i + 1) < m < PRIMES[i]
    ensures !Prime(m)
  {
    hide Prime, Pow2;
    Powers11();
    if i == 12 {
      Gap12(m);
    } else if i == 13 {
      Gap13(m);
    } else if i == 14 {
      Gap14(m);
    } else if i == 15 {
      Gap15(m);
    } else if i == 16 {
      Gap16(m);
    }
  }

  lemma CloseFrom11(i: nat)
    requires 11 <= i <= 16
    ensures 3 * Pow2(i + 1) < PRIMES[i] < 3 * Pow2(i + 1) + 100
  {
    hide Pow2;
    Powers11();
  }

  lemma Powers17()
    ensures Pow2(18) == 262144 && Pow2(19) == 524288 && Pow2(20) == 1048576
    ensures Pow2(21) == 2097152 && Pow2(22) == 4194304 && Pow2(23) == 8388608
  {
    hide Pow2;
    Powers11();
    NextPower(17);
    NextPower(18);
    NextPower(19);
    NextPower(20);
    NextPower(21);
    NextPower(22);
  }

  lemma InGapFrom17(i: nat, m: nat)
    requires 17 <= i <= 22 && 3 * Pow2(i + 1) < m < PRIMES[i]
    ensures !Prime(m)
  {
    hide Prime, Pow2;
    Powers17();
    if i == 18 {
      Gap18(m);
    } else if i == 19 {
      Gap19(m);
    } else if i == 20 {
      Gap20(m);
    } else if i == 21 {
      Gap21(m);
    } else if i == 22 {
      Gap22(m);
    }
  }

  lemma CloseFrom17(i: nat)
    requires 17 <= i <= 22
    ensures 3 * Pow2(i + 1) < PRIMES[i] < 3 * Pow2(i + 1) + 100
  {
    hide Pow2;
    Powers17();
  }

  lemma Powers23()
    ensures Pow2(24) == 16777216 && Pow2(25) == 33554432 && Pow2(26) == 67108864
    ensures Pow2(27) == 134217728 && Pow2(28) == 268435456 && Pow2(29) == 536870912
  {
    hide Pow2;
    Powers17();
    NextPower(23);
    NextPower(24);
    NextPower(25);
    NextPower(26);
    NextPower(27);
    NextPower(28);
  }

  lemma InGapFrom23(i: nat, m: nat)
    requires 23 <= i <= 28 && 3 * Pow2(i + 1) < m < PRIMES[i]
    ensures !Prime(m)
  {
    hide Prime, Pow2;
    Powers23();
    if i == 23 {
      Gap23(m);
    } else if i == 24 {
      Gap24(m);
    } else if i == 25 {
      Gap25(m);
    } else if i == 26 {
      Gap26(m);
    } else if i == 27 {
      if m < 805306399 {
        Gap27(m);
      } else if m < 805306429 {
        Gap27a(m);
      } else {
        Gap27b(m);
      }
    } else if i == 28 {
      Gap28(m);
    }
  }

  lemma CloseFrom23(i: nat)
    requires 23 <= i <= 28
    ensures 3 * Pow2(i + 1) < PRIMES[i] < 3 * Pow2(i + 1) + 100
  {
    hide Pow2;
    Powers23();
  }

  /** From 53 on a listed size is the least prime above three times a power of two. */
  lemma LeastPrimeAbove(i: nat, m: nat)
    requires 3 <= i <= 28 && 3 * Pow2(i + 1) < m <= PRIMES[i]
    ensures Prime(m) <==> m == PRIMES[i]
  {
    hide Prime, Pow2;
    if m == PRIMES[i] {
      AllPrime(i);
    } else if i <= 10 {
      InGapFrom3(i, m);
    } else if i <= 16 {
      InGapFrom11(i, m);
    } else if i <= 22 {
      InGapFrom17(i, m);
    } else {
      InGapFrom23(i, m);
    }
  }

  /** And it is above it, by less than a hundred. */
  lemma CloseAbove(i: nat)
    requires 3 <= i <= 28
    ensures 3 * Pow2(i + 1) < PRIMES[i] < 3 * Pow2(i + 1) + 100
  {
    hide Pow2;
    if i <= 10 {
      CloseFrom3(i);
    } else if i <= 16 {
      CloseFrom11(i);
    } else if i <= 22 {
      CloseFrom17(i);
    } else {
      CloseFrom23(i);
    }
  }
}
