/** fmpz_fib_ui (src/fmpz/fib_ui.c): the Fibonacci number F(n) from a table
    of the first NUM_SMALL_FIB values, from one two-word product by the
    doubling formulas below NUM_SMALL_FIB2, and from GMP above. */
module Fib {
  import opened Arith
  import opened Words
  import opened Fmpz

  /** The Fibonacci numbers. */
  function Fib(n: nat): nat
  {
    if n < 2 then n else Fib(n - 1) + Fib(n - 2)
  }

  const NumSmallFib: nat := 94
  const NumSmallFib2: nat := 184

  /* small_fib (lines 25-48) for FLINT_BITS = 64, written as eight runs of
     twelve entries. */
  const SmallFib0: seq<Word> := [
      0, 1, 1, 2,
      3, 5, 8, 13,
      21, 34, 55, 89
    ]
  const SmallFib12: seq<Word> := [
      144, 233, 377, 610,
      987, 1597, 2584, 4181,
      6765, 10946, 17711, 28657
    ]
  const SmallFib24: seq<Word> := [
      46368, 75025, 121393, 196418,
      317811, 514229, 832040, 1346269,
      2178309, 3524578, 5702887, 9227465
    ]
  const SmallFib36: seq<Word> := [
      14930352, 24157817, 39088169, 63245986,
      102334155, 165580141, 267914296, 433494437,
      701408733, 1134903170, 1836311903, 2971215073
    ]
  const SmallFib48: seq<Word> := [
      4807526976, 7778742049, 12586269025, 20365011074,
      32951280099, 53316291173, 86267571272, 139583862445,
      225851433717, 365435296162, 591286729879, 956722026041
    ]
  const SmallFib60: seq<Word> := [
      1548008755920, 2504730781961, 4052739537881, 6557470319842,
      10610209857723, 17167680177565, 27777890035288, 44945570212853,
      72723460248141, 117669030460994, 190392490709135, 308061521170129
    ]
  const SmallFib72: seq<Word> := [
      498454011879264, 806515533049393, 1304969544928657, 2111485077978050,
      3416454622906707, 5527939700884757, 8944394323791464, 14472334024676221,
      23416728348467685, 37889062373143906, 61305790721611591, 99194853094755497
    ]
  const SmallFib84: seq<Word> := [
      160500643816367088, 259695496911122585, 420196140727489673, 679891637638612258,
      1100087778366101931, 1779979416004714189, 2880067194370816120, 4660046610375530309,
      7540113804746346429, 12200160415121876738
    ]

  const SmallFib: seq<Word> :=
    SmallFib0 + SmallFib12 + SmallFib24 + SmallFib36 + SmallFib48 + SmallFib60 + SmallFib72 + SmallFib84

  /** Entry i of s is i for i < 2 and the sum of the two entries before it otherwise. */
  predicate FibStep(s: seq<Word>, i: nat)
    requires i < |s|
  {
    s[i] as int == if i < 2 then i else s[i - 1] as int + s[i - 2]
  }

  /** TableStep(i): small_fib satisfies FibStep at i. */
  predicate TableStep(i: nat)
    requires i < |SmallFib|
  {
    FibStep(SmallFib, i)
  }

  /* TableStep is checked entry by entry, in runs of twelve. */
  lemma TableStepsFrom0()
    ensures TableStep(0)
      && TableStep(1)
      && TableStep(2)
      && TableStep(3)
      && TableStep(4)
      && TableStep(5)
      && TableStep(6)
      && TableStep(7)
      && TableStep(8)
      && TableStep(9)
      && TableStep(10)
      && TableStep(11)
      && TableStep(12)
      && TableStep(13)
  {
  }

  lemma TableStepsFrom14()
    ensures TableStep(14)
      && TableStep(15)
      && TableStep(16)
      && TableStep(17)
      && TableStep(18)
      && TableStep(19)
      && TableStep(20)
      && TableStep(21)
      && TableStep(22)
      && TableStep(23)
      && TableStep(24)
      && TableStep(25)
  {
  }

  lemma TableStepsFrom26()
    ensures TableStep(26)
      && TableStep(27)
      && TableStep(28)
      && TableStep(29)
      && TableStep(30)
      && TableStep(31)
      && TableStep(32)
      && TableStep(33)
      && TableStep(34)
      && TableStep(35)
      && TableStep(36)
      && TableStep(37)
  {
  }

  lemma TableStepsFrom38()
    ensures TableStep(38)
      && TableStep(39)
      && TableStep(40)
      && TableStep(41)
      && TableStep(42)
      && TableStep(43)
      && TableStep(44)
      && TableStep(45)
      && TableStep(46)
      && TableStep(47)
      && TableStep(48)
      && TableStep(49)
  {
  }

  lemma TableStepsFrom50()
    ensures TableStep(50)
      && TableStep(51)
      && TableStep(52)
      && TableStep(53)
      && TableStep(54)
      && TableStep(55)
      && TableStep(56)
      && TableStep(57)
      && TableStep(58)
      && TableStep(59)
      && TableStep(60)
      && TableStep(61)
  {
  }

  lemma TableStepsFrom62()
    ensures TableStep(62)
      && TableStep(63)
      && TableStep(64)
      && TableStep(65)
      && TableStep(66)
      && TableStep(67)
      && TableStep(68)
      && TableStep(69)
      && TableStep(70)
      && TableStep(71)
      && TableStep(72)
      && TableStep(73)
  {
  }

  lemma TableStepsFrom74()
    ensures TableStep(74)
      && TableStep(75)
      && TableStep(76)
      && TableStep(77)
      && TableStep(78)
      && TableStep(79)
      && TableStep(80)
      && TableStep(81)
      && TableStep(82)
      && TableStep(83)
      && TableStep(84)
      && TableStep(85)
  {
  }

  lemma TableStepsFrom86()
    ensures TableStep(86)
      && TableStep(87)
      && TableStep(88)
      && TableStep(89)
      && TableStep(90)
      && TableStep(91)
      && TableStep(92)
      && TableStep(93)
  {
  }

  /** small_fib satisfies FibStep at every index. */
  lemma TableStepAt(i: nat)
    requires i < NumSmallFib
    ensures TableStep(i)
  {
    TableStepsFrom0();
    TableStepsFrom14();
    TableStepsFrom26();
    TableStepsFrom38();
    TableStepsFrom50();
    TableStepsFrom62();
    TableStepsFrom74();
    TableStepsFrom86();
    if i == 0 {
    } else if i == 1 {
    } else if i == 2 {
    } else if i == 3 {
    } else if i == 4 {
    } else if i == 5 {
    } else if i == 6 {
    } else if i == 7 {
    } else if i == 8 {
    } else if i == 9 {
    } else if i == 10 {
    } else if i == 11 {
    } else if i == 12 {
    } else if i == 13 {
    } else if i == 14 {
    } else if i == 15 {
    } else if i == 16 {
    } else if i == 17 {
    } else if i == 18 {
    } else if i == 19 {
    } else if i == 20 {
    } else if i == 21 {
    } else if i == 22 {
    } else if i == 23 {
    } else if i == 24 {
    } else if i == 25 {
    } else if i == 26 {
    } else if i == 27 {
    } else if i == 28 {
    } else if i == 29 {
    } else if i == 30 {
    } else if i == 31 {
    } else if i == 32 {
    } else if i == 33 {
    } else if i == 34 {
    } else if i == 35 {
    } else if i == 36 {
    } else if i == 37 {
    } else if i == 38 {
    } else if i == 39 {
    } else if i == 40 {
    } else if i == 41 {
    } else if i == 42 {
    } else if i == 43 {
    } else if i == 44 {
    } else if i == 45 {
    } else if i == 46 {
    } else if i == 47 {
    } else if i == 48 {
    } else if i == 49 {
    } else if i == 50 {
    } else if i == 51 {
    } else if i == 52 {
    } else if i == 53 {
    } else if i == 54 {
    } else if i == 55 {
    } else if i == 56 {
    } else if i == 57 {
    } else if i == 58 {
    } else if i == 59 {
    } else if i == 60 {
    } else if i == 61 {
    } else if i == 62 {
    } else if i == 63 {
    } else if i == 64 {
    } else if i == 65 {
    } else if i == 66 {
    } else if i == 67 {
    } else if i == 68 {
    } else if i == 69 {
    } else if i == 70 {
    } else if i == 71 {
    } else if i == 72 {
    } else if i == 73 {
    } else if i == 74 {
    } else if i == 75 {
    } else if i == 76 {
    } else if i == 77 {
    } else if i == 78 {
    } else if i == 79 {
    } else if i == 80 {
    } else if i == 81 {
    } else if i == 82 {
    } else if i == 83 {
    } else if i == 84 {
    } else if i == 85 {
    } else if i == 86 {
    } else if i == 87 {
    } else if i == 88 {
    } else if i == 89 {
    } else if i == 90 {
    } else if i == 91 {
    } else if i == 92 {
    } else if i == 93 {
    }
  }

  /** A sequence that satisfies FibStep everywhere holds the Fibonacci numbers. */
  lemma {:induction false} RunIsFib(s: seq<Word>, i: nat)
    requires i < |s|
    requires forall j :: 0 <= j < |s| ==> FibStep(s, j)
    ensures s[i] as int == Fib(i)
  {
    if i >= 2 {
      assert FibStep(s, i);
      RunIsFib(s, i - 1);
      RunIsFib(s, i - 2);
    } else {
      assert FibStep(s, i);
    }
  }

  /** small_fib[i] is F(i) for every i < NUM_SMALL_FIB. */
  lemma TableIsFib(i: nat)
    requires i < NumSmallFib
    ensures |SmallFib| == NumSmallFib && SmallFib[i] as int == Fib(i)
  {
    forall j | 0 <= j < |SmallFib|
      ensures FibStep(SmallFib, j)
    {
      TableStepAt(j);
    }
    RunIsFib(SmallFib, i);
  }

  /** F(n) is a word for n < NUM_SMALL_FIB. */
  lemma FibFitsWord(n: nat)
    requires n < NumSmallFib
    ensures Fib(n) < WordBase
  {
    TableIsFib(n);
  }

  /** The addition formula F(m + n + 1) = F(m + 1) F(n + 1) + F(m) F(n). */
  lemma {:induction false} FibAdd(m: nat, n: nat)
    ensures Fib(m + n + 1) == Fib(m + 1) * Fib(n + 1) + Fib(m) * Fib(n)
    decreases n
  {
    if n == 0 {
      assert Fib(1) == 1;
      AddFormulaBase(Fib(m + 1), Fib(m), Fib(n + 1), Fib(n), Fib(m + n + 1));
    } else if n == 1 {
      assert Fib(2) == 1;
      AddFormulaBase(Fib(m + 1), Fib(m), Fib(n + 1), Fib(n), Fib(m + n + 1));
    } else {
      var n1, n2 := n - 1, n - 2;
      FibAdd(m, n1);
      FibAdd(m, n2);
      AddFormulaStep(Fib(m + 1), Fib(m), Fib(n + 1), Fib(n), Fib(n1), Fib(n2),
                     Fib(m + n + 1), Fib(m + n1 + 1), Fib(m + n2 + 1));
    }
  }

  lemma AddFormulaBase(p: int, q: int, t: int, x: int, u: int)
    requires t == 1 && (x == 0 || x == 1) && u == (if x == 0 then p else p + q)
    ensures u == p * t + q * x
  {
  }

  lemma AddFormulaStep(p: int, q: int, t: int, x: int, y: int, z: int, u: int, v: int, w: int)
    requires t == x + y && x == y + z && u == v + w
    requires v == p * x + q * y && w == p * y + q * z
    ensures u == p * t + q * x
  {
    assert p * (x + y) == p * x + p * y;
    assert q * (y + z) == q * y + q * z;
  }

  /** Cassini's identity F(k - 1) F(k + 1) - F(k)^2 = (-1)^k. */
  lemma {:induction false} Cassini(k: nat)
    requires k >= 1
    ensures Fib(k - 1) * Fib(k + 1) - Fib(k) * Fib(k) == if k % 2 == 0 then 1 else -1
  {
    if k == 1 {
      assert Fib(2) == 1;
    } else {
      var j := k - 1;
      Cassini(j);
      CassiniStep(Fib(j - 1), Fib(j), Fib(k), Fib(k + 1), if j % 2 == 0 then 1 else -1);
    }
  }

  lemma CassiniStep(x: int, y: int, z: int, t: int, c: int)
    requires z == y + x && t == z + y && x * z - y * y == c
    ensures y * t - z * z == -c
  {
    assert y * t == y * z + y * y;
    assert z * z == z * y + z * x;
  }

  /** F(2k) = F(k) (F(k) + 2 F(k - 1)), the even branch (lines 69-72). */
  lemma FibDoubleEven(k: nat)
    requires k >= 1
    ensures Fib(2 * k) == Fib(k) * (Fib(k) + 2 * Fib(k - 1))
  {
    var j := k - 1;
    FibAdd(k, j);
    assert k + j + 1 == 2 * k;
    EvenAlgebra(Fib(k), Fib(j), Fib(k + 1), Fib(2 * k));
  }

  lemma EvenAlgebra(a: int, b: int, t: int, u: int)
    requires t == a + b && u == t * a + a * b
    ensures u == a * (a + 2 * b)
  {
    assert t * a == a * a + b * a;
  }

  /** F(2k + 1) = (2 F(k) + F(k - 1)) (2 F(k) - F(k - 1)) + 2 (-1)^k, the odd
      branch (lines 61-68). */
  lemma FibDoubleOdd(k: nat)
    requires k >= 1
    ensures Fib(2 * k + 1) == (2 * Fib(k) + Fib(k - 1)) * (2 * Fib(k) - Fib(k - 1))
                              + (if k % 2 == 0 then 2 else -2)
  {
    FibAdd(k, k);
    Cassini(k);
    var a, b := Fib(k), Fib(k - 1);
    assert k + k + 1 == 2 * k + 1;
    assert Fib(k + 1) == a + b;
    DoubleOddAlgebra(a, b, if k % 2 == 0 then 1 else -1);
  }

  lemma DoubleOddAlgebra(a: int, b: int, c: int)
    requires b * (a + b) - a * a == c
    ensures (a + b) * (a + b) + a * a == (2 * a + b) * (2 * a - b) + 2 * c
  {
    assert (a + b) * (a + b) == a * a + 2 * (a * b) + b * b;
    assert (2 * a + b) * (2 * a - b) == 4 * (a * a) - b * b;
    assert b * (a + b) == a * b + b * b;
  }

  /** Adding 2 to (k even) or subtracting 2 from (k odd) the low word of the
      odd-branch product neither carries nor borrows, for the k the doubling
      path sees. */
  predicate NoCarry(k: nat)
    requires 1 <= k < |SmallFib|
  {
    LowRoom(SmallFib[k], SmallFib[k - 1], if k % 2 == 0 then 2 else -2)
  }

  /** The low word of (2a + b)(2a - b) moved by c stays within the word. */
  predicate LowRoom(a: int, b: int, c: int)
  {
    0 <= ((2 * a + b) * (2 * a - b)) % WordBase + c < WordBase
  }

  /* NoCarry is a fact about two table entries; it is checked one k at a time. */
  lemma NoCarry47() ensures NoCarry(47) { }
  lemma NoCarry48() ensures NoCarry(48) { }
  lemma NoCarry49() ensures NoCarry(49) { }
  lemma NoCarry50() ensures NoCarry(50) { }
  lemma NoCarry51() ensures NoCarry(51) { }
  lemma NoCarry52() ensures NoCarry(52) { }
  lemma NoCarry53() ensures NoCarry(53) { }
  lemma NoCarry54() ensures NoCarry(54) { }
  lemma NoCarry55() ensures NoCarry(55) { }
  lemma NoCarry56() ensures NoCarry(56) { }
  lemma NoCarry57() ensures NoCarry(57) { }
  lemma NoCarry58() ensures NoCarry(58) { }
  lemma NoCarry59() ensures NoCarry(59) { }
  lemma NoCarry60() ensures NoCarry(60) { }
  lemma NoCarry61() ensures NoCarry(61) { }
  lemma NoCarry62() ensures NoCarry(62) { }
  lemma NoCarry63() ensures NoCarry(63) { }
  lemma NoCarry64() ensures NoCarry(64) { }
  lemma NoCarry65() ensures NoCarry(65) { }
  lemma NoCarry66() ensures NoCarry(66) { }
  lemma NoCarry67() ensures NoCarry(67) { }
  lemma NoCarry68() ensures NoCarry(68) { }
  lemma NoCarry69() ensures NoCarry(69) { }
  lemma NoCarry70() ensures NoCarry(70) { }
  lemma NoCarry71() ensures NoCarry(71) { }
  lemma NoCarry72() ensures NoCarry(72) { }
  lemma NoCarry73() ensures NoCarry(73) { }
  lemma NoCarry74() ensures NoCarry(74) { }
  lemma NoCarry75() ensures NoCarry(75) { }
  lemma NoCarry76() ensures NoCarry(76) { }
  lemma NoCarry77() ensures NoCarry(77) { }
  lemma NoCarry78() ensures NoCarry(78) { }
  lemma NoCarry79() ensures NoCarry(79) { }
  lemma NoCarry80() ensures NoCarry(80) { }
  lemma NoCarry81() ensures NoCarry(81) { }
  lemma NoCarry82() ensures NoCarry(82) { }
  lemma NoCarry83() ensures NoCarry(83) { }
  lemma NoCarry84() ensures NoCarry(84) { }
  lemma NoCarry85() ensures NoCarry(85) { }
  lemma NoCarry86() ensures NoCarry(86) { }
  lemma NoCarry87() ensures NoCarry(87) { }
  lemma NoCarry88() ensures NoCarry(88) { }
  lemma NoCarry89() ensures NoCarry(89) { }
  lemma NoCarry90() ensures NoCarry(90) { }
  lemma NoCarry91() ensures NoCarry(91) { }

  /** No carry or borrow for any k the doubling path sees. */
  lemma NoCarryAt(k: nat)
    requires 47 <= k <= 91
    ensures NoCarry(k)
  {
    NoCarry47();
    NoCarry48();
    NoCarry49();
    NoCarry50();
    NoCarry51();
    NoCarry52();
    NoCarry53();
    NoCarry54();
    NoCarry55();
    NoCarry56();
    NoCarry57();
    NoCarry58();
    NoCarry59();
    NoCarry60();
    NoCarry61();
    NoCarry62();
    NoCarry63();
    NoCarry64();
    NoCarry65();
    NoCarry66();
    NoCarry67();
    NoCarry68();
    NoCarry69();
    NoCarry70();
    NoCarry71();
    NoCarry72();
    NoCarry73();
    NoCarry74();
    NoCarry75();
    NoCarry76();
    NoCarry77();
    NoCarry78();
    NoCarry79();
    NoCarry80();
    NoCarry81();
    NoCarry82();
    NoCarry83();
    NoCarry84();
    NoCarry85();
    NoCarry86();
    NoCarry87();
    NoCarry88();
    NoCarry89();
    NoCarry90();
    NoCarry91();
    if k == 47 {
    } else if k == 48 {
    } else if k == 49 {
    } else if k == 50 {
    } else if k == 51 {
    } else if k == 52 {
    } else if k == 53 {
    } else if k == 54 {
    } else if k == 55 {
    } else if k == 56 {
    } else if k == 57 {
    } else if k == 58 {
    } else if k == 59 {
    } else if k == 60 {
    } else if k == 61 {
    } else if k == 62 {
    } else if k == 63 {
    } else if k == 64 {
    } else if k == 65 {
    } else if k == 66 {
    } else if k == 67 {
    } else if k == 68 {
    } else if k == 69 {
    } else if k == 70 {
    } else if k == 71 {
    } else if k == 72 {
    } else if k == 73 {
    } else if k == 74 {
    } else if k == 75 {
    } else if k == 76 {
    } else if k == 77 {
    } else if k == 78 {
    } else if k == 79 {
    } else if k == 80 {
    } else if k == 81 {
    } else if k == 82 {
    } else if k == 83 {
    } else if k == 84 {
    } else if k == 85 {
    } else if k == 86 {
    } else if k == 87 {
    } else if k == 88 {
    } else if k == 89 {
    } else if k == 90 {
    } else if k == 91 {
    }
  }

  /** fmpz_set_uiui: the canonical fmpz of the double word hi:lo. */
  function SetUiUi(d: DWord): (z: Fmpz)
    ensures z.Canonical() && z.Value() == d.Value()
  {
    FromInt(d.Value())
  }

  /** Lines 58-72: the double word for F(n), NUM_SMALL_FIB <= n < NUM_SMALL_FIB2,
      from a = small_fib[n / 2] and b = small_fib[n / 2 - 1]. */
  function DoublingPath(n: nat): (d: DWord)
    requires NumSmallFib <= n < NumSmallFib2
    ensures d.Value() == Fib(n)
  {
    var k := n / 2;
    if n % 2 == 1 then
      assert n == 2 * k + 1;
      OddPath(k, SmallFib[k], SmallFib[k - 1])
    else
      assert n == 2 * k;
      EvenPath(k, SmallFib[k], SmallFib[k - 1])
  }

  /** Lines 61-68: hi:lo = (2a + b)(2a - b) by umul_ppmm, then lo += 2 for even k
      and lo -= 2 for odd k, in word arithmetic and without touching hi. */
  function OddPath(k: nat, a: Word, b: Word): (d: DWord)
    requires 47 <= k <= 91 && a == SmallFib[k] && b == SmallFib[k - 1]
    ensures d.Value() == Fib(2 * k + 1)
  {
    var p := UMulPPMM(ToWord(2 * a + b), ToWord(2 * a - b));
    var lo := if k % 2 == 0 then ToWord(p.lo + 2) else ToWord(p.lo - 2);
    OddPathExact(k, a, b, p, lo);
    DWord(p.hi, lo)
  }

  /** Lines 69-72: hi:lo = a (a + 2b) by umul_ppmm. */
  function EvenPath(k: nat, a: Word, b: Word): (d: DWord)
    requires 47 <= k <= 91 && a == SmallFib[k] && b == SmallFib[k - 1]
    ensures d.Value() == Fib(2 * k)
  {
    DoublingFactors(k);
    TableIsFib(k);
    TableIsFib(k - 1);
    EvenPathExact(k, a, b);
    UMulPPMM(a, ToWord(a + 2 * b))
  }

  /** The even branch in words: umul_ppmm(a, a + 2b) holds F(2k). */
  lemma EvenPathExact(k: nat, a: Word, b: Word)
    requires k >= 1 && a == Fib(k) && b == Fib(k - 1) && a + 2 * b < WordBase
    ensures UMulPPMM(a, ToWord(a + 2 * b)).Value() == Fib(2 * k)
  {
    DivModSmall(a + 2 * b, WordBase);
    var c := ToWord(a + 2 * b);
    EvenPathFib(k, a, c);
    UMulPPMMExact(a, c);
  }

  /** The even product a (a + 2b) is F(2k). */
  lemma EvenPathFib(k: nat, a: int, c: int)
    requires k >= 1 && a == Fib(k) && c == a + 2 * Fib(k - 1)
    ensures a * c == Fib(2 * k)
  {
    FibDoubleEven(k);
    SameProduct(a, c, Fib(k), Fib(k) + 2 * Fib(k - 1));
  }

  lemma SameProduct(x: int, y: int, x': int, y': int)
    requires x == x' && y == y'
    ensures x * y == x' * y'
  {
  }

  /** For 47 <= k <= 91 and a = small_fib[k], b = small_fib[k - 1], the factors
      2a + b, 2a - b and a + 2b are words, so forming them in word arithmetic
      loses nothing: 2a + b = F(k + 2) <= F(93). */
  lemma DoublingFactors(k: nat)
    requires 47 <= k <= 91
    ensures var a, b := SmallFib[k] as int, SmallFib[k - 1] as int;
      0 <= 2 * a - b && 2 * a + b < WordBase && a + 2 * b < WordBase
      && ToWord(2 * a + b) == 2 * a + b && ToWord(2 * a - b) == 2 * a - b
      && ToWord(a + 2 * b) == a + 2 * b
  {
    TableIsFib(k);
    TableIsFib(k - 1);
    TableIsFib(k + 2);
    assert Fib(k + 2) == Fib(k + 1) + Fib(k);
    assert Fib(k + 1) == Fib(k) + Fib(k - 1);
    var a, b := Fib(k), Fib(k - 1);
    DivModSmall(2 * a + b, WordBase);
    DivModSmall(2 * a - b, WordBase);
    DivModSmall(a + 2 * b, WordBase);
  }

  /** The odd branch: moving the low word by 2 without touching hi gives F(2k + 1). */
  lemma OddPathExact(k: nat, a: Word, b: Word, p: DWord, lo: Word)
    requires 47 <= k <= 91 && a == SmallFib[k] && b == SmallFib[k - 1]
    requires p == UMulPPMM(ToWord(2 * a + b), ToWord(2 * a - b))
    requires lo == if k % 2 == 0 then ToWord(p.lo + 2) else ToWord(p.lo - 2)
    ensures p.hi * WordBase + lo == Fib(2 * k + 1)
  {
    var c := if k % 2 == 0 then 2 else -2;
    OddPathWords(k, a, b, p, lo);
    TableIsFib(k);
    TableIsFib(k - 1);
    OddPathFib(k, a, b);
  }

  /** In words: hi:lo of the odd product, with lo moved by 2, is the product moved by 2. */
  lemma OddPathWords(k: nat, a: Word, b: Word, p: DWord, lo: Word)
    requires 47 <= k <= 91 && a == SmallFib[k] && b == SmallFib[k - 1]
    requires p == UMulPPMM(ToWord(2 * a + b), ToWord(2 * a - b))
    requires lo == if k % 2 == 0 then ToWord(p.lo + 2) else ToWord(p.lo - 2)
    ensures p.hi * WordBase + lo == (2 * a + b) * (2 * a - b) + (if k % 2 == 0 then 2 else -2)
  {
    var c := if k % 2 == 0 then 2 else -2;
    DoublingFactors(k);
    NoCarryAt(k);
    OddWordsAlgebra(a, b, c, ToWord(2 * a + b), ToWord(2 * a - b), p, lo);
  }

  lemma OddWordsAlgebra(a: int, b: int, c: int, x: Word, y: Word, p: DWord, lo: Word)
    requires x == 2 * a + b && y == 2 * a - b && p == UMulPPMM(x, y)
    requires LowRoom(a, b, c) && lo == ToWord(p.lo + c)
    ensures p.hi * WordBase + lo == (2 * a + b) * (2 * a - b) + c
  {
    UMulPPMMExact(x, y);
    LowWordShift(x * y, p.hi, p.lo, c, lo);
  }

  /** The odd product moved by 2 is F(2k + 1). */
  lemma OddPathFib(k: nat, a: int, b: int)
    requires k >= 1 && a == Fib(k) && b == Fib(k - 1)
    ensures (2 * a + b) * (2 * a - b) + (if k % 2 == 0 then 2 else -2) == Fib(2 * k + 1)
  {
    FibDoubleOdd(k);
    SameProduct(2 * a + b, 2 * a - b, 2 * Fib(k) + Fib(k - 1), 2 * Fib(k) - Fib(k - 1));
  }

  /** Adding c to the low word of the double word hi:lo of v, when that neither
      carries nor borrows, adds c to v. */
  lemma LowWordShift(v: int, hi: Word, lo: Word, c: int, lo2: Word)
    requires hi * WordBase + lo == v && 0 <= lo + c < WordBase && lo2 == ToWord(lo + c)
    ensures hi * WordBase + lo2 == v + c
  {
    DivModSmall(lo + c, WordBase);
  }

  /** fmpz_fib_ui: F(n) from the table, the doubling path, or GMP. */
  function FibUi(n: Word): (f: Fmpz)
    ensures f.Canonical() && f.Value() == Fib(n)
  {
    if n < NumSmallFib then
      TableIsFib(n);
      FromInt(SmallFib[n])
    else if n < NumSmallFib2 then
      SetUiUi(DoublingPath(n))
    else
      FromInt(Fib(n))
  }
}
