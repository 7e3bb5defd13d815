/**
 Where the constants of SHA-256 come from (sections 4.2.2 and 5.3.3 of FIPS 180-4): the first 32 bits of the
 fractional parts of the cube roots and square roots of the first primes.
 */
module Sha256Constants {
  import opened Bytes
  import Sha256

  const TWO_32: nat := 0x1_0000_0000
  const TWO_64: nat := 0x1_0000_0000_0000_0000
  const TWO_96: nat := 0x1_0000_0000_0000_0000_0000_0000

  /** The first 64 primes, four to a row. */
  const PRIME_ROWS: seq<seq<nat>> := [
    [2, 3, 5, 7], [11, 13, 17, 19], [23, 29, 31, 37], [41, 43, 47, 53],
    [59, 61, 67, 71], [73, 79, 83, 89], [97, 101, 103, 107], [109, 113, 127, 131],
    [137, 139, 149, 151], [157, 163, 167, 173], [179, 181, 191, 193], [197, 199, 211, 223],
    [227, 229, 233, 239], [241, 251, 257, 263], [269, 271, 277, 281], [283, 293, 307, 311]]

  /** `n` is the cube root of `p` in units of 2^-32, rounded down. */
  predicate CubeRoot(n: nat, p: nat) { n * n * n <= p * TWO_96 < (n + 1) * (n + 1) * (n + 1) }

  predicate SquareRoot(n: nat, p: nat) { n * n <= p * TWO_64 < (n + 1) * (n + 1) }

  function WholeCubeRoot(p: nat): nat {
    if p < 8 then 1 else if p < 27 then 2 else if p < 64 then 3 else if p < 125 then 4 else if p < 216 then 5 else 6
  }

  function WholeSquareRoot(p: nat): nat { if p < 4 then 1 else if p < 9 then 2 else if p < 16 then 3 else 4 }

  predicate CubeFraction(k: Sha256.Word, p: nat) { CubeRoot(WholeCubeRoot(p) * TWO_32 + k as int, p) }

  predicate SquareFraction(k: Sha256.Word, p: nat) { SquareRoot(WholeSquareRoot(p) * TWO_32 + k as int, p) }

  predicate AllCubes(ks: seq<Sha256.Word>, ps: seq<nat>) {
    |ks| == |ps| && (ks == [] || (CubeFraction(ks[0], ps[0]) && AllCubes(ks[1..], ps[1..])))
  }

  predicate AllSquares(ks: seq<Sha256.Word>, ps: seq<nat>) {
    |ks| == |ps| && (ks == [] || (SquareFraction(ks[0], ps[0]) && AllSquares(ks[1..], ps[1..])))
  }

  predicate CubeRow(r: nat)
    requires r < 16
  {
    AllCubes(Sha256.K_ROWS[r], PRIME_ROWS[r])
  }

  predicate SquareRow(r: nat)
    requires r < 2
  {
    AllSquares(Sha256.H_ROWS[r], PRIME_ROWS[r])
  }

  lemma CubeRow0()
    ensures CubeRow(0)
  {
  }

  lemma CubeRow1()
    ensures CubeRow(1)
  {
  }

  lemma CubeRow2()
    ensures CubeRow(2)
  {
  }

  lemma CubeRow3()
    ensures CubeRow(3)
  {
  }

  lemma CubeRow4()
    ensures CubeRow(4)
  {
  }

  lemma CubeRow5()
    ensures CubeRow(5)
  {
  }

  lemma CubeRow6()
    ensures CubeRow(6)
  {
  }

  lemma CubeRow7()
    ensures CubeRow(7)
  {
  }

  lemma CubeRow8()
    ensures CubeRow(8)
  {
  }

  lemma CubeRow9()
    ensures CubeRow(9)
  {
  }

  lemma CubeRow10()
    ensures CubeRow(10)
  {
  }

  lemma CubeRow11()
    ensures CubeRow(11)
  {
  }

  lemma CubeRow12()
    ensures CubeRow(12)
  {
  }

  lemma CubeRow13()
    ensures CubeRow(13)
  {
  }

  lemma CubeRow14()
    ensures CubeRow(14)
  {
  }

  lemma CubeRow15()
    ensures CubeRow(15)
  {
  }

  /** Every round constant is the fraction of the cube root of its prime, in all sixteen rows. */
  lemma RoundConstantsAreRoots()
    ensures CubeRow(0) && CubeRow(1) && CubeRow(2) && CubeRow(3) && CubeRow(4) && CubeRow(5) && CubeRow(6) && CubeRow(7)
    ensures CubeRow(8) && CubeRow(9) && CubeRow(10) && CubeRow(11)
    ensures CubeRow(12) && CubeRow(13) && CubeRow(14) && CubeRow(15)
  {
    hide CubeRow;
    CubeRow0();
    CubeRow1();
    CubeRow2();
    CubeRow3();
    CubeRow4();
    CubeRow5();
    CubeRow6();
    CubeRow7();
    CubeRow8();
    CubeRow9();
    CubeRow10();
    CubeRow11();
    CubeRow12();
    CubeRow13();
    CubeRow14();
    CubeRow15();
  }

  /** Every initial value is the fraction of the square root of its prime, in both rows. */
  lemma InitialValuesAreRoots()
    ensures SquareRow(0) && SquareRow(1)
  {
  }

  // ---- the table is the first 64 primes ------------------------------------------------------

  function Product(a: nat, b: nat): nat { a * b }

  /** No product of two smaller numbers. */
  ghost predicate IsPrime(n: nat) { n >= 2 && forall a: nat, b: nat | a >= 2 && b >= 2 :: Product(a, b) != n }

  predicate Sifted(n: nat, p: nat)
    requires p > 0
  {
    n == p || n % p != 0
  }

  /** Below 361 these seven divisors decide. */
  predicate Trial(n: nat) {
    && n >= 2 && Sifted(n, 2) && Sifted(n, 3) && Sifted(n, 5) && Sifted(n, 7) && Sifted(n, 11) && Sifted(n, 13)
    && Sifted(n, 17)
  }

  lemma Twos(n: nat, k: nat)
    requires k >= 2 && n == 2 * k
    ensures !Sifted(n, 2)
  {
  }

  lemma Threes(n: nat, k: nat)
    requires k >= 2 && n == 3 * k
    ensures !Sifted(n, 3)
  {
  }

  lemma Fives(n: nat, k: nat)
    requires k >= 2 && n == 5 * k
    ensures !Sifted(n, 5)
  {
  }

  lemma Sevens(n: nat, k: nat)
    requires k >= 2 && n == 7 * k
    ensures !Sifted(n, 7)
  {
  }

  lemma Elevens(n: nat, k: nat)
    requires k >= 2 && n == 11 * k
    ensures !Sifted(n, 11)
  {
  }

  lemma Thirteens(n: nat, k: nat)
    requires k >= 2 && n == 13 * k
    ensures !Sifted(n, 13)
  {
  }

  lemma Seventeens(n: nat, k: nat)
    requires k >= 2 && n == 17 * k
    ensures !Sifted(n, 17)
  {
  }

  lemma SmallFactor(n: nat, a: nat, b: nat)
    requires 2 <= a < 19 && b >= 2 && n == Product(a, b)
    ensures !Trial(n)
  {
    hide Sifted, Product;
    SmallProduct(a, b);
    match a
    case 2 => Twos(n, b);
    case 3 => Threes(n, b);
    case 4 => Twos(n, 2 * b);
    case 5 => Fives(n, b);
    case 6 => Twos(n, 3 * b);
    case 7 => Sevens(n, b);
    case 8 => Twos(n, 4 * b);
    case 9 => Threes(n, 3 * b);
    case 10 => Twos(n, 5 * b);
    case 11 => Elevens(n, b);
    case 12 => Twos(n, 6 * b);
    case 13 => Thirteens(n, b);
    case 14 => Twos(n, 7 * b);
    case 15 => Threes(n, 5 * b);
    case 16 => Twos(n, 8 * b);
    case 17 => Seventeens(n, b);
    case 18 => Twos(n, 9 * b);
  }

  /** The same product, one linear case for each small factor. */
  function Times(a: nat, b: nat): nat
    requires a < 19
  {
    match a
    case 0 => 0 * b
    case 1 => 1 * b
    case 2 => 2 * b
    case 3 => 3 * b
    case 4 => 4 * b
    case 5 => 5 * b
    case 6 => 6 * b
    case 7 => 7 * b
    case 8 => 8 * b
    case 9 => 9 * b
    case 10 => 10 * b
    case 11 => 11 * b
    case 12 => 12 * b
    case 13 => 13 * b
    case 14 => 14 * b
    case 15 => 15 * b
    case 16 => 16 * b
    case 17 => 17 * b
    case _ => 18 * b
  }

  lemma SmallProduct(a: nat, b: nat)
    requires a < 19
    ensures Product(a, b) == Times(a, b)
  {
  }

  lemma Large(a: nat, b: nat)
    requires a >= 19 && b >= 19
    ensures Product(a, b) >= 361
  {
    assert a * b >= 19 * b;
  }

  lemma Swapped(a: nat, b: nat)
    ensures Product(a, b) == Product(b, a)
  {
  }

  lemma TrialSound(n: nat, a: nat, b: nat)
    requires n < 361 && a >= 2 && b >= 2 && Product(a, b) == n
    ensures !Trial(n)
  {
    hide Product, Trial;
    if a < 19 {
      SmallFactor(n, a, b);
    } else if b < 19 {
      Swapped(a, b);
      SmallFactor(n, b, a);
    } else {
      Large(a, b);
    }
  }

  lemma Multiple(n: nat, p: nat)
    requires p == 2 || p == 3 || p == 5 || p == 7 || p == 11 || p == 13 || p == 17
    requires n >= 2 && !Sifted(n, p)
    ensures !IsPrime(n)
  {
    assert n == Product(p, n / p) && n / p >= 2;
    hide Product;
  }

  lemma TrialComplete(n: nat)
    requires n >= 2 && !Trial(n)
    ensures !IsPrime(n)
  {
    hide Sifted, IsPrime;
    var p: nat :| p in {2, 3, 5, 7, 11, 13, 17} && !Sifted(n, p);
    Multiple(n, p);
  }

  lemma TrialExact(n: nat)
    requires n < 361
    ensures Trial(n) <==> IsPrime(n)
  {
    hide Product, Sifted;
    if n >= 2 && !Trial(n) {
      hide IsPrime;
      TrialComplete(n);
    } else if n >= 2 && !IsPrime(n) {
      hide Trial;
      var a, b :| a >= 2 && b >= 2 && Product(a, b) == n;
      TrialSound(n, a, b);
    }
  }

  predicate Increasing(s: seq<nat>) { forall i, j | 0 <= i < j < |s| :: s[i] < s[j] }

  /** Where row `r` of the table begins. */
  function RowStart(r: nat): nat
    requires r <= 16
  {
    if r == 0 then 0 else if r == 16 then 312 else PRIME_ROWS[r][0]
  }

  /** From `lo` on and below `hi`, these four pass the trial and nothing else does. */
  predicate OnlyThese(lo: nat, hi: nat, a: nat, b: nat, c: nat, d: nat)
    decreases hi - lo
  {
    lo >= hi || ((Trial(lo) <==> lo == a || lo == b || lo == c || lo == d) && OnlyThese(lo + 1, hi, a, b, c, d))
  }

  lemma {:induction false} OnlyTheseExact(lo: nat, hi: nat, a: nat, b: nat, c: nat, d: nat)
    requires OnlyThese(lo, hi, a, b, c, d)
    ensures forall n: nat | lo <= n < hi :: Trial(n) <==> n in [a, b, c, d]
    decreases hi - lo
  {
    hide Trial;
    if lo < hi { OnlyTheseExact(lo + 1, hi, a, b, c, d); }
  }

  lemma Row0()
    ensures OnlyThese(0, 11, 2, 3, 5, 7)
  {
  }

  lemma Row1()
    ensures OnlyThese(11, 23, 11, 13, 17, 19)
  {
  }

  lemma Row2()
    ensures OnlyThese(23, 41, 23, 29, 31, 37)
  {
    assert OnlyThese(31, 41, 23, 29, 31, 37);
  }

  lemma Row3()
    ensures OnlyThese(41, 59, 41, 43, 47, 53)
  {
    assert OnlyThese(49, 59, 41, 43, 47, 53);
  }

  lemma Row4()
    ensures OnlyThese(59, 73, 59, 61, 67, 71)
  {
    assert OnlyThese(63, 73, 59, 61, 67, 71);
  }

  lemma Row5()
    ensures OnlyThese(73, 97, 73, 79, 83, 89)
  {
    assert OnlyThese(87, 97, 73, 79, 83, 89);
    assert OnlyThese(77, 97, 73, 79, 83, 89);
  }

  lemma Row6()
    ensures OnlyThese(97, 109, 97, 101, 103, 107)
  {
  }

  lemma Row7()
    ensures OnlyThese(109, 137, 109, 113, 127, 131)
  {
    assert OnlyThese(127, 137, 109, 113, 127, 131);
    assert OnlyThese(117, 137, 109, 113, 127, 131);
  }

  lemma Row8()
    ensures OnlyThese(137, 157, 137, 139, 149, 151)
  {
    assert OnlyThese(147, 157, 137, 139, 149, 151);
  }

  lemma Row9()
    ensures OnlyThese(157, 179, 157, 163, 167, 173)
  {
    assert OnlyThese(169, 179, 157, 163, 167, 173);
  }

  lemma Row10()
    ensures OnlyThese(179, 197, 179, 181, 191, 193)
  {
    assert OnlyThese(187, 197, 179, 181, 191, 193);
  }

  lemma Row11()
    ensures OnlyThese(197, 227, 197, 199, 211, 223)
  {
    assert OnlyThese(217, 227, 197, 199, 211, 223);
    assert OnlyThese(207, 227, 197, 199, 211, 223);
  }

  lemma Row12()
    ensures OnlyThese(227, 241, 227, 229, 233, 239)
  {
    assert OnlyThese(231, 241, 227, 229, 233, 239);
  }

  lemma Row13()
    ensures OnlyThese(241, 269, 241, 251, 257, 263)
  {
    assert OnlyThese(259, 269, 241, 251, 257, 263);
    assert OnlyThese(249, 269, 241, 251, 257, 263);
  }

  lemma Row14()
    ensures OnlyThese(269, 283, 269, 271, 277, 281)
  {
    assert OnlyThese(273, 283, 269, 271, 277, 281);
  }

  lemma Row15()
    ensures OnlyThese(283, 312, 283, 293, 307, 311)
  {
    assert OnlyThese(302, 312, 283, 293, 307, 311);
    assert OnlyThese(292, 312, 283, 293, 307, 311);
  }

  lemma RowExact(r: nat)
    requires r < 16
    ensures RowStart(r) <= RowStart(r + 1) <= 312 && |PRIME_ROWS[r]| == 4
    ensures forall n: nat | RowStart(r) <= n < RowStart(r + 1) :: Trial(n) <==> n in PRIME_ROWS[r]
    ensures Increasing(PRIME_ROWS[r]) && forall n | n in PRIME_ROWS[r] :: RowStart(r) <= n < RowStart(r + 1)
  {
    hide Trial, OnlyThese;
    Row0();
    Row1();
    Row2();
    Row3();
    Row4();
    Row5();
    Row6();
    Row7();
    Row8();
    Row9();
    Row10();
    Row11();
    Row12();
    Row13();
    Row14();
    Row15();
    var row := PRIME_ROWS[r];
    OnlyTheseExact(RowStart(r), RowStart(r + 1), row[0], row[1], row[2], row[3]);
    assert row == [row[0], row[1], row[2], row[3]];
  }

  /** The table, from row `r` on. */
  function Table(r: nat): seq<nat>
    requires r <= 16
    decreases 16 - r
  {
    if r == 16 then [] else PRIME_ROWS[r] + Table(r + 1)
  }

  lemma IncreasingConcat(s: seq<nat>, t: seq<nat>, mid: nat)
    requires Increasing(s) && Increasing(t)
    requires (forall n | n in s :: n < mid) && (forall n | n in t :: mid <= n)
    ensures Increasing(s + t)
  {
    assert forall i | 0 <= i < |s| :: s[i] in s;
    assert forall i | 0 <= i < |t| :: t[i] in t;
  }

  lemma {:induction false} TableExact(r: nat)
    requires r <= 16
    ensures RowStart(r) <= 312 && Increasing(Table(r)) && |Table(r)| == 4 * (16 - r)
    ensures forall n: nat :: n in Table(r) <==> RowStart(r) <= n < 312 && Trial(n)
    decreases 16 - r
  {
    hide Trial, Increasing;
    if r == 16 {
      assert Increasing([]) by { EmptyIncreases(); }
    } else {
      RowExact(r);
      TableExact(r + 1);
      hide RowStart;
      IncreasingConcat(PRIME_ROWS[r], Table(r + 1), RowStart(r + 1));
    }
  }

  lemma EmptyIncreases()
    ensures Increasing([])
  {
  }

  /** The table holds every prime below 312 and nothing else, in increasing order: the first 64 primes. */
  lemma TableIsFirstPrimes()
    ensures Increasing(Table(0)) && |Table(0)| == 64
    ensures forall n: nat :: n in Table(0) <==> n < 312 && IsPrime(n)
  {
    hide Trial, IsPrime, Increasing, Table;
    TableExact(0);
    forall n: nat | n < 312
      ensures Trial(n) <==> IsPrime(n)
    {
      TrialExact(n);
    }
  }
}
