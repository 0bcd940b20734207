/** Global::nCombinations: the loop, what it counts, and when it overflows. */
module Combinations {
  import opened Sequences

  const INT_MAX: int := 0x7FFF_FFFF

  predicate Fits(x: int) {
    -INT_MAX - 1 <= x <= INT_MAX
  }

  /** The values of an int. */
  type Int = x: int | Fits(x)

  /** The division of C++, toward zero. */
  function Truncated(a: int, b: int): int
    requires b > 0
  {
    if a >= 0 then a / b else -(-a / b)
  }

  // ----- the binomial coefficients -----

  /** Pascal's triangle */
  function Binomial(n: nat, k: nat): nat {
    if k == 0 then 1 else if n == 0 then 0 else Binomial(n - 1, k - 1) + Binomial(n - 1, k)
  }

  ghost function Choices<T(!new)>(all: set<T>, k: nat): set<set<T>> {
    set s: set<T> | s <= all && |s| == k
  }

  ghost function WithEach<T(!new)>(sets: set<set<T>>, x: T): set<set<T>> {
    set s | s in sets :: s + {x}
  }

  lemma WithEachBut<T(!new)>(sets: set<set<T>>, s: set<T>, x: T)
    requires s in sets && forall t :: t in sets ==> x !in t
    ensures WithEach(sets, x) == WithEach(sets - {s}, x) + {s + {x}}
    ensures s + {x} !in WithEach(sets - {s}, x)
  {
    forall t | t in sets - {s} ensures t + {x} != s + {x} {
      assert t == (t + {x}) - {x} && s == (s + {x}) - {x};
    }
  }

  lemma {:induction false} WithEachSize<T(!new)>(sets: set<set<T>>, x: T)
    requires forall s :: s in sets ==> x !in s
    ensures |WithEach(sets, x)| == |sets|
  {
    if sets == {} {
      assert WithEach(sets, x) == {};
    } else {
      var s :| s in sets;
      WithEachBut(sets, s, x);
      WithEachSize(sets - {s}, x);
    }
  }

  /** The choices without x, and the smaller ones with x added. */
  lemma ChoicesSplit<T(!new)>(all: set<T>, x: T, k: nat)
    requires x in all && k > 0
    ensures Choices(all, k) == Choices(all - {x}, k) + WithEach(Choices(all - {x}, k - 1), x)
    ensures Choices(all - {x}, k) !! WithEach(Choices(all - {x}, k - 1), x)
  {
    forall s | s in Choices(all, k) ensures s in Choices(all - {x}, k) + WithEach(Choices(all - {x}, k - 1), x) {
      if x in s {
        var t := s - {x};
        assert s == t + {x} && t in Choices(all - {x}, k - 1);
      } else {
        assert s in Choices(all - {x}, k);
      }
    }
  }

  lemma DisjointSize<T>(a: set<T>, b: set<T>)
    requires a !! b
    ensures |a + b| == |a| + |b|
  {
  }

  ghost function Count<T(!new)>(all: set<T>, k: nat): nat {
    |Choices(all, k)|
  }

  lemma CountStep<T(!new)>(all: set<T>, x: T, k: nat)
    requires x in all && k > 0
    ensures Count(all, k) == Count(all - {x}, k) + Count(all - {x}, k - 1)
  {
    var smaller := Choices(all - {x}, k - 1);
    ChoicesSplit(all, x, k);
    WithEachSize(smaller, x);
    DisjointSize(Choices(all - {x}, k), WithEach(smaller, x));
  }

  lemma NoElements<T(!new)>(all: set<T>, k: nat)
    ensures all == {} && k > 0 ==> Count(all, k) == 0
    ensures Count(all, 0) == 1
  {
    assert Choices(all, 0) == {{}};
    if all == {} && k > 0 { assert Choices(all, k) == {}; }
  }

  /** The number of subsets of size k of a set. */
  lemma {:induction false} CountsChoices<T(!new)>(all: set<T>, k: nat)
    ensures Count(all, k) == Binomial(|all|, k)
  {
    NoElements(all, k);
    if k > 0 && all != {} {
      var x :| x in all;
      CountsChoices(all - {x}, k);
      CountsChoices(all - {x}, k - 1);
      CountStep(all, x, k);
    }
  }

  /** No set has more elements than there are. */
  lemma {:induction false} TooMany(n: nat, k: nat)
    requires k > n
    ensures Binomial(n, k) == 0
  {
    if n == 0 {
    } else {
      TooMany(n - 1, k - 1);
      TooMany(n - 1, k);
    }
  }

  lemma {:induction false} Diagonal(n: nat)
    ensures Binomial(n, n) == 1
  {
    if n == 0 {
    } else {
      Diagonal(n - 1);
      TooMany(n - 1, n);
    }
  }

  lemma AddRows(n: nat, k: nat, a: nat, b: nat, c: nat)
    requires k * b == (n - k) * a && (k + 1) * c == (n - 1 - k) * b
    ensures (k + 1) * (b + c) == (n - k) * (a + b)
  {
    assert (k + 1) * (b + c) == (k + 1) * b + (k + 1) * c;
    assert (k + 1) * b + (n - 1 - k) * b == n * b;
    assert (n - k) * (a + b) == (n - k) * a + (n - k) * b;
    assert (n - k) * b + k * b == n * b;
  }

  /** Along a row: (k + 1) C(n, k + 1) == (n - k) C(n, k). */
  lemma {:induction false} Along(n: nat, k: nat)
    ensures (k + 1) * Binomial(n, k + 1) == (n - k) * Binomial(n, k)
  {
    if n == 0 {
      TooMany(0, k + 1);
      if k > 0 { TooMany(0, k); }
    } else {
      Along(n - 1, k);
      if k > 0 {
        Along(n - 1, k - 1);
        AddRows(n, k, Binomial(n - 1, k - 1), Binomial(n - 1, k), Binomial(n - 1, k + 1));
      }
    }
  }

  lemma AddDown(n: nat, k: nat, a: nat, b: nat)
    requires (k + 1) * b == (n - k) * a
    ensures (k + 1) * (a + b) == (n + 1) * a
  {
    assert (k + 1) * (a + b) == (k + 1) * a + (k + 1) * b;
    assert (k + 1) * a + (n - k) * a == (n + 1) * a;
  }

  /** Down a diagonal: (k + 1) C(n + 1, k + 1) == (n + 1) C(n, k). */
  lemma Down(n: nat, k: nat)
    ensures (k + 1) * Binomial(n + 1, k + 1) == (n + 1) * Binomial(n, k)
  {
    Along(n, k);
    AddDown(n, k, Binomial(n, k), Binomial(n, k + 1));
  }

  // ----- the loop -----

  function Sign(i: nat): int {
    if i % 2 == 0 then 1 else -1
  }

  /** C(n - k + i, i), also where the upper number is negative. */
  function Term(n: nat, k: nat, i: nat): int {
    if n - k + i >= 0 then Binomial(n - k + i, i) else Sign(i) * Binomial(k - n - 1, i)
  }

  function Product(n: nat, k: nat, i: nat): int
    requires i > 0
  {
    Term(n, k, i - 1) * (n - k + i)
  }

  lemma Signed(i: nat, x: nat, y: nat, f: int)
    requires i > 0 && i * x == f * y
    ensures i * (Sign(i) * x) == (Sign(i - 1) * y) * -f
  {
    if i % 2 == 0 {
      assert (-1 * y) * -f == f * y;
    } else {
      assert i * (-1 * x) == -(i * x);
      assert (1 * y) * -f == -(f * y);
    }
  }

  lemma TermBelow(n: nat, k: nat, i: nat)
    requires n - k + i < 0
    ensures Term(n, k, i) == Sign(i) * Binomial(k - n - 1, i)
  {
  }

  lemma DivisionBelow(n: nat, k: nat, i: nat)
    requires i > 0 && n - k + i < 0
    ensures i * Term(n, k, i) == Product(n, k, i)
  {
    var row := k - n - 1;
    TermBelow(n, k, i);
    TermBelow(n, k, i - 1);
    Along(row, i - 1);
    Signed(i, Binomial(row, i), Binomial(row, i - 1), row - (i - 1));
  }

  lemma DivisionAbove(n: nat, k: nat, i: nat, m: nat)
    requires i > 0 && m > 0 && m == n - k + i
    ensures i * Term(n, k, i) == Product(n, k, i)
  {
    Down(m - 1, i - 1);
    assert Term(n, k, i) == Binomial(m, i) && Term(n, k, i - 1) == Binomial(m - 1, i - 1);
  }

  /** Every division of the loop is exact. */
  lemma DivisionIsExact(n: nat, k: nat, i: nat)
    requires i > 0
    ensures i * Term(n, k, i) == Product(n, k, i)
  {
    if n - k + i > 0 {
      DivisionAbove(n, k, i, n - k + i);
    } else if n - k + i == 0 {
      TooMany(0, i);
      assert Term(n, k, i) == 0;
    } else {
      DivisionBelow(n, k, i);
    }
  }

  lemma Scaled(x: int, y: int, i: nat)
    requires x <= y
    ensures i * x <= i * y
  {
  }

  lemma Multiple(a: int, t: nat, i: nat)
    requires i > 0 && a == i * t
    ensures a >= 0 && a / i == t
  {
    var q, r := a / i, a % i;
    assert a == i * q + r;
    if q < t {
      Scaled(q + 1, t, i);
    } else if q > t {
      Scaled(t + 1, q, i);
    }
  }

  lemma TruncatedMultiple(t: int, i: nat)
    requires i > 0
    ensures Truncated(i * t, i) == t
  {
    if t >= 0 {
      Multiple(i * t, t, i);
    } else {
      assert -(i * t) == i * -t;
      Multiple(-(i * t), -t, i);
    }
  }

  lemma LastTerm(n: nat, k: nat)
    ensures Term(n, k, k) == Binomial(n, k) && (k > n ==> Term(n, k, k) == 0)
  {
    if k > n { TooMany(n, k); }
  }

  /** The division of a product that fits gives the next term, which fits too. */
  lemma Quotient(i: nat, t: int, product: int)
    requires i > 0 && product == i * t && Fits(product)
    ensures Truncated(product, i) == t && Fits(t)
  {
    TruncatedMultiple(t, i);
    if t >= 0 { Scaled(1, i, t); } else { Scaled(1, i, -t); }
  }

  // ----- overflow -----

  lemma TermGrows(n: nat, k: nat, j: nat)
    requires k <= n && j > 0
    ensures 0 <= Term(n, k, j - 1) <= Term(n, k, j)
  {
  }

  lemma TimesGrows(j: nat, a: nat, b: nat)
    requires j > 0 && a <= b
    ensures (j - 1) * a <= j * b
  {
    assert (j - 1) * a + a == j * a;
    Scaled(a, b, j);
  }

  lemma {:induction false} Growing(n: nat, k: nat, i: nat, j: nat)
    requires k <= n && i <= j
    ensures i * Term(n, k, i) <= j * Term(n, k, j)
    decreases j
  {
    if i < j {
      Growing(n, k, i, j - 1);
      TermGrows(n, k, j);
      TimesGrows(j, Term(n, k, j - 1), Term(n, k, j));
    }
  }

  /** Below n == k the products are those of row k - n - 1, with signs. */
  lemma ProductInRow(n: nat, k: nat, j: nat)
    requires k > n && 1 <= j <= k
    ensures Product(n, k, j) == 0 || (j < k - n && Product(n, k, j) == Sign(j) * (j * Binomial(k - n - 1, j)))
  {
    DivisionIsExact(n, k, j);
    if j >= k - n {
      TooMany(n - k + j, j);
    } else {
      var b := Binomial(k - n - 1, j);
      assert j * (Sign(j) * b) == Sign(j) * (j * b);
    }
  }

  lemma Signs(j: nat, x: int)
    ensures Sign(j) * x == x || Sign(j) * x == -x
  {
  }

  lemma Within(row: nat, b: nat)
    requires row <= 29 && b <= 40116600
    ensures 0 <= row * b <= INT_MAX
  {
    assert row * b <= 29 * b;
  }

  lemma Negated(j: nat, s: int, b: nat)
    requires s == -1
    ensures j * (s * b) == -(j * b)
  {
    assert s * b == 0 - b;
  }

  lemma Beyond(row: nat, b: nat)
    requires row >= 30 && b >= 77558760
    ensures -(row * b) < -INT_MAX - 1
  {
    assert row * b >= 30 * b;
  }

  lemma {:induction false} RowsGrow(m: nat, n: nat, k: nat)
    requires m <= n
    ensures Binomial(m, k) <= Binomial(n, k)
    decreases n
  {
    if m < n { RowsGrow(m, n - 1, k); }
  }

  lemma Cancel(i: nat, x: int, y: int)
    requires i > 0 && i * x == i * y
    ensures x == y
  {
    if x < y {
      Scaled(x + 1, y, i);
    } else if y < x {
      Scaled(y + 1, x, i);
    }
  }

  lemma Next(m: nat, i: nat, a: nat, b: nat)
    requires Binomial(m + i, i) == a && (i + 1) * b == (m + i + 1) * a
    ensures Binomial(m + (i + 1), i + 1) == b
  {
    Down(m + i, i);
    Cancel(i + 1, Binomial(m + i + 1, i + 1), b);
  }

  lemma MiddleOf28(m: nat)
    requires m == 14
    ensures Binomial(m + 14, 14) == 40116600
  {
    Next(m, 0, 1, 15);
    Next(m, 1, 15, 120);
    Next(m, 2, 120, 680);
    Next(m, 3, 680, 3060);
    Next(m, 4, 3060, 11628);
    Next(m, 5, 11628, 38760);
    Next(m, 6, 38760, 116280);
    Next(m, 7, 116280, 319770);
    Next(m, 8, 319770, 817190);
    Next(m, 9, 817190, 1961256);
    Next(m, 10, 1961256, 4457400);
    Next(m, 11, 4457400, 9657700);
    Next(m, 12, 9657700, 20058300);
    Next(m, 13, 20058300, 40116600);
  }

  lemma MiddleOf29(m: nat)
    requires m == 15
    ensures Binomial(m + 14, 14) == 77558760
  {
    Next(m, 0, 1, 16);
    Next(m, 1, 16, 136);
    Next(m, 2, 136, 816);
    Next(m, 3, 816, 3876);
    Next(m, 4, 3876, 15504);
    Next(m, 5, 15504, 54264);
    Next(m, 6, 54264, 170544);
    Next(m, 7, 170544, 490314);
    Next(m, 8, 490314, 1307504);
    Next(m, 9, 1307504, 3268760);
    Next(m, 10, 3268760, 7726160);
    Next(m, 11, 7726160, 17383860);
    Next(m, 12, 17383860, 37442160);
    Next(m, 13, 37442160, 77558760);
  }

  lemma RowFrom29(row: nat, j: nat, m: nat)
    requires m == 15 && row >= m + 14 && j == 14
    ensures Binomial(row, j) >= 77558760
  {
    MiddleOf29(m);
    RowsGrow(m + 14, row, j);
  }

  lemma LargeProductAt(n: nat, k: nat, j: nat, m: nat)
    requires j == 15 && m == 15 && k - n - 2 >= m + 14
    ensures !Fits(Product(n, k, j))
  {
    var row := k - n - 1;
    DivisionIsExact(n, k, j);
    TermBelow(n, k, j);
    Negated(j, Sign(j), Binomial(row, j));
    assert j * Binomial(row, j) == row * Binomial(row - 1, j - 1) by { Down(row - 1, j - 1); }
    RowFrom29(row - 1, j - 1, m);
    Beyond(row, Binomial(row - 1, j - 1));
  }

  lemma LargeProduct(n: nat, k: nat)
    requires k > n + 30
    ensures !Fits(Product(n, k, 15))
  {
    LargeProductAt(n, k, 15, 15);
  }

  lemma Compare(x: nat, a: nat, y: nat, b: nat)
    requires 0 < x <= y && x * a == y * b
    ensures b <= a
  {
    assert x * b <= y * b;
    assert x * (b - a) <= 0;
  }

  lemma {:induction false} Climb(m: nat, j: nat)
    requires j <= m
    ensures Binomial(m + m, j) <= Binomial(m + m, m)
    decreases m - j
  {
    if j < m {
      Along(m + m, j);
      Compare(j + 1, Binomial(m + m, j + 1), 2 * m - j, Binomial(m + m, j));
      Climb(m, j + 1);
    }
  }

  lemma {:induction false} Descend(m: nat, j: nat)
    requires j >= m
    ensures Binomial(m + m, j) <= Binomial(m + m, m)
  {
    if j > 2 * m {
      TooMany(m + m, j);
    } else if j > m {
      Along(m + m, j - 1);
      Compare(2 * m + 1 - j, Binomial(m + m, j - 1), j, Binomial(m + m, j));
      Descend(m, j - 1);
    }
  }

  /** An even row is largest in the middle. */
  lemma Middle(m: nat, j: nat)
    ensures Binomial(m + m, j) <= Binomial(m + m, m)
  {
    if j <= m { Climb(m, j); } else { Descend(m, j); }
  }

  lemma RowBound(row: nat, j: nat)
    requires row <= 28
    ensures Binomial(row, j) <= 40116600
  {
    var m := 14;
    RowsGrow(row, m + m, j);
    Middle(m, j);
    MiddleOf28(m);
  }

  lemma RowProduct(row: nat, j: nat)
    requires 1 <= j <= row <= 29
    ensures 0 <= j * Binomial(row, j) <= INT_MAX
  {
    RowBound(row - 1, j - 1);
    Within(row, Binomial(row - 1, j - 1));
    Down(row - 1, j - 1);
  }

  lemma SmallProduct(n: nat, k: nat, j: nat)
    requires n < k <= n + 30 && 1 <= j <= k
    ensures Fits(Product(n, k, j))
  {
    ProductInRow(n, k, j);
    if j < k - n {
      RowProduct(k - n - 1, j);
      Signs(j, j * Binomial(k - n - 1, j));
    }
  }

  /** All products fit exactly when the last one does, or when k is not far above n. */
  lemma ProductsFitIff(n: nat, k: nat)
    ensures (forall j :: 1 <= j <= k ==> Fits(Product(n, k, j)))
            <==> if k <= n then k * Binomial(n, k) <= INT_MAX else k - n <= 30
  {
    if k <= n {
      forall j | 1 <= j <= k ensures 0 <= Product(n, k, j) <= k * Binomial(n, k) {
        DivisionIsExact(n, k, j);
        Growing(n, k, j, k);
      }
      if k > 0 { DivisionIsExact(n, k, k); }
    } else if k - n <= 30 {
      forall j | 1 <= j <= k ensures Fits(Product(n, k, j)) { SmallProduct(n, k, j); }
    } else {
      LargeProduct(n, k);
    }
  }

  // ----- the function -----

  /** The first products fit. */
  predicate FitUpTo(n: nat, k: nat, last: nat) {
    forall j :: 1 <= j <= last ==> Fits(Product(n, k, j))
  }

  /** The condition of ProductsFitIff. */
  predicate Moderate(n: nat, k: nat) {
    if k <= n then k * Binomial(n, k) <= INT_MAX else k - n <= 30
  }

  lemma Pass(n: nat, k: nat, i: nat)
    requires i > 0 && FitUpTo(n, k, i - 1)
    ensures FitUpTo(n, k, i) <==> Fits(Product(n, k, i))
    ensures Fits(Product(n, k, i)) ==> Truncated(Product(n, k, i), i) == Term(n, k, i) && Fits(Term(n, k, i))
  {
    if Fits(Product(n, k, i)) {
      DivisionIsExact(n, k, i);
      Quotient(i, Term(n, k, i), Product(n, k, i));
    }
  }

  lemma Outcome(n: nat, k: nat, last: nat)
    requires last <= k
    ensures FitUpTo(n, k, k) <==> Moderate(n, k)
    ensures !FitUpTo(n, k, last) ==> !Moderate(n, k)
  {
    ProductsFitIff(n, k);
  }

  lemma OnePass(n: nat, k: nat, i: nat, c: int)
    requires i > 0 && FitUpTo(n, k, i - 1) && c == Term(n, k, i - 1)
    ensures var product := c * (n - k + i);
            if Fits(product) then FitUpTo(n, k, i) && Truncated(product, i) == Term(n, k, i) && Fits(Term(n, k, i))
            else i <= k ==> !FitUpTo(n, k, k)
  {
    assert c * (n - k + i) == Product(n, k, i);
    Pass(n, k, i);
  }

  /** The loop. */
  method Multiply(n: nat, k: nat) returns (r: Option<Int>)
    requires k <= INT_MAX
    ensures r.Some? <==> k < INT_MAX && FitUpTo(n, k, k)
    ensures r.Some? ==> r.value == Term(n, k, k)
  {
    var c: Int := 1;
    var i: nat := 1;
    while i <= k
      invariant 1 <= i <= k + 1
      invariant c == Term(n, k, i - 1) && FitUpTo(n, k, i - 1)
      invariant k == INT_MAX ==> i <= k
      decreases k - i
    {
      var product := c * (n - k + i);
      OnePass(n, k, i, c);
      if !Fits(product) { return None; }
      c := Truncated(product, i);
      if i == INT_MAX { return None; }
      i := i + 1;
    }
    assert i - 1 == k;
    return Some(c);
  }

  /** None: a product or the counter does not fit an int, which C++ leaves undefined. */
  method NCombinations(n: Int, k: Int) returns (r: Option<Int>)
    ensures n < 0 || k < 0 ==> r == Some(0)
    ensures n >= 0 && k >= 0 ==> r.Some? == (k < INT_MAX && Moderate(n, k))
    ensures n >= 0 && k >= 0 && r.Some? ==> r.value == Binomial(n, k) && (k > n ==> r.value == 0)
  {
    if n < 0 || k < 0 { return Some(0); }
    assert Fits(k);
    r := Multiply(n, k);
    Outcome(n, k, k);
    LastTerm(n, k);
  }

  /** A product that does not fit where the result would be 0. */
  lemma ZeroOverflows()
    ensures Binomial(0, 31) == 0 && !Fits(Product(0, 31, 15))
  {
    TooMany(0, 31);
    LargeProduct(0, 31);
  }

  /** All products fit at the largest k, and yet the counter does not. */
  method CounterOverflows() returns (r: Option<Int>)
    ensures r == None && Moderate(INT_MAX, INT_MAX)
  {
    Diagonal(INT_MAX);
    r := NCombinations(INT_MAX, INT_MAX);
  }
}
