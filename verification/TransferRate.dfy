/** Common::TransferRateCalculator: bytes per second over a window of 30 slots of 0.1 s.  A
    Window is the plain history the ring of slots stands for. */
module TransferRate {

  const PERIOD: int := 3_000_000_000  // ns
  const PERIOD_S: int := 3
  const NB_VALUE: int := 30
  const D: int := 100_000_000         // ns per slot
  const U32: int := 0x1_0000_0000

  function Sum(s: seq<nat>): nat {
    if s == [] then 0 else s[0] + Sum(s[1..])
  }

  lemma {:induction false} SumAppend(a: seq<nat>, b: seq<nat>)
    ensures Sum(a + b) == Sum(a) + Sum(b)
  {
    if a == [] {
      assert a + b == b;
    } else {
      SumAppend(a[1..], b);
      assert (a + b)[1..] == a[1..] + b;
    }
  }

  /** What the calculator stands for: the time of the last update, the amount of the running
      slot, the amount every slot was seeded with at the last restart, and the amounts of the
      slots completed since. */
  datatype Window = Window(t1: nat, current: nat, seed: nat, done: seq<nat>)

  predicate WindowOk(w: Window) {
    |w.done| == w.t1 / D && w.current < U32
  }

  /** The last 30 completed slots, oldest first. */
  function Last30(seed: nat, done: seq<nat>): (r: seq<nat>)
    ensures |r| == NB_VALUE
  {
    (seq(NB_VALUE, _ => seed) + done)[|done|..]
  }

  /** The constants as the header relates them. */
  lemma Constants()
    ensures PERIOD == 3 * 1_000_000_000 && PERIOD_S * 1_000_000_000 == PERIOD
    ensures NB_VALUE == 30 && NB_VALUE * D == PERIOD
  {
  }

  /** Slot for slot: what was completed in the last 30, and the seed where that is less. */
  lemma Last30At(seed: nat, done: seq<nat>, i: nat)
    requires i < 30
    ensures Last30(seed, done)[i] == if |done| + i < 30 then seed else done[|done| + i - 30]
  {
  }

  lemma Last30Push(seed: nat, done: seq<nat>, x: nat)
    ensures Last30(seed, done + [x]) == Last30(seed, done)[1..] + [x]
  {
    var all := seq(NB_VALUE, _ => seed);
    assert all + (done + [x]) == all + done + [x];
  }

  // ----- one update -----

  predicate SameSlot(t1: nat, t2: nat) {
    t2 / D == t1 / D
  }

  predicate Restarts(w: Window, t2: nat) {
    !SameSlot(w.t1, t2) && t2 - w.t1 > PERIOD
  }

  lemma DivBounds(x: nat, d: nat)
    requires d > 0
    ensures 0 <= (x / d) * d <= x < (x / d) * d + d
  {
  }

  lemma NextBoundary(t: nat)
    ensures (t + (D - t % D)) / D == t / D + 1 && (t + (D - t % D)) % D == 0
  {
  }

  /** The slot t1 lies in is completed. */
  function Cross(w: Window, v1: nat): (r: Window)
    requires WindowOk(w)
    ensures WindowOk(r) && r.t1 / D == w.t1 / D + 1
  {
    NextBoundary(w.t1);
    Window(w.t1 + (D - w.t1 % D), 0, w.seed, w.done + [(w.current + v1) % U32])
  }

  lemma Crosses(t1: nat, t2: nat)
    requires t1 <= t2
    ensures SameSlot(t1, t2) <==> t1 % D + (t2 - t1) < D
    ensures !SameSlot(t1, t2) ==> t1 < t1 + (D - t1 % D) <= t2
  {
  }

  // ----- what an update that does not restart does -----

  lemma NoRestartLater(w: Window, v1: nat, t2: nat)
    requires WindowOk(w) && w.t1 <= t2 && !SameSlot(w.t1, t2) && !Restarts(w, t2)
    ensures Cross(w, v1).t1 <= t2 && !Restarts(Cross(w, v1), t2)
  {
    Crosses(w.t1, t2);
  }

  lemma ModAdd(a: nat, b: nat)
    ensures (a % U32 + b) % U32 == (a + b) % U32
  {
  }

  /** No byte is lost: what the new slots and the running slot got is what the running slot had
      plus `value`, modulo 2^32, and exactly so unless the sum reaches 2^32. */
  ghost predicate Conserved(w: Window, value: nat, r: Window) {
    w.done <= r.done &&
    var total := Sum(r.done[|w.done|..]) + r.current;
    total % U32 == (w.current + value) % U32 && (w.current + value < U32 ==> total == w.current + value)
  }

  lemma SumsAgree(x: nat, rest: nat, a: nat, b: nat)
    requires x == a % U32 && rest % U32 == b % U32 && (b < U32 ==> rest == b)
    ensures (x + rest) % U32 == (a + b) % U32
    ensures a + b < U32 ==> x + rest == a + b
  {
    ModAdd(a, rest);
    ModAdd(rest, a);
    ModAdd(b, a);
  }

  lemma CrossConserves(w: Window, v1: nat, left: nat, r: Window)
    requires WindowOk(w) && Conserved(Cross(w, v1), left, r)
    ensures Conserved(w, v1 + left, r)
  {
    var c := Cross(w, v1);
    var x := (w.current + v1) % U32;
    assert r.done[|w.done|..] == [x] + r.done[|c.done|..];
    var rest := Sum(r.done[|c.done|..]) + r.current;
    assert Sum(r.done[|w.done|..]) == x + Sum(r.done[|c.done|..]);
    SumsAgree(x, rest, w.current + v1, left);
  }

  // ----- shares in proportion to time -----

  /** The k-th slot boundary after t1 (t1 itself for k = 0). */
  function Boundary(t1: nat, k: nat): nat {
    if k == 0 then t1 else (t1 / D + k) * D
  }

  lemma BoundaryBefore(t1: nat, t2: nat, k: nat)
    requires t1 <= t2 && k <= t2 / D - t1 / D
    ensures Boundary(t1, k) <= t2 && Boundary(t1, k) / D == t1 / D + k
    ensures k < t2 / D - t1 / D ==> !SameSlot(Boundary(t1, k), t2)
    ensures Boundary(t1, k) + (D - Boundary(t1, k) % D) == Boundary(t1, k + 1)
  {
    NextBoundary(t1);
  }

  lemma Swap(a: nat, b: nat, c: nat)
    ensures (a * b) * c == (a * c) * b
  {
  }

  lemma Distribute(a: nat, b: nat, c: nat)
    ensures (a + b) * c == a * c + b * c
  {
  }

  lemma MulMono(a: nat, b: nat, c: nat)
    requires a <= b
    ensures a * c <= b * c && c * a <= c * b
  {
  }

  lemma MulStrict(a: nat, b: nat, c: nat)
    requires a < b && c > 0
    ensures a * c < b * c
  {
  }

  lemma ShareStepHigh(value: nat, dt0: nat, rem: nat, rem': nat, dt: nat, dt': nat, k: nat)
    requires 0 < dt && dt' <= dt && 0 < dt0
    requires rem * dt0 <= value * dt + k * dt0 && rem' * dt < rem * dt' + dt
    ensures rem' * dt0 < value * dt' + (k + 1) * dt0
  {
    calc {
      (rem' * dt0) * dt;
      { Swap(rem', dt0, dt); }
      (rem' * dt) * dt0;
    <  { MulStrict(rem' * dt, rem * dt' + dt, dt0); }
      (rem * dt' + dt) * dt0;
      { Distribute(rem * dt', dt, dt0); Swap(rem, dt', dt0); }
      (rem * dt0) * dt' + dt * dt0;
    <= { MulMono(rem * dt0, value * dt + k * dt0, dt'); }
      (value * dt + k * dt0) * dt' + dt * dt0;
      { Distribute(value * dt, k * dt0, dt'); Swap(value, dt, dt'); }
      (value * dt') * dt + (k * dt0) * dt' + dt * dt0;
    <= { MulMono(dt', dt, k * dt0); }
      (value * dt') * dt + (k * dt0) * dt + dt0 * dt;
      { Distribute(value * dt', k * dt0, dt); Distribute(value * dt' + k * dt0, dt0, dt); Distribute(k, 1, dt0); }
      (value * dt' + (k + 1) * dt0) * dt;
    }
    if rem' * dt0 >= value * dt' + (k + 1) * dt0 {
      MulMono(value * dt' + (k + 1) * dt0, rem' * dt0, dt);
    }
  }

  lemma MulCancel(a: nat, b: nat, c: nat)
    requires c > 0 && a * c <= b * c
    ensures a <= b
  {
    if a > b {
      MulStrict(b, a, c);
    }
  }

  lemma ShareFits(value: nat, a: nat, dt: nat)
    requires 0 < a <= dt
    ensures 0 <= value * a / dt <= value
  {
    MulMono(a, dt, value);
    DivBounds(value * a, dt);
    MulCancel(value * a / dt, value, dt);
  }

  /** Only a pause of more than the whole period restarts the window. */
  lemma RestartsIff(w: Window, t2: nat)
    requires w.t1 <= t2
    ensures Restarts(w, t2) <==> t2 - w.t1 > PERIOD
  {
    if SameSlot(w.t1, t2) { assert t2 - w.t1 < D; }
  }

  /** The part of `value` that goes to the slot t1 lies in. */
  function Share(value: nat, t1: nat, t2: nat): (v1: nat)
    requires t1 <= t2 && !SameSlot(t1, t2)
    ensures v1 <= value
  {
    ShareFits(value, D - t1 % D, t2 - t1);
    value * (D - t1 % D) / (t2 - t1)
  }

  function Updated(w: Window, value: nat, t2: nat): (r: Window)
    requires WindowOk(w) && w.t1 <= t2
    ensures WindowOk(r)
    decreases t2 - w.t1
  {
    if SameSlot(w.t1, t2) then w.(t1 := t2, current := (w.current + value) % U32)
    else if t2 - w.t1 > PERIOD then Window(0, 0, value / NB_VALUE, [])
    else
      Crosses(w.t1, t2);
      var v1 := Share(value, w.t1, t2);
      Updated(Cross(w, v1), value - v1, t2)
  }

  /** The first pass, when it ends a slot. */
  lemma Crossing(w: Window, value: nat, t2: nat) returns (v1: nat, c: Window)
    requires WindowOk(w) && w.t1 <= t2 && !Restarts(w, t2) && !SameSlot(w.t1, t2)
    ensures v1 == Share(value, w.t1, t2) && v1 <= value && c == Cross(w, v1) && WindowOk(c)
    ensures w.t1 < c.t1 <= t2 && !Restarts(c, t2) && Updated(w, value, t2) == Updated(c, value - v1, t2)
  {
    Crosses(w.t1, t2);
    v1 := Share(value, w.t1, t2);
    c := Cross(w, v1);
    NoRestartLater(w, v1, t2);
  }

  /** It appends one slot per boundary between t1 and t2, at most 30, and moves to t2. */
  lemma {:induction false} UpdateAppends(w: Window, value: nat, t2: nat)
    requires WindowOk(w) && w.t1 <= t2 && !Restarts(w, t2)
    ensures var r := Updated(w, value, t2);
      r.t1 == t2 && r.seed == w.seed && w.done <= r.done && |r.done| - |w.done| == t2 / D - w.t1 / D <= NB_VALUE
    decreases t2 - w.t1
  {
    if !SameSlot(w.t1, t2) {
      var v1, c := Crossing(w, value, t2);
      UpdateAppends(c, value - v1, t2);
    }
  }

  lemma KeptInSlot(current: nat, value: nat)
    ensures (current + value) % U32 % U32 == (current + value) % U32
    ensures current + value < U32 ==> (current + value) % U32 == current + value
  {
  }

  lemma ConservedWithin(w: Window, value: nat, t2: nat)
    requires WindowOk(w) && w.t1 <= t2 && SameSlot(w.t1, t2)
    ensures Conserved(w, value, Updated(w, value, t2))
  {
    KeptInSlot(w.current, value);
    assert w.done[|w.done|..] == [];
  }

  lemma {:induction false} UpdateConserves(w: Window, value: nat, t2: nat)
    requires WindowOk(w) && w.t1 <= t2 && !Restarts(w, t2)
    ensures Conserved(w, value, Updated(w, value, t2))
    decreases t2 - w.t1
  {
    if SameSlot(w.t1, t2) {
      ConservedWithin(w, value, t2);
    } else {
      var v1, c := Crossing(w, value, t2);
      UpdateConserves(c, value - v1, t2);
      CrossConserves(w, v1, value - v1, Updated(c, value - v1, t2));
    }
  }

  /** What is left of `value` after k boundaries. */
  function Left(value: nat, t1: nat, t2: nat, k: nat): (r: nat)
    requires t1 <= t2 && k <= t2 / D - t1 / D
    decreases k
  {
    if k == 0 then value
    else
      BoundaryBefore(t1, t2, k - 1);
      var before := Left(value, t1, t2, k - 1);
      before - Share(before, Boundary(t1, k - 1), t2)
  }

  lemma ShareStepLow(value: nat, dt0: nat, rem: nat, rem': nat, dt: nat, dt': nat)
    requires dt > 0 && value * dt <= rem * dt0 && rem * dt' <= rem' * dt
    ensures value * dt' <= rem' * dt0
  {
    calc {
      (value * dt') * dt;
      { Swap(value, dt', dt); }
      (value * dt) * dt';
    <= { MulMono(value * dt, rem * dt0, dt'); }
      (rem * dt0) * dt';
      { Swap(rem, dt0, dt'); }
      (rem * dt') * dt0;
    <= { MulMono(rem * dt', rem' * dt, dt0); }
      (rem' * dt) * dt0;
      { Swap(rem', dt, dt0); }
      (rem' * dt0) * dt;
    }
    MulCancel(value * dt', rem' * dt0, dt);
  }

  /** One division: the bounds for the time dt left become the bounds for dt - a. */
  lemma ShareStep(value: nat, dt0: nat, rem: nat, dt: nat, a: nat, k: nat)
    requires 0 < a <= dt <= dt0
    requires value * dt <= rem * dt0 <= value * dt + k * dt0
    ensures var rem' := rem - rem * a / dt;
      value * (dt - a) <= rem' * dt0 < value * (dt - a) + (k + 1) * dt0
  {
    ShareFits(rem, a, dt);
    var q := rem * a / dt;
    var rem' := rem - q;
    DivBounds(rem * a, dt);
    assert rem' * dt == rem * dt - q * dt;
    assert rem * (dt - a) == rem * dt - rem * a;
    assert rem * (dt - a) <= rem' * dt < rem * (dt - a) + dt;
    ShareStepLow(value, dt0, rem, rem', dt, dt - a);
    ShareStepHigh(value, dt0, rem, rem', dt, dt - a, k);
  }

  /** After k >= 1 boundaries what is left is at least its share of the remaining time, and
      less than that share plus k. */
  lemma {:induction false} LeftIsProportional(value: nat, t1: nat, t2: nat, k: nat)
    requires t1 <= t2 && k <= t2 / D - t1 / D
    ensures Boundary(t1, k) <= t2
    ensures value * (t2 - Boundary(t1, k)) <= Left(value, t1, t2, k) * (t2 - t1)
    ensures k >= 1 ==> Left(value, t1, t2, k) * (t2 - t1) < value * (t2 - Boundary(t1, k)) + k * (t2 - t1)
  {
    BoundaryBefore(t1, t2, k);
    if k >= 1 {
      LeftIsProportional(value, t1, t2, k - 1);
      BoundaryBefore(t1, t2, k - 1);
      var b := Boundary(t1, k - 1);
      ShareStep(value, t2 - t1, Left(value, t1, t2, k - 1), t2 - b, D - b % D, k - 1);
    }
  }

  /** Going on from the first boundary leaves what going on from t1 leaves. */
  lemma {:induction false} LeftShift(value: nat, t1: nat, t2: nat, k: nat)
    requires t1 <= t2 && 1 <= k <= t2 / D - t1 / D
    ensures var b := Boundary(t1, 1);
      b <= t2 && b / D == t1 / D + 1 &&
      Left(value, t1, t2, k) == Left(Left(value, t1, t2, 1), b, t2, k - 1)
  {
    var b := Boundary(t1, 1);
    BoundaryBefore(t1, t2, 1);
    if k > 1 {
      LeftShift(value, t1, t2, k - 1);
      BoundaryBefore(t1, t2, k - 1);
      BoundaryBefore(b, t2, k - 2);
      assert Boundary(t1, k - 1) == Boundary(b, k - 2);
    }
  }

  lemma FirstCrossing(w: Window, value: nat, t2: nat) returns (v1: nat, c: Window)
    requires WindowOk(w) && w.t1 <= t2 && !Restarts(w, t2) && !SameSlot(w.t1, t2)
    ensures v1 == Left(value, w.t1, t2, 0) - Left(value, w.t1, t2, 1) && v1 <= value
    ensures WindowOk(c) && c == Cross(w, v1) && c.t1 == Boundary(w.t1, 1) && w.t1 < c.t1 <= t2 && !Restarts(c, t2)
    ensures Updated(w, value, t2) == Updated(c, value - v1, t2)
    ensures c.done <= Updated(w, value, t2).done
  {
    v1, c := Crossing(w, value, t2);
    UpdateAppends(c, value - v1, t2);
    BoundaryBefore(w.t1, t2, 0);
  }

  /** What update gives slot k past the first of those it completes. */
  function Portion(w: Window, value: nat, t2: nat, k: nat): int
    requires w.t1 <= t2 && k < t2 / D - w.t1 / D
  {
    ((if k == 0 then w.current else 0) + Left(value, w.t1, t2, k) - Left(value, w.t1, t2, k + 1)) % U32
  }

  lemma FirstPortion(w: Window, value: nat, t2: nat)
    requires WindowOk(w) && w.t1 <= t2 && !Restarts(w, t2) && 0 < t2 / D - w.t1 / D
    ensures |w.done| < |Updated(w, value, t2).done|
    ensures Updated(w, value, t2).done[|w.done|] == Portion(w, value, t2, 0)
  {
    var v1, c := FirstCrossing(w, value, t2);
    assert c.done[|w.done|] == (w.current + v1) % U32;
  }

  lemma LaterPortion(w: Window, value: nat, t2: nat, k: nat, v1: nat, c: Window)
    requires w.t1 <= t2 && 0 < k < t2 / D - w.t1 / D && c.current == 0
    requires c.t1 == Boundary(w.t1, 1) && c.t1 <= t2 && v1 <= value && value - v1 == Left(value, w.t1, t2, 1)
    ensures c.t1 / D == w.t1 / D + 1 && Portion(c, value - v1, t2, k - 1) == Portion(w, value, t2, k)
  {
    LeftShift(value, w.t1, t2, k);
    LeftShift(value, w.t1, t2, k + 1);
  }

  lemma {:induction false} SlotIsPortion(w: Window, value: nat, t2: nat, k: nat)
    requires WindowOk(w) && w.t1 <= t2 && !Restarts(w, t2) && k < t2 / D - w.t1 / D
    ensures var r := Updated(w, value, t2);
            |w.done| + k < |r.done| && r.done[|w.done| + k] == Portion(w, value, t2, k)
    decreases t2 - w.t1
  {
    if k == 0 {
      FirstPortion(w, value, t2);
    } else {
      var v1, c := FirstCrossing(w, value, t2);
      LaterPortion(w, value, t2, k, v1, c);
      SlotIsPortion(c, value - v1, t2, k - 1);
    }
  }

  /** The slots completed by an update got the differences of what was left, the first one on
      top of what it had. */
  lemma SlotAmounts(w: Window, value: nat, t2: nat, k: nat)
    requires WindowOk(w) && w.t1 <= t2 && t2 - w.t1 <= PERIOD && k < t2 / D - w.t1 / D
    ensures var r := Updated(w, value, t2);
            && |w.done| + k < |r.done|
            && r.done[|w.done| + k] ==
                 ((if k == 0 then w.current else 0) + Left(value, w.t1, t2, k) - Left(value, w.t1, t2, k + 1)) % U32
  {
    RestartsIff(w, t2);
    SlotIsPortion(w, value, t2, k);
  }

  /** The running slot got the rest. */
  lemma {:induction false} RunningAmount(w: Window, value: nat, t2: nat)
    requires WindowOk(w) && w.t1 <= t2 && !Restarts(w, t2)
    ensures Updated(w, value, t2).current ==
      ((if SameSlot(w.t1, t2) then w.current else 0) + Left(value, w.t1, t2, t2 / D - w.t1 / D)) % U32
    decreases t2 - w.t1
  {
    if !SameSlot(w.t1, t2) {
      var v1, c := FirstCrossing(w, value, t2);
      LeftShift(value, w.t1, t2, t2 / D - w.t1 / D);
      RunningAmount(c, value - v1, t2);
    }
  }

  // ----- restarting -----

  /** The bytes an update put into slots, the running one included. */
  function Attributed(w: Window, value: nat, t2: nat): nat
    requires WindowOk(w) && w.t1 <= t2
  {
    var r := Updated(w, value, t2);
    r.current + if Restarts(w, t2) || |r.done| < |w.done| then Sum(Last30(r.seed, r.done)) else Sum(r.done[|w.done|..])
  }

  lemma {:induction false} SumSame(n: nat, x: nat)
    ensures Sum(seq(n, _ => x)) == n * x
  {
    if n == 0 {
    } else {
      SumSame(n - 1, x);
      assert seq(n, _ => x) == [x] + seq(n - 1, _ => x);
    }
  }

  /** A restart spreads `value` evenly: it forgets the running slot and value % 30. */
  lemma RestartSpreads(w: Window, value: nat, t2: nat)
    requires WindowOk(w) && w.t1 <= t2 && Restarts(w, t2)
    ensures var r := Updated(w, value, t2);
      r.t1 == 0 && r.current == 0 && r.done == [] && Sum(Last30(r.seed, r.done)) == value - value % NB_VALUE
  {
    SumSame(NB_VALUE, value / NB_VALUE);
    var r := Updated(w, value, t2);
    assert Last30(r.seed, r.done) == seq(NB_VALUE, _ => r.seed);
  }

  function Zeros(j: nat): seq<nat> {
    seq(j, _ => 0)
  }

  /** After a restart nothing but time passes: the slots that end are empty. */
  lemma {:induction false} IdleAppends(w: Window, t2: nat)
    requires WindowOk(w) && w.t1 <= t2 && t2 - w.t1 <= PERIOD && w.current == 0
    ensures Updated(w, 0, t2) == Window(t2, 0, w.seed, w.done + Zeros(t2 / D - w.t1 / D))
    decreases t2 - w.t1
  {
    RestartsIff(w, t2);
    if SameSlot(w.t1, t2) {
      assert w.done + Zeros(0) == w.done;
    } else {
      var v1, c := Crossing(w, 0, t2);
      assert c.done == w.done + [0] && c.t1 / D == w.t1 / D + 1;
      IdleAppends(c, t2);
      var j := t2 / D - c.t1 / D;
      assert w.done + [0] + Zeros(j) == w.done + Zeros(j + 1);
    }
  }

  lemma {:induction false} SumZeros(j: nat)
    ensures Sum(Zeros(j)) == 0
  {
    if j == 0 {
    } else {
      SumZeros(j - 1);
      assert Zeros(j) == [0] + Zeros(j - 1);
    }
  }

  /** With j empty slots behind a restart, 30 - j of the seeded ones are left. */
  lemma SeedsLeft(v: nat, j: nat)
    requires j <= 30
    ensures Sum(Last30(v, Zeros(j))) == (30 - j) * v
  {
    var seeds := seq(30 - j, _ => v);
    assert Last30(v, Zeros(j)) == seeds + Zeros(j);
    SumAppend(seeds, Zeros(j));
    SumSame(30 - j, v);
    SumZeros(j);
  }

  /** An update keeps every byte, those of the running slot and the new ones, exactly when it does
      not restart the window, or there is nothing in the running slot and the value divides evenly. */
  lemma KeepsAllIff(w: Window, value: nat, t2: nat)
    requires WindowOk(w) && w.t1 <= t2 && w.current + value < U32
    ensures Attributed(w, value, t2) == w.current + value
            <==> t2 - w.t1 <= PERIOD || (w.current == 0 && value % NB_VALUE == 0)
  {
    RestartsIff(w, t2);
    if Restarts(w, t2) {
      RestartSpreads(w, value, t2);
    } else {
      UpdateConserves(w, value, t2);
    }
  }

  /** Three seconds of silence, then 31 bytes on top of one in the running slot: 30 are kept. */
  lemma RestartLoses()
    ensures Attributed(Window(0, 1, 0, []), 31, PERIOD + 1) == 30
  {
    RestartSpreads(Window(0, 1, 0, []), 31, PERIOD + 1);
  }

  lemma NextPosition(t1: nat, p: nat)
    requires p == (t1 / D) % NB_VALUE
    ensures var t := t1 + (D - t1 % D);
      t / D == t1 / D + 1 && (t / D) % NB_VALUE == if p + 1 == NB_VALUE then 0 else p + 1
  {
    NextBoundary(t1);
  }

  lemma RingPush(ring: seq<nat>, p: nat, x: nat)
    requires |ring| == NB_VALUE && p < NB_VALUE
    ensures var r, q := ring[p := x], if p + 1 == NB_VALUE then 0 else p + 1;
      r[q..] + r[..q] == (ring[p..] + ring[..p])[1..] + [x]
  {
  }

  lemma ModPush(rest: nat, old_: nat, amount: nat)
    ensures (((rest + old_) % U32 - old_) % U32 + amount) % U32 == (rest + amount % U32) % U32
  {
  }

  lemma TotalPush(ring: seq<nat>, p: nat, x: nat, amount: nat)
    requires p < |ring| && x == amount % U32
    ensures ((Sum(ring) % U32 - ring[p]) % U32 + amount) % U32 == Sum(ring[p := x]) % U32
  {
    assert ring == ring[..p] + ([ring[p]] + ring[p + 1..]);
    assert ring[p := x] == ring[..p] + ([x] + ring[p + 1..]);
    SumAppend(ring[..p], [ring[p]] + ring[p + 1..]);
    SumAppend(ring[..p], [x] + ring[p + 1..]);
    var rest := Sum(ring[..p]) + Sum(ring[p + 1..]);
    assert Sum(ring) == rest + ring[p] && Sum(ring[p := x]) == rest + x;
    ModPush(rest, ring[p], amount);
  }

  lemma Pushed(ring: seq<nat>, p: nat, x: nat, amount: nat, seed: nat, done: seq<nat>)
    requires |ring| == NB_VALUE && p < NB_VALUE && x == amount % U32
    requires ring[p..] + ring[..p] == Last30(seed, done)
    ensures var r, q := ring[p := x], if p + 1 == NB_VALUE then 0 else p + 1;
      && r[q..] + r[..q] == Last30(seed, done + [x])
      && ((Sum(ring) % U32 - ring[p]) % U32 + amount) % U32 == Sum(r) % U32
  {
    Last30Push(seed, done, x);
    RingPush(ring, p, x);
    TotalPush(ring, p, x, amount);
  }

  class TransferRateCalculator {
    var t1: nat
    var currentValue: nat
    var currentValuePos: nat
    const values: array<nat>
    var total: nat
    ghost var seed: nat
    ghost var done: seq<nat>

    ghost function View(): Window
      reads this
    {
      Window(t1, currentValue, seed, done)
    }

    /** The ring holds the last 30 completed slots, the oldest at currentValuePos. */
    ghost predicate Valid()
      reads this, values
    {
      && values.Length == NB_VALUE
      && WindowOk(View())
      && currentValuePos == (t1 / D) % NB_VALUE
      && values[currentValuePos..] + values[..currentValuePos] == Last30(seed, done)
      && total == Sum(values[..]) % U32
    }

    constructor ()
      ensures Valid() && View() == Window(0, 0, 0, []) && fresh(values)
    {
      t1, currentValue, currentValuePos, total := 0, 0, 0, 0;
      values := new nat[NB_VALUE](_ => 0);
      seed, done := 0, [];
      new;
      assert values[..] == seq(NB_VALUE, _ => 0);
      SumSame(NB_VALUE, 0);
    }

    method Reset()
      requires values.Length == NB_VALUE
      modifies this, values
      ensures Valid() && View() == Window(0, 0, 0, [])
      ensures forall i :: 0 <= i < 30 ==> values[i] == 0
    {
      currentValue, currentValuePos, total, t1 := 0, 0, 0, 0;
      forall i | 0 <= i < values.Length {
        values[i] := 0;
      }
      seed, done := 0, [];
      assert values[..] == seq(NB_VALUE, _ => 0);
      SumSame(NB_VALUE, 0);
    }

    /** The last pass: the time is still in the running slot. */
    method Accumulate(value: nat, t2: nat)
      requires Valid() && t1 <= t2 && SameSlot(t1, t2)
      modifies this
      ensures Valid() && View() == old(View()).(t1 := t2, current := (old(currentValue) + value) % U32)
    {
      currentValue := (currentValue + value) % U32;
      t1 := t2;
    }

    /** The restart with data: every slot gets v. */
    method Spread(v: nat)
      requires values.Length == NB_VALUE && v < U32
      modifies this, values
      ensures Valid() && View() == Window(0, 0, v, [])
      ensures forall i :: 0 <= i < 30 ==> values[i] == v
    {
      currentValue, currentValuePos, t1, total := 0, 0, 0, 0;
      seed, done := v, [];
      var i := 0;
      while i < NB_VALUE
        invariant 0 <= i <= NB_VALUE
        invariant values[..i] == seq(i, _ => v)
        invariant total == (i * v) % U32
        invariant currentValue == 0 && currentValuePos == 0 && t1 == 0 && seed == v && done == []
      {
        values[i] := v;
        total := (total + v) % U32;
        ModAdd(i * v, v);
        assert (i + 1) * v == i * v + v;
        i := i + 1;
        assert values[..i] == seq(i - 1, _ => v) + [v];
      }
      assert values[..] == values[..NB_VALUE];
      SumSame(NB_VALUE, v);
    }

    /** The ring without the times. */
    ghost predicate RingOk()
      reads this, values
    {
      values.Length == NB_VALUE && currentValuePos < NB_VALUE
      && values[currentValuePos..] + values[..currentValuePos] == Last30(seed, done)
      && total == Sum(values[..]) % U32
    }

    /** The oldest value gives way to a new one. */
    method Push(amount: nat)
      requires RingOk()
      modifies this`total, this`currentValuePos, this`done, values
      ensures RingOk() && done == old(done) + [amount % U32]
      ensures currentValuePos == if old(currentValuePos) + 1 == NB_VALUE then 0 else old(currentValuePos) + 1
    {
      ghost var before, p := values[..], currentValuePos;
      var x := amount % U32;
      Pushed(before, p, x, amount, seed, done);
      total := (total - values[currentValuePos]) % U32;
      values[currentValuePos] := x;
      currentValuePos := currentValuePos + 1;
      total := (total + amount) % U32;
      if currentValuePos == NB_VALUE {
        currentValuePos := 0;
      }
      done := done + [x];
      assert values[..] == before[p := x];
    }

    /** One pass of the loop that ends a slot. */
    method CompleteSlot(v1: nat, ghost left: nat, ghost t2: nat)
      requires Valid() && t1 <= t2 && !SameSlot(t1, t2) && t2 - t1 <= PERIOD && v1 == Share(left, t1, t2)
      modifies this, values
      ensures Valid() && View() == Cross(old(View()), v1)
    {
      NextPosition(t1, currentValuePos);
      Push(currentValue + v1);
      t1 := t1 + (D - t1 % D);
      currentValue := 0;
    }

    /** t2 is what the timer shows, which starts again at zero when the window restarts. */
    method Update(value: nat, t2: nat)
      requires Valid() && value < 0x8000_0000 && t1 <= t2
      modifies this, values
      ensures Valid() && View() == Updated(old(View()), value, t2)
      ensures t2 - old(t1) > PERIOD ==> forall i :: 0 <= i < 30 ==> values[i] == value / 30
    {
      ghost var w0 := View();
      var left: nat := value;
      while true
        invariant Valid() && t1 <= t2 && left <= value
        invariant Updated(View(), left, t2) == Updated(w0, value, t2)
        invariant t2 - t1 > PERIOD ==> left == value
        invariant t2 - t1 <= PERIOD ==> t2 - old(t1) <= PERIOD
        decreases t2 - t1
      {
        var dt := t2 - t1;
        var t1' := t1 % D;
        var t2' := t1' + dt;
        Crosses(t1, t2);
        if t2' < D {
          Accumulate(left, t2);
          return;
        } else if dt > PERIOD {
          if left != 0 {
            Spread(left / NB_VALUE);
          } else {
            Reset();
          }
          return;
        }
        var v1 := Share(left, t1, t2);
        CompleteSlot(v1, left, t2);
        left := left - v1;
      }
    }

    method AddData(bytes: int, t2: nat)
      requires Valid() && bytes < 0x8000_0000 && t1 <= t2
      modifies this, values
      ensures Valid() && View() == if bytes > 0 then Updated(old(View()), bytes, t2) else old(View())
    {
      if bytes > 0 {
        Update(bytes, t2);
      }
    }

    /** The rate is the sum of the last 30 slots, modulo 2^32, over three seconds. */
    method GetTransferRate(t2: nat) returns (rate: nat)
      requires Valid() && t1 <= t2
      modifies this, values
      ensures Valid() && View() == Updated(old(View()), 0, t2)
      ensures rate == (Sum(Last30(View().seed, View().done)) % U32) * 1_000_000_000 / PERIOD
    {
      Update(0, t2);
      SumAppend(values[currentValuePos..], values[..currentValuePos]);
      SumAppend(values[..currentValuePos], values[currentValuePos..]);
      assert values[..] == values[..currentValuePos] + values[currentValuePos..];
      assert total * 1_000_000_000 / PERIOD == total / PERIOD_S;
      return total / PERIOD_S;
    }
  }

  lemma SeedsFit(value: nat, j: nat)
    requires value < 0x8000_0000 && j <= 30
    ensures 0 <= (30 - j) * (value / 30) < U32
  {
    MulMono(30 - j, 30, value / 30);
  }

  /** The sum t nanoseconds behind a restart. */
  lemma IdleSum(v: nat, t: nat)
    requires t <= PERIOD
    ensures t / D <= 30
    ensures var r := Updated(Window(0, 0, v, []), 0, t); Sum(Last30(r.seed, r.done)) == (30 - t / D) * v
  {
    IdleAppends(Window(0, 0, v, []), t);
    assert [] + Zeros(t / D) == Zeros(t / D);
    SeedsLeft(v, t / D);
  }

  lemma Restarted(w: Window, value: nat, t2: nat)
    requires WindowOk(w) && t2 - w.t1 > PERIOD
    ensures Updated(w, value, t2) == Window(0, 0, value / 30, [])
  {
    RestartsIff(w, t2);
  }

  lemma PerSecond(sum: nat)
    requires sum < U32
    ensures sum % U32 * 1_000_000_000 / PERIOD == sum / 3
  {
  }

  lemma RateBehindRestart(v: nat, value: nat, t: nat) returns (sum: nat)
    requires value < 0x8000_0000 && v == value / 30 && t <= PERIOD
    ensures t / D <= 30 && sum == (30 - t / D) * v
    ensures var r := Updated(Window(0, 0, v, []), 0, t);
            Sum(Last30(r.seed, r.done)) == sum && sum % U32 * 1_000_000_000 / PERIOD == sum / 3
  {
    IdleSum(v, t);
    SeedsFit(value, t / D);
    sum := (30 - t / D) * v;
    PerSecond(sum);
  }

  /** The rate after a restart: at time t behind it as many seeded slots are left as have not been
      pushed out by empty ones. */
  method RateAfterRestart(c: TransferRateCalculator, value: nat, t2: nat, t: nat) returns (rate: nat)
    requires c.Valid() && value < 0x8000_0000 && t2 - c.t1 > PERIOD && t <= PERIOD
    modifies c, c.values
    ensures t / D <= 30 && rate == ((30 - t / D) * (value / 30)) / 3
  {
    Restarted(c.View(), value, t2);
    ghost var sum := RateBehindRestart(value / 30, value, t);
    c.Update(value, t2);
    rate := c.GetTransferRate(t);
  }
}
