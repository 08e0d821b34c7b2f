/** Shuttle search (day13/src/main.rs): the earliest bus after a departure
    time, and the earliest timestamp at which every listed bus leaves at its
    offset, found with the Chinese Remainder Theorem construction. */
module ShuttleSearch {
  import opened RustInt
  import opened Outcomes

  // ===== divisibility =====

  ghost predicate Divides(d: int, x: int)
  {
    exists k :: x == d * k
  }

  /** `x` is congruent to `a` modulo `n`. */
  ghost predicate Congruent(x: int, a: int, n: int)
  {
    Divides(n, x - a)
  }

  /** `g` is a greatest common divisor of `a` and `b`: a common divisor that
      every common divisor divides. */
  ghost predicate IsGcd(g: int, a: int, b: int)
  {
    Divides(g, a) && Divides(g, b) &&
    forall d :: Divides(d, a) && Divides(d, b) ==> Divides(d, g)
  }

  lemma DividesLinear(d: int, x: int, y: int, p: int, q: int)
    requires Divides(d, x) && Divides(d, y)
    ensures Divides(d, p * x + q * y)
  {
    var kx :| x == d * kx;
    var ky :| y == d * ky;
    assert p * x + q * y == d * (p * kx + q * ky);
  }

  // ===== extended Euclid =====

  /** The state of `extended_gcd`'s loop, run to its end. */
  function EgcdLoop(oldR: int, r: int, oldS: int, s: int, oldT: int, t: int): (int, int, int)
    decreases Abs(r)
  {
    if r == 0 then (oldR, oldS, oldT)
    else
      var q := TruncDiv(oldR, r);
      assert oldR - q * r == TruncRem(oldR, r);
      EgcdLoop(r, oldR - q * r, s, oldS - q * s, t, oldT - q * t)
  }

  /** What `extended_gcd(a, b)` returns. */
  function ExtGcd(a: int, b: int): (int, int, int)
  {
    EgcdLoop(a, b, 1, 0, 0, 1)
  }

  /** One step of the loop keeps the Bezout relation of the new remainder. */
  lemma BezoutStep(a: int, b: int, oldR: int, r: int, oldS: int, s: int, oldT: int, t: int, q: int)
    requires oldR == a * oldS + b * oldT
    requires r == a * s + b * t
    ensures oldR - q * r == a * (oldS - q * s) + b * (oldT - q * t)
  {
    calc {
      oldR - q * r;
      a * oldS + b * oldT - q * (a * s + b * t);
      { assert q * (a * s + b * t) == a * (q * s) + b * (q * t); }
      a * oldS + b * oldT - (a * (q * s) + b * (q * t));
      { assert a * (oldS - q * s) == a * oldS - a * (q * s);
        assert b * (oldT - q * t) == b * oldT - b * (q * t); }
      a * (oldS - q * s) + b * (oldT - q * t);
    }
  }

  lemma {:induction false} EgcdLoopBezout(a: int, b: int, oldR: int, r: int, oldS: int, s: int, oldT: int, t: int)
    requires oldR == a * oldS + b * oldT
    requires r == a * s + b * t
    ensures var (g, x, y) := EgcdLoop(oldR, r, oldS, s, oldT, t); a * x + b * y == g
    decreases Abs(r)
  {
    if r != 0 {
      var q := TruncDiv(oldR, r);
      assert oldR - q * r == TruncRem(oldR, r);
      BezoutStep(a, b, oldR, r, oldS, s, oldT, t, q);
      EgcdLoopBezout(a, b, r, oldR - q * r, s, oldS - q * s, t, oldT - q * t);
    }
  }

  lemma {:induction false} EgcdLoopDivides(oldR: int, r: int, oldS: int, s: int, oldT: int, t: int)
    ensures var g := EgcdLoop(oldR, r, oldS, s, oldT, t).0; Divides(g, oldR) && Divides(g, r)
    ensures oldR >= 0 && r >= 0 ==> EgcdLoop(oldR, r, oldS, s, oldT, t).0 >= 0
    decreases Abs(r)
  {
    var g := EgcdLoop(oldR, r, oldS, s, oldT, t).0;
    if r == 0 {
      assert oldR == oldR * 1 && r == oldR * 0;
    } else {
      var q := TruncDiv(oldR, r);
      var rem := oldR - q * r;
      assert rem == TruncRem(oldR, r);
      EgcdLoopDivides(r, rem, s, oldS - q * s, t, oldT - q * t);
      DividesLinear(g, r, rem, q, 1);
      assert q * r + 1 * rem == oldR;
    }
  }

  /** `extended_gcd` returns Bezout coefficients of its first component, and
      that component is a greatest common divisor of `a` and `b`,
      non-negative when `a` and `b` are. */
  lemma ExtGcdCorrect(a: int, b: int)
    ensures var (g, s, t) := ExtGcd(a, b); a * s + b * t == g && IsGcd(g, a, b)
    ensures a >= 0 && b >= 0 ==> ExtGcd(a, b).0 >= 0
  {
    var (g, s, t) := ExtGcd(a, b);
    EgcdLoopBezout(a, b, a, b, 1, 0, 0, 1);
    EgcdLoopDivides(a, b, 1, 0, 0, 1);
    forall d | Divides(d, a) && Divides(d, b)
      ensures Divides(d, g)
    {
      DividesLinear(d, a, b, s, t);
    }
  }

  /** `extended_gcd`: the loop keeps `old_r = a*old_s + b*old_t` and
      `r = a*s + b*t`, and ends because `|r|` strictly decreases. */
  method ExtendedGcd(a: int, b: int) returns (g: int, x: int, y: int)
    ensures (g, x, y) == ExtGcd(a, b)
    ensures a * x + b * y == g
    ensures IsGcd(g, a, b)
    ensures a >= 0 && b >= 0 ==> g >= 0
  {
    var oldR, r := a, b;
    var oldS, s := 1, 0;
    var oldT, t := 0, 1;
    while r != 0
      invariant oldR == a * oldS + b * oldT
      invariant r == a * s + b * t
      invariant EgcdLoop(oldR, r, oldS, s, oldT, t) == ExtGcd(a, b)
      decreases Abs(r)
    {
      var q := TruncDiv(oldR, r);
      assert oldR - q * r == TruncRem(oldR, r);
      var nOldR, nR := r, oldR - q * r;
      var nOldS, nS := s, oldS - q * s;
      var nOldT, nT := t, oldT - q * t;
      BezoutStep(a, b, oldR, r, oldS, s, oldT, t, q);
      oldR, r := nOldR, nR;
      oldS, s := nOldS, nS;
      oldT, t := nOldT, nT;
    }
    g, x, y := oldR, oldS, oldT;
    ExtGcdCorrect(a, b);
  }

  // ===== part one: the earliest bus =====

  /** Minutes from `departure` to the next departure of `bus`:
      `bus - departure % bus`. */
  function Wait(departure: int, bus: int): int
    requires bus != 0
  {
    bus - TruncRem(departure, bus)
  }

  /** For a non-negative departure time the wait lies in `[1, bus]`. */
  lemma WaitRange(departure: int, bus: int)
    requires departure >= 0 && bus > 0
    ensures 1 <= Wait(departure, bus) <= bus
  {
  }

  /** The `(min, min_bus)` pair after scanning `buses`, starting from
      `(departure, -1)`: a bus replaces the current choice when its wait is
      `<=` the current minimum. */
  function ChooseBus(departure: int, buses: seq<int>): (int, int)
    requires forall i :: 0 <= i < |buses| ==> buses[i] != 0
  {
    if buses == [] then (departure, -1)
    else
      var (m, b) := ChooseBus(departure, buses[..|buses| - 1]);
      var bus := buses[|buses| - 1];
      var w := Wait(departure, bus);
      if w <= m then (w, bus) else (m, b)
  }

  /** The scan in `main`: `min` and `min_bus` updated bus by bus. A bus id
      of 0 makes `departure % bus` panic. */
  method EarliestBus(departure: int, buses: seq<int>) returns (r: Outcome<(int, int)>)
    ensures r.Panic? <==> 0 in buses
    ensures r.Done? ==> r.value == ChooseBus(departure, buses)
  {
    var min, minBus := departure, -1;
    for k := 0 to |buses|
      invariant 0 !in buses[..k]
      invariant (min, minBus) == ChooseBus(departure, buses[..k])
    {
      var bus := buses[k];
      if bus == 0 {
        assert buses[k] in buses;
        return Panic;
      }
      var distance := bus - TruncRem(departure, bus);
      assert buses[..k + 1] == buses[..k] + [bus];
      if distance <= min {
        min, minBus := distance, bus;
      }
    }
    assert buses[..|buses|] == buses;
    r := Done((min, minBus));
  }

  /** The chosen wait is no larger than `departure` nor than any bus's
      wait; with no bus chosen it is `departure` itself. */
  lemma {:induction false} ChooseBusMinimal(departure: int, buses: seq<int>)
    requires forall i :: 0 <= i < |buses| ==> buses[i] > 0
    ensures var (m, b) := ChooseBus(departure, buses);
      m <= departure && (b == -1 ==> m == departure) &&
      forall i :: 0 <= i < |buses| ==> m <= Wait(departure, buses[i])
  {
    if buses != [] {
      var init := buses[..|buses| - 1];
      ChooseBusMinimal(departure, init);
      assert forall i :: 0 <= i < |init| ==> buses[i] == init[i];
    }
  }

  /** No bus is chosen exactly when every wait exceeds `departure`. */
  lemma {:induction false} ChooseBusNone(departure: int, buses: seq<int>)
    requires forall i :: 0 <= i < |buses| ==> buses[i] > 0
    ensures ChooseBus(departure, buses).1 == -1 <==>
      forall i :: 0 <= i < |buses| ==> Wait(departure, buses[i]) > departure
  {
    if buses != [] {
      var init := buses[..|buses| - 1];
      ChooseBusNone(departure, init);
      ChooseBusMinimal(departure, init);
      assert forall i :: 0 <= i < |init| ==> buses[i] == init[i];
      assert buses == init + [buses[|buses| - 1]];
    }
  }

  /** A chosen bus is in the list at a position `k` with its wait the
      minimum, and every later bus waits strictly longer: ties go to the
      later bus. */
  lemma {:induction false} ChooseBusLast(departure: int, buses: seq<int>)
    requires forall i :: 0 <= i < |buses| ==> buses[i] > 0
    ensures var (m, b) := ChooseBus(departure, buses);
      b != -1 ==> exists k :: 0 <= k < |buses| && buses[k] == b && m == Wait(departure, b) &&
                     forall j :: k < j < |buses| ==> Wait(departure, buses[j]) > m
  {
    if buses != [] {
      var init := buses[..|buses| - 1];
      ChooseBusLast(departure, init);
      var (m0, b0) := ChooseBus(departure, init);
      var bus := buses[|buses| - 1];
      assert ChooseBus(departure, buses) == if Wait(departure, bus) <= m0 then (Wait(departure, bus), bus) else (m0, b0);
      if Wait(departure, bus) <= m0 {
        var k := |buses| - 1;
        assert buses[k] == bus;
      } else if b0 != -1 {
        var k :| 0 <= k < |init| && init[k] == b0 && m0 == Wait(departure, b0) &&
                 forall j :: k < j < |init| ==> Wait(departure, init[j]) > m0;
        assert buses[k] == b0;
        assert forall j :: k < j < |buses| ==> Wait(departure, buses[j]) > m0 by {
          assert forall j :: k < j < |init| ==> buses[j] == init[j];
        }
      }
    }
  }

  /** The chosen bus: its wait is minimal, no later bus in the list ties with
      it, and no bus is chosen exactly when every wait exceeds `departure`. */
  lemma ChooseBusIsEarliest(departure: int, buses: seq<int>)
    requires forall i :: 0 <= i < |buses| ==> buses[i] > 0
    ensures var (m, b) := ChooseBus(departure, buses);
      m <= departure &&
      (b == -1 <==> forall i :: 0 <= i < |buses| ==> Wait(departure, buses[i]) > departure) &&
      (b == -1 ==> m == departure) &&
      (b != -1 ==> exists k :: 0 <= k < |buses| && buses[k] == b && m == Wait(departure, b) &&
                     forall j :: k < j < |buses| ==> Wait(departure, buses[j]) > m) &&
      (forall i :: 0 <= i < |buses| ==> m <= Wait(departure, buses[i]))
  {
    ChooseBusMinimal(departure, buses);
    ChooseBusNone(departure, buses);
    ChooseBusLast(departure, buses);
  }

  /** On a sorted list the later of two buses with equal wait is the larger,
      so ties go to the larger bus. */
  lemma ChooseBusTieGoesToLarger(departure: int, buses: seq<int>, other: int)
    requires forall i :: 0 <= i < |buses| ==> buses[i] > 0
    requires forall i, j :: 0 <= i < j < |buses| ==> buses[i] < buses[j]
    requires 0 <= other < |buses|
    requires ChooseBus(departure, buses).1 != -1
    requires Wait(departure, buses[other]) == ChooseBus(departure, buses).0
    ensures buses[other] <= ChooseBus(departure, buses).1
  {
    ChooseBusIsEarliest(departure, buses);
  }

  lemma ExamplePartOne()
    ensures ChooseBus(939, [7, 13, 19, 31, 59]) == (5, 59)
    ensures ChooseBus(939, [7, 13, 19, 31, 59]).0 * ChooseBus(939, [7, 13, 19, 31, 59]).1 == 295
  {
    var buses := [7, 13, 19, 31, 59];
    assert Wait(939, 7) == 6 && Wait(939, 13) == 10 && Wait(939, 19) == 11;
    assert Wait(939, 31) == 22 && Wait(939, 59) == 5;
    assert buses[..4] == [7, 13, 19, 31];
    assert buses[..4][..3] == [7, 13, 19];
    assert buses[..4][..3][..2] == [7, 13];
    assert buses[..4][..3][..2][..1] == [7];
    assert buses[..4][..3][..2][..1][..0] == [];
    assert ChooseBus(939, [7]) == (6, 7);
    assert ChooseBus(939, [7, 13]) == (6, 7);
    assert ChooseBus(939, [7, 13, 19]) == (6, 7);
    assert ChooseBus(939, [7, 13, 19, 31]) == (6, 7);
  }

  // ===== part two: offsets =====

  /** A congruence `t = a (mod n)`. */
  datatype Congruence = Congruence(a: int, n: int)

  /** The normalised offset of the bus at position `i`:
      `(bus - i) % bus`, moved into `[0, bus)` when negative. */
  function Offset(bus: int, i: int): int
    requires bus > 0
  {
    var ai := TruncRem(bus - i, bus);
    if ai < 0 then bus + ai else ai
  }

  /** The offset lies in `[0, bus)` and is congruent to `-i`: a timestamp
      congruent to it is one at which `bus` leaves `i` minutes later. */
  lemma OffsetCorrect(bus: int, i: int)
    requires bus > 0
    ensures 0 <= Offset(bus, i) < bus
    ensures Congruent(Offset(bus, i), -i, bus)
  {
    var ai := TruncRem(bus - i, bus);
    var q := TruncDiv(bus - i, bus);
    assert bus - i == q * bus + ai;
    if ai < 0 {
      assert Offset(bus, i) - (-i) == bus * (2 - q);
    } else {
      assert Offset(bus, i) - (-i) == bus * (1 - q);
    }
  }

  /** Entries of the schedule: a bus id, or -1 for an `x`. */
  predicate WellFormedSchedule(aux: seq<int>)
  {
    forall i :: 0 <= i < |aux| ==> aux[i] == -1 || aux[i] > 0
  }

  /** The congruences built from the schedule, in order of position. */
  function Offsets(aux: seq<int>): (o: seq<Congruence>)
    requires WellFormedSchedule(aux)
    ensures AllPositive(o)
  {
    if aux == [] then []
    else
      var i := |aux| - 1;
      Offsets(aux[..i]) + (if aux[i] != -1 then [Congruence(Offset(aux[i], i), aux[i])] else [])
  }

  /** The positions of the listed buses, in increasing order. */
  function Positions(aux: seq<int>): seq<nat>
  {
    if aux == [] then []
    else
      var i := |aux| - 1;
      Positions(aux[..i]) + (if aux[i] != -1 then [i] else [])
  }

  /** The positions are increasing indices of listed buses. */
  lemma {:induction false} PositionsValid(aux: seq<int>)
    ensures forall k :: 0 <= k < |Positions(aux)| ==> Positions(aux)[k] < |aux| && aux[Positions(aux)[k]] != -1
    ensures forall k, l :: 0 <= k < l < |Positions(aux)| ==> Positions(aux)[k] < Positions(aux)[l]
  {
    if aux != [] {
      var i := |aux| - 1;
      var init := aux[..i];
      PositionsValid(init);
      assert forall j :: 0 <= j < |init| ==> init[j] == aux[j];
      if aux[i] != -1 {
        assert Positions(aux) == Positions(init) + [i];
      } else {
        assert Positions(aux) == Positions(init);
      }
    }
  }

  /** Every listed bus has its position among the positions. */
  lemma {:induction false} PositionsComplete(aux: seq<int>)
    ensures forall i :: 0 <= i < |aux| && aux[i] != -1 ==> i in Positions(aux)
  {
    if aux != [] {
      var last := |aux| - 1;
      var init := aux[..last];
      PositionsComplete(init);
      var tail := if aux[last] != -1 then [last] else [];
      assert Positions(aux) == Positions(init) + tail;
      forall i | 0 <= i < |aux| && aux[i] != -1
        ensures i in Positions(aux)
      {
        if i < last {
          assert init[i] == aux[i];
          assert i in Positions(init);
        } else {
          assert i in tail;
        }
      }
    }
  }

  /** The `k`-th congruence belongs to the bus at the `k`-th position. */
  lemma {:induction false} OffsetsAtPositions(aux: seq<int>)
    requires WellFormedSchedule(aux)
    ensures |Offsets(aux)| == |Positions(aux)|
    ensures forall k :: 0 <= k < |Positions(aux)| ==> Positions(aux)[k] < |aux| && aux[Positions(aux)[k]] != -1
    ensures forall k, l :: 0 <= k < l < |Positions(aux)| ==> Positions(aux)[k] < Positions(aux)[l]
    ensures forall k :: 0 <= k < |Offsets(aux)| ==>
      Offsets(aux)[k] == Congruence(Offset(aux[Positions(aux)[k]], Positions(aux)[k]), aux[Positions(aux)[k]])
    ensures forall i :: 0 <= i < |aux| && aux[i] != -1 ==> i in Positions(aux)
  {
    PositionsValid(aux);
    PositionsComplete(aux);
    OffsetsMatch(aux);
  }

  lemma {:induction false} OffsetsMatch(aux: seq<int>)
    requires WellFormedSchedule(aux)
    ensures |Offsets(aux)| == |Positions(aux)|
    ensures forall k :: 0 <= k < |Offsets(aux)| ==> (Positions(aux)[k] < |aux| && aux[Positions(aux)[k]] > 0 &&
      Offsets(aux)[k] == Congruence(Offset(aux[Positions(aux)[k]], Positions(aux)[k]), aux[Positions(aux)[k]]))
  {
    PositionsValid(aux);
    if aux != [] {
      var i := |aux| - 1;
      var init := aux[..i];
      assert forall j :: 0 <= j < |init| ==> init[j] == aux[j];
      assert WellFormedSchedule(init);
      OffsetsMatch(init);
      PositionsValid(init);
      if aux[i] != -1 {
        assert Positions(aux) == Positions(init) + [i];
        assert Offsets(aux) == Offsets(init) + [Congruence(Offset(aux[i], i), aux[i])];
      } else {
        assert Positions(aux) == Positions(init);
        assert Offsets(aux) == Offsets(init);
      }
    }
  }

  /** The congruences of one more position of the schedule. */
  lemma OffsetsSnoc(aux: seq<int>, i: nat)
    requires WellFormedSchedule(aux) && i < |aux|
    ensures WellFormedSchedule(aux[..i]) && WellFormedSchedule(aux[..i + 1])
    ensures Offsets(aux[..i + 1]) ==
      Offsets(aux[..i]) + (if aux[i] != -1 then [Congruence(Offset(aux[i], i), aux[i])] else [])
  {
    assert forall j :: 0 <= j <= i ==> aux[..i + 1][j] == aux[j];
    assert aux[..i + 1][..i] == aux[..i];
  }

  /** `main`'s loop that pushes `(ai, aux[i])` for every listed bus. */
  method NormaliseOffsets(aux: seq<int>) returns (newBuses: seq<Congruence>)
    requires WellFormedSchedule(aux)
    ensures newBuses == Offsets(aux)
  {
    newBuses := [];
    assert aux[..0] == [];
    for i := 0 to |aux|
      invariant WellFormedSchedule(aux[..i]) && newBuses == Offsets(aux[..i])
    {
      OffsetsSnoc(aux, i);
      if aux[i] != -1 {
        var ai := TruncRem(aux[i] - i, aux[i]);
        if ai < 0 {
          ai := aux[i] + ai;
        }
        newBuses := newBuses + [Congruence(ai, aux[i])];
      }
    }
    assert aux[..|aux|] == aux;
  }

  // ===== part two: pairwise combination =====

  predicate Coprime(x: int, y: int)
  {
    ExtGcd(x, y).0 == 1
  }

  predicate AllPositive(l: seq<Congruence>)
  {
    forall i :: 0 <= i < |l| ==> l[i].n > 0
  }

  predicate AllReduced(l: seq<Congruence>)
  {
    forall i :: 0 <= i < |l| ==> 0 <= l[i].a < l[i].n
  }

  predicate PairwiseCoprime(l: seq<Congruence>)
  {
    forall i, j :: 0 <= i < j < |l| ==> Coprime(l[i].n, l[j].n)
  }

  /** `x` solves every congruence of the list. */
  ghost predicate Satisfies(x: int, l: seq<Congruence>)
  {
    forall i :: 0 <= i < |l| ==> Congruent(x, l[i].a, l[i].n)
  }

  /** The product of the moduli. */
  function ModProduct(l: seq<Congruence>): int
  {
    if l == [] then 1 else l[0].n * ModProduct(l[1..])
  }

  /** One step of the inner loop: `(xi % (n1*n2))`, moved into
      `[0, n1*n2)` when negative, with the Bezout coefficients of `n1`, `n2`. */
  function Combine(c1: Congruence, c2: Congruence): (c: Congruence)
    requires c1.n > 0 && c2.n > 0
    ensures c.n == c1.n * c2.n && c.n > 0
  {
    var (_, m1, m2) := ExtGcd(c1.n, c2.n);
    var xi := c2.a * m1 * c1.n + c1.a * m2 * c2.n;
    var si := TruncRem(xi, c1.n * c2.n);
    Congruence(if si < 0 then c1.n * c2.n + si else si, c1.n * c2.n)
  }

  /** The queue of congruences, reduced: remove the first two, append their
      combination, until one is left. */
  function Reduce(l: seq<Congruence>): (r: seq<Congruence>)
    requires AllPositive(l)
    ensures |l| >= 1 ==> |r| == 1
    ensures l == [] ==> r == []
    decreases |l|
  {
    if |l| <= 1 then l
    else
      var next := Step(l);
      assert AllPositive(next) by {
        assert forall i :: 0 <= i < |l| - 2 ==> next[i] == l[i + 2];
      }
      Reduce(next)
  }

  lemma BezoutOneIsCoprime(x: int, y: int, s: int, t: int)
    requires x >= 0 && y >= 0
    requires x * s + y * t == 1
    ensures Coprime(x, y)
  {
    ExtGcdCorrect(x, y);
    var g := ExtGcd(x, y).0;
    DividesLinear(g, x, y, s, t);
    var k :| 1 == g * k;
    assert g != 0;
  }

  lemma CoprimeBezout(x: int, y: int) returns (s: int, t: int)
    requires Coprime(x, y)
    ensures x * s + y * t == 1
  {
    ExtGcdCorrect(x, y);
    var (_, s', t') := ExtGcd(x, y);
    s, t := s', t';
  }

  lemma CoprimeSymmetric(x: int, y: int)
    requires x >= 0 && y >= 0 && Coprime(x, y)
    ensures Coprime(y, x)
  {
    var s, t := CoprimeBezout(x, y);
    BezoutOneIsCoprime(y, x, t, s);
  }

  /** A number coprime to both factors is coprime to the product. */
  lemma CoprimeProduct(a: int, b: int, c: int)
    requires a > 0 && b > 0 && c > 0
    requires Coprime(a, c) && Coprime(b, c)
    ensures Coprime(a * b, c)
  {
    var s1, t1 := CoprimeBezout(a, c);
    var s2, t2 := CoprimeBezout(b, c);
    var u := a * s1;
    var v := b * s2;
    assert u + c * t1 == 1;
    assert v + c * t2 == 1;
    assert (u + c * t1) * (v + c * t2) == 1;
    assert (u + c * t1) * (v + c * t2) == u * v + c * (u * t2 + t1 * v + c * t1 * t2);
    assert u * v == (a * b) * (s1 * s2);
    BezoutOneIsCoprime(a * b, c, s1 * s2, u * t2 + t1 * v + c * t1 * t2);
  }

  /** The identity behind the construction: when `n1*m1 + n2*m2 == 1`,
      `a2*m1*n1 + a1*m2*n2 - n1*n2*j` differs from `a1` by a multiple of `n1`. */
  lemma CrtIdentity(a1: int, a2: int, n1: int, n2: int, m1: int, m2: int, j: int)
    requires n1 * m1 + n2 * m2 == 1
    ensures (a2 * m1 * n1 + a1 * m2 * n2 - n1 * n2 * j) - a1 == n1 * (m1 * (a2 - a1) - n2 * j)
  {
    calc {
      a1 * m2 * n2;
      a1 * (n2 * m2);
      a1 * (1 - n1 * m1);
      a1 - a1 * (n1 * m1);
    }
    calc {
      n1 * (m1 * (a2 - a1) - n2 * j);
      n1 * (m1 * (a2 - a1)) - n1 * (n2 * j);
      a2 * m1 * n1 - a1 * (n1 * m1) - n1 * n2 * j;
    }
  }

  /** `xi % big` moved into `[0, big)` is `xi` minus a multiple of `big`. */
  lemma NormalisedRem(xi: int, big: int) returns (j: int)
    requires big > 0
    ensures var rem := TruncRem(xi, big);
      (if rem < 0 then big + rem else rem) == xi - big * j
  {
    var rem := TruncRem(xi, big);
    var q := TruncDiv(xi, big);
    assert xi == q * big + rem;
    j := if rem < 0 then q - 1 else q;
    assert (q - 1) * big == q * big - big;
  }

  /** The combined congruence lies in `[0, n1*n2)` and solves both. */
  lemma CombineSound(c1: Congruence, c2: Congruence)
    requires c1.n > 0 && c2.n > 0 && Coprime(c1.n, c2.n)
    ensures 0 <= Combine(c1, c2).a < c1.n * c2.n
    ensures Congruent(Combine(c1, c2).a, c1.a, c1.n)
    ensures Congruent(Combine(c1, c2).a, c2.a, c2.n)
  {
    var n1, n2, a1, a2 := c1.n, c2.n, c1.a, c2.a;
    ExtGcdCorrect(n1, n2);
    var (_, m1, m2) := ExtGcd(n1, n2);
    var big := n1 * n2;
    var j := NormalisedRem(a2 * m1 * n1 + a1 * m2 * n2, big);
    var si := Combine(c1, c2).a;
    assert si == a2 * m1 * n1 + a1 * m2 * n2 - n1 * n2 * j;
    CrtIdentity(a1, a2, n1, n2, m1, m2, j);
    assert si - a1 == n1 * (m1 * (a2 - a1) - n2 * j);
    CrtIdentity(a2, a1, n2, n1, m2, m1, j);
    assert n2 * n1 * j == n1 * n2 * j;
    assert si - a2 == n2 * (m2 * (a1 - a2) - n1 * j);
  }

  /** A number that both `n1` and `n2` divide is divisible by `n1*n2` when
      `n1*m1 + n2*m2 == 1`. */
  lemma ProductDivides(d: int, n1: int, n2: int, m1: int, m2: int, u: int, v: int)
    requires n1 * m1 + n2 * m2 == 1
    requires d == n1 * u && d == n2 * v
    ensures d == (n1 * n2) * (v * m1 + u * m2)
  {
    calc {
      d;
      d * (n1 * m1 + n2 * m2);
      d * (n1 * m1) + d * (n2 * m2);
      (n2 * v) * (n1 * m1) + (n1 * u) * (n2 * m2);
      (n1 * n2) * (v * m1 + u * m2);
    }
  }

  /** Every common solution of the two congruences solves the combined one. */
  lemma CombineComplete(c1: Congruence, c2: Congruence, x: int)
    requires c1.n > 0 && c2.n > 0 && Coprime(c1.n, c2.n)
    requires Congruent(x, c1.a, c1.n) && Congruent(x, c2.a, c2.n)
    ensures Congruent(x, Combine(c1, c2).a, c1.n * c2.n)
  {
    var n1, n2 := c1.n, c2.n;
    var si := Combine(c1, c2).a;
    CombineSound(c1, c2);
    ExtGcdCorrect(n1, n2);
    var (_, m1, m2) := ExtGcd(n1, n2);
    var k1 :| x - c1.a == n1 * k1;
    var k2 :| x - c2.a == n2 * k2;
    var l1 :| si - c1.a == n1 * l1;
    var l2 :| si - c2.a == n2 * l2;
    var d := x - si;
    assert d == n1 * (k1 - l1) by {
      assert n1 * (k1 - l1) == n1 * k1 - n1 * l1;
    }
    assert d == n2 * (k2 - l2) by {
      assert n2 * (k2 - l2) == n2 * k2 - n2 * l2;
    }
    ProductDivides(d, n1, n2, m1, m2, k1 - l1, k2 - l2);
  }

  lemma {:induction false} ModProductConcat(p: seq<Congruence>, q: seq<Congruence>)
    ensures ModProduct(p + q) == ModProduct(p) * ModProduct(q)
  {
    if p == [] {
      assert p + q == q;
    } else {
      assert (p + q)[1..] == p[1..] + q;
      ModProductConcat(p[1..], q);
    }
  }

  /** The queue after one combination step. */
  function Step(l: seq<Congruence>): (next: seq<Congruence>)
    requires |l| >= 2 && AllPositive(l)
    ensures |next| == |l| - 1
    ensures forall i :: 0 <= i < |l| - 2 ==> next[i] == l[i + 2]
    ensures next[|l| - 2] == Combine(l[0], l[1])
  {
    l[2..] + [Combine(l[0], l[1])]
  }

  /** One combination step keeps the moduli positive, the residues reduced and
      the moduli pairwise coprime. */
  lemma CombineStepShape(l: seq<Congruence>)
    requires |l| >= 2 && AllPositive(l) && AllReduced(l) && PairwiseCoprime(l)
    ensures AllPositive(Step(l)) && AllReduced(Step(l)) && PairwiseCoprime(Step(l))
  {
    var next := Step(l);
    CombineSound(l[0], l[1]);
    forall i, j | 0 <= i < j < |next|
      ensures Coprime(next[i].n, next[j].n)
    {
      if j == |next| - 1 {
        var m := l[i + 2].n;
        assert Coprime(l[0].n, m) && Coprime(l[1].n, m);
        CoprimeSymmetric(l[0].n, m);
        CoprimeSymmetric(l[1].n, m);
        CoprimeProduct(l[0].n, l[1].n, m);
        CoprimeSymmetric(l[0].n * l[1].n, m);
      } else {
        assert next[i] == l[i + 2] && next[j] == l[j + 2];
      }
    }
  }

  /** Replacing the first two moduli by their product, at the back, keeps the
      product of all moduli. */
  lemma ReplaceFirstTwo(l: seq<Congruence>, c: Congruence)
    requires |l| >= 2 && c.n == l[0].n * l[1].n
    ensures ModProduct(l[2..] + [c]) == ModProduct(l)
  {
    ModProductConcat(l[2..], [c]);
    assert [c][1..] == [];
    assert l[1..][1..] == l[2..];
    Rotate3(l[0].n, l[1].n, ModProduct(l[2..]));
  }

  lemma Rotate3(a: int, b: int, r: int)
    ensures r * (a * b * 1) == a * (b * r)
  {
  }

  /** One combination step keeps the product of the moduli. */
  lemma CombineStepProduct(l: seq<Congruence>)
    requires |l| >= 2 && AllPositive(l)
    ensures ModProduct(Step(l)) == ModProduct(l)
  {
    var c := Combine(l[0], l[1]);
    assert Step(l) == l[2..] + [c];
    ReplaceFirstTwo(l, c);
  }

  lemma CongruentFactor(x: int, a: int, n1: int, n2: int)
    requires Congruent(x, a, n1 * n2)
    ensures Congruent(x, a, n1) && Congruent(x, a, n2)
  {
    var k :| x - a == (n1 * n2) * k;
    assert x - a == n1 * (n2 * k);
    assert x - a == n2 * (n1 * k);
  }

  lemma CongruentTrans(x: int, y: int, z: int, n: int)
    requires Congruent(x, y, n) && Congruent(y, z, n)
    ensures Congruent(x, z, n)
  {
    var k1 :| x - y == n * k1;
    var k2 :| y - z == n * k2;
    assert x - z == n * (k1 + k2);
  }

  /** One combination step keeps exactly the same solutions. */
  lemma CombineStepSolutions(l: seq<Congruence>, x: int)
    requires |l| >= 2 && AllPositive(l) && PairwiseCoprime(l)
    ensures Satisfies(x, Step(l)) <==> Satisfies(x, l)
  {
    var next := Step(l);
    var c := Combine(l[0], l[1]);
    CombineSound(l[0], l[1]);
    if Satisfies(x, l) {
      assert Congruent(x, l[0].a, l[0].n) && Congruent(x, l[1].a, l[1].n);
      CombineComplete(l[0], l[1], x);
      forall i | 0 <= i < |next|
        ensures Congruent(x, next[i].a, next[i].n)
      {
        if i < |next| - 1 {
          assert next[i] == l[i + 2];
        }
      }
    }
    if Satisfies(x, next) {
      assert Congruent(x, c.a, c.n) by {
        assert next[|next| - 1] == c;
      }
      CongruentFactor(x, c.a, l[0].n, l[1].n);
      CongruentTrans(x, c.a, l[0].a, l[0].n);
      CongruentTrans(x, c.a, l[1].a, l[1].n);
      forall i | 0 <= i < |l|
        ensures Congruent(x, l[i].a, l[i].n)
      {
        if i >= 2 {
          assert next[i - 2] == l[i];
        }
      }
    }
  }

  /** Chinese Remainder Theorem: for pairwise coprime positive moduli and
      reduced residues, the reduction leaves one congruence `(k, N)` with `N`
      the product of the moduli, `0 <= k < N`, `k` a solution of every input
      congruence, and every solution congruent to `k` modulo `N`. */
  lemma {:induction false} ReduceSolves(l: seq<Congruence>)
    requires |l| >= 1 && AllPositive(l) && AllReduced(l) && PairwiseCoprime(l)
    ensures var c := Reduce(l)[0];
      c.n == ModProduct(l) && 0 <= c.a < c.n && Satisfies(c.a, l) &&
      forall x :: Satisfies(x, l) ==> Congruent(x, c.a, c.n)
    decreases |l|
  {
    if |l| == 1 {
      var c := l[0];
      assert ModProduct(l) == c.n * ModProduct([]);
      assert c.a - c.a == c.n * 0;
      assert Satisfies(c.a, l);
    } else {
      var next := Step(l);
      CombineStepShape(l);
      CombineStepProduct(l);
      ReduceSolves(next);
      var c := Reduce(l)[0];
      forall x | Satisfies(x, l)
        ensures Congruent(x, c.a, c.n)
      {
        CombineStepSolutions(l, x);
      }
      CombineStepSolutions(l, c.a);
    }
  }

  /** The reduction loop of `main`: while more than one congruence is left,
      `len/2` times remove the first two and push their combination; a list
      that starts empty makes `new_buses[0]` panic. */
  method ReduceCongruences(start: seq<Congruence>) returns (k: Outcome<int>)
    requires AllPositive(start)
    ensures start == [] ==> k == Panic
    ensures start != [] ==> k == Done(Reduce(start)[0].a)
  {
    var newBuses := start;
    while |newBuses| > 1
      invariant AllPositive(newBuses)
      invariant Reduce(newBuses) == Reduce(start)
      invariant start != [] <==> newBuses != []
      decreases |newBuses|
    {
      var len := |newBuses|;
      for step := 0 to len / 2
        invariant |newBuses| == len - step
        invariant AllPositive(newBuses)
        invariant Reduce(newBuses) == Reduce(start)
      {
        var c1, c2 := newBuses[0], newBuses[1];
        var _, m1, m2 := ExtendedGcd(c1.n, c2.n);
        var xi := c2.a * m1 * c1.n + c1.a * m2 * c2.n;
        var si := TruncRem(xi, c1.n * c2.n);
        if si < 0 {
          si := c1.n * c2.n + si;
        }
        assert Congruence(si, c1.n * c2.n) == Combine(c1, c2);
        var next := Step(newBuses);
        newBuses := newBuses + [Congruence(si, c1.n * c2.n)];
        newBuses := newBuses[1..];
        newBuses := newBuses[1..];
        assert newBuses == next;
      }
    }
    if |newBuses| == 0 {
      return Panic;
    }
    return Done(newBuses[0].a);
  }

  /** Positions of listed buses, with pairwise coprime ids. */
  predicate CoprimeSchedule(aux: seq<int>)
  {
    WellFormedSchedule(aux) &&
    forall i, j :: 0 <= i < j < |aux| && aux[i] != -1 && aux[j] != -1 ==> Coprime(aux[i], aux[j])
  }

  /** Every listed bus leaves at its offset after `t`. */
  ghost predicate ScheduleMet(t: int, aux: seq<int>)
  {
    forall i :: 0 <= i < |aux| && aux[i] != -1 ==> Divides(aux[i], t + i)
  }

  lemma OffsetsSatisfied(aux: seq<int>, t: int)
    requires WellFormedSchedule(aux)
    ensures Satisfies(t, Offsets(aux)) <==> ScheduleMet(t, aux)
  {
    OffsetsAtPositions(aux);
    var o, p := Offsets(aux), Positions(aux);
    forall k | 0 <= k < |o|
      ensures Congruent(t, o[k].a, o[k].n) <==> Divides(aux[p[k]], t + p[k])
    {
      OffsetCorrect(aux[p[k]], p[k]);
      var bus, i := aux[p[k]], p[k];
      var off := Offset(bus, i);
      var w :| off + i == bus * w;
      if Congruent(t, off, bus) {
        var v :| t - off == bus * v;
        assert t + i == bus * (v + w);
      }
      if Divides(bus, t + i) {
        var v :| t + i == bus * v;
        assert t - off == bus * (v - w);
      }
    }
    if Satisfies(t, o) {
      forall i | 0 <= i < |aux| && aux[i] != -1
        ensures Divides(aux[i], t + i)
      {
        var k :| 0 <= k < |p| && p[k] == i;
      }
    }
  }

  /** The congruences of a schedule with pairwise coprime ids have positive,
      pairwise coprime moduli and reduced residues. */
  lemma OffsetsShape(aux: seq<int>)
    requires CoprimeSchedule(aux)
    ensures AllReduced(Offsets(aux)) && PairwiseCoprime(Offsets(aux))
  {
    OffsetsAtPositions(aux);
    var o, p := Offsets(aux), Positions(aux);
    forall k | 0 <= k < |o|
      ensures 0 <= o[k].a < o[k].n
    {
      OffsetCorrect(aux[p[k]], p[k]);
    }
    forall k, l | 0 <= k < l < |o|
      ensures Coprime(o[k].n, o[l].n)
    {
      assert p[k] < p[l];
    }
  }

  /** A residue in `[0, n)` is the least non-negative member of its class. */
  lemma LeastInClass(t: int, a: int, n: int)
    requires 0 <= a < n && t >= 0
    requires Congruent(t, a, n)
    ensures a <= t
  {
    var j :| t - a == n * j;
  }

  /** The answer to part two is the earliest non-negative timestamp at which
      every listed bus leaves at its offset. */
  lemma EarliestTimestamp(aux: seq<int>)
    requires CoprimeSchedule(aux)
    requires Offsets(aux) != []
    ensures var k := Reduce(Offsets(aux))[0].a;
      k >= 0 && ScheduleMet(k, aux) &&
      forall t :: t >= 0 && ScheduleMet(t, aux) ==> k <= t
  {
    var o := Offsets(aux);
    OffsetsShape(aux);
    ReduceSolves(o);
    var c := Reduce(o)[0];
    OffsetsSatisfied(aux, c.a);
    forall t | t >= 0 && ScheduleMet(t, aux)
      ensures c.a <= t
    {
      OffsetsSatisfied(aux, t);
      LeastInClass(t, c.a, c.n);
    }
  }

  /** The schedule `17,x,13,19`: the earliest timestamp is 3417. */
  lemma ExamplePartTwo(aux: seq<int>)
    requires aux == [17, -1, 13, 19]
    ensures Reduce(Offsets(aux))[0].a == 3417
  {
    ExampleSchedule(aux);
    var o := Offsets(aux);
    OffsetsShape(aux);
    ReduceSolves(o);
    OffsetsSatisfied(aux, 3417);
    var c := Reduce(o)[0];
    assert Congruent(3417, c.a, c.n);
    LeastInClass(3417, c.a, c.n);
    var j :| 3417 - c.a == 4199 * j;
  }

  /** The ids of `17,x,13,19` are pairwise coprime, 3417 meets the
      schedule, and the product of the moduli is 4199. */
  lemma ExampleSchedule(aux: seq<int>)
    requires aux == [17, -1, 13, 19]
    ensures CoprimeSchedule(aux) && ScheduleMet(3417, aux) && ModProduct(Offsets(aux)) == 4199
  {
    ExampleModProduct(aux);
    assert CoprimeSchedule(aux) by {
      BezoutOneIsCoprime(17, 13, -3, 4);
      BezoutOneIsCoprime(17, 19, -10, 9);
      BezoutOneIsCoprime(13, 19, 3, -2);
    }
    assert ScheduleMet(3417, aux) by {
      assert 3417 + 0 == 17 * 201;
      assert 3417 + 2 == 13 * 263;
      assert 3417 + 3 == 19 * 180;
    }
  }

  /** The moduli of `17,x,13,19` multiply to 4199. */
  lemma ExampleModProduct(aux: seq<int>)
    requires aux == [17, -1, 13, 19]
    ensures ModProduct(Offsets(aux)) == 4199
  {
    var a1, a2, a3 := aux[..1], aux[..2], aux[..3];
    assert a3[..2] == a2 && a2[..1] == a1 && a1[..0] == [];
    assert ModProduct(Offsets(a1)) == 17 by {
      assert Offsets(a1) == [Congruence(Offset(17, 0), 17)];
    }
    assert ModProduct(Offsets(a3)) == 17 * 13 by {
      assert Offsets(a2) == Offsets(a1);
      ModProductAppend(Offsets(a2), Congruence(Offset(13, 2), 13));
    }
    assert aux[..3] == a3;
    ModProductAppend(Offsets(a3), Congruence(Offset(19, 3), 19));
  }

  /** Appending a congruence multiplies the product of the moduli by its
      modulus. */
  lemma {:induction false} ModProductAppend(l: seq<Congruence>, c: Congruence)
    ensures ModProduct(l + [c]) == ModProduct(l) * c.n
  {
    if l != [] {
      assert (l + [c])[1..] == l[1..] + [c];
      ModProductAppend(l[1..], c);
    }
  }

  /** The product of the listed bus ids. */
  function IdProduct(aux: seq<int>): int
  {
    if aux == [] then 1
    else
      var i := |aux| - 1;
      IdProduct(aux[..i]) * (if aux[i] != -1 then aux[i] else 1)
  }

  /** The moduli of the congruences are the listed ids. */
  lemma {:induction false} ModProductOffsets(aux: seq<int>)
    requires WellFormedSchedule(aux)
    ensures ModProduct(Offsets(aux)) == IdProduct(aux)
  {
    if aux != [] {
      var i := |aux| - 1;
      var front := aux[..i];
      var last := if aux[i] != -1 then aux[i] else 1;
      ModProductSnoc(aux);
      ModProductOffsets(front);
      assert IdProduct(aux) == IdProduct(front) * last;
    }
  }

  /** The last entry of a schedule multiplies the product of the moduli by
      its id, or by 1 for an `x`. */
  lemma ModProductSnoc(aux: seq<int>)
    requires WellFormedSchedule(aux) && aux != []
    ensures WellFormedSchedule(aux[..|aux| - 1])
    ensures ModProduct(Offsets(aux)) ==
      ModProduct(Offsets(aux[..|aux| - 1])) * (if aux[|aux| - 1] != -1 then aux[|aux| - 1] else 1)
  {
    var i := |aux| - 1;
    var front := aux[..i];
    assert WellFormedSchedule(front) by {
      forall k | 0 <= k < |front|
        ensures front[k] == -1 || front[k] > 0
      {
        assert front[k] == aux[k];
      }
    }
    if aux[i] != -1 {
      var c := Congruence(Offset(aux[i], i), aux[i]);
      assert Offsets(aux) == Offsets(front) + [c];
      ModProductAppend(Offsets(front), c);
    } else {
      assert Offsets(aux) == Offsets(front) + [];
      assert Offsets(front) + [] == Offsets(front);
    }
  }

  /** Extending a prefix of a schedule by one entry multiplies the product
      of the ids by that entry's id, or by 1 for an `x`. */
  lemma IdProductStep(aux: seq<int>, i: nat)
    requires 0 < i <= |aux|
    ensures IdProduct(aux[..i]) == IdProduct(aux[..i - 1]) * (if aux[i - 1] != -1 then aux[i - 1] else 1)
  {
    assert aux[..i][..i - 1] == aux[..i - 1];
  }

  /** A timestamp below the product of the ids at which every listed bus
      leaves at its offset is the one the reduction finds. */
  lemma ScheduleAnswer(aux: seq<int>, t: int)
    requires CoprimeSchedule(aux) && ScheduleMet(t, aux)
    requires 0 <= t < IdProduct(aux) && IdProduct(aux) > 1
    ensures Offsets(aux) != [] && Reduce(Offsets(aux))[0].a == t
  {
    var o := Offsets(aux);
    ModProductOffsets(aux);
    assert o != [];
    OffsetsShape(aux);
    ReduceSolves(o);
    OffsetsSatisfied(aux, t);
    var c := Reduce(o)[0];
    assert Congruent(t, c.a, c.n);
    var j :| t - c.a == c.n * j;
    SmallMultiple(t - c.a, c.n, j);
  }

  /** The only multiple of `n` strictly between `-n` and `n` is 0. */
  lemma SmallMultiple(d: int, n: int, j: int)
    requires n > 0 && d == n * j && -n < d < n
    ensures d == 0
  {
    MultipleBound(n, j);
  }

  /** A non-zero multiple of `n` is at least `n` away from 0. */
  lemma MultipleBound(n: int, j: int)
    requires n > 0
    ensures j == 0 || n * j >= n || n * j <= -n
  {
    if j > 0 {
      assert n * j >= n * 1;
    } else if j < 0 {
      assert n * j <= n * -1;
    }
  }

  /** The schedule `7,13,x,x,59,x,31,19`: the earliest timestamp is
      1068781. */
  lemma ExampleLongSchedule(aux: seq<int>)
    requires aux == [7, 13, -1, -1, 59, -1, 31, 19]
    ensures Reduce(Offsets(aux))[0].a == 1068781
  {
    assert CoprimeSchedule(aux) by {
      BezoutOneIsCoprime(7, 13, 2, -1);
      BezoutOneIsCoprime(7, 59, 17, -2);
      BezoutOneIsCoprime(7, 31, 9, -2);
      BezoutOneIsCoprime(7, 19, -8, 3);
      BezoutOneIsCoprime(13, 59, -9, 2);
      BezoutOneIsCoprime(13, 31, 12, -5);
      BezoutOneIsCoprime(13, 19, 3, -2);
      BezoutOneIsCoprime(59, 31, 10, -19);
      BezoutOneIsCoprime(59, 19, -9, 28);
      BezoutOneIsCoprime(31, 19, 8, -13);
    }
    assert ScheduleMet(1068781, aux) by {
      assert 1068781 + 0 == 7 * 152683;
      assert 1068781 + 1 == 13 * 82214;
      assert 1068781 + 4 == 59 * 18115;
      assert 1068781 + 6 == 31 * 34477;
      assert 1068781 + 7 == 19 * 56252;
    }
    ExampleLongProduct(aux);
    ScheduleAnswer(aux, 1068781);
  }

  lemma ExampleLongProduct(aux: seq<int>)
    requires aux == [7, 13, -1, -1, 59, -1, 31, 19]
    ensures IdProduct(aux) == 3162341
  {
    assert aux[..0] == [] && aux[..8] == aux;
    IdProductStep(aux, 1);
    IdProductStep(aux, 2);
    IdProductStep(aux, 3);
    IdProductStep(aux, 4);
    IdProductStep(aux, 5);
    IdProductStep(aux, 6);
    IdProductStep(aux, 7);
    IdProductStep(aux, 8);
  }

  /** The ids 67, 7, 59 and 61 are pairwise coprime. */
  lemma FourIdsCoprime()
    ensures Coprime(67, 7) && Coprime(67, 59) && Coprime(67, 61)
    ensures Coprime(7, 59) && Coprime(7, 61) && Coprime(59, 61)
  {
    BezoutOneIsCoprime(67, 7, 2, -19);
    BezoutOneIsCoprime(67, 59, -22, 25);
    BezoutOneIsCoprime(67, 61, -10, 11);
    BezoutOneIsCoprime(7, 59, 17, -2);
    BezoutOneIsCoprime(7, 61, -26, 3);
    BezoutOneIsCoprime(59, 61, 30, -29);
  }

  /** The ids 1789, 37, 47 and 1889 are pairwise coprime. */
  lemma LargeIdsCoprime()
    ensures Coprime(1789, 37) && Coprime(1789, 47) && Coprime(1789, 1889)
    ensures Coprime(37, 47) && Coprime(37, 1889) && Coprime(47, 1889)
  {
    BezoutOneIsCoprime(1789, 37, -17, 822);
    BezoutOneIsCoprime(1789, 47, 16, -609);
    BezoutOneIsCoprime(1789, 1889, 170, -161);
    BezoutOneIsCoprime(37, 47, 14, -11);
    BezoutOneIsCoprime(37, 1889, 919, -18);
    BezoutOneIsCoprime(47, 1889, -844, 21);
  }

  lemma ExampleFourProduct(aux: seq<int>)
    requires aux == [67, 7, 59, 61]
    ensures IdProduct(aux) == 1687931
  {
    assert aux[..0] == [] && aux[..4] == aux;
    IdProductStep(aux, 1);
    IdProductStep(aux, 2);
    IdProductStep(aux, 3);
    IdProductStep(aux, 4);
  }

  lemma ExampleGapSecondProduct(aux: seq<int>)
    requires aux == [67, -1, 7, 59, 61]
    ensures IdProduct(aux) == 1687931
  {
    assert aux[..0] == [] && aux[..5] == aux;
    IdProductStep(aux, 1);
    IdProductStep(aux, 2);
    IdProductStep(aux, 3);
    IdProductStep(aux, 4);
    IdProductStep(aux, 5);
  }

  lemma ExampleGapThirdProduct(aux: seq<int>)
    requires aux == [67, 7, -1, 59, 61]
    ensures IdProduct(aux) == 1687931
  {
    assert aux[..0] == [] && aux[..5] == aux;
    IdProductStep(aux, 1);
    IdProductStep(aux, 2);
    IdProductStep(aux, 3);
    IdProductStep(aux, 4);
    IdProductStep(aux, 5);
  }

  lemma ExampleLargeProduct(aux: seq<int>)
    requires aux == [1789, 37, 47, 1889]
    ensures IdProduct(aux) == 5876813119
  {
    assert aux[..0] == [] && aux[..4] == aux;
    IdProductStep(aux, 1);
    IdProductStep(aux, 2);
    IdProductStep(aux, 3);
    IdProductStep(aux, 4);
  }

  /** The schedule `67,7,59,61` is first met at 754018. */
  lemma ExampleFourBuses(aux: seq<int>)
    requires aux == [67, 7, 59, 61]
    ensures Reduce(Offsets(aux))[0].a == 754018
  {
    assert CoprimeSchedule(aux) by {
      FourIdsCoprime();
    }
    assert ScheduleMet(754018, aux) by {
      assert 754018 + 0 == 67 * 11254;
      assert 754018 + 1 == 7 * 107717;
      assert 754018 + 2 == 59 * 12780;
      assert 754018 + 3 == 61 * 12361;
    }
    ExampleFourProduct(aux);
    ScheduleAnswer(aux, 754018);
  }

  /** The schedule `67,x,7,59,61` is first met at 779210. */
  lemma ExampleGapSecond(aux: seq<int>)
    requires aux == [67, -1, 7, 59, 61]
    ensures Reduce(Offsets(aux))[0].a == 779210
  {
    assert CoprimeSchedule(aux) by {
      FourIdsCoprime();
    }
    assert ScheduleMet(779210, aux) by {
      assert 779210 + 0 == 67 * 11630;
      assert 779210 + 2 == 7 * 111316;
      assert 779210 + 3 == 59 * 13207;
      assert 779210 + 4 == 61 * 12774;
    }
    ExampleGapSecondProduct(aux);
    ScheduleAnswer(aux, 779210);
  }

  /** The schedule `67,7,x,59,61` is first met at 1261476. */
  lemma ExampleGapThird(aux: seq<int>)
    requires aux == [67, 7, -1, 59, 61]
    ensures Reduce(Offsets(aux))[0].a == 1261476
  {
    assert CoprimeSchedule(aux) by {
      FourIdsCoprime();
    }
    assert ScheduleMet(1261476, aux) by {
      assert 1261476 + 0 == 67 * 18828;
      assert 1261476 + 1 == 7 * 180211;
      assert 1261476 + 3 == 59 * 21381;
      assert 1261476 + 4 == 61 * 20680;
    }
    ExampleGapThirdProduct(aux);
    ScheduleAnswer(aux, 1261476);
  }

  /** The schedule `1789,37,47,1889` is first met at 1202161486. */
  lemma ExampleLargeIds(aux: seq<int>)
    requires aux == [1789, 37, 47, 1889]
    ensures Reduce(Offsets(aux))[0].a == 1202161486
  {
    assert CoprimeSchedule(aux) by {
      LargeIdsCoprime();
    }
    assert ScheduleMet(1202161486, aux) by {
      assert 1202161486 + 0 == 1789 * 671974;
      assert 1202161486 + 1 == 37 * 32490851;
      assert 1202161486 + 2 == 47 * 25577904;
      assert 1202161486 + 3 == 1889 * 636401;
    }
    ExampleLargeProduct(aux);
    ScheduleAnswer(aux, 1202161486);
  }

  /** Part two of `main`: offsets, then the reduction. */
  method EarliestAlignedTimestamp(aux: seq<int>) returns (k: Outcome<int>)
    requires WellFormedSchedule(aux)
    ensures Offsets(aux) == [] ==> k == Panic
    ensures Offsets(aux) != [] ==> k == Done(Reduce(Offsets(aux))[0].a)
  {
    var newBuses := NormaliseOffsets(aux);
    OffsetsAtPositions(aux);
    k := ReduceCongruences(newBuses);
  }
}
