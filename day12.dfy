/** Rain risk (day12/src/main.rs): a ferry follows navigation instructions,
    once steering itself (`Ship`) and once steering a waypoint (`ShipNew`).
    Both interpretations run side by side on the same instructions. */
module RainRisk {
  import opened RustInt
  import opened Outcomes

  // ===== plane geometry =====

  /** A quarter turn counter-clockwise: `(x, y)` becomes `(-y, x)`. */
  function Left(v: (int, int)): (int, int)
  {
    (-v.1, v.0)
  }

  /** `k` quarter turns counter-clockwise: the reference for every rotation
      below. */
  function Quarter(v: (int, int), k: nat): (int, int)
  {
    if k == 0 then v else Left(Quarter(v, k - 1))
  }

  function Manhattan(v: (int, int)): nat
  {
    Abs(v.0) + Abs(v.1)
  }

  /** A rotation keeps the Manhattan length, and four quarter turns are the
      identity. */
  lemma {:induction false} QuarterProperties(v: (int, int), k: nat)
    ensures Manhattan(Quarter(v, k)) == Manhattan(v)
    ensures Quarter(v, k + 4) == Quarter(v, k)
  {
    if k == 0 {
      assert Quarter(v, 1) == Left(v);
      assert Quarter(v, 2) == Left(Left(v));
      assert Quarter(v, 3) == Left(Left(Left(v)));
      assert Quarter(v, 4) == Left(Left(Left(Left(v))));
    } else {
      QuarterProperties(v, k - 1);
    }
  }

  // ===== the waypoint's turns =====

  /** The waypoint under `L amount`; any amount other than 90, 180 or 270
      panics. */
  function TurnLeft(w: (int, int), amount: int): Outcome<(int, int)>
  {
    var (x, y) := w;
    if amount == 90 then Done((-y, x))
    else if amount == 180 then Done((-x, -y))
    else if amount == 270 then Done((y, -x))
    else Panic
  }

  /** The waypoint under `R amount`. */
  function TurnRight(w: (int, int), amount: int): Outcome<(int, int)>
  {
    var (x, y) := w;
    if amount == 90 then Done((y, -x))
    else if amount == 180 then Done((-x, -y))
    else if amount == 270 then Done((-y, x))
    else Panic
  }

  predicate IsTurn(amount: int)
  {
    amount == 90 || amount == 180 || amount == 270
  }

  /** `L a` turns the waypoint `a/90` quarter turns counter-clockwise and
      `R a` turns it `4 - a/90` (that is, `a/90` clockwise); every other
      amount panics. */
  lemma TurnsAreRotations(w: (int, int), amount: int)
    ensures IsTurn(amount) ==> TurnLeft(w, amount) == Done(Quarter(w, amount / 90))
    ensures IsTurn(amount) ==> TurnRight(w, amount) == Done(Quarter(w, 4 - amount / 90))
    ensures !IsTurn(amount) ==> TurnLeft(w, amount) == Panic && TurnRight(w, amount) == Panic
  {
    assert Quarter(w, 1) == Left(w);
    assert Quarter(w, 2) == Left(Left(w));
    assert Quarter(w, 3) == Left(Left(Left(w)));
  }

  /** Turning right undoes turning left by the same amount, and both keep the
      Manhattan length of the waypoint. */
  lemma TurnsCancel(w: (int, int), amount: int)
    requires IsTurn(amount)
    ensures TurnRight(TurnLeft(w, amount).value, amount) == Done(w)
    ensures Manhattan(TurnLeft(w, amount).value) == Manhattan(w)
    ensures Manhattan(TurnRight(w, amount).value) == Manhattan(w)
  {
    TurnsAreRotations(w, amount);
    QuarterProperties(w, amount / 90);
    QuarterProperties(w, 4 - amount / 90);
  }

  // ===== the ship's heading =====

  /** The unit step of `F` for heading `dir`, chosen from `dir % 360` (a
      truncating remainder, so negative headings give negative faces). */
  function Face(dir: int): (r: Outcome<(int, int)>)
  {
    var face := TruncRem(dir, 360);
    if face == 0 || face == -360 then Done((1, 0))
    else if face == 90 || face == -270 then Done((0, 1))
    else if face == 180 || face == -180 then Done((-1, 0))
    else if face == 270 || face == -90 then Done((0, -1))
    else Panic
  }

  /** `dir % 360` never equals -360, so the `-360` pattern of the east arm
      is never taken. */
  lemma EastArmUnreachable(dir: int)
    ensures TruncRem(dir, 360) != -360
  {
  }

  /** For a heading that is a multiple of 90 degrees, `F` steps along East
      turned `dir/90` quarter turns counter-clockwise (negative headings
      included); other headings panic. */
  lemma FaceIsHeading(dir: int)
    ensures dir % 90 == 0 ==> Face(dir) == Done(Quarter((1, 0), (dir / 90) % 4))
    ensures dir % 90 != 0 ==> Face(dir) == Panic
  {
    RemInQuarters(dir);
    var e := (1, 0);
    assert Quarter(e, 1) == (0, 1);
    assert Quarter(e, 2) == (-1, 0);
    assert Quarter(e, 3) == (0, -1);
  }

  /** `dir % 360` (truncating) leaves the same remainder modulo 90 as
      `dir`, and for a multiple of 90 it is the heading's quarter, possibly
      minus a full turn. */
  lemma RemInQuarters(dir: int)
    ensures TruncRem(dir, 360) % 90 == dir % 90
    ensures dir % 90 == 0 ==>
      TruncRem(dir, 360) == 90 * ((dir / 90) % 4) || TruncRem(dir, 360) == 90 * ((dir / 90) % 4) - 360
  {
    var q := TruncDiv(dir, 360);
    var f := TruncRem(dir, 360);
    assert f == dir + 90 * (-4 * q);
    ShiftByQuarters(dir, -4 * q);
    if dir % 90 == 0 {
      var m := dir / 90;
      assert f == 90 * (m - 4 * q);
      assert (m - 4 * q) % 4 == m % 4;
      assert -4 < m - 4 * q < 4;
    }
  }

  lemma ShiftByQuarters(a: int, k: int)
    ensures (a + 90 * k) % 90 == a % 90
  {
    var d, r := a / 90, a % 90;
    assert a + 90 * k == 90 * (d + k) + r;
  }

  // ===== one instruction =====

  /** The self-steering ferry. */
  datatype ShipState = ShipState(x: int, y: int, dir: int)

  /** The waypoint-steering ferry: waypoint offset and position. */
  datatype WaypointState = WaypointState(wx: int, wy: int, x: int, y: int)

  /** `decode` on both ferries: the action letter and its amount. */
  function Step(action: char, amount: int, s: ShipState, w: WaypointState): Outcome<(ShipState, WaypointState)>
  {
    match action
    case 'F' =>
      (match Face(s.dir)
       case Panic => Panic
       case Done(u) =>
         Done((ShipState(s.x + amount * u.0, s.y + amount * u.1, s.dir),
               WaypointState(w.wx, w.wy, w.x + amount * w.wx, w.y + amount * w.wy))))
    case 'N' => Done((s.(y := s.y + amount), w.(wy := w.wy + amount)))
    case 'S' => Done((s.(y := s.y - amount), w.(wy := w.wy - amount)))
    case 'E' => Done((s.(x := s.x + amount), w.(wx := w.wx + amount)))
    case 'W' => Done((s.(x := s.x - amount), w.(wx := w.wx - amount)))
    case 'L' =>
      (match TurnLeft((w.wx, w.wy), amount)
       case Panic => Panic
       case Done(v) => Done((s.(dir := s.dir + amount), w.(wx := v.0, wy := v.1))))
    case 'R' =>
      (match TurnRight((w.wx, w.wy), amount)
       case Panic => Panic
       case Done(v) => Done((s.(dir := s.dir - amount), w.(wx := v.0, wy := v.1))))
    case _ => Panic
  }

  /** A heading that is a multiple of 90 degrees stays one, so `F` never
      panics: an instruction panics exactly when its letter is unknown or it
      turns by something other than 90, 180 or 270. */
  lemma StepKeepsHeading(action: char, amount: int, s: ShipState, w: WaypointState)
    requires s.dir % 90 == 0
    ensures Step(action, amount, s, w).Done? ==> Step(action, amount, s, w).value.0.dir % 90 == 0
    ensures Step(action, amount, s, w) == Panic <==>
      action !in "FNSEWLR" || ((action == 'L' || action == 'R') && !IsTurn(amount))
  {
    TurnsAreRotations((w.wx, w.wy), amount);
    match action
    case 'F' => FaceIsHeading(s.dir);
    case 'L' => TurnHeading(s.dir, amount);
    case 'R' => TurnHeading(s.dir, amount);
    case _ =>
  }

  lemma TurnHeading(dir: int, amount: int)
    requires dir % 90 == 0
    ensures IsTurn(amount) ==> (dir + amount) % 90 == 0 && (dir - amount) % 90 == 0
  {
  }

  /** `F` moves the self-steering ferry `amount` units along its heading
      and the other ferry `amount` times its waypoint offset. */
  lemma ForwardMoves(amount: int, s: ShipState, w: WaypointState)
    requires s.dir % 90 == 0
    ensures var u := Quarter((1, 0), (s.dir / 90) % 4);
      Step('F', amount, s, w) ==
        Done((ShipState(s.x + amount * u.0, s.y + amount * u.1, s.dir),
              WaypointState(w.wx, w.wy, w.x + amount * w.wx, w.y + amount * w.wy)))
  {
    FaceIsHeading(s.dir);
  }

  // ===== the ferries as objects =====

  class Ship {
    var x: int
    var y: int
    var dir: int

    /** The ferry starts at the origin facing east. */
    constructor ()
      ensures x == 0 && y == 0 && dir == 0
    {
      x, y, dir := 0, 0, 0;
    }

    function State(): ShipState
      reads this
    {
      ShipState(x, y, dir)
    }
  }

  class ShipNew {
    var wx: int
    var wy: int
    var x: int
    var y: int

    /** The waypoint starts 10 east, 1 north of the ferry at the origin. */
    constructor ()
      ensures wx == 10 && wy == 1 && x == 0 && y == 0
    {
      wx, wy, x, y := 10, 1, 0, 0;
    }

    function State(): WaypointState
      reads this
    {
      WaypointState(wx, wy, x, y)
    }
  }

  /** `decode`: apply one instruction to both ferries in place. `ok ==
      false` is a panic, after which the program has stopped and the fields
      are of no further interest. */
  method Decode(action: char, amount: int, ship: Ship, shipNew: ShipNew) returns (ok: bool)
    modifies ship, shipNew
    ensures ok <==> Step(action, amount, old(ship.State()), old(shipNew.State())).Done?
    ensures ok ==> (ship.State(), shipNew.State()) == Step(action, amount, old(ship.State()), old(shipNew.State())).value
  {
    ok := true;
    match action {
      case 'F' =>
        var face := TruncRem(ship.dir, 360);
        if face == 0 || face == -360 {
          ship.x := ship.x + amount;
        } else if face == 90 || face == -270 {
          ship.y := ship.y + amount;
        } else if face == 180 || face == -180 {
          ship.x := ship.x - amount;
        } else if face == 270 || face == -90 {
          ship.y := ship.y - amount;
        } else {
          return false;
        }
        shipNew.x := shipNew.x + amount * shipNew.wx;
        shipNew.y := shipNew.y + amount * shipNew.wy;
      case 'N' =>
        ship.y := ship.y + amount;
        shipNew.wy := shipNew.wy + amount;
      case 'S' =>
        ship.y := ship.y - amount;
        shipNew.wy := shipNew.wy - amount;
      case 'E' =>
        ship.x := ship.x + amount;
        shipNew.wx := shipNew.wx + amount;
      case 'W' =>
        ship.x := ship.x - amount;
        shipNew.wx := shipNew.wx - amount;
      case 'L' =>
        ship.dir := ship.dir + amount;
        var x, y := shipNew.wx, shipNew.wy;
        if amount == 90 {
          shipNew.wx, shipNew.wy := -y, x;
        } else if amount == 180 {
          shipNew.wx, shipNew.wy := -x, -y;
        } else if amount == 270 {
          shipNew.wx, shipNew.wy := y, -x;
        } else {
          return false;
        }
      case 'R' =>
        ship.dir := ship.dir - amount;
        var x, y := shipNew.wx, shipNew.wy;
        if amount == 90 {
          shipNew.wx, shipNew.wy := y, -x;
        } else if amount == 180 {
          shipNew.wx, shipNew.wy := -x, -y;
        } else if amount == 270 {
          shipNew.wx, shipNew.wy := -y, x;
        } else {
          return false;
        }
      case _ =>
        return false;
    }
  }

  // ===== a whole route =====

  /** The ferries after following `route` from the starting states. */
  function Journey(route: seq<(char, int)>): Outcome<(ShipState, WaypointState)>
  {
    if route == [] then Done((ShipState(0, 0, 0), WaypointState(10, 1, 0, 0)))
    else
      match Journey(route[..|route| - 1])
      case Panic => Panic
      case Done(p) => Step(route[|route| - 1].0, route[|route| - 1].1, p.0, p.1)
  }

  /** Along any route that has not panicked the heading stays a multiple of
      90 degrees. */
  lemma {:induction false} JourneyKeepsHeading(route: seq<(char, int)>)
    ensures Journey(route).Done? ==> Journey(route).value.0.dir % 90 == 0
  {
    if route != [] {
      JourneyKeepsHeading(route[..|route| - 1]);
      var init := Journey(route[..|route| - 1]);
      if init.Done? {
        StepKeepsHeading(route[|route| - 1].0, route[|route| - 1].1, init.value.0, init.value.1);
      }
    }
  }

  /** `main`: run every instruction on the two ferries and report their
      Manhattan distances from the origin. */
  method Navigate(route: seq<(char, int)>) returns (r: Outcome<(int, int)>)
    ensures Journey(route).Panic? ==> r == Panic
    ensures Journey(route).Done? ==>
      r == Done((Manhattan((Journey(route).value.0.x, Journey(route).value.0.y)),
                 Manhattan((Journey(route).value.1.x, Journey(route).value.1.y))))
  {
    var s := new Ship();
    var sn := new ShipNew();
    for i := 0 to |route|
      invariant Journey(route[..i]) == Done((s.State(), sn.State()))
    {
      assert route[..i + 1][..i] == route[..i];
      var ok := Decode(route[i].0, route[i].1, s, sn);
      if !ok {
        assert Journey(route[..i + 1]) == Panic;
        JourneyPanicSticks(route, i + 1);
        return Panic;
      }
    }
    assert route[..|route|] == route;
    r := Done((Abs(s.x) + Abs(s.y), Abs(sn.x) + Abs(sn.y)));
  }

  lemma {:induction false} JourneyPanicSticks(route: seq<(char, int)>, i: nat)
    requires i <= |route| && Journey(route[..i]) == Panic
    ensures Journey(route) == Panic
    decreases |route| - i
  {
    if i < |route| {
      assert route[..i + 1][..i] == route[..i];
      JourneyPanicSticks(route, i + 1);
    } else {
      assert route[..i] == route;
    }
  }

  /** The route of the puzzle statement ends 25 and 286 from the origin. */
  lemma ExampleRoute()
    ensures Journey([('F', 10), ('N', 3), ('F', 7), ('R', 90), ('F', 11)]) ==
      Done((ShipState(17, -8, -90), WaypointState(4, -10, 214, -72)))
    ensures Manhattan((17, -8)) == 25 && Manhattan((214, -72)) == 286
  {
    var route: seq<(char, int)> := [('F', 10), ('N', 3), ('F', 7), ('R', 90), ('F', 11)];
    assert route[..4] == [('F', 10), ('N', 3), ('F', 7), ('R', 90)];
    assert route[..4][..3] == [('F', 10), ('N', 3), ('F', 7)];
    assert route[..4][..3][..2] == [('F', 10), ('N', 3)];
    assert route[..4][..3][..2][..1] == [('F', 10)];
    assert |route[..4][..3][..2][..1][..0]| == 0;
    assert TruncRem(0, 360) == 0 && TruncRem(-90, 360) == -90;
    assert Journey([('F', 10)]) == Done((ShipState(10, 0, 0), WaypointState(10, 1, 100, 10)));
    assert Journey([('F', 10), ('N', 3)]) == Done((ShipState(10, 3, 0), WaypointState(10, 4, 100, 10)));
    assert Journey([('F', 10), ('N', 3), ('F', 7)]) == Done((ShipState(17, 3, 0), WaypointState(10, 4, 170, 38)));
    assert Journey([('F', 10), ('N', 3), ('F', 7), ('R', 90)]) == Done((ShipState(17, 3, -90), WaypointState(4, -10, 170, 38)));
  }
}
