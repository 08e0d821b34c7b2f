/** Conway cubes (day17/src/main.rs): a three-dimensional cellular automaton
    over a set of active points, kept inside a bounding box that grows as
    cubes come alive. */
module ConwayCubes {

  datatype Point = Point(x: int, y: int, z: int)

  // ===== neighbour count =====

  /** 1 when `q` is an active point other than `p`. */
  function Hit(p: Point, active: set<Point>, q: Point): nat
  {
    if q != p && q in active then 1 else 0
  }

  /** The bounds `x`, `y`, `z` of the cubes from `p - 1` to `p + 1`, with
      the exclusive end `p + 2` allowed for a loop that has finished. */
  predicate Around(p: Point, x: int, y: int, z: int)
  {
    p.x - 1 <= x <= p.x + 2 && p.y - 1 <= y <= p.y + 2 && p.z - 1 <= z <= p.z + 2
  }

  /** The hits among the cubes around `p` from `(x, y, z)` onwards, in the
      order of the three nested loops (`x` outermost, each from one below
      to one above `p`); a coordinate that has run past carries over to the
      next row or plane. */
  function CountFrom(p: Point, active: set<Point>, x: int, y: int, z: int): nat
    requires Around(p, x, y, z)
    decreases p.x + 2 - x, p.y + 2 - y, p.z + 2 - z
  {
    if x == p.x + 2 then 0
    else if y == p.y + 2 then CountFrom(p, active, x + 1, p.y - 1, p.z - 1)
    else if z == p.z + 2 then CountFrom(p, active, x, y + 1, p.z - 1)
    else Hit(p, active, Point(x, y, z)) + CountFrom(p, active, x, y, z + 1)
  }

  /** The number of active points among the 26 around `p`. */
  function NeighbourCount(p: Point, active: set<Point>): nat
  {
    CountFrom(p, active, p.x - 1, p.y - 1, p.z - 1)
  }

  /** `len_reachable_active`: three nested loops over the offsets. */
  method LenReachableActive(p: Point, active: set<Point>) returns (len: nat)
    ensures len == NeighbourCount(p, active)
  {
    len := 0;
    for i := -1 to 2
      invariant len + CountFrom(p, active, p.x + i, p.y - 1, p.z - 1) == NeighbourCount(p, active)
    {
      for j := -1 to 2
        invariant len + CountFrom(p, active, p.x + i, p.y + j, p.z - 1) == NeighbourCount(p, active)
      {
        for k := -1 to 2
          invariant len + CountFrom(p, active, p.x + i, p.y + j, p.z + k) == NeighbourCount(p, active)
        {
          var point := Point(p.x + i, p.y + j, p.z + k);
          if point != p && point in active {
            len := len + 1;
          }
        }
      }
    }
  }

  /** The position of `(x, y, z)` in the visiting order around `p`; `p`
      itself is at position 13 of 27. */
  function Position(p: Point, x: int, y: int, z: int): int
  {
    9 * (x - p.x + 1) + 3 * (y - p.y + 1) + (z - p.z + 1)
  }

  /** At most one hit per remaining cube, and none for `p` itself. */
  lemma {:induction false} CountFromBound(p: Point, active: set<Point>, x: int, y: int, z: int)
    requires Around(p, x, y, z)
    requires x == p.x + 2 ==> y == p.y - 1 && z == p.z - 1
    requires y == p.y + 2 ==> z == p.z - 1
    ensures CountFrom(p, active, x, y, z) <= 27 - Position(p, x, y, z) - (if Position(p, x, y, z) <= 13 then 1 else 0)
    decreases p.x + 2 - x, p.y + 2 - y, p.z + 2 - z
  {
    if x == p.x + 2 {
    } else if y == p.y + 2 {
      CountFromBound(p, active, x + 1, p.y - 1, p.z - 1);
    } else if z == p.z + 2 {
      CountFromBound(p, active, x, y + 1, p.z - 1);
    } else {
      CountFromBound(p, active, x, y, z + 1);
    }
  }

  /** The count is at most 26: the centre is never counted. */
  lemma NeighbourBound(p: Point, active: set<Point>)
    ensures NeighbourCount(p, active) <= 26
  {
    CountFromBound(p, active, p.x - 1, p.y - 1, p.z - 1);
  }

  lemma {:induction false} CountFromIgnoresSelf(p: Point, active: set<Point>, x: int, y: int, z: int)
    requires Around(p, x, y, z)
    ensures CountFrom(p, active + {p}, x, y, z) == CountFrom(p, active - {p}, x, y, z)
    decreases p.x + 2 - x, p.y + 2 - y, p.z + 2 - z
  {
    if x == p.x + 2 {
    } else if y == p.y + 2 {
      CountFromIgnoresSelf(p, active, x + 1, p.y - 1, p.z - 1);
    } else if z == p.z + 2 {
      CountFromIgnoresSelf(p, active, x, y + 1, p.z - 1);
    } else {
      CountFromIgnoresSelf(p, active, x, y, z + 1);
    }
  }

  /** Whether `p` itself is active has no effect on its count. */
  lemma CountIgnoresSelf(p: Point, active: set<Point>)
    ensures NeighbourCount(p, active + {p}) == NeighbourCount(p, active - {p})
  {
    CountFromIgnoresSelf(p, active, p.x - 1, p.y - 1, p.z - 1);
  }

  // ===== the bounding box =====

  datatype Bounds = Bounds(minX: int, maxX: int, minY: int, maxY: int, minZ: int, maxZ: int)

  predicate InBox(p: Point, b: Bounds)
  {
    b.minX <= p.x <= b.maxX && b.minY <= p.y <= b.maxY && b.minZ <= p.z <= b.maxZ
  }

  /** The points `iterate` visits: the box widened by one on every side. */
  predicate InScan(p: Point, b: Bounds)
  {
    b.minX - 1 <= p.x < b.maxX + 2 && b.minY - 1 <= p.y < b.maxY + 2 && b.minZ - 1 <= p.z < b.maxZ + 2
  }

  predicate Encloses(b: Bounds, active: set<Point>)
  {
    forall p :: p in active ==> InBox(p, b)
  }

  /** `b` is at least as large as `a` on every side. */
  predicate Grows(a: Bounds, b: Bounds)
  {
    b.minX <= a.minX && a.maxX <= b.maxX && b.minY <= a.minY && a.maxY <= b.maxY && b.minZ <= a.minZ && a.maxZ <= b.maxZ
  }

  lemma {:induction false} FarCountFrom(p: Point, active: set<Point>, b: Bounds, x: int, y: int, z: int)
    requires Encloses(b, active) && !InScan(p, b)
    requires Around(p, x, y, z)
    ensures CountFrom(p, active, x, y, z) == 0
    decreases p.x + 2 - x, p.y + 2 - y, p.z + 2 - z
  {
    if x == p.x + 2 {
    } else if y == p.y + 2 {
      FarCountFrom(p, active, b, x + 1, p.y - 1, p.z - 1);
    } else if z == p.z + 2 {
      FarCountFrom(p, active, b, x, y + 1, p.z - 1);
    } else {
      assert !InBox(Point(x, y, z), b);
      FarCountFrom(p, active, b, x, y, z + 1);
    }
  }

  /** A point outside the widened box has no active neighbour, so scanning
      the box widened by one misses no birth. */
  lemma FarHasNoNeighbours(p: Point, active: set<Point>, b: Bounds)
    requires Encloses(b, active) && !InScan(p, b)
    ensures NeighbourCount(p, active) == 0
  {
    FarCountFrom(p, active, b, p.x - 1, p.y - 1, p.z - 1);
  }

  // ===== the rule =====

  /** An active cube stays active with 2 or 3 active neighbours; an inactive
      cube becomes active with exactly 3. */
  predicate LifeRule(wasActive: bool, count: nat)
  {
    if wasActive then count == 2 || count == 3 else count == 3
  }

  /** Scan order: `z`, then `x`, then `y`; true when `p` comes before the
      scan cursor `(z, x, y)`. */
  predicate Before(p: Point, z: int, x: int, y: int)
  {
    p.z < z || (p.z == z && (p.x < x || (p.x == x && p.y < y)))
  }

  predicate Born(p: Point, active: set<Point>)
  {
    p !in active && NeighbourCount(p, active) == 3
  }

  predicate Dies(p: Point, active: set<Point>)
  {
    p in active && !LifeRule(true, NeighbourCount(p, active))
  }

  function Min(a: int, b: int): int { if a < b then a else b }
  function Max(a: int, b: int): int { if a < b then b else a }

  /** The box after the bound updates for one added point. */
  function Extend(b: Bounds, p: Point): (r: Bounds)
    ensures Grows(b, r) && InBox(p, r)
  {
    Bounds(Min(b.minX, p.x), Max(b.maxX, p.x), Min(b.minY, p.y), Max(b.maxY, p.y), Min(b.minZ, p.z), Max(b.maxZ, p.z))
  }

  lemma ExtendEncloses(b: Bounds, active: set<Point>, p: Point)
    requires Encloses(b, active)
    ensures Encloses(Extend(b, p), active + {p})
  {
    forall q | q in active + {p}
      ensures InBox(q, Extend(b, p))
    {
      if q != p {
        assert InBox(q, b);
      }
    }
  }

  class Conway {
    var active: set<Point>
    var minX: int
    var maxX: int
    var minY: int
    var maxY: int
    var minZ: int
    var maxZ: int

    function Box(): Bounds
      reads this
    {
      Bounds(minX, maxX, minY, maxY, minZ, maxZ)
    }

    /** Every active cube lies inside the bounds. */
    predicate Valid()
      reads this
    {
      Encloses(Box(), active)
    }

    /** The construction in `main`: one cube per `#` of the rows, at
        `(row, column, 0)`, with bounds from the grid's size. The bounds
        enclose the cubes when no row is longer than the first. */
    constructor (input: seq<string>)
      requires |input| > 0
      ensures minX == 0 && maxX == |input| - 1 && minY == 0 && maxY == |input[0]| - 1 && minZ == 0 && maxZ == 0
      ensures forall p :: p in active <==>
        p.z == 0 && 0 <= p.x < |input| && 0 <= p.y < |input[p.x]| && input[p.x][p.y] == '#'
      ensures (forall r :: 0 <= r < |input| ==> |input[r]| <= |input[0]|) ==> Valid()
    {
      minX, maxX := 0, |input| - 1;
      minY, maxY := 0, |input[0]| - 1;
      minZ, maxZ := 0, 0;
      active := {};
      new;
      for i := 0 to |input|
        invariant forall p :: p in active <==>
          p.z == 0 && 0 <= p.x < i && 0 <= p.y < |input[p.x]| && input[p.x][p.y] == '#'
        invariant Box() == Bounds(0, |input| - 1, 0, |input[0]| - 1, 0, 0)
      {
        for j := 0 to |input[i]|
          invariant forall p :: p in active <==>
            p.z == 0 && (0 <= p.x < i || (p.x == i && p.y < j)) && 0 <= p.y < |input[p.x]| && input[p.x][p.y] == '#'
          invariant Box() == Bounds(0, |input| - 1, 0, |input[0]| - 1, 0, 0)
        {
          if input[i][j] == '#' {
            active := active + {Point(i, j, 0)};
          }
        }
      }
    }

    /** The scan of `iterate`: every point of the widened box whose state
        changes, judged on the set before the step. */
    method Scan() returns (toAdd: seq<Point>, toRemove: seq<Point>)
      ensures forall p {:trigger p in toAdd} :: p in toAdd <==> InScan(p, Box()) && Born(p, active)
      ensures forall p {:trigger p in toRemove} :: p in toRemove <==> InScan(p, Box()) && Dies(p, active)
    {
      toAdd, toRemove := [], [];
      var b := Box();
      var z := minZ - 1;
      while z < maxZ + 2
        invariant z == minZ - 1 || z <= maxZ + 2
        invariant forall p {:trigger p in toAdd} :: p in toAdd <==> InScan(p, b) && p.z < z && Born(p, active)
        invariant forall p {:trigger p in toRemove} :: p in toRemove <==> InScan(p, b) && p.z < z && Dies(p, active)
        decreases maxZ + 2 - z
      {
        var x := minX - 1;
        while x < maxX + 2
          invariant x == minX - 1 || x <= maxX + 2
          invariant forall p {:trigger p in toAdd} :: p in toAdd <==> InScan(p, b) && Before(p, z, x, minY - 1) && Born(p, active)
          invariant forall p {:trigger p in toRemove} :: p in toRemove <==> InScan(p, b) && Before(p, z, x, minY - 1) && Dies(p, active)
          decreases maxX + 2 - x
        {
          var y := minY - 1;
          while y < maxY + 2
            invariant y == minY - 1 || y <= maxY + 2
            invariant forall p {:trigger p in toAdd} :: p in toAdd <==> InScan(p, b) && Before(p, z, x, y) && Born(p, active)
            invariant forall p {:trigger p in toRemove} :: p in toRemove <==> InScan(p, b) && Before(p, z, x, y) && Dies(p, active)
            decreases maxY + 2 - y
          {
            var point := Point(x, y, z);
            var c := LenReachableActive(point, active);
            if point in active {
              if c != 2 && c != 3 {
                toRemove := toRemove + [point];
              }
            } else {
              if c == 3 {
                toAdd := toAdd + [point];
              }
            }
            y := y + 1;
          }
          x := x + 1;
        }
        z := z + 1;
      }
    }

    /** The first loop of `iterate`: every point of `ps` is made inactive. */
    method RemoveAll(ps: seq<Point>)
      modifies this
      ensures forall p :: p in active <==> p in old(active) && p !in ps
      ensures Box() == old(Box())
    {
      for i := 0 to |ps|
        invariant forall p :: p in active <==> p in old(active) && p !in ps[..i]
        invariant Box() == old(Box())
      {
        assert ps[..i + 1] == ps[..i] + [ps[i]];
        active := active - {ps[i]};
      }
      assert ps[..|ps|] == ps;
    }

    /** The bound updates of `iterate` for one added point. */
    method Widen(p: Point)
      modifies this
      ensures Box() == Extend(old(Box()), p)
      ensures active == old(active)
    {
      if minX > p.x { minX := p.x; }
      if maxX < p.x { maxX := p.x; }
      if minY > p.y { minY := p.y; }
      if maxY < p.y { maxY := p.y; }
      if minZ > p.z { minZ := p.z; }
      if maxZ < p.z { maxZ := p.z; }
    }

    /** The second loop of `iterate`: every point of `ps` is made active and
        the bounds are widened to take it in. */
    method AddAll(ps: seq<Point>)
      requires Valid()
      modifies this
      ensures forall p :: p in active <==> p in old(active) || p in ps
      ensures Grows(old(Box()), Box()) && Valid()
    {
      for i := 0 to |ps|
        invariant forall p :: p in active <==> p in old(active) || p in ps[..i]
        invariant Grows(old(Box()), Box()) && Valid()
      {
        assert ps[..i + 1] == ps[..i] + [ps[i]];
        var p := ps[i];
        ExtendEncloses(Box(), active, p);
        active := active + {p};
        Widen(p);
      }
      assert ps[..|ps|] == ps;
    }

    /** `iterate`: all changes are found first and applied afterwards, so
        every cube follows the rule on the set before the step; the bounds
        only grow, and still enclose every active cube. */
    method Iterate()
      requires Valid()
      modifies this
      ensures Valid()
      ensures Grows(old(Box()), Box())
      ensures forall p :: p in active <==> LifeRule(p in old(active), NeighbourCount(p, old(active)))
    {
      ghost var a0, b0 := active, Box();
      var toAdd, toRemove := Scan();
      RemoveAll(toRemove);
      AddAll(toAdd);
      forall p
        ensures p in active <==> LifeRule(p in a0, NeighbourCount(p, a0))
      {
        if !InScan(p, b0) {
          FarHasNoNeighbours(p, a0, b0);
        }
      }
    }
  }
}
