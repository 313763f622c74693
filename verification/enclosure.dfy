/**
 * The enclosure search of Util.kt: a depth-first flood fill through air
 * from a player's block, bounded by a cube of half-width `range` around
 * the start, which reports whether the air pocket is sealed and which
 * solid materials line it.
 */
module Enclosure {
  import opened Geometry
  import opened Materials

  /** The half-width of the searched cube in the running plugin. */
  const MaxEncloseRange: nat := 128

  /** An integer block coordinate (Util.kt's private `Coordinate`). */
  datatype Coord = Coord(x: int, y: int, z: int)

  /** Kotlin's `Double.toInt()`, which truncates toward zero. */
  function Truncate(r: real): (n: int)
    ensures 0.0 <= r ==> n as real <= r < n as real + 1.0
    ensures r < 0.0 ==> n as real - 1.0 < r <= n as real
  {
    if r >= 0.0 then r.Floor else -((-r).Floor)
  }

  /** The block coordinate of a continuous position, axis by axis truncated. */
  function CoordOf(p: Point): Coord
  {
    Coord(Truncate(p.x), Truncate(p.y), Truncate(p.z))
  }

  /** The six unit moves, in the order the search tries them. */
  const Directions: seq<Coord> :=
    [Coord(1, 0, 0), Coord(-1, 0, 0), Coord(0, 1, 0), Coord(0, -1, 0), Coord(0, 0, 1), Coord(0, 0, -1)]

  /** The face neighbours of `c`, in the order of `Directions`. */
  function Neighbours(c: Coord): (ns: seq<Coord>)
    ensures |ns| == |Directions|
    ensures forall i :: 0 <= i < |ns| ==>
      ns[i] == Coord(c.x + Directions[i].x, c.y + Directions[i].y, c.z + Directions[i].z)
  {
    [Coord(c.x + 1, c.y, c.z), Coord(c.x - 1, c.y, c.z),
     Coord(c.x, c.y + 1, c.z), Coord(c.x, c.y - 1, c.z),
     Coord(c.x, c.y, c.z + 1), Coord(c.x, c.y, c.z - 1)]
  }

  predicate Adjacent(a: Coord, b: Coord)
  {
    b in Neighbours(a)
  }

  /** `c` lies exactly `range` away from `start` on some axis (Util.kt:57-59). */
  predicate OnBoundary(start: Coord, range: nat, c: Coord)
  {
    c.x == start.x - range || c.x == start.x + range ||
    c.y == start.y - range || c.y == start.y + range ||
    c.z == start.z - range || c.z == start.z + range
  }

  /** `c` lies strictly closer than `range` to `start` on every axis. */
  predicate InsideBox(start: Coord, range: nat, c: Coord)
  {
    start.x - range < c.x < start.x + range &&
    start.y - range < c.y < start.y + range &&
    start.z - range < c.z < start.z + range
  }

  /** `c` lies at most `range` from `start` on every axis. */
  predicate WithinBox(start: Coord, range: nat, c: Coord)
  {
    start.x - range <= c.x <= start.x + range &&
    start.y - range <= c.y <= start.y + range &&
    start.z - range <= c.z <= start.z + range
  }

  ghost function Box(start: Coord, range: nat): set<Coord>
  {
    set x: int, y: int, z: int |
      start.x - range < x < start.x + range &&
      start.y - range < y < start.y + range &&
      start.z - range < z < start.z + range :: Coord(x, y, z)
  }

  /** The neighbours, among `ns`, that the search pushes: unvisited air, in order. */
  function NewAir(world: Coord -> Material, visited: set<Coord>, ns: seq<Coord>): (r: seq<Coord>)
    ensures forall n :: n in r <==> n in ns && n !in visited && IsAir(world(n))
  {
    if ns == [] then []
    else
      var last := ns[|ns| - 1];
      assert ns == ns[..|ns| - 1] + [last];
      NewAir(world, visited, ns[..|ns| - 1]) + (if last !in visited && IsAir(world(last)) then [last] else [])
  }

  function NewSolid(world: Coord -> Material, visited: set<Coord>, ns: seq<Coord>): (r: seq<Material>)
    ensures |r| <= |ns|
    ensures forall m :: m in r ==> !IsAir(m)
  {
    if ns == [] then []
    else
      var last := ns[|ns| - 1];
      NewSolid(world, visited, ns[..|ns| - 1]) + (if last !in visited && !IsAir(world(last)) then [world(last)] else [])
  }

  /**
   * The material list built by expanding the cells `e` in that order: for
   * each cell, its solid neighbours other than the start, in direction order.
   */
  function Collected(world: Coord -> Material, start: Coord, e: seq<Coord>): (r: seq<Material>)
    ensures |r| <= 6 * |e|
    ensures forall m :: m in r ==> !IsAir(m)
  {
    if e == [] then []
    else Collected(world, start, e[..|e| - 1]) + NewSolid(world, {start}, Neighbours(e[|e| - 1]))
  }

  predicate NoRepeats<T(==)>(s: seq<T>)
  {
    forall i, j :: 0 <= i < j < |s| ==> s[i] != s[j]
  }

  /** Dropping the element at `j` from a sequence without repeats leaves one without repeats, missing just that element. */
  lemma DropAt<T>(s: seq<T>, j: nat)
    requires NoRepeats(s) && j < |s|
    ensures NoRepeats(s[..j] + s[j + 1..])
    ensures forall y :: y in s[..j] + s[j + 1..] <==> y in s && y != s[j]
  {
    var s' := s[..j] + s[j + 1..];
    forall i, k | 0 <= i < k < |s'|
      ensures s'[i] != s'[k]
    {
      var i0 := if i < j then i else i + 1;
      var k0 := if k < j then k else k + 1;
      assert s'[i] == s[i0] && s'[k] == s[k0];
    }
    forall y | y in s'
      ensures y in s && y != s[j]
    {
      var i :| 0 <= i < |s'| && s'[i] == y;
      var i0 := if i < j then i else i + 1;
      assert s'[i] == s[i0];
    }
    forall y | y in s && y != s[j]
      ensures y in s'
    {
      var i :| 0 <= i < |s| && s[i] == y;
      if i < j {
        assert s'[i] == y;
      } else {
        assert s'[i - 1] == y;
      }
    }
  }

  lemma MultisetDropAt<T>(s: seq<T>, j: nat)
    requires j < |s|
    ensures multiset(s) == multiset(s[..j] + s[j + 1..]) + multiset{s[j]}
  {
    assert s == s[..j] + [s[j]] + s[j + 1..];
  }

  /** Two sequences without repeats that hold the same elements are permutations of each other. */
  lemma {:induction false} SameElements<T>(a: seq<T>, b: seq<T>)
    requires NoRepeats(a) && NoRepeats(b)
    requires forall y :: y in a <==> y in b
    ensures multiset(a) == multiset(b)
    decreases |a|
  {
    if a == [] {
      forall y
        ensures y !in multiset(b)
      {
        assert y !in a;
      }
      assert multiset(b) == multiset{} == multiset(a);
    } else {
      var x := a[|a| - 1];
      var a' := a[..|a| - 1] + a[|a|..];
      DropAt(a, |a| - 1);
      assert x in b;
      var j :| 0 <= j < |b| && b[j] == x;
      var b' := b[..j] + b[j + 1..];
      DropAt(b, j);
      forall y
        ensures y in a' <==> y in b'
      {
        assert y in a' <==> y in a && y != x;
        assert y in b' <==> y in b && y != x;
      }
      SameElements(a', b');
      MultisetDropAt(a, |a| - 1);
      MultisetDropAt(b, j);
    }
  }

  /** A walk from `start` whose every later step enters an adjacent air block. */
  ghost predicate AirPath(world: Coord -> Material, start: Coord, path: seq<Coord>)
  {
    |path| > 0 && path[0] == start &&
    forall k :: 0 < k < |path| ==> Adjacent(path[k - 1], path[k]) && IsAir(world(path[k]))
  }

  ghost predicate Reachable(world: Coord -> Material, start: Coord, c: Coord)
  {
    exists path :: AirPath(world, start, path) && path[|path| - 1] == c
  }

  /** Some air walk from `start` reaches the boundary of the searched cube. */
  ghost predicate Escapes(world: Coord -> Material, start: Coord, range: nat)
  {
    exists path :: AirPath(world, start, path) && OnBoundary(start, range, path[|path| - 1])
  }

  lemma AppendAssociative<T>(x: seq<T>, y: seq<T>, z: seq<T>)
    ensures x + y + z == x + (y + z)
  {
  }

  /** Expanding one more cell appends that cell's solid neighbours. */
  lemma CollectedSnoc(world: Coord -> Material, start: Coord, e: seq<Coord>, c: Coord)
    ensures Collected(world, start, e + [c]) == Collected(world, start, e) + NewSolid(world, {start}, Neighbours(c))
  {
    assert (e + [c])[..|e|] == e;
  }

  /** Expanding `a` then `b` collects what expanding each collects, one after the other. */
  lemma {:induction false} CollectedAppend(world: Coord -> Material, start: Coord, a: seq<Coord>, b: seq<Coord>)
    ensures Collected(world, start, a + b) == Collected(world, start, a) + Collected(world, start, b)
    decreases |b|
  {
    if b == [] {
      assert a + b == a;
    } else {
      var b', last := b[..|b| - 1], b[|b| - 1];
      assert b == b' + [last];
      assert a + b == (a + b') + [last];
      var found := NewSolid(world, {start}, Neighbours(last));
      calc {
        Collected(world, start, a + b);
        { CollectedSnoc(world, start, a + b', last); }
        Collected(world, start, a + b') + found;
        { CollectedAppend(world, start, a, b'); }
        Collected(world, start, a) + Collected(world, start, b') + found;
        { AppendAssociative(Collected(world, start, a), Collected(world, start, b'), found); }
        Collected(world, start, a) + (Collected(world, start, b') + found);
        { CollectedSnoc(world, start, b', last); }
        Collected(world, start, a) + Collected(world, start, b);
      }
    }
  }

  /** The materials collected depend on which cells are expanded, not on the order: as a multiset. */
  lemma {:induction false} CollectedPermutation(world: Coord -> Material, start: Coord, a: seq<Coord>, b: seq<Coord>)
    requires multiset(a) == multiset(b)
    ensures multiset(Collected(world, start, a)) == multiset(Collected(world, start, b))
    decreases |a|
  {
    if a == [] {
      assert |b| == |multiset(b)| == 0;
    } else {
      var x := a[|a| - 1];
      var a' := a[..|a| - 1];
      assert a == a' + [x];
      assert x in multiset(b);
      var j :| 0 <= j < |b| && b[j] == x;
      var front, back := b[..j], b[j + 1..];
      assert b == front + [x] + back;
      assert multiset(b) == multiset(front) + multiset{x} + multiset(back);
      assert multiset(front + back) == multiset(front) + multiset(back);
      assert multiset(a') == multiset(a) - multiset{x};
      CollectedPermutation(world, start, a', front + back);
      CollectedAppend(world, start, a', [x]);
      CollectedAppend(world, start, front, [x]);
      CollectedAppend(world, start, front + [x], back);
      CollectedAppend(world, start, front, back);
    }
  }

  /**
   * The cells of a sealed pocket in some expansion order: each once, all
   * inside the cube, and exactly the cells an air walk from the start reaches.
   */
  ghost predicate SealedPocket(world: Coord -> Material, start: Coord, range: nat, e: seq<Coord>)
  {
    && NoRepeats(e)
    && (forall c :: c in e ==> InsideBox(start, range, c))
    && (forall c :: c in e <==> Reachable(world, start, c))
  }

  /** Whatever order a sealed pocket is expanded in, its lining holds the same materials, as a multiset. */
  lemma SealedLining(world: Coord -> Material, start: Coord, range: nat, a: seq<Coord>, b: seq<Coord>)
    requires SealedPocket(world, start, range, a) && SealedPocket(world, start, range, b)
    ensures multiset(Collected(world, start, a)) == multiset(Collected(world, start, b))
  {
    SameElements(a, b);
    CollectedPermutation(world, start, a, b);
  }

  ghost predicate Reached(e: seq<Coord>, c: Coord)
  {
    exists v :: v in e && Adjacent(v, c)
  }

  /** Each cell after the first is air and adjacent to an earlier one. */
  ghost predicate Connected(world: Coord -> Material, start: Coord, e: seq<Coord>)
  {
    (|e| > 0 ==> e[0] == start) &&
    forall i :: 0 < i < |e| ==> IsAir(world(e[i])) && Reached(e[..i], e[i])
  }

  lemma {:induction false} PathTo(world: Coord -> Material, start: Coord, e: seq<Coord>, i: nat)
    returns (path: seq<Coord>)
    requires Connected(world, start, e)
    requires i < |e|
    ensures AirPath(world, start, path) && path[|path| - 1] == e[i]
    decreases i
  {
    if i == 0 {
      path := [start];
    } else {
      var v :| v in e[..i] && Adjacent(v, e[i]);
      var j :| 0 <= j < i && e[j] == v;
      var p := PathTo(world, start, e, j);
      path := Extend(world, start, p, e[i]);
    }
  }

  lemma ConnectedReachable(world: Coord -> Material, start: Coord, e: seq<Coord>)
    requires Connected(world, start, e)
    ensures forall c :: c in e ==> Reachable(world, start, c)
  {
    forall c | c in e
      ensures Reachable(world, start, c)
    {
      var i :| 0 <= i < |e| && e[i] == c;
      var path := PathTo(world, start, e, i);
    }
  }

  /** A set of cells containing the start and closed under air neighbours holds every air walk. */
  lemma {:induction false} ClosedHoldsPaths(world: Coord -> Material, start: Coord, r: set<Coord>, path: seq<Coord>)
    requires start in r
    requires forall v, n :: v in r && Adjacent(v, n) && IsAir(world(n)) ==> n in r
    requires AirPath(world, start, path)
    ensures forall k :: 0 <= k < |path| ==> path[k] in r
  {
    if |path| > 1 {
      var prefix := path[..|path| - 1];
      assert AirPath(world, start, prefix);
      ClosedHoldsPaths(world, start, r, prefix);
      assert path[|path| - 2] in r;
    }
  }

  /** Only the start can be a visited solid block, so "unvisited" means "not the start". */
  lemma {:induction false} SolidUnseen(world: Coord -> Material, visited: set<Coord>, start: Coord, ns: seq<Coord>)
    requires start in visited
    requires forall v :: v in visited ==> v == start || IsAir(world(v))
    ensures NewSolid(world, visited, ns) == NewSolid(world, {start}, ns)
  {
    if ns != [] {
      SolidUnseen(world, visited, start, ns[..|ns| - 1]);
    }
  }

  /** A boundary cell that is the start, or air next to an expanded cell, is an escape. */
  lemma EscapeFound(world: Coord -> Material, start: Coord, range: nat, e: seq<Coord>, c: Coord)
    requires Connected(world, start, e)
    requires OnBoundary(start, range, c)
    requires c == start || (IsAir(world(c)) && Reached(e, c))
    ensures Escapes(world, start, range)
  {
    var path: seq<Coord>;
    if c == start {
      path := [start];
    } else {
      var v :| v in e && Adjacent(v, c);
      var j :| 0 <= j < |e| && e[j] == v;
      var p := PathTo(world, start, e, j);
      path := Extend(world, start, p, c);
    }
    assert AirPath(world, start, path) && OnBoundary(start, range, path[|path| - 1]);
  }

  lemma Extend(world: Coord -> Material, start: Coord, p: seq<Coord>, c: Coord) returns (path: seq<Coord>)
    requires AirPath(world, start, p)
    requires Adjacent(p[|p| - 1], c) && IsAir(world(c))
    ensures path == p + [c]
    ensures AirPath(world, start, path)
  {
    path := p + [c];
    forall k | 0 < k < |path|
      ensures Adjacent(path[k - 1], path[k]) && IsAir(world(path[k]))
    {
      if k < |p| {
        assert path[k - 1] == p[k - 1] && path[k] == p[k];
      }
    }
  }

  lemma BoxSize(a: set<Coord>, b: set<Coord>)
    requires a <= b
    ensures |a| <= |b|
  {
    assert b == a + (b - a);
  }

  /** Every stacked cell is within the cube, and is the start or air next to an expanded cell. */
  ghost predicate StackOk(world: Coord -> Material, start: Coord, range: nat, e: seq<Coord>, stack: seq<Coord>)
  {
    forall k :: 0 <= k < |stack| ==>
      WithinBox(start, range, stack[k]) &&
      (stack[k] == start || (IsAir(world(stack[k])) && Reached(e, stack[k])))
  }

  /** Every air neighbour of a visited cell is visited or still on the stack. */
  ghost predicate FrontierOk(world: Coord -> Material, visited: set<Coord>, stack: seq<Coord>)
  {
    forall v, n :: v in visited && Adjacent(v, n) && IsAir(world(n)) ==> n in visited || n in stack
  }

  lemma StackAfterExpand(world: Coord -> Material, start: Coord, range: nat, e: seq<Coord>,
                         visited: set<Coord>, popped: seq<Coord>, current: Coord)
    requires StackOk(world, start, range, e, popped)
    requires InsideBox(start, range, current)
    ensures StackOk(world, start, range, e + [current], popped + NewAir(world, visited, Neighbours(current)))
  {
    var e' := e + [current];
    var pushed := NewAir(world, visited, Neighbours(current));
    var stack := popped + pushed;
    forall k | 0 <= k < |stack|
      ensures WithinBox(start, range, stack[k])
      ensures stack[k] == start || (IsAir(world(stack[k])) && Reached(e', stack[k]))
    {
      if k < |popped| {
        assert stack[k] == popped[k];
        if stack[k] != start {
          var v :| v in e && Adjacent(v, stack[k]);
          assert v in e';
        }
      } else {
        var n := stack[k];
        assert n in pushed;
        assert current in e' && Adjacent(current, n);
      }
    }
  }

  lemma FrontierAfterExpand(world: Coord -> Material, visited: set<Coord>, popped: seq<Coord>, current: Coord)
    requires FrontierOk(world, visited, popped + [current])
    ensures FrontierOk(world, visited + {current},
                       popped + NewAir(world, visited + {current}, Neighbours(current)))
  {
    var visited' := visited + {current};
    var stack := popped + NewAir(world, visited', Neighbours(current));
    forall v, n | v in visited' && Adjacent(v, n) && IsAir(world(n))
      ensures n in visited' || n in stack
    {
      if v == current {
        if n !in visited' {
          assert n in NewAir(world, visited', Neighbours(current));
        }
      } else {
        assert n in visited || n in popped + [current];
      }
    }
  }

  /** The frontier condition seen through the stack split into its top and the rest. */
  lemma FrontierSplit(world: Coord -> Material, visited: set<Coord>, stack: seq<Coord>)
    requires |stack| > 0 && FrontierOk(world, visited, stack)
    ensures FrontierOk(world, visited, stack[..|stack| - 1] + [stack[|stack| - 1]])
  {
    assert stack[..|stack| - 1] + [stack[|stack| - 1]] == stack;
  }

  lemma FrontierAfterSkip(world: Coord -> Material, visited: set<Coord>, popped: seq<Coord>, current: Coord)
    requires FrontierOk(world, visited, popped + [current])
    requires current in visited
    ensures FrontierOk(world, visited, popped)
  {
    forall v, n | v in visited && Adjacent(v, n) && IsAir(world(n))
      ensures n in visited || n in popped
    {
      assert n in visited || n in popped + [current];
    }
  }

  lemma OnlyStartIsSolid(world: Coord -> Material, start: Coord, e: seq<Coord>)
    requires Connected(world, start, e)
    ensures forall v :: v in e ==> v == start || IsAir(world(v))
  {
    forall v | v in e
      ensures v == start || IsAir(world(v))
    {
      var i :| 0 <= i < |e| && e[i] == v;
    }
  }

  lemma ConnectedAfterExpand(world: Coord -> Material, start: Coord, e: seq<Coord>, current: Coord)
    requires Connected(world, start, e)
    requires |e| == 0 ==> current == start
    requires |e| > 0 ==> IsAir(world(current)) && Reached(e, current)
    ensures Connected(world, start, e + [current])
  {
    var e' := e + [current];
    assert e'[..|e|] == e;
    forall i | 0 < i < |e'|
      ensures IsAir(world(e'[i])) && Reached(e'[..i], e'[i])
    {
      if i < |e| {
        assert e'[..i] == e[..i];
      }
    }
  }

  lemma ScanStep(world: Coord -> Material, visited: set<Coord>, ns: seq<Coord>, i: nat)
    requires i < |ns|
    ensures NewAir(world, visited, ns[..i + 1]) == NewAir(world, visited, ns[..i]) +
      (if ns[i] !in visited && IsAir(world(ns[i])) then [ns[i]] else [])
    ensures NewSolid(world, visited, ns[..i + 1]) == NewSolid(world, visited, ns[..i]) +
      (if ns[i] !in visited && !IsAir(world(ns[i])) then [world(ns[i])] else [])
  {
    assert ns[..i + 1][..i] == ns[..i];
  }

  /**
   * One expansion step of `isEnclosed` (Util.kt:64-78): of the six
   * neighbours of `current`, unvisited air is pushed and the material of
   * every other unvisited block is recorded.
   */
  method ScanNeighbours(world: Coord -> Material, visited: set<Coord>, current: Coord,
                        stack0: seq<Coord>, materials0: seq<Material>)
    returns (stack: seq<Coord>, materials: seq<Material>)
    ensures stack == stack0 + NewAir(world, visited, Neighbours(current))
    ensures materials == materials0 + NewSolid(world, visited, Neighbours(current))
  {
    ghost var ns := Neighbours(current);
    var pushed: seq<Coord>, found: seq<Material> := [], [];
    var i := 0;
    while i < |Directions|
      invariant 0 <= i <= |Directions|
      invariant pushed == NewAir(world, visited, ns[..i])
      invariant found == NewSolid(world, visited, ns[..i])
    {
      var dir := Directions[i];
      var next := Coord(current.x + dir.x, current.y + dir.y, current.z + dir.z);
      assert next == ns[i];
      ScanStep(world, visited, ns, i);
      var block := world(next);
      if next !in visited && IsAir(block) {
        pushed := pushed + [next];
      } else if next !in visited {
        found := found + [block];
      }
      i := i + 1;
    }
    assert ns[..i] == ns;
    stack, materials := stack0 + pushed, materials0 + found;
  }

  /** The expanded cells: distinct, inside the cube, connected to the start, and exactly the visited set. */
  ghost predicate Explored(world: Coord -> Material, start: Coord, range: nat, visited: set<Coord>, expanded: seq<Coord>)
  {
    && (forall c :: c in visited <==> c in expanded)
    && (forall i, j :: 0 <= i < j < |expanded| ==> expanded[i] != expanded[j])
    && (forall c :: c in visited ==> InsideBox(start, range, c))
    && Connected(world, start, expanded)
  }

  /** The invariant of the search loop in `isEnclosed`. */
  ghost predicate SearchInv(world: Coord -> Material, start: Coord, range: nat, visited: set<Coord>,
                            stack: seq<Coord>, expanded: seq<Coord>, materials: seq<Material>)
  {
    && Explored(world, start, range, visited, expanded)
    && (|expanded| == 0 ==> stack == [start])
    && StackOk(world, start, range, expanded, stack)
    && FrontierOk(world, visited, stack)
    && materials == Collected(world, start, expanded)
  }

  lemma InBox(start: Coord, range: nat, c: Coord)
    requires InsideBox(start, range, c)
    ensures c in Box(start, range)
  {
    assert c == Coord(c.x, c.y, c.z);
  }

  lemma ExploredAfterExpand(world: Coord -> Material, start: Coord, range: nat, visited: set<Coord>,
                            expanded: seq<Coord>, current: Coord)
    requires Explored(world, start, range, visited, expanded)
    requires current !in visited && InsideBox(start, range, current)
    requires |expanded| == 0 ==> current == start
    requires |expanded| > 0 ==> IsAir(world(current)) && Reached(expanded, current)
    ensures Explored(world, start, range, visited + {current}, expanded + [current])
  {
    ConnectedAfterExpand(world, start, expanded, current);
  }

  /** What the invariant says about the cell on top of the stack. */
  lemma TopOfStack(world: Coord -> Material, start: Coord, range: nat, visited: set<Coord>,
                   stack: seq<Coord>, expanded: seq<Coord>, materials: seq<Material>)
    requires SearchInv(world, start, range, visited, stack, expanded, materials)
    requires |stack| > 0 && stack[|stack| - 1] !in visited
    ensures WithinBox(start, range, stack[|stack| - 1])
    ensures |expanded| == 0 ==> stack[|stack| - 1] == start
    ensures |expanded| > 0 ==> IsAir(world(stack[|stack| - 1])) && Reached(expanded, stack[|stack| - 1])
    ensures |expanded| > 0 ==> start in visited
    ensures StackOk(world, start, range, expanded, stack[..|stack| - 1])
    ensures FrontierOk(world, visited, stack[..|stack| - 1] + [stack[|stack| - 1]])
  {
    FrontierSplit(world, visited, stack);
    if |expanded| > 0 {
      assert expanded[0] in visited;
    }
  }

  lemma CollectedAfterExpand(world: Coord -> Material, start: Coord, visited: set<Coord>,
                             expanded: seq<Coord>, current: Coord)
    requires Connected(world, start, expanded)
    requires start in visited + {current}
    requires forall c :: c in visited ==> c in expanded
    requires current == start || IsAir(world(current))
    ensures Collected(world, start, expanded) + NewSolid(world, visited + {current}, Neighbours(current))
         == Collected(world, start, expanded + [current])
  {
    OnlyStartIsSolid(world, start, expanded);
    assert (expanded + [current])[..|expanded|] == expanded;
    SolidUnseen(world, visited + {current}, start, Neighbours(current));
  }

  /** Expanding a popped, unvisited cell that is not on the boundary keeps the invariant. */
  lemma ExpandKeepsInv(world: Coord -> Material, start: Coord, range: nat, visited: set<Coord>,
                       stack: seq<Coord>, expanded: seq<Coord>, materials: seq<Material>, current: Coord)
    requires SearchInv(world, start, range, visited, stack, expanded, materials)
    requires |stack| > 0 && current == stack[|stack| - 1]
    requires current !in visited
    requires !OnBoundary(start, range, current)
    ensures InsideBox(start, range, current)
    ensures SearchInv(world, start, range, visited + {current},
                      stack[..|stack| - 1] + NewAir(world, visited + {current}, Neighbours(current)),
                      expanded + [current],
                      materials + NewSolid(world, visited + {current}, Neighbours(current)))
  {
    TopOfStack(world, start, range, visited, stack, expanded, materials);
    var popped := stack[..|stack| - 1];
    ExploredAfterExpand(world, start, range, visited, expanded, current);
    CollectedAfterExpand(world, start, visited, expanded, current);
    StackAfterExpand(world, start, range, expanded, visited + {current}, popped, current);
    FrontierAfterExpand(world, visited, popped, current);
  }

  /** Popping an already visited cell keeps the invariant. */
  lemma SkipKeepsInv(world: Coord -> Material, start: Coord, range: nat, visited: set<Coord>,
                     stack: seq<Coord>, expanded: seq<Coord>, materials: seq<Material>)
    requires SearchInv(world, start, range, visited, stack, expanded, materials)
    requires |stack| > 0
    requires stack[|stack| - 1] in visited
    ensures SearchInv(world, start, range, visited, stack[..|stack| - 1], expanded, materials)
  {
    var current := stack[|stack| - 1];
    var popped := stack[..|stack| - 1];
    assert current in expanded;
    assert forall k :: 0 <= k < |popped| ==> popped[k] == stack[k];
    assert StackOk(world, start, range, expanded, popped);
    FrontierSplit(world, visited, stack);
    FrontierAfterSkip(world, visited, popped, current);
  }

  /** Popping an unvisited boundary cell proves an escape. */
  lemma BoundaryMeansEscape(world: Coord -> Material, start: Coord, range: nat, visited: set<Coord>,
                            stack: seq<Coord>, expanded: seq<Coord>, materials: seq<Material>)
    requires SearchInv(world, start, range, visited, stack, expanded, materials)
    requires |stack| > 0
    requires stack[|stack| - 1] !in visited
    requires OnBoundary(start, range, stack[|stack| - 1])
    ensures Escapes(world, start, range)
  {
    var current := stack[|stack| - 1];
    if |expanded| > 0 {
      assert expanded[0] == start && start in visited;
    }
    EscapeFound(world, start, range, expanded, current);
  }

  /** An empty stack means the expanded cells are exactly the reachable ones, all inside the cube. */
  lemma EmptyStackMeansSealed(world: Coord -> Material, start: Coord, range: nat, visited: set<Coord>,
                              expanded: seq<Coord>, materials: seq<Material>)
    requires SearchInv(world, start, range, visited, [], expanded, materials)
    ensures !Escapes(world, start, range)
    ensures forall c :: Reachable(world, start, c) ==> c in expanded
  {
    assert start in visited;
    forall path | AirPath(world, start, path)
      ensures forall k :: 0 <= k < |path| ==> path[k] in visited
    {
      ClosedHoldsPaths(world, start, visited, path);
    }
  }

  /**
   * Util.kt's `isEnclosed`. Returns whether the air pocket around `location`
   * is sealed within `range`, and the solid materials recorded on the way;
   * `expanded` is the ghost order in which cells had their neighbours scanned.
   */
  method IsEnclosed(location: Point, world: Coord -> Material, range: nat)
    returns (enclosed: bool, materials: seq<Material>, ghost expanded: seq<Coord>)
    ensures enclosed <==> !Escapes(world, CoordOf(location), range)
    ensures materials == Collected(world, CoordOf(location), expanded)
    ensures forall i, j :: 0 <= i < j < |expanded| ==> expanded[i] != expanded[j]
    ensures forall c :: c in expanded ==>
      InsideBox(CoordOf(location), range, c) && Reachable(world, CoordOf(location), c)
    ensures enclosed ==> forall c :: Reachable(world, CoordOf(location), c) ==> c in expanded
    ensures enclosed ==> SealedPocket(world, CoordOf(location), range, expanded)
  {
    var start := CoordOf(location);
    var visited: set<Coord> := {};
    var stack := [start];
    materials := [];
    expanded := [];

    while |stack| > 0
      invariant SearchInv(world, start, range, visited, stack, expanded, materials)
      invariant visited <= Box(start, range)
      decreases |Box(start, range)| - |visited|, |stack|
    {
      var current := stack[|stack| - 1];
      if current !in visited {
        if OnBoundary(start, range, current) {
          BoundaryMeansEscape(world, start, range, visited, stack, expanded, materials);
          ConnectedReachable(world, start, expanded);
          return false, materials, expanded;
        }
        ExpandKeepsInv(world, start, range, visited, stack, expanded, materials, current);
        InBox(start, range, current);
        BoxSize(visited + {current}, Box(start, range));
        visited := visited + {current};
        stack, materials := ScanNeighbours(world, visited, current, stack[..|stack| - 1], materials);
        expanded := expanded + [current];
      } else {
        SkipKeepsInv(world, start, range, visited, stack, expanded, materials);
        stack := stack[..|stack| - 1];
      }
    }

    EmptyStackMeansSealed(world, start, range, visited, expanded, materials);
    ConnectedReachable(world, start, expanded);
    return true, materials, expanded;
  }
}
