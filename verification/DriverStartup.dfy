/** What requesting drivers does, as a function of the start-up state, and what that means for
    the dependency graph.

    A driver's constructor is modelled as its list of requests, made in order; drivers are
    numbered from 0 (driver 2 of the server). */
module DriverStartup {

  /** g[d] lists the drivers that the constructor of d requests. */
  type Graph = seq<seq<nat>>

  ghost predicate WellFormed(g: Graph) {
    forall d: nat, i: nat :: d < |g| && i < |g[d]| ==> g[d][i] < |g|
  }

  /** started and starting are the marks; constructed lists the constructor calls in the order
      they began, finished the drivers in the order they were marked started. */
  datatype State = State(started: set<nat>, starting: set<nat>, exitAll: bool,
                         constructed: seq<nat>, finished: seq<nat>)

  const INITIAL := State({}, {}, false, [], [])

  /** The drivers that carry neither mark. */
  ghost function White(g: Graph, s: State): set<nat> {
    set d: nat | d < |g| && d !in s.started && d !in s.starting
  }

  /** Requesting driver d. */
  ghost function Request(g: Graph, d: nat, s: State): (r: State)
    requires WellFormed(g) && d < |g|
    ensures r.starting == s.starting && s.started <= r.started
    ensures s.started !! s.starting ==> r.started !! r.starting
    ensures s.constructed <= r.constructed && s.finished <= r.finished
    ensures s.exitAll ==> r.exitAll
    decreases White(g, s), 0
  {
    if d in s.started then s
    else if d in s.starting then s.(exitAll := true)
    else
      var begun := s.(starting := s.starting + {d}, constructed := s.constructed + [d]);
      assert d in White(g, s) && d !in White(g, begun);
      var built := RequestAll(g, g[d], begun);
      built.(starting := built.starting - {d}, started := built.started + {d},
             finished := built.finished + [d])
  }

  /** Requesting several drivers in order. */
  ghost function RequestAll(g: Graph, ds: seq<nat>, s: State): (r: State)
    requires WellFormed(g) && forall i :: 0 <= i < |ds| ==> ds[i] < |g|
    ensures r.starting == s.starting && s.started <= r.started
    ensures s.started !! s.starting ==> r.started !! r.starting
    ensures s.constructed <= r.constructed && s.finished <= r.finished
    ensures s.exitAll ==> r.exitAll
    decreases White(g, s), |ds|
  {
    if ds == [] then s
    else
      var first := Request(g, ds[0], s);
      assert White(g, first) <= White(g, s);
      RequestAll(g, ds[1..], first)
  }

  /** One more request behind the others. */
  lemma {:induction false} RequestOneMore(g: Graph, ds: seq<nat>, d: nat, s: State)
    requires WellFormed(g) && d < |g| && forall i :: 0 <= i < |ds| ==> ds[i] < |g|
    ensures RequestAll(g, ds + [d], s) == Request(g, d, RequestAll(g, ds, s))
    decreases |ds|
  {
    hide Request, WellFormed;
    if ds == [] {
      var first := Request(g, d, s);
      assert ds + [d] == [d] && [d][1..] == [];
      assert RequestAll(g, [d], s) == RequestAll(g, [], first) == first;
    } else {
      assert (ds + [d])[0] == ds[0] && (ds + [d])[1..] == ds[1..] + [d];
      RequestOneMore(g, ds[1..], d, Request(g, ds[0], s));
    }
  }

  // ---------------------------------------------------------------- the graph

  /** p follows dependencies through drivers that carry no mark. */
  ghost predicate WhitePath(g: Graph, s: State, p: seq<nat>) {
    && p != []
    && (forall i :: 0 <= i < |p| ==> p[i] in White(g, s))
    && (forall i :: 0 <= i < |p| - 1 ==> p[i + 1] in g[p[i]])
  }

  ghost predicate Reaches(g: Graph, s: State, a: nat, b: nat) {
    exists p :: WhitePath(g, s, p) && p[0] == a && p[|p| - 1] == b
  }

  /** Some cycle, all of whose drivers are unmarked, can be reached from d. */
  ghost predicate CycleReachable(g: Graph, s: State, d: nat) {
    exists v: nat, w: nat :: Reaches(g, s, d, v) && v < |g| && w in g[v] && Reaches(g, s, w, v)
  }

  /** Some driver reachable from d asks for one that is being constructed. */
  ghost predicate StartingReachable(g: Graph, s: State, d: nat) {
    exists v: nat, w: nat :: Reaches(g, s, d, v) && v < |g| && w in g[v] && w in s.starting
  }

  ghost predicate NoRepeats(order: seq<nat>) {
    forall i, j :: 0 <= i < j < |order| ==> order[i] != order[j]
  }

  /** order is duplicate-free and each driver in it comes after the dependencies that were not
      started before. */
  ghost predicate DependenciesFirst(g: Graph, before: set<nat>, order: seq<nat>) {
    && NoRepeats(order)
    && (forall i, w :: 0 <= i < |order| && order[i] < |g| && w in g[order[i]] ==>
          w in before || w in order[..i])
  }

  // ---------------------------------------------------------------- paths

  lemma ReachesItself(g: Graph, s: State, d: nat)
    requires d in White(g, s)
    ensures Reaches(g, s, d, d)
  {
    assert WhitePath(g, s, [d]);
  }

  /** A path whose drivers are unmarked later was unmarked before. */
  lemma ReachesEarlier(g: Graph, s: State, later: State, a: nat, b: nat)
    requires White(g, later) <= White(g, s) && Reaches(g, later, a, b)
    ensures Reaches(g, s, a, b)
  {
    var p :| WhitePath(g, later, p) && p[0] == a && p[|p| - 1] == b;
    assert WhitePath(g, s, p);
  }

  lemma ReachesThrough(g: Graph, s: State, d: nat, a: nat, b: nat)
    requires d in White(g, s) && a in g[d] && Reaches(g, s, a, b)
    ensures Reaches(g, s, d, b)
  {
    var p :| WhitePath(g, s, p) && p[0] == a && p[|p| - 1] == b;
    var q := [d] + p;
    forall i | 0 <= i < |q| - 1
      ensures q[i + 1] in g[q[i]]
    {
      if i > 0 {
        assert p[i] in g[p[i - 1]];
      }
    }
    assert WhitePath(g, s, q) && q[|q| - 1] == b;
  }

  // ---------------------------------------------------------------- what gets started

  /** Every newly started driver has its dependencies started, or being constructed. */
  ghost predicate Closed(g: Graph, s: State, r: State) {
    forall v, w :: v in r.started && v !in s.started && v < |g| && w in g[v] ==>
      w in r.started || w in s.starting
  }

  lemma {:induction false} RequestCloses(g: Graph, d: nat, s: State)
    requires WellFormed(g) && d < |g|
    ensures var r := Request(g, d, s);
            Closed(g, s, r) && (d in r.started || d in s.starting)
    decreases White(g, s), 0
  {
    if d !in s.started && d !in s.starting {
      var begun := s.(starting := s.starting + {d}, constructed := s.constructed + [d]);
      assert d in White(g, s) && d !in White(g, begun);
      RequestAllCloses(g, g[d], begun);
    }
  }

  lemma {:induction false} RequestAllCloses(g: Graph, ds: seq<nat>, s: State)
    requires WellFormed(g) && forall i :: 0 <= i < |ds| ==> ds[i] < |g|
    ensures var r := RequestAll(g, ds, s);
            Closed(g, s, r) && forall w :: w in ds ==> w in r.started || w in s.starting
    decreases White(g, s), |ds|
  {
    if ds != [] {
      var first := Request(g, ds[0], s);
      assert White(g, first) <= White(g, s);
      RequestCloses(g, ds[0], s);
      RequestAllCloses(g, ds[1..], first);
      assert forall w :: w in ds ==> w == ds[0] || w in ds[1..];
    }
  }

  lemma {:induction false} PathGetsStarted(g: Graph, s: State, r: State, p: seq<nat>)
    requires WellFormed(g) && Closed(g, s, r) && WhitePath(g, s, p) && p[0] in r.started
    ensures p[|p| - 1] in r.started
  {
    if |p| > 1 {
      assert p[1] in g[p[0]] && p[1] in White(g, s);
      assert WhitePath(g, s, p[1..]) by {
        forall i | 0 <= i < |p[1..]| - 1
          ensures p[1..][i + 1] in g[p[1..][i]]
        {
          assert p[i + 2] in g[p[i + 1]];
        }
      }
      PathGetsStarted(g, s, r, p[1..]);
    }
  }

  lemma {:induction false} OnlyReachableStart(g: Graph, d: nat, s: State, v: nat)
    requires WellFormed(g) && d < |g|
    requires v in Request(g, d, s).started && v !in s.started
    ensures Reaches(g, s, d, v)
    decreases White(g, s), 0
  {
    var begun := s.(starting := s.starting + {d}, constructed := s.constructed + [d]);
    assert d in White(g, s) && d !in White(g, begun);
    if v == d {
      ReachesItself(g, s, d);
    } else {
      var u := OnlyReachableStartAll(g, g[d], begun, v);
      ReachesEarlier(g, s, begun, u, v);
      ReachesThrough(g, s, d, u, v);
    }
  }

  lemma {:induction false} OnlyReachableStartAll(g: Graph, ds: seq<nat>, s: State, v: nat) returns (u: nat)
    requires WellFormed(g) && forall i :: 0 <= i < |ds| ==> ds[i] < |g|
    requires v in RequestAll(g, ds, s).started && v !in s.started
    ensures u in ds && Reaches(g, s, u, v)
    decreases White(g, s), |ds|
  {
    var first := Request(g, ds[0], s);
    assert White(g, first) <= White(g, s);
    if v in first.started {
      OnlyReachableStart(g, ds[0], s, v);
      u := ds[0];
    } else {
      u := OnlyReachableStartAll(g, ds[1..], first, v);
      ReachesEarlier(g, s, first, u, v);
    }
  }

  /** A run of requests starts exactly what can be reached through unmarked drivers. */
  lemma StartsTheReachable(g: Graph, ds: seq<nat>, s: State, v: nat)
    requires WellFormed(g) && forall i :: 0 <= i < |ds| ==> ds[i] < |g|
    ensures v in RequestAll(g, ds, s).started <==>
            v in s.started || exists d :: d in ds && Reaches(g, s, d, v)
  {
    var r := RequestAll(g, ds, s);
    if v in r.started && v !in s.started {
      var u := OnlyReachableStartAll(g, ds, s, v);
    }
    if d :| d in ds && Reaches(g, s, d, v) {
      RequestAllCloses(g, ds, s);
      var p :| WhitePath(g, s, p) && p[0] == d && p[|p| - 1] == v;
      assert p[0] in White(g, s);
      PathGetsStarted(g, s, r, p);
    }
  }

  // ---------------------------------------------------------------- order of construction

  /** The drivers marked started, and the constructors called, between two states. */
  ghost function NewlyFinished(s: State, r: State): seq<nat>
    requires s.finished <= r.finished
  {
    r.finished[|s.finished|..]
  }

  ghost function NewlyConstructed(s: State, r: State): seq<nat>
    requires s.constructed <= r.constructed
  {
    r.constructed[|s.constructed|..]
  }

  /** Each newly started driver was constructed exactly once, whether or not a cycle was met;
      without one, it was marked started after all its dependencies. */
  ghost predicate Orderly(g: Graph, s: State, r: State)
    requires s.finished <= r.finished && s.constructed <= r.constructed
  {
    var order := NewlyFinished(s, r);
    && NoRepeats(order)
    && (forall v :: v in order <==> v in r.started && v !in s.started)
    && multiset(NewlyConstructed(s, r)) == multiset(order)
    && (!r.exitAll ==> DependenciesFirst(g, s.started, order))
  }

  lemma {:induction false} RequestIsOrderly(g: Graph, d: nat, s: State)
    requires WellFormed(g) && d < |g| && s.started !! s.starting
    ensures var r := Request(g, d, s);
            Orderly(g, s, r) && (!r.exitAll ==> d in r.started)
    decreases White(g, s), 0
  {
    if d !in s.started && d !in s.starting {
      var begun := s.(starting := s.starting + {d}, constructed := s.constructed + [d]);
      assert d in White(g, s) && d !in White(g, begun);
      RequestAllIsOrderly(g, g[d], begun);
      OrderlyAround(g, d, s, begun, RequestAll(g, g[d], begun));
    }
  }

  /** The constructor of d around the constructions that it triggers. */
  lemma OrderlyAround(g: Graph, d: nat, s: State, begun: State, built: State)
    requires d < |g| && d !in s.started && d !in built.started
    requires begun == s.(starting := s.starting + {d}, constructed := s.constructed + [d])
    requires begun.constructed <= built.constructed && begun.finished <= built.finished
    requires Orderly(g, begun, built) && (!built.exitAll ==> forall w :: w in g[d] ==> w in built.started)
    ensures var r := built.(starting := built.starting - {d}, started := built.started + {d},
                            finished := built.finished + [d]);
            s.constructed <= r.constructed && s.finished <= r.finished && Orderly(g, s, r)
  {
    var r := built.(starting := built.starting - {d}, started := built.started + {d},
                    finished := built.finished + [d]);
    var order := NewlyFinished(begun, built);
    assert NewlyFinished(s, r) == order + [d];
    NoRepeatsAppend(order, [d]);
    assert NewlyConstructed(s, r) == [d] + NewlyConstructed(begun, built);
    if !r.exitAll {
      LastOne(g, s.started, order, d);
    }
  }

  lemma LastOne(g: Graph, before: set<nat>, order: seq<nat>, d: nat)
    requires DependenciesFirst(g, before, order) && d !in order && d < |g|
    requires forall w :: w in g[d] ==> w in before || w in order
    ensures DependenciesFirst(g, before, order + [d])
  {
    var all := order + [d];
    NoRepeatsAppend(order, [d]);
    forall i, w | 0 <= i < |all| && all[i] < |g| && w in g[all[i]]
      ensures w in before || w in all[..i]
    {
      if i < |order| {
        assert all[i] == order[i] && all[..i] == order[..i];
      } else {
        assert all[..i] == order;
      }
    }
  }

  lemma {:induction false} RequestAllIsOrderly(g: Graph, ds: seq<nat>, s: State)
    requires WellFormed(g) && forall i :: 0 <= i < |ds| ==> ds[i] < |g|
    requires s.started !! s.starting
    ensures var r := RequestAll(g, ds, s);
            Orderly(g, s, r) && (!r.exitAll ==> forall w :: w in ds ==> w in r.started)
    decreases White(g, s), |ds|
  {
    if ds != [] {
      var first := Request(g, ds[0], s);
      assert White(g, first) <= White(g, s);
      RequestIsOrderly(g, ds[0], s);
      RequestAllIsOrderly(g, ds[1..], first);
      assert forall w :: w in ds ==> w == ds[0] || w in ds[1..];
      OrderlyTwice(g, s, first, RequestAll(g, ds, s));
    }
  }

  lemma OrderlyTwice(g: Graph, s: State, t: State, r: State)
    requires s.finished <= t.finished <= r.finished && s.constructed <= t.constructed <= r.constructed
    requires s.started <= t.started <= r.started && (t.exitAll ==> r.exitAll)
    requires Orderly(g, s, t) && Orderly(g, t, r)
    ensures Orderly(g, s, r)
  {
    var x, y := NewlyFinished(s, t), NewlyFinished(t, r);
    assert NewlyFinished(s, r) == x + y;
    assert NewlyConstructed(s, r) == NewlyConstructed(s, t) + NewlyConstructed(t, r);
    NoRepeatsAppend(x, y);
    if !r.exitAll {
      Append(g, s.started, t.started, x, y);
    }
  }

  lemma NoRepeatsAppend(x: seq<nat>, y: seq<nat>)
    requires NoRepeats(x) && NoRepeats(y) && forall v :: v in x ==> v !in y
    ensures NoRepeats(x + y)
  {
    forall i, j | 0 <= i < j < |x + y|
      ensures (x + y)[i] != (x + y)[j]
    {
      if i < |x| <= j {
        assert (x + y)[i] in x && (x + y)[j] in y;
      }
    }
  }

  lemma Append(g: Graph, before: set<nat>, between: set<nat>, x: seq<nat>, y: seq<nat>)
    requires DependenciesFirst(g, before, x) && DependenciesFirst(g, between, y)
    requires forall v :: v in x <==> v in between && v !in before
    requires forall v :: v in y ==> v !in between
    ensures DependenciesFirst(g, before, x + y)
  {
    var all := x + y;
    NoRepeatsAppend(x, y);
    forall i, w | 0 <= i < |all| && all[i] < |g| && w in g[all[i]]
      ensures w in before || w in all[..i]
    {
      if i < |x| {
        assert all[i] == x[i] && all[..i] == x[..i];
      } else {
        assert all[i] == y[i - |x|] && all[..i] == x + y[..i - |x|];
      }
    }
  }

  // ---------------------------------------------------------------- cycles

  /** What makes requesting d raise exitAll. */
  ghost predicate Circular(g: Graph, s: State, d: nat) {
    d in s.starting || StartingReachable(g, s, d) || CycleReachable(g, s, d)
  }

  lemma {:induction false} RaiseMeansCircular(g: Graph, d: nat, s: State)
    requires WellFormed(g) && d < |g| && s.started !! s.starting
    requires Request(g, d, s).exitAll && !s.exitAll
    ensures Circular(g, s, d)
    decreases White(g, s), 0
  {
    if d !in s.starting {
      var begun := s.(starting := s.starting + {d}, constructed := s.constructed + [d]);
      assert d in White(g, s) && d !in White(g, begun);
      var u := RaiseAllMeansCircular(g, g[d], begun);
      ReachesItself(g, s, d);
      if u in begun.starting {
        assert u in g[d] && (u == d || u in s.starting);
      } else if StartingReachable(g, begun, u) {
        var v: nat, w: nat :| Reaches(g, begun, u, v) && v < |g| && w in g[v] && w in begun.starting;
        ReachesEarlier(g, s, begun, u, v);
        ReachesThrough(g, s, d, u, v);
      } else {
        var v: nat, w: nat :| Reaches(g, begun, u, v) && v < |g| && w in g[v] && Reaches(g, begun, w, v);
        ReachesEarlier(g, s, begun, u, v);
        ReachesEarlier(g, s, begun, w, v);
        ReachesThrough(g, s, d, u, v);
      }
    }
  }

  lemma {:induction false} RaiseAllMeansCircular(g: Graph, ds: seq<nat>, s: State) returns (u: nat)
    requires WellFormed(g) && forall i :: 0 <= i < |ds| ==> ds[i] < |g|
    requires s.started !! s.starting && RequestAll(g, ds, s).exitAll && !s.exitAll
    ensures u in ds && Circular(g, s, u)
    decreases White(g, s), |ds|
  {
    var first := Request(g, ds[0], s);
    assert White(g, first) <= White(g, s);
    if first.exitAll {
      RaiseMeansCircular(g, ds[0], s);
      u := ds[0];
    } else {
      u := RaiseAllMeansCircular(g, ds[1..], first);
      CircularEarlier(g, s, first, u);
    }
  }

  lemma CircularEarlier(g: Graph, s: State, later: State, u: nat)
    requires White(g, later) <= White(g, s) && later.starting == s.starting && Circular(g, later, u)
    ensures Circular(g, s, u)
  {
    if StartingReachable(g, later, u) {
      var v: nat, w: nat :| Reaches(g, later, u, v) && v < |g| && w in g[v] && w in later.starting;
      ReachesEarlier(g, s, later, u, v);
    } else if CycleReachable(g, later, u) {
      var v: nat, w: nat :| Reaches(g, later, u, v) && v < |g| && w in g[v] && Reaches(g, later, w, v);
      ReachesEarlier(g, s, later, u, v);
      ReachesEarlier(g, s, later, w, v);
    }
  }

  /** Along a path that is started in dependency order, positions in that order go down. */
  lemma {:induction false} PathDescends(g: Graph, s: State, order: seq<nat>, p: seq<nat>, j: nat) returns (k: nat)
    requires WhitePath(g, s, p) && DependenciesFirst(g, s.started, order)
    requires j < |order| && order[j] == p[0]
    ensures k <= j && order[k] == p[|p| - 1]
  {
    if |p| == 1 {
      k := j;
    } else {
      assert p[0] in White(g, s) && p[1] in g[p[0]] && p[1] in White(g, s);
      var i :| 0 <= i < j && order[..j][i] == p[1];
      assert WhitePath(g, s, p[1..]) by {
        forall n | 0 <= n < |p[1..]| - 1
          ensures p[1..][n + 1] in g[p[1..][n]]
        {
          assert p[n + 2] in g[p[n + 1]];
        }
      }
      k := PathDescends(g, s, order, p[1..], i);
    }
  }

  /** In dependency order, a driver's dependency does not lead back to it. */
  lemma NoWayBack(g: Graph, s: State, order: seq<nat>, v: nat, w: nat)
    requires DependenciesFirst(g, s.started, order)
    requires v in order && v < |g| && w in g[v] && w !in s.started
    ensures !Reaches(g, s, w, v)
  {
    var j :| 0 <= j < |order| && order[j] == v;
    var i :| 0 <= i < j && order[..j][i] == w;
    forall p | WhitePath(g, s, p) && p[0] == w
      ensures p[|p| - 1] != v
    {
      var k := PathDescends(g, s, order, p, i);
    }
  }

  lemma CalmMeansNotCircular(g: Graph, ds: seq<nat>, s: State, d: nat)
    requires WellFormed(g) && forall i :: 0 <= i < |ds| ==> ds[i] < |g|
    requires s.started !! s.starting && !RequestAll(g, ds, s).exitAll && d in ds
    ensures !Circular(g, s, d)
  {
    hide *;
    var r := RequestAll(g, ds, s);
    var order := CalmOrder(g, ds, s);
    forall v: nat, w: nat | Reaches(g, s, d, v) && v < |g| && w in g[v]
      ensures w !in s.starting && !Reaches(g, s, w, v)
    {
      StartsTheReachable(g, ds, s, v);
      ReachesUnstarted(g, s, d, v);
      StartedInOrder(g, s.started, order, v, w);
      if w in s.started {
        StartedIsNotReached(g, s, w, v);
      } else {
        NoWayBack(g, s, order, v, w);
      }
    }
    NotCircular(g, s, d);
  }

  lemma CalmOrder(g: Graph, ds: seq<nat>, s: State) returns (order: seq<nat>)
    requires WellFormed(g) && forall i :: 0 <= i < |ds| ==> ds[i] < |g|
    requires s.started !! s.starting && !RequestAll(g, ds, s).exitAll
    ensures DependenciesFirst(g, s.started, order)
    ensures forall v :: v in order <==> v in RequestAll(g, ds, s).started && v !in s.started
    ensures forall w :: w in ds ==> w in RequestAll(g, ds, s).started
  {
    hide RequestAll, DependenciesFirst;
    RequestAllIsOrderly(g, ds, s);
    order := NewlyFinished(s, RequestAll(g, ds, s));
  }

  lemma NotCircular(g: Graph, s: State, d: nat)
    requires d !in s.starting
    requires forall v: nat, w: nat | Reaches(g, s, d, v) && v < |g| && w in g[v] ::
               w !in s.starting && !Reaches(g, s, w, v)
    ensures !Circular(g, s, d)
  {
    hide Reaches;
  }

  lemma ReachesUnstarted(g: Graph, s: State, a: nat, b: nat)
    requires Reaches(g, s, a, b)
    ensures b !in s.started && b < |g|
  {
  }

  lemma StartedIsNotReached(g: Graph, s: State, a: nat, b: nat)
    requires a in s.started
    ensures !Reaches(g, s, a, b)
  {
  }

  lemma StartedInOrder(g: Graph, before: set<nat>, order: seq<nat>, v: nat, w: nat)
    requires DependenciesFirst(g, before, order) && v in order && v < |g| && w in g[v]
    ensures w in before || w in order
  {
  }

  /** A run of requests raises exitAll exactly when one of them meets a cycle through unmarked
      drivers, or a driver that is being constructed. */
  lemma RaisesOnCycles(g: Graph, ds: seq<nat>, s: State)
    requires WellFormed(g) && forall i :: 0 <= i < |ds| ==> ds[i] < |g|
    requires s.started !! s.starting && !s.exitAll
    ensures RequestAll(g, ds, s).exitAll <==> exists d :: d in ds && Circular(g, s, d)
  {
    hide *;
    if RequestAll(g, ds, s).exitAll {
      var u := RaiseAllMeansCircular(g, ds, s);
    } else {
      forall d | d in ds
        ensures !Circular(g, s, d)
      {
        CalmMeansNotCircular(g, ds, s, d);
      }
    }
  }

  // ---------------------------------------------------------------- whole runs

  lemma {:induction false} CountsAtMostOne(order: seq<nat>, v: nat)
    requires NoRepeats(order)
    ensures multiset(order)[v] <= 1
  {
    if order != [] {
      var rest := order[..|order| - 1];
      assert order == rest + [order[|order| - 1]];
      CountsAtMostOne(rest, v);
      assert order[|order| - 1] !in rest;
    }
  }

  lemma SameElementsNoRepeats(x: seq<nat>, y: seq<nat>)
    requires multiset(x) == multiset(y) && NoRepeats(y)
    ensures NoRepeats(x)
  {
    forall i, j | 0 <= i < j < |x|
      ensures x[i] != x[j]
    {
      CountsAtMostOne(y, x[i]);
      assert x == x[..j] + [x[j]] + x[j + 1..];
      assert x[i] in x[..j];
    }
  }

  /** Drivers are marked started after all their dependencies exactly when no request can reach a
      cycle of drivers that carry no mark. */
  lemma OrderedWithoutCycles(g: Graph, ds: seq<nat>, s: State)
    requires WellFormed(g) && forall i :: 0 <= i < |ds| ==> ds[i] < |g|
    requires s.starting == {} && !s.exitAll
    ensures DependenciesFirst(g, s.started, NewlyFinished(s, RequestAll(g, ds, s))) <==>
            forall d :: d in ds ==> !CycleReachable(g, s, d)
  {
    hide *;
    CalmWithoutCycles(g, ds, s);
    var order := NewlyFinishedAre(g, ds, s);
    if DependenciesFirst(g, s.started, order) {
      forall d | d in ds
        ensures !CycleReachable(g, s, d)
      {
        forall v: nat, w: nat | Reaches(g, s, d, v) && v < |g| && w in g[v]
          ensures !Reaches(g, s, w, v)
        {
          StartsTheReachable(g, ds, s, v);
          ReachesUnstarted(g, s, d, v);
          if w in s.started {
            StartedIsNotReached(g, s, w, v);
          } else {
            NoWayBack(g, s, order, v, w);
          }
        }
        NoCycle(g, s, d);
      }
    }
  }

  lemma NewlyFinishedAre(g: Graph, ds: seq<nat>, s: State) returns (order: seq<nat>)
    requires WellFormed(g) && forall i :: 0 <= i < |ds| ==> ds[i] < |g|
    requires s.starting == {}
    ensures order == NewlyFinished(s, RequestAll(g, ds, s))
    ensures forall v :: v in order <==> v in RequestAll(g, ds, s).started && v !in s.started
    ensures !RequestAll(g, ds, s).exitAll ==> DependenciesFirst(g, s.started, order)
  {
    hide RequestAll, DependenciesFirst;
    RequestAllIsOrderly(g, ds, s);
    order := NewlyFinished(s, RequestAll(g, ds, s));
  }

  /** With no driver under construction, only cycles raise exitAll. */
  lemma CalmWithoutCycles(g: Graph, ds: seq<nat>, s: State)
    requires WellFormed(g) && forall i :: 0 <= i < |ds| ==> ds[i] < |g|
    requires s.starting == {} && !s.exitAll
    ensures RequestAll(g, ds, s).exitAll <==> exists d :: d in ds && CycleReachable(g, s, d)
  {
    RaisesOnCycles(g, ds, s);
    hide RequestAll, CycleReachable, Reaches;
    forall d
      ensures Circular(g, s, d) <==> CycleReachable(g, s, d)
    {
    }
  }

  lemma NoCycle(g: Graph, s: State, d: nat)
    requires forall v: nat, w: nat | Reaches(g, s, d, v) && v < |g| && w in g[v] :: !Reaches(g, s, w, v)
    ensures !CycleReachable(g, s, d)
  {
    hide Reaches;
  }

  lemma RequestOne(g: Graph, d: nat, s: State)
    requires WellFormed(g) && d < |g|
    ensures RequestAll(g, [d], s) == Request(g, d, s)
  {
    assert [d][1..] == [];
    hide Request;
  }

  lemma RequestMarked(g: Graph, d: nat, s: State)
    requires WellFormed(g) && d < |g| && d !in s.started && d in s.starting
    ensures Request(g, d, s) == s.(exitAll := true)
  {
  }

  lemma RequestUnmarked(g: Graph, d: nat, s: State)
    requires WellFormed(g) && d < |g| && d !in s.started && d !in s.starting
    ensures var built := RequestAll(g, g[d], s.(starting := s.starting + {d}, constructed := s.constructed + [d]));
            Request(g, d, s) == built.(starting := built.starting - {d}, started := built.started + {d},
                                       finished := built.finished + [d])
  {
    hide RequestAll;
  }

  /** Two drivers that ask for each other: the second one is marked started while the first one,
      to which it holds a reference, is still being constructed. */
  lemma TwoDriverCycle()
    ensures var r := RequestAll([[1], [0]], [0], INITIAL);
            && r.exitAll && r.constructed == [0, 1] && r.finished == [1, 0]
            && !DependenciesFirst([[1], [0]], {}, r.finished)
  {
    hide RequestAll, Request, DependenciesFirst, WellFormed;
    var g: Graph := [[1], [0]];
    InnerDriver();
    RequestOne(g, 0, INITIAL);
    RequestUnmarked(g, 0, INITIAL);
    assert {} + {0} == {0} && [] + [0] == [0];
    OutOfOrder(g, {}, [1, 0], 0);
  }

  /** The request of the outer one of the two for the inner one. */
  lemma InnerDriver()
    ensures WellFormed([[1], [0]])
    ensures RequestAll([[1], [0]], [1], State({}, {0}, false, [0], [])) == State({1}, {0}, true, [0, 1], [1])
  {
    hide RequestAll, Request;
    var g: Graph := [[1], [0]];
    assert WellFormed(g);
    hide WellFormed;
    var first, second := State({}, {0}, false, [0], []), State({}, {0, 1}, false, [0, 1], []);
    RequestOne(g, 0, second);
    RequestMarked(g, 0, second);
    RequestOne(g, 1, first);
    RequestUnmarked(g, 1, first);
    assert {0} + {1} == {0, 1} && {0, 1} - {1} == {0} && [0] + [1] == [0, 1];
  }

  /** A driver that needs two others, which need none: it is constructed first and started last, and
      the two come in the order in which it asks for them. */
  lemma AskedInOrder(g: Graph, d: nat, a: nat, b: nat, s: State)
    requires WellFormed(g) && d < |g| && g[d] == [a, b] && a < |g| && b < |g| && g[a] == [] && g[b] == []
    requires d in White(g, s) && a in White(g, s) && b in White(g, s) && a != b
    ensures var r := Request(g, d, s);
            && r.constructed == s.constructed + [d, a, b] && r.finished == s.finished + [a, b, d]
            && r.started == s.started + {a, b, d} && r.exitAll == s.exitAll
  {
    hide RequestAll, Request, WellFormed;
    var begun := s.(starting := s.starting + {d}, constructed := s.constructed + [d]);
    RequestUnmarked(g, d, s);
    LeafRequest(g, a, begun);
    var first := Request(g, a, begun);
    LeafRequest(g, b, first);
    assert [a, b] == [a] + [b];
    RequestOneMore(g, [a], b, begun);
    RequestOne(g, a, begun);
  }

  lemma LeafRequest(g: Graph, d: nat, s: State)
    requires WellFormed(g) && d in White(g, s) && g[d] == []
    ensures Request(g, d, s) == s.(started := s.started + {d}, constructed := s.constructed + [d],
                                   finished := s.finished + [d])
  {
    hide Request, WellFormed;
    RequestUnmarked(g, d, s);
    assert s.starting + {d} - {d} == s.starting;
  }

  lemma OutOfOrder(g: Graph, before: set<nat>, order: seq<nat>, w: nat)
    requires order != [] && order[0] < |g| && w in g[order[0]] && w !in before
    ensures !DependenciesFirst(g, before, order)
  {
    assert w !in order[..0];
  }

  /** What holds after any sequence of requests to a freshly built manager. */
  lemma EveryRun(g: Graph, ds: seq<nat>)
    requires WellFormed(g) && forall i :: 0 <= i < |ds| ==> ds[i] < |g|
    ensures var r := RequestAll(g, ds, INITIAL);
            && r.starting == {}
            && (forall v :: v in r.started <==> exists d :: d in ds && Reaches(g, INITIAL, d, v))
            && NoRepeats(r.constructed) && (forall v :: v in r.constructed <==> v in r.started)
            && (r.exitAll <==> exists d :: d in ds && CycleReachable(g, INITIAL, d))
            && (DependenciesFirst(g, {}, r.finished) <==> forall d :: d in ds ==> !CycleReachable(g, INITIAL, d))
  {
    hide RequestAll, Reaches, CycleReachable, DependenciesFirst, NewlyFinished, NoRepeats, WellFormed;
    ConstructedOnce(g, ds);
    forall v
      ensures v in RequestAll(g, ds, INITIAL).started <==> exists d :: d in ds && Reaches(g, INITIAL, d, v)
    {
      StartsTheReachable(g, ds, INITIAL, v);
    }
    CalmWithoutCycles(g, ds, INITIAL);
    OrderedWithoutCycles(g, ds, INITIAL);
  }

  lemma ConstructedOnce(g: Graph, ds: seq<nat>)
    requires WellFormed(g) && forall i :: 0 <= i < |ds| ==> ds[i] < |g|
    ensures var r := RequestAll(g, ds, INITIAL);
            && NewlyFinished(INITIAL, r) == r.finished
            && NoRepeats(r.constructed) && (forall v :: v in r.constructed <==> v in r.started)
  {
    hide RequestAll, DependenciesFirst;
    var r := RequestAll(g, ds, INITIAL);
    RequestAllIsOrderly(g, ds, INITIAL);
    assert NewlyFinished(INITIAL, r) == r.finished && NewlyConstructed(INITIAL, r) == r.constructed;
    SameElementsNoRepeats(r.constructed, r.finished);
    assert forall v :: v in r.constructed <==> v in multiset(r.constructed);
    assert forall v :: v in r.finished <==> v in multiset(r.finished);
  }
}
