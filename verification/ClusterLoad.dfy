/** Lock tables, instance loads and rebalancing moves, as values. */
module ClusterLoad {

  datatype Service = Service(id: string, tags: seq<string>)

  datatype TargetConfig = TargetConfig(name: string, tags: seq<string>)

  type Services = map<string, Service>

  /** Target name to the name of the instance that holds its lock. */
  type Locks = map<string, string>

  // ---------------------------------------------------------------------
  // Names
  // ---------------------------------------------------------------------

  predicate HasApiSuffix(s: string) { |s| >= 4 && s[|s| - 4..] == "-api" }

  /** strings.TrimSuffix(s, "-api"). */
  function TrimApi(s: string): string { if HasApiSuffix(s) then s[..|s| - 4] else s }

  function ApiId(instance: string): string { instance + "-api" }

  /** Services are keyed by their id, an id is a non-empty instance name and
      "-api", and instance names do not end in "-api" themselves. */
  predicate WellNamed(services: Services) {
    forall id | id in services ::
      services[id].id == id && HasApiSuffix(id) && TrimApi(id) != "" && !HasApiSuffix(TrimApi(id))
  }

  lemma ApiIdTrim(instance: string)
    ensures HasApiSuffix(ApiId(instance)) && TrimApi(ApiId(instance)) == instance
  {
  }

  lemma TrimApiId(id: string)
    requires HasApiSuffix(id)
    ensures ApiId(TrimApi(id)) == id
  {
  }

  ghost function Instances(services: Services): set<string> { set id | id in services :: TrimApi(id) }

  // ---------------------------------------------------------------------
  // Tags and loads
  // ---------------------------------------------------------------------

  /** Length of the common prefix. */
  function Common(a: seq<string>, b: seq<string>): nat {
    if a == [] || b == [] || a[0] != b[0] then 0 else 1 + Common(a[1..], b[1..])
  }

  /** a and b agree on their first n elements and not on one more. */
  predicate CommonPrefix(a: seq<string>, b: seq<string>, n: nat) {
    n <= |a| && n <= |b| && a[..n] == b[..n] && (n < |a| && n < |b| ==> a[n] != b[n])
  }

  lemma {:induction false} CommonIff(a: seq<string>, b: seq<string>, n: nat)
    ensures Common(a, b) == n <==> CommonPrefix(a, b, n)
  {
    if a != [] && b != [] && a[0] == b[0] {
      if n > 0 {
        CommonIff(a[1..], b[1..], n - 1);
        assert n <= |a| ==> a[..n] == [a[0]] + a[1..][..n - 1];
        assert n <= |b| ==> b[..n] == [b[0]] + b[1..][..n - 1];
        if n <= |a| && n <= |b| && a[..n] == b[..n] {
          assert a[..n][1..] == a[1..][..n - 1] && b[..n][1..] == b[1..][..n - 1];
        }
      }
    } else if n > 0 && n <= |a| && n <= |b| {
      assert a[..n][0] == a[0] && b[..n][0] == b[0];
    }
  }

  /** No registered service shares a longer tag prefix with the target. */
  ghost predicate Best(services: Services, tags: seq<string>, id: string) {
    id in services && forall id' | id' in services :: Common(services[id'].tags, tags) <= Common(services[id].tags, tags)
  }

  ghost function Held(locks: Locks, instance: string): set<string> {
    set t | t in locks && locks[t] == instance
  }

  ghost function Load(locks: Locks, instance: string): nat { |Held(locks, instance)| }

  lemma LoadRelease(locks: Locks, t: string, instance: string)
    requires t in locks
    ensures Load(locks - {t}, instance) == Load(locks, instance) - if locks[t] == instance then 1 else 0
  {
    assert Held(locks - {t}, instance) == Held(locks, instance) - {t};
  }

  lemma LoadTake(locks: Locks, t: string, holder: string, instance: string)
    requires t !in locks
    ensures Load(locks[t := holder], instance) == Load(locks, instance) + if holder == instance then 1 else 0
  {
    if holder == instance {
      assert Held(locks[t := holder], instance) == Held(locks, instance) + {t};
    } else {
      assert Held(locks[t := holder], instance) == Held(locks, instance);
    }
  }

  lemma {:induction false} ExtremesExist(group: set<string>, locks: Locks)
    requires group != {}
    ensures exists h :: IsMost(group, locks, h)
    ensures exists l :: IsLeast(group, locks, l)
    decreases group
  {
    var i :| i in group;
    var rest := group - {i};
    if rest == {} {
      assert group == {i};
      assert IsMost(group, locks, i) && IsLeast(group, locks, i);
    } else {
      ExtremesExist(rest, locks);
      var h :| IsMost(rest, locks, h);
      var l :| IsLeast(rest, locks, l);
      assert IsMost(group, locks, if Load(locks, i) > Load(locks, h) then i else h);
      assert IsLeast(group, locks, if Load(locks, i) < Load(locks, l) then i else l);
    }
  }

  ghost predicate IsMost(group: set<string>, locks: Locks, h: string) {
    h in group && forall i | i in group :: Load(locks, i) <= Load(locks, h)
  }

  ghost predicate IsLeast(group: set<string>, locks: Locks, l: string) {
    l in group && forall i | i in group :: Load(locks, l) <= Load(locks, i)
  }

  ghost function MaxLoad(group: set<string>, locks: Locks): nat {
    if group == {} then 0
    else ExtremesExist(group, locks); var h :| IsMost(group, locks, h); Load(locks, h)
  }

  ghost function MinLoad(group: set<string>, locks: Locks): nat {
    if group == {} then 0
    else ExtremesExist(group, locks); var l :| IsLeast(group, locks, l); Load(locks, l)
  }

  ghost function Delta(group: set<string>, locks: Locks): int { MaxLoad(group, locks) - MinLoad(group, locks) }

  lemma MaxLoadIs(group: set<string>, locks: Locks, h: string)
    requires IsMost(group, locks, h)
    ensures MaxLoad(group, locks) == Load(locks, h)
  {
  }

  lemma MinLoadIs(group: set<string>, locks: Locks, l: string)
    requires IsLeast(group, locks, l)
    ensures MinLoad(group, locks) == Load(locks, l)
  {
  }

  lemma LoadBounds(group: set<string>, locks: Locks, i: string)
    requires i in group
    ensures MinLoad(group, locks) <= Load(locks, i) <= MaxLoad(group, locks)
  {
    ExtremesExist(group, locks);
  }

  /** Sum over a group of a function of the loads. */
  ghost function Total(f: int -> int, group: set<string>, locks: Locks): int
    decreases group
  {
    if group == {} then 0
    else var i :| i in group; f(Load(locks, i)) + Total(f, group - {i}, locks)
  }

  lemma {:induction false} TotalOf(f: int -> int, group: set<string>, locks: Locks, i: string)
    requires i in group
    ensures Total(f, group, locks) == f(Load(locks, i)) + Total(f, group - {i}, locks)
    decreases group
  {
    var j :| j in group && Total(f, group, locks) == f(Load(locks, j)) + Total(f, group - {j}, locks);
    if j != i {
      TotalOf(f, group - {j}, locks, i);
      TotalOf(f, group - {i}, locks, j);
      assert group - {j} - {i} == group - {i} - {j};
    }
  }

  lemma {:induction false} TotalSame(f: int -> int, group: set<string>, a: Locks, b: Locks)
    requires forall i | i in group :: Load(a, i) == Load(b, i)
    ensures Total(f, group, a) == Total(f, group, b)
    decreases group
  {
    if group != {} {
      var i :| i in group;
      TotalOf(f, group, a, i);
      TotalOf(f, group, b, i);
      TotalSame(f, group - {i}, a, b);
    }
  }

  function Square(n: int): int { n * n }

  ghost function SumSquares(group: set<string>, locks: Locks): int { Total(Square, group, locks) }

  // ---------------------------------------------------------------------
  // Selection
  // ---------------------------------------------------------------------

  /** s is registered, not denied, shares the longest tag prefix with the target,
      and carries the least load among such services. */
  ghost predicate Optimal(services: Services, locks: Locks, tags: seq<string>, denied: seq<string>, s: Service) {
    && s.id in services && services[s.id] == s && s.id !in denied
    && Best(services, tags, s.id)
    && forall id | Best(services, tags, id) && id !in denied :: Load(locks, TrimApi(s.id)) <= Load(locks, TrimApi(id))
  }

  /** Some service with the longest tag prefix is not denied. */
  ghost predicate Suitable(services: Services, tags: seq<string>, denied: seq<string>) {
    exists id :: Best(services, tags, id) && id !in denied
  }

  predicate ServiceIds(denied: seq<string>) { forall d | d in denied :: HasApiSuffix(d) }

  lemma NoTagsAllBest(services: Services, id: string)
    requires id in services
    ensures Best(services, [], id)
  {
  }

  // ---------------------------------------------------------------------
  // Moves
  // ---------------------------------------------------------------------

  /** One target goes from a most loaded instance to a least loaded one. */
  ghost predicate Move(group: set<string>, a: Locks, b: Locks) {
    exists t, to {:trigger a[t := to]} ::
      t in a && a[t] in group && to in group && b == a[t := to]
      && Load(a, a[t]) == MaxLoad(group, a) && Load(a, to) == MinLoad(group, a)
  }

  lemma MoveLoads(a: Locks, t: string, to: string, i: string)
    requires t in a && a[t] != to
    ensures Load(a[t := to], i)
         == if i == a[t] then Load(a, i) - 1 else if i == to then Load(a, i) + 1 else Load(a, i)
  {
    LoadRelease(a, t, i);
    LoadTake(a - {t}, t, to, i);
    assert (a - {t})[t := to] == a[t := to];
  }

  lemma SquareMove(high: int, low: int)
    ensures high * high + low * low == (high - 1) * (high - 1) + (low + 1) * (low + 1) + 2 * (high - low - 1)
  {
  }

  /** What a move does to a total. */
  lemma MoveTotal(f: int -> int, group: set<string>, a: Locks, t: string, to: string)
    requires t in a && a[t] in group && to in group && a[t] != to
    ensures var high, low := Load(a, a[t]), Load(a, to);
      Total(f, group, a) - f(high) - f(low) == Total(f, group, a[t := to]) - f(high - 1) - f(low + 1)
  {
    var from, b := a[t], a[t := to];
    var rest := group - {from} - {to};
    forall i ensures Load(b, i) == if i == from then Load(a, i) - 1 else if i == to then Load(a, i) + 1 else Load(a, i) {
      MoveLoads(a, t, to, i);
    }
    TotalSame(f, rest, a, b);
    TotalOf(f, group, a, from);
    TotalOf(f, group, b, from);
    TotalOf(f, group - {from}, a, to);
    TotalOf(f, group - {from}, b, to);
  }

  lemma MoveSquares(group: set<string>, a: Locks, t: string, to: string)
    requires t in a && a[t] in group && to in group && a[t] != to
    ensures SumSquares(group, a)
         == SumSquares(group, a[t := to]) + 2 * (Load(a, a[t]) - Load(a, to) - 1)
  {
    MoveTotal(Square, group, a, t, to);
    SquareMove(Load(a, a[t]), Load(a, to));
  }

  lemma MoveBounds(group: set<string>, a: Locks, t: string, to: string)
    requires t in a && a[t] in group && to in group && a[t] != to
    requires Load(a, a[t]) == MaxLoad(group, a) && Load(a, to) == MinLoad(group, a) < MaxLoad(group, a)
    ensures MaxLoad(group, a[t := to]) <= MaxLoad(group, a)
    ensures MinLoad(group, a) <= MinLoad(group, a[t := to])
  {
    var b := a[t := to];
    ExtremesExist(group, b);
    var h :| IsMost(group, b, h);
    var l :| IsLeast(group, b, l);
    MaxLoadIs(group, b, h);
    MinLoadIs(group, b, l);
    MoveLoads(a, t, to, h);
    MoveLoads(a, t, to, l);
    LoadBounds(group, a, h);
    LoadBounds(group, a, l);
  }

  /** A move between instances whose loads differ by delta >= 2 lowers the sum
      of squared loads by exactly 2 * (delta - 1), and stays within the bounds. */
  lemma MoveDescends(group: set<string>, a: Locks, b: Locks)
    requires Move(group, a, b) && Delta(group, a) >= 2
    ensures a.Keys == b.Keys
    ensures SumSquares(group, a) == SumSquares(group, b) + 2 * (Delta(group, a) - 1)
    ensures MaxLoad(group, b) <= MaxLoad(group, a) && MinLoad(group, a) <= MinLoad(group, b)
  {
    var t, to :| t in a && a[t] in group && to in group && b == a[t := to]
      && Load(a, a[t]) == MaxLoad(group, a) && Load(a, to) == MinLoad(group, a);
    MoveSquares(group, a, t, to);
    MoveBounds(group, a, t, to);
  }

  /** With two instances a move lowers the difference by exactly two. */
  lemma MoveOfTwo(x: string, y: string, a: Locks, b: Locks)
    requires x != y && Move({x, y}, a, b) && Delta({x, y}, a) >= 2
    ensures Delta({x, y}, b) == Delta({x, y}, a) - 2
  {
    var group := {x, y};
    var t, to :| t in a && a[t] in group && to in group && b == a[t := to]
      && Load(a, a[t]) == MaxLoad(group, a) && Load(a, to) == MinLoad(group, a);
    MoveLoads(a, t, to, a[t]);
    MoveLoads(a, t, to, to);
    assert group == {a[t], to};
    assert IsMost(group, b, a[t]) && IsLeast(group, b, to);
    MaxLoadIs(group, b, a[t]);
    MinLoadIs(group, b, to);
  }

  /** Once a most loaded instance has released t, a least loaded instance is one
      that was least loaded before. */
  lemma LeastAfterRelease(group: set<string>, a: Locks, t: string, to: string)
    requires t in a && IsMost(group, a, a[t]) && Delta(group, a) >= 2
    requires IsLeast(group, a - {t}, to)
    ensures Move(group, a, a[t := to])
  {
    MaxLoadIs(group, a, a[t]);
    ExtremesExist(group, a);
    var l :| IsLeast(group, a, l);
    MinLoadIs(group, a, l);
    LoadRelease(a, t, l);
    LoadRelease(a, t, to);
    LoadBounds(group, a, to);
    assert Load(a, to) == MinLoad(group, a);
  }

  // ---------------------------------------------------------------------
  // Runs of the rebalancing loop
  // ---------------------------------------------------------------------

  const MAX_REBALANCE_LOOP := 100

  /** The iteration cap, fixed from the first load difference. */
  function Cap(delta: int): int {
    if delta / 2 > MAX_REBALANCE_LOOP then MAX_REBALANCE_LOOP else delta / 2
  }

  ghost predicate Moves(group: set<string>, history: seq<Locks>) {
    forall k | 0 <= k < |history| - 1 ::
      Delta(group, history[k]) >= 2 && Move(group, history[k], history[k + 1])
  }

  /** The lock tables of a whole rebalance, before and after each move. */
  ghost predicate Run(group: set<string>, history: seq<Locks>) {
    && history != [] && Moves(group, history)
    && |history| - 1 <= Cap(Delta(group, history[0]))
    && (Delta(group, history[|history| - 1]) < 2 || |history| - 1 == Cap(Delta(group, history[0])))
  }

  /** Along a run the sum of squares falls by at least two a move, loads stay
      within the first extremes, and no target is gained or lost. */
  lemma {:induction false} RunDescends(group: set<string>, history: seq<Locks>, k: nat)
    requires Moves(group, history) && k < |history|
    ensures history[k].Keys == history[0].Keys
    ensures SumSquares(group, history[k]) + 2 * k <= SumSquares(group, history[0])
    ensures MaxLoad(group, history[k]) <= MaxLoad(group, history[0])
    ensures MinLoad(group, history[0]) <= MinLoad(group, history[k])
  {
    if k > 0 {
      RunDescends(group, history, k - 1);
      MoveDescends(group, history[k - 1], history[k]);
    }
  }

  lemma {:induction false} RunOfTwo(x: string, y: string, history: seq<Locks>, k: nat)
    requires x != y && Moves({x, y}, history) && k < |history|
    ensures Delta({x, y}, history[k]) == Delta({x, y}, history[0]) - 2 * k
  {
    if k > 0 {
      RunOfTwo(x, y, history, k - 1);
      MoveOfTwo(x, y, history[k - 1], history[k]);
    }
  }

  lemma DeltaNonNegative(group: set<string>, locks: Locks)
    ensures Delta(group, locks) >= 0
  {
    if group != {} { ExtremesExist(group, locks); }
  }

  /** Two instances that start d apart end d mod 2 apart, or d - 200 if the cap
      of 100 moves comes first. */
  lemma TwoInstanceBalance(x: string, y: string, history: seq<Locks>)
    requires x != y && Run({x, y}, history)
    ensures var d := Delta({x, y}, history[0]);
      Delta({x, y}, history[|history| - 1]) == if d % 2 >= d - 200 then d % 2 else d - 200
  {
    RunOfTwo(x, y, history, |history| - 1);
    DeltaNonNegative({x, y}, history[|history| - 1]);
  }
}
