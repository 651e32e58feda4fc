/** How far a rebalance gets in a cluster of any size: it ends balanced exactly
    when the moves that are needed do not exceed the cap. */
module ClusterBalance {
  import opened ClusterLoad

  function Same(n: int): int { n }

  /** What is above q + 1, and what is missing to q. */
  function Above(q: int): int -> int { n => if n > q + 1 then n - q - 1 else 0 }

  function Below(q: int): int -> int { n => if n < q then q - n else 0 }

  /** The average load, rounded down. */
  ghost function Average(group: set<string>, locks: Locks): int
    requires group != {}
  {
    Total(Same, group, locks) / |group|
  }

  ghost function Excess(group: set<string>, locks: Locks): int
    requires group != {}
  {
    Total(Above(Average(group, locks)), group, locks)
  }

  ghost function Shortage(group: set<string>, locks: Locks): int
    requires group != {}
  {
    Total(Below(Average(group, locks)), group, locks)
  }

  /** The moves that are needed. */
  ghost function Needed(group: set<string>, locks: Locks): int
    requires group != {}
  {
    if Excess(group, locks) > Shortage(group, locks) then Excess(group, locks) else Shortage(group, locks)
  }

  // ---------------------------------------------------------------------
  // Totals
  // ---------------------------------------------------------------------

  lemma SizeLess(group: set<string>, i: string)
    requires i in group
    ensures |group - {i}| == |group| - 1
  {
  }

  lemma {:induction false} TotalNonNegative(f: int -> int, group: set<string>, locks: Locks)
    requires forall i | i in group :: f(Load(locks, i)) >= 0
    ensures Total(f, group, locks) >= 0
    ensures Total(f, group, locks) == 0 <==> forall i | i in group :: f(Load(locks, i)) == 0
    decreases group
  {
    if group != {} {
      var i :| i in group;
      TotalOf(f, group, locks, i);
      TotalNonNegative(f, group - {i}, locks);
    }
  }

  function Times(n: nat, c: int): int { if n == 0 then 0 else c + Times(n - 1, c) }

  lemma {:induction false} TimesOrder(n: nat, a: int, b: int)
    requires a <= b
    ensures Times(n, a) <= Times(n, b) && Times(n, a + 1) == Times(n, a) + n
  {
    if n > 0 { TimesOrder(n - 1, a, b); }
  }

  lemma {:induction false} TimesIs(n: nat, c: int)
    ensures Times(n, c) == n * c
  {
    if n > 0 {
      TimesIs(n - 1, c);
      assert (n - 1) * c + c == n * c;
    }
  }

  lemma {:induction false} TotalAtMost(group: set<string>, locks: Locks, high: int)
    requires forall i | i in group :: Load(locks, i) <= high
    ensures Total(Same, group, locks) <= Times(|group|, high)
    decreases group
  {
    if group != {} {
      var i :| i in group;
      TotalOf(Same, group, locks, i);
      TotalAtMost(group - {i}, locks, high);
      SizeLess(group, i);
    }
  }

  lemma {:induction false} TotalAtLeast(group: set<string>, locks: Locks, low: int)
    requires forall i | i in group :: low <= Load(locks, i)
    ensures Times(|group|, low) <= Total(Same, group, locks)
    decreases group
  {
    if group != {} {
      var i :| i in group;
      TotalOf(Same, group, locks, i);
      TotalAtLeast(group - {i}, locks, low);
      SizeLess(group, i);
    }
  }

  lemma Quotient(total: int, n: nat)
    requires n > 0
    ensures n * (total / n) <= total < n * (total / n) + n
  {
  }

  lemma Rounded(group: set<string>, locks: Locks)
    requires group != {}
    ensures var n, q, total := |group|, Average(group, locks), Total(Same, group, locks);
      Times(n, q) <= total < Times(n, q) + n
  {
    Quotient(Total(Same, group, locks), |group|);
    TimesIs(|group|, Average(group, locks));
  }

  /** The average lies between the extremes, and away from them if they are
      apart. */
  lemma AverageBetween(group: set<string>, locks: Locks)
    requires group != {}
    ensures var q := Average(group, locks);
      && MinLoad(group, locks) <= q
      && (MaxLoad(group, locks) <= q ==> MinLoad(group, locks) == q == MaxLoad(group, locks))
  {
    ExtremesExist(group, locks);
    var h :| IsMost(group, locks, h);
    var l :| IsLeast(group, locks, l);
    MaxLoadIs(group, locks, h);
    MinLoadIs(group, locks, l);
    Rounded(group, locks);
    TotalAtLeast(group, locks, Load(locks, l));
    hide Average, Total;
    var n, q, high, low := |group|, Average(group, locks), Load(locks, h), Load(locks, l);
    TimesOrder(n, q, q);
    if low > q { TimesOrder(n, q + 1, low); }
    if high <= q {
      TotalOf(Same, group, locks, l);
      TotalAtMost(group - {l}, locks, high);
      SizeLess(group, l);
      TimesOrder(n - 1, high, q);
    }
  }

  // ---------------------------------------------------------------------
  // Moves and what is needed
  // ---------------------------------------------------------------------

  lemma NeededNonNegative(group: set<string>, locks: Locks)
    requires group != {}
    ensures Excess(group, locks) >= 0 && Shortage(group, locks) >= 0
    ensures Excess(group, locks) == 0 <==> MaxLoad(group, locks) <= Average(group, locks) + 1
    ensures Shortage(group, locks) == 0 <==> MinLoad(group, locks) >= Average(group, locks)
  {
    var q := Average(group, locks);
    TotalNonNegative(Above(q), group, locks);
    TotalNonNegative(Below(q), group, locks);
    ExtremesExist(group, locks);
    var h :| IsMost(group, locks, h);
    var l :| IsLeast(group, locks, l);
    MaxLoadIs(group, locks, h);
    MinLoadIs(group, locks, l);
    assert Above(q)(Load(locks, h)) == 0 <==> Load(locks, h) <= q + 1;
    assert Below(q)(Load(locks, l)) == 0 <==> Load(locks, l) >= q;
  }

  /** Nothing is needed exactly when the cluster is balanced. */
  lemma BalancedIff(group: set<string>, locks: Locks)
    requires group != {}
    ensures Delta(group, locks) < 2 <==> Needed(group, locks) == 0
  {
    NeededNonNegative(group, locks);
    AverageBetween(group, locks);
  }

  /** A move of an unbalanced cluster does one of the moves that are needed. */
  lemma MoveNeeded(group: set<string>, a: Locks, b: Locks)
    requires group != {} && Move(group, a, b) && Delta(group, a) >= 2
    ensures Average(group, b) == Average(group, a) && Needed(group, b) == Needed(group, a) - 1
  {
    var t, to :| t in a && a[t] in group && to in group && b == a[t := to]
      && Load(a, a[t]) == MaxLoad(group, a) && Load(a, to) == MinLoad(group, a);
    var q := Average(group, a);
    MoveTotal(Same, group, a, t, to);
    MoveTotal(Above(q), group, a, t, to);
    MoveTotal(Below(q), group, a, t, to);
    NeededNonNegative(group, a);
    NeededNonNegative(group, b);
    AverageBetween(group, a);
  }

  lemma {:induction false} RunNeeds(group: set<string>, history: seq<Locks>, k: nat)
    requires group != {} && Moves(group, history) && k < |history|
    ensures Needed(group, history[k]) == Needed(group, history[0]) - k
  {
    if k > 0 {
      RunNeeds(group, history, k - 1);
      MoveNeeded(group, history[k - 1], history[k]);
    }
  }

  /** A rebalance makes as many moves as are needed and the cap allows, and it
      ends balanced exactly when the cap allows all of them. */
  lemma GroupBalanceIff(group: set<string>, history: seq<Locks>)
    requires group != {} && Run(group, history)
    ensures var needed, cap := Needed(group, history[0]), Cap(Delta(group, history[0]));
      && |history| - 1 == (if needed <= cap then needed else cap)
      && (Delta(group, history[|history| - 1]) < 2 <==> needed <= cap)
  {
    var last := history[|history| - 1];
    RunNeeds(group, history, |history| - 1);
    BalancedIff(group, last);
    NeededNonNegative(group, last);
  }

  /** Three instances that the cap leaves unbalanced. */
  lemma CapStopsEarly(locks: Locks)
    requires locks == map["1" := "a", "2" := "a", "3" := "a", "4" := "b", "5" := "b", "6" := "b"]
    ensures var group := {"a", "b", "c"};
      Needed(group, locks) == 2 && Cap(Delta(group, locks)) == 1
  {
    var group := {"a", "b", "c"};
    ThreeLoads(locks);
    hide Load, Total;
    MaxLoadIs(group, locks, "a");
    MinLoadIs(group, locks, "c");
    ThreeTotal(Same, locks);
    ThreeTotal(Above(2), locks);
    ThreeTotal(Below(2), locks);
    assert |group| == 3;
  }

  lemma ThreeLoads(locks: Locks)
    requires locks == map["1" := "a", "2" := "a", "3" := "a", "4" := "b", "5" := "b", "6" := "b"]
    ensures Load(locks, "a") == 3 && Load(locks, "b") == 3 && Load(locks, "c") == 0
  {
    assert Held(locks, "a") == {"1", "2", "3"} && Held(locks, "b") == {"4", "5", "6"} && Held(locks, "c") == {};
  }

  lemma ThreeTotal(f: int -> int, locks: Locks)
    ensures Total(f, {"a", "b", "c"}, locks) == f(Load(locks, "a")) + f(Load(locks, "b")) + f(Load(locks, "c"))
  {
    hide Load;
    var group := {"a", "b", "c"};
    TotalOf(f, group, locks, "a");
    assert group - {"a"} == {"b", "c"};
    TotalOf(f, {"b", "c"}, locks, "b");
    assert {"b", "c"} - {"b"} == {"c"};
    TotalOf(f, {"c"}, locks, "c");
    assert {"c"} - {"c"} == {} && Total(f, {}, locks) == 0;
  }
}
