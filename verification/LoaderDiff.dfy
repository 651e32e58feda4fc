/** Dynamic target loading (pkg/loaders/loaders.go, pkg/app/loaders.go,
    pkg/app/target.go, pkg/loaders/file_loader/file_loader.go): the difference of
    two target maps, its application to the configured targets of an unclustered
    collector, and runs of a loader over any number of readings. */
module LoaderDiff {
  import opened Basics

  /** A target configuration; `settings` stands for every field that neither the
      loader nor AddTargetConfig looks at. */
  datatype TargetConfig = TargetConfig(name: string, bufferSize: int, retryTimer: int, settings: string)

  type Targets = map<string, TargetConfig>

  datatype Operation = Operation(add: Targets, del: seq<string>)

  // ---------------------------------------------------------------------
  // Names
  // ---------------------------------------------------------------------

  predicate KeyedByName(m: Targets) { forall n | n in m :: m[n].name == n }

  /** A targets file may give an entry another name than its key; no two entries
      have the same. */
  predicate DistinctNames(m: Targets) {
    forall j, k | j in m && k in m && m[j].name == m[k].name :: j == k
  }

  ghost function NamesIn(m: Targets): set<string> { set k | k in m :: m[k].name }

  ghost function KeyOf(m: Targets, n: string): (k: string)
    requires n in NamesIn(m)
    ensures k in m && m[k].name == n
  {
    var k :| k in m && m[k].name == n; k
  }

  /** The entries under their names. */
  ghost function ByName(m: Targets): Targets {
    map n | n in NamesIn(m) :: m[KeyOf(m, n)]
  }

  lemma ByNameAt(m: Targets, k: string)
    requires DistinctNames(m) && k in m
    ensures m[k].name in ByName(m) && ByName(m)[m[k].name] == m[k]
  {
    assert m[k].name in NamesIn(m);
  }

  lemma ByNameFrom(m: Targets, n: string) returns (k: string)
    requires n in ByName(m)
    ensures k in m && m[k].name == n && ByName(m)[n] == m[k]
  {
    k := KeyOf(m, n);
  }

  lemma ByNameKeyed(m: Targets)
    ensures KeyedByName(ByName(m)) && ByName(map[]) == map[]
    ensures KeyedByName(m) ==> ByName(m) == m && DistinctNames(m)
  {
    if KeyedByName(m) {
      forall n ensures n in ByName(m) <==> n in m {
        if n in m { ByNameAt(m, n); }
      }
    }
  }

  lemma DistinctPart(m: Targets, part: Targets)
    requires DistinctNames(m) && forall k | k in part :: k in m && m[k] == part[k]
    ensures DistinctNames(part)
  {
    assert forall j, k | j in part && k in part && part[j].name == part[k].name :: m[j].name == m[k].name;
  }

  lemma NewName(m: Targets, k: string, tc: TargetConfig)
    requires k !in m && DistinctNames(m[k := tc])
    ensures tc.name !in ByName(m)
  {
    var m' := m[k := tc];
    forall j | j in m ensures m[j].name != tc.name { assert m'[j].name == m'[k].name ==> j == k; }
  }

  lemma ByNameAdd(m: Targets, k: string, tc: TargetConfig)
    requires k !in m && DistinctNames(m[k := tc])
    ensures DistinctNames(m) && tc.name !in ByName(m) && ByName(m[k := tc]) == ByName(m)[tc.name := tc]
  {
    var m' := m[k := tc];
    assert forall j | j in m :: j in m' && m'[j] == m[j];
    NewName(m, k, tc);
    DistinctPart(m', m);
    hide ByName, DistinctNames;
    ByNameAt(m', k);
    forall n
      ensures n in ByName(m') <==> n in ByName(m) || n == tc.name
      ensures n in ByName(m) ==> ByName(m')[n] == ByName(m)[n]
    {
      if n in ByName(m) {
        var j := ByNameFrom(m, n);
        ByNameAt(m', j);
      }
      if n in ByName(m') {
        var j := ByNameFrom(m', n);
        if j != k { ByNameAt(m, j); }
      }
    }
  }

  /** The same names under the same keys. */
  lemma ByNameSame(a: Targets, b: Targets)
    requires a.Keys == b.Keys && DistinctNames(b) && forall k | k in a :: a[k].name == b[k].name
    ensures DistinctNames(a) && ByName(a).Keys == ByName(b).Keys
    ensures forall n | n in ByName(a) :: exists k :: k in a && ByName(a)[n] == a[k] && ByName(b)[n] == b[k]
  {
    assert NamesIn(a) == NamesIn(b);
    forall n | n in ByName(a)
      ensures exists k :: k in a && ByName(a)[n] == a[k] && ByName(b)[n] == b[k]
    {
      var k := ByNameFrom(a, n);
      ByNameAt(b, k);
    }
  }

  // ---------------------------------------------------------------------
  // Diff
  // ---------------------------------------------------------------------

  /** Added: new or changed. Deleted, each once: gone or changed. */
  ghost predicate IsDiff(current: Targets, new_: Targets, op: Operation) {
    && (forall n :: n in op.add <==> n in new_ && !(n in current && current[n] == new_[n]))
    && (forall n | n in op.add :: n in new_ && op.add[n] == new_[n])
    && (forall n :: n in op.del <==> n in current && !(n in new_ && new_[n] == current[n]))
    && Distinct(op.del)
  }

  method Diff(current: Targets, new_: Targets) returns (op: Operation)
    ensures IsDiff(current, new_, op)
  {
    var add: Targets, del: seq<string> := map[], [];
    if |current| == 0 {
      return Operation(new_, []);
    }
    var todo := current.Keys;
    if |new_| == 0 {
      while todo != {}
        invariant todo <= current.Keys
        invariant forall n :: n in del <==> n in current && n !in todo
        invariant Distinct(del)
      {
        var n :| n in todo;
        todo, del := todo - {n}, del + [n];
      }
      return Operation(map[], del);
    }
    todo := new_.Keys;
    while todo != {}
      invariant todo <= new_.Keys
      invariant forall n :: n in add <==> n in new_ && n !in todo && n !in current
      invariant forall n | n in add :: n in new_ && add[n] == new_[n]
    {
      var n :| n in todo;
      todo := todo - {n};
      if n !in current { add := add[n := new_[n]]; }
    }
    todo := current.Keys;
    while todo != {}
      invariant todo <= current.Keys
      invariant forall n :: n in del <==> n in current && n !in todo && n !in new_
      invariant Distinct(del)
    {
      var n :| n in todo;
      todo := todo - {n};
      if n !in new_ { del := del + [n]; }
    }
    todo := current.Keys;
    while todo != {}
      invariant todo <= current.Keys
      invariant forall n :: n in add <==> n in new_ && (n !in current || (n !in todo && current[n] != new_[n]))
      invariant forall n | n in add :: n in new_ && add[n] == new_[n]
      invariant forall n :: n in del <==> n in current && (n !in new_ || (n !in todo && current[n] != new_[n]))
      invariant Distinct(del)
    {
      var n :| n in todo;
      todo := todo - {n};
      if n !in new_ { continue; }
      if current[n] != new_[n] {
        add, del := add[n := new_[n]], del + [n];
      }
    }
    op := Operation(add, del);
  }

  // ---------------------------------------------------------------------
  // Application
  // ---------------------------------------------------------------------

  /** Defaults of the collector: `complete` is the target defaults function, which
      may refuse a configuration, in which case it leaves it as it was; then the
      buffer size and the retry timer. */
  datatype Defaults = Defaults(complete: TargetConfig -> Option<TargetConfig>, bufferSize: int, retry: int)
  {
    function Fill(tc: TargetConfig): TargetConfig {
      tc.(bufferSize := if tc.bufferSize <= 0 then bufferSize else tc.bufferSize,
          retryTimer := if tc.retryTimer <= 0 then retry else tc.retryTimer)
    }

    /** What the collector keeps for a loaded configuration. */
    function Final(tc: TargetConfig): Option<TargetConfig> {
      match complete(tc)
      case None => None
      case Some(done) => Some(Fill(done))
    }

    ghost predicate KeepsNames(m: Targets) {
      forall n | n in m && Final(m[n]).Some? :: Final(m[n]).value.name == m[n].name
    }

    /** A completed configuration is completed to the same one again, whether or
        not its buffer size and retry timer have been filled in. */
    ghost predicate Settles() {
      forall tc | complete(tc).Some? ::
        Final(complete(tc).value) == Final(tc) && Final(Fill(complete(tc).value)) == Final(tc)
    }

    /** A reading as the loader completes it; a configuration that cannot be
        completed stays in it as it was. */
    function Completed(m: Targets): Targets {
      map n | n in m :: if complete(m[n]).Some? then complete(m[n]).value else m[n]
    }

    lemma CompletedSame(m: Targets)
      requires Settles() && KeepsNames(m) && DistinctNames(m)
      ensures Same(Completed(m), m) && KeepsNames(Completed(m)) && DistinctNames(Completed(m))
      ensures Same(ByName(Completed(m)), ByName(m))
    {
      hide ByName;
      var c := Completed(m);
      forall k | k in m ensures c[k].name == m[k].name && Final(c[k]) == Final(m[k]) { }
      ByNameSame(c, m);
    }

    lemma ByNameKeeps(m: Targets)
      requires KeepsNames(m)
      ensures KeepsNames(ByName(m))
    {
      forall n | n in ByName(m) ensures Final(ByName(m)[n]).Some? ==> Final(ByName(m)[n]).value.name == ByName(m)[n].name {
        var k := ByNameFrom(m, n);
      }
    }

    /** The same targets, kept the same way. */
    ghost predicate Same(a: Targets, b: Targets) {
      a.Keys == b.Keys && forall n | n in a :: Final(a[n]) == Final(b[n])
    }

    /** The targets of `m` as the collector keeps them. */
    ghost function Kept(m: Targets): Targets {
      map n | n in m && Final(m[n]).Some? :: Final(m[n]).value
    }

    lemma SameKept(a: Targets, b: Targets)
      requires Same(a, b)
      ensures Kept(a) == Kept(b)
    {
      assert forall n | n in a :: n in b;
    }

    lemma SameItself(a: Targets)
      ensures Same(a, a)
    {
    }

    lemma NothingKept(other: Targets)
      ensures Kept(map[]) + other == other
    {
    }

    lemma SameTransitive(a: Targets, b: Targets, c: Targets)
      requires Same(a, b) && Same(b, c)
      ensures Same(a, c)
    {
      assert forall n | n in a :: n in b;
    }

    /** The targets after one more add. */
    ghost function Added(targets: Targets, tc: TargetConfig): Targets {
      if Final(tc).None? then targets else map[Final(tc).value.name := Final(tc).value] + targets
    }

    lemma KeptAdd(m: Targets, n: string, tc: TargetConfig, base: Targets)
      requires n !in m
      requires Final(tc).Some? ==> Final(tc).value.name == n
      ensures Kept(m[n := tc]) + base == Added(Kept(m) + base, tc)
    {
      assert forall k | k in m :: m[n := tc][k] == m[k];
      assert n !in Kept(m);
    }

    /** Deletes first, then adds, which do not replace an existing name. */
    ghost function Applied(targets: Targets, op: Operation): Targets {
      Kept(ByName(op.add)) + (targets - SetOf(op.del))
    }
  }

  class App {
    /** Config.Targets, and the names with an operational target. */
    var targets: Targets
    var operational: set<string>
    /** The targets after each operation applied so far. */
    ghost var log: seq<Targets>
    const defaults: Defaults

    constructor (targets: Targets, defaults: Defaults)
      ensures this.targets == targets && this.defaults == defaults && operational == {} && log == []
    {
      this.targets, this.defaults, operational, log := targets, defaults, {}, [];
    }

    method AddTargetConfig(tc: TargetConfig)
      modifies this`targets
      ensures targets == map[tc.name := defaults.Fill(tc)] + old(targets)
      ensures tc.name in old(targets) ==> targets == old(targets)
      ensures tc.name !in old(targets) ==>
                && tc.name in targets && targets - {tc.name} == old(targets)
                && var kept := targets[tc.name];
                && kept.name == tc.name && kept.settings == tc.settings
                && kept.bufferSize == (if tc.bufferSize > 0 then tc.bufferSize else defaults.bufferSize)
                && kept.retryTimer == (if tc.retryTimer > 0 then tc.retryTimer else defaults.retry)
    {
      if tc.name in targets { return; }
      var filled := tc;
      if filled.bufferSize <= 0 { filled := filled.(bufferSize := defaults.bufferSize); }
      if filled.retryTimer <= 0 { filled := filled.(retryTimer := defaults.retry); }
      targets := targets[tc.name := filled];
    }

    /** `ok` is false exactly when there is no such target. */
    method DeleteTarget(name: string) returns (ok: bool)
      modifies this`targets, this`operational
      ensures ok == (name in old(targets))
      ensures targets == old(targets) - {name}
      ensures operational == if ok then old(operational) - {name} else old(operational)
    {
      if name !in targets { return false; }
      targets := targets - {name};
      if name in operational { operational := operational - {name}; }
      ok := true;
    }

    method DeleteAll(del: seq<string>)
      modifies this`targets, this`operational
      ensures targets == old(targets) - SetOf(del)
    {
      for i := 0 to |del|
        invariant targets == old(targets) - SetOf(del[..i])
      {
        SetOfSnoc(del, i);
        var _ := DeleteTarget(del[i]);
      }
      assert del[..|del|] == del;
    }

    method AddOne(tc: TargetConfig)
      modifies this`targets, this`operational
      ensures targets == defaults.Added(old(targets), tc)
    {
      var completed := defaults.complete(tc);
      if completed.None? { return; }
      AddTargetConfig(completed.value);
      var up: bool := *;
      if up { operational := operational + {completed.value.name}; }
    }

    method AddAll(add: Targets)
      modifies this`targets, this`operational
      ensures DistinctNames(add) && defaults.KeepsNames(add) ==> targets == defaults.Kept(ByName(add)) + old(targets)
      ensures forall n | n in old(targets) :: n in targets && targets[n] == old(targets)[n]
    {
      hide ByName, DistinctNames, Defaults.Kept;
      ghost var named := DistinctNames(add) && defaults.KeepsNames(add);
      var todo := add.Keys;
      assert add - todo == map[];
      ByNameKeyed(map[]);
      defaults.NothingKept(targets);
      while todo != {}
        invariant todo <= add.Keys
        invariant forall n | n in old(targets) :: n in targets && targets[n] == old(targets)[n]
        invariant named ==> targets == defaults.Kept(ByName(add - todo)) + old(targets)
      {
        ghost var before := add - todo;
        var n :| n in todo;
        todo := todo - {n};
        assert add - todo == before[n := add[n]];
        if named {
          DistinctPart(add, add - todo);
          ByNameAdd(before, n, add[n]);
          defaults.KeptAdd(ByName(before), add[n].name, add[n], old(targets));
        }
        AddOne(add[n]);
      }
      assert add - {} == add;
    }

    /** Body of the loader's loop when not clustered. Targets may come up at any
        time; their configurations are not touched by that. */
    method ApplyOperation(op: Operation)
      modifies this
      ensures DistinctNames(op.add) && defaults.KeepsNames(op.add) ==> targets == defaults.Applied(old(targets), op)
      ensures log == old(log) + [targets]
      ensures forall n | n in old(targets) && n !in op.del :: n in targets && targets[n] == old(targets)[n]
    {
      DeleteAll(op.del);
      AddAll(op.add);
      log := log + [targets];
    }
  }

  // ---------------------------------------------------------------------
  // Diff, then apply
  // ---------------------------------------------------------------------

  /** In terms of names: what is not added is there already and stays, and what is
      added or gone is deleted first. */
  ghost predicate Transforms(current: Targets, goal: Targets, add: Targets, del: seq<string>) {
    && (forall n | n in add :: n in goal && add[n] == goal[n] && (n in current ==> n in del))
    && (forall n | n in goal && n !in add :: n in current && current[n] == goal[n] && n !in del)
    && (forall n | n in current && n !in goal :: n in del)
    && (forall n | n in del :: n in current)
  }

  /** Entries whose name differs from their key are compared under the wrong key.
      This deletes and adds them again each time, and nothing worse. */
  lemma DiffTransforms(current: Targets, new_: Targets, op: Operation)
    requires IsDiff(current, new_, op) && KeyedByName(current) && DistinctNames(new_)
    ensures DistinctNames(op.add) && Transforms(current, ByName(new_), ByName(op.add), op.del)
  {
    hide ByName;
    var goal, add := ByName(new_), ByName(op.add);
    DistinctPart(new_, op.add);
    forall n | n in add
      ensures n in goal && add[n] == goal[n] && (n in current ==> n in op.del)
    {
      var k := ByNameFrom(op.add, n);
      ByNameAt(new_, k);
      assert forall j | j in new_ && new_[j].name == n :: j == k;
    }
    forall n | n in goal && n !in add
      ensures n in current && current[n] == goal[n] && n !in op.del
    {
      var k := ByNameFrom(new_, n);
      if k in op.add { ByNameAt(op.add, k); }
    }
    forall n | n in current && n !in goal
      ensures n in op.del
    {
      if n in new_ && new_[n] == current[n] { ByNameAt(new_, n); }
    }
  }

  /** Every name that another source has as well and that the new reading does
      not leave alone comes back as what the other source holds. */
  ghost predicate Harmless(d: Defaults, other: Targets, current: Targets, new_: Targets) {
    forall n | n in other && n in current && !(n in new_ && new_[n] == current[n]) ::
      n in ByName(new_) && d.Final(ByName(new_)[n]) == Some(other[n])
  }

  /** What the collector holds for a name after the operation. */
  lemma AppliedAt(d: Defaults, other: Targets, current: Targets, goal: Targets, op: Operation, n: string)
    requires Transforms(current, goal, ByName(op.add), op.del)
    ensures var now := d.Applied(d.Kept(current) + other, op);
      if n in other && n !in op.del then n in now && now[n] == other[n]
      else (n in now <==> n in d.Kept(goal)) && (n in now ==> now[n] == d.Kept(goal)[n])
  {
    hide ByName;
  }

  /** Applying the difference turns the collector's view of one reading into its
      view of the next, around the targets of other sources, exactly when it is
      harmless to those. A loaded target whose name they have is ignored. */
  lemma DiffThenApplyIff(d: Defaults, other: Targets, current: Targets, new_: Targets, op: Operation)
    requires IsDiff(current, new_, op) && KeyedByName(current) && DistinctNames(new_)
    ensures d.Applied(d.Kept(current) + other, op) == d.Kept(ByName(new_)) + other <==> Harmless(d, other, current, new_)
  {
    hide ByName, Transforms;
    var next := ByName(new_);
    var now, goal := d.Applied(d.Kept(current) + other, op), d.Kept(next) + other;
    DiffTransforms(current, new_, op);
    forall n
      ensures (n in now <==> n in goal) && (n in now && n in goal ==> now[n] == goal[n]) <==>
        (n in other && n in op.del ==> n in next && d.Final(next[n]) == Some(other[n]))
    {
      hide Defaults.Applied;
      AppliedAt(d, other, current, next, op, n);
    }
    hide Defaults.Applied, Defaults.Kept;
    if Harmless(d, other, current, new_) {
      forall n ensures (n in now <==> n in goal) && (n in now && n in goal ==> now[n] == goal[n]) { }
    }
    if now == goal {
      forall n | n in other && n in op.del ensures n in next && d.Final(next[n]) == Some(other[n]) { }
    }
  }

  /** In particular when no name is shared. */
  lemma DiffThenApply(d: Defaults, other: Targets, current: Targets, new_: Targets, op: Operation)
    requires IsDiff(current, new_, op) && KeyedByName(current) && DistinctNames(new_)
    requires other.Keys !! current.Keys
    ensures d.Applied(d.Kept(current) + other, op) == d.Kept(ByName(new_)) + other
  {
    hide IsDiff, ByName, Defaults.Applied, Defaults.Kept;
    DiffThenApplyIff(d, other, current, new_, op);
  }

  /** The targets after each operation of a list. */
  ghost predicate AppliedAll(d: Defaults, states: seq<Targets>, ops: seq<Operation>) {
    |states| == |ops| + 1 && forall i | 0 <= i < |ops| :: states[i + 1] == d.Applied(states[i], ops[i])
  }

  /** Over any list of readings, each compared with the one before, the collector
      holds the current reading and its other targets all along exactly when every
      operation is harmless to the others. */
  lemma {:induction false} ReadingsThenApply(d: Defaults, other: Targets, readings: seq<Targets>, ops: seq<Operation>,
                                             states: seq<Targets>, i: nat)
    requires |readings| == |ops| + 1 && AppliedAll(d, states, ops) && i <= |ops|
    requires forall j | 0 < j < |readings| :: DistinctNames(readings[j])
    requires forall j | 0 <= j < |ops| :: IsDiff(ByName(readings[j]), readings[j + 1], ops[j])
    requires states[0] == d.Kept(ByName(readings[0])) + other
    ensures (forall j | 0 <= j <= i :: states[j] == d.Kept(ByName(readings[j])) + other)
       <==> (forall j | 0 <= j < i :: Harmless(d, other, ByName(readings[j]), readings[j + 1]))
  {
    if i > 0 {
      hide IsDiff, Harmless, ByName, DistinctNames, KeyedByName, Defaults.Applied, Defaults.Kept;
      ReadingsThenApply(d, other, readings, ops, states, i - 1);
      ByNameKeyed(readings[i - 1]);
      assert IsDiff(ByName(readings[i - 1]), readings[i - 1 + 1], ops[i - 1]) && DistinctNames(readings[i]);
      DiffThenApplyIff(d, other, ByName(readings[i - 1]), readings[i], ops[i - 1]);
      assert states[i] == d.Applied(states[i - 1], ops[i - 1]);
    }
  }

  /** A name that another source of targets already uses is lost when the loader
      has seen it come and go. */
  lemma ClashDeletes(d: Defaults, other: Targets, tc: TargetConfig, come: Operation, go: Operation)
    requires tc.name in other
    requires IsDiff(map[], map[tc.name := tc], come) && IsDiff(map[tc.name := tc], map[], go)
    ensures d.Applied(d.Applied(other, come), go) == other - {tc.name}
  {
    ClashComes(d, other, tc, come);
    ClashGoes(d, other, tc, go);
  }

  lemma ClashComes(d: Defaults, other: Targets, tc: TargetConfig, come: Operation)
    requires tc.name in other && IsDiff(map[], map[tc.name := tc], come)
    ensures d.Applied(other, come) == other
  {
    var none: Targets := map[];
    assert forall n | n in come.add :: n == tc.name && come.add[n] == tc;
    assert SetOf(come.del) == {};
    assert NamesIn(come.add) <= {tc.name};
    assert ByName(come.add).Keys <= {tc.name};
    hide IsDiff, ByName, NamesIn, SetOf;
    assert d.Kept(ByName(come.add)).Keys <= {tc.name};
    hide Defaults.Kept;
    assert other - {} == other;
  }

  lemma ClashGoes(d: Defaults, other: Targets, tc: TargetConfig, go: Operation)
    requires IsDiff(map[tc.name := tc], map[], go)
    ensures d.Applied(other, go) == other - {tc.name}
  {
    assert go.add == map[] && SetOf(go.del) == {tc.name};
    hide IsDiff, SetOf;
    ByNameKeyed(map[]);
    d.NothingKept(other - {tc.name});
  }

  /** Two entries with one name: the one that is added first stays. */
  lemma SharedNameOrder(d: Defaults, targets: Targets, a: TargetConfig, b: TargetConfig)
    requires a.name == b.name && a.name !in targets && d.KeepsNames(map["a" := a, "b" := b])
    requires d.Final(a).Some? && d.Final(b).Some? && d.Final(a) != d.Final(b)
    ensures d.Added(d.Added(targets, a), b) == d.Added(targets, a)
    ensures d.Added(d.Added(targets, b), a) == d.Added(targets, b) != d.Added(targets, a)
  {
    var m := map["a" := a, "b" := b];
    assert m["a"] == a && m["b"] == b;
    var n := a.name;
    assert n in d.Added(targets, a) && d.Added(targets, a)[n] == d.Final(a).value;
    assert n in d.Added(targets, b) && d.Added(targets, b)[n] == d.Final(b).value;
  }

  // ---------------------------------------------------------------------
  // Runs of a loader
  // ---------------------------------------------------------------------

  lemma LastIsNew(current: Targets, new_: Targets, op: Operation)
    requires Transforms(current, ByName(new_), ByName(op.add), op.del)
    ensures (current - SetOf(op.del)) + ByName(op.add) == ByName(new_)
  {
    hide ByName;
  }

  lemma NothingToDo(d: Defaults, targets: Targets, current: Targets, new_: Targets, op: Operation)
    requires Transforms(current, ByName(new_), ByName(op.add), op.del) && op.add == map[] && op.del == []
    ensures current == ByName(new_) && d.Applied(targets, op) == targets
  {
    hide ByName;
    ByNameKeyed(map[]);
  }

  lemma OperationNames(d: Defaults, current: Targets, new_: Targets, op: Operation)
    requires IsDiff(current, new_, op) && d.KeepsNames(new_)
    ensures d.KeepsNames(op.add)
  {
  }

  /** The file loader. Its map of last targets holds the very objects it hands to
      the collector, which completes them in place. */
  class Loader {
    var lastTargets: Targets
    const defaults: Defaults

    constructor (defaults: Defaults)
      ensures lastTargets == map[] && this.defaults == defaults
    {
      lastTargets, this.defaults := map[], defaults;
    }

    /** Any of the objects may have been completed by the collector, with or
        without its buffer size and retry timer. */
    method ShowSharing()
      requires defaults.Settles() && defaults.KeepsNames(lastTargets) && KeyedByName(lastTargets)
      modifies this
      ensures defaults.Same(lastTargets, old(lastTargets))
      ensures defaults.KeepsNames(lastTargets) && KeyedByName(lastTargets)
    {
      var todo := lastTargets.Keys;
      while todo != {}
        invariant defaults.Same(lastTargets, old(lastTargets))
        invariant defaults.KeepsNames(lastTargets) && KeyedByName(lastTargets)
        invariant todo <= lastTargets.Keys
      {
        var n :| n in todo;
        todo := todo - {n};
        var completed := defaults.complete(lastTargets[n]);
        var seen: bool, filled: bool := *, *;
        if completed.Some? && seen {
          lastTargets := lastTargets[n := if filled then defaults.Fill(completed.value) else completed.value];
        }
      }
    }

    /** Completes a fresh reading. */
    method Complete(reading: Targets) returns (tcs: Targets)
      ensures tcs == defaults.Completed(reading)
    {
      tcs := reading;
      var todo := reading.Keys;
      while todo != {}
        invariant todo <= reading.Keys == tcs.Keys
        invariant forall n | n in tcs :: tcs[n] == if n in todo then reading[n] else defaults.Completed(reading)[n]
      {
        var n :| n in todo;
        todo := todo - {n};
        var completed := defaults.complete(tcs[n]);
        if completed.Some? { tcs := tcs[n := completed.value]; }
      }
    }

    method Remember(op: Operation)
      requires DistinctNames(op.add)
      modifies this
      ensures lastTargets == (old(lastTargets) - SetOf(op.del)) + ByName(op.add)
    {
      hide ByName, DistinctNames;
      for i := 0 to |op.del|
        invariant lastTargets == old(lastTargets) - SetOf(op.del[..i])
      {
        SetOfSnoc(op.del, i);
        lastTargets := lastTargets - {op.del[i]};
      }
      assert op.del[..|op.del|] == op.del;
      ghost var base := lastTargets;
      var todo := op.add.Keys;
      assert op.add - todo == map[];
      ByNameKeyed(map[]);
      while todo != {}
        invariant todo <= op.add.Keys
        invariant lastTargets == base + ByName(op.add - todo)
      {
        ghost var before := op.add - todo;
        var n :| n in todo;
        todo := todo - {n};
        assert op.add - todo == before[n := op.add[n]];
        DistinctPart(op.add, op.add - todo);
        ByNameAdd(before, n, op.add[n]);
        lastTargets := lastTargets[op.add[n].name := op.add[n]];
      }
      assert op.add - {} == op.add;
    }

    /** The collector holds what was last read, around its other targets. */
    ghost predicate InStep(app: App, other: Targets)
      reads this, app
    {
      app.targets == defaults.Kept(lastTargets) + other
    }

    /** One reading, through to the collector, which stays in step exactly when
        the change is harmless to its other targets. */
    method Update(app: App, reading: Targets, ghost other: Targets)
      requires app.defaults == defaults && defaults.Settles()
      requires KeyedByName(lastTargets) && defaults.KeepsNames(lastTargets)
      requires DistinctNames(reading) && defaults.KeepsNames(reading)
      modifies this, app
      ensures KeyedByName(lastTargets) && defaults.KeepsNames(lastTargets)
      ensures defaults.Same(lastTargets, ByName(reading))
      ensures old(InStep(app, other)) ==>
                (app.targets == defaults.Kept(ByName(reading)) + other <==>
                 Harmless(defaults, other, old(lastTargets), defaults.Completed(reading)))
      ensures app.log == old(app.log) + (if app.log == old(app.log) then [] else [app.targets])
      ensures app.log == old(app.log) ==> app.targets == old(app.targets)
    {
      hide IsDiff, Distinct, SetOf, KeyedByName, DistinctNames, ByName, Harmless, Transforms;
      hide Defaults.Kept, Defaults.Settles, Defaults.Same, Defaults.Applied, Defaults.KeepsNames, Defaults.Completed;
      var tcs := Complete(reading);
      defaults.CompletedSame(reading);
      defaults.SameKept(ByName(tcs), ByName(reading));
      defaults.ByNameKeeps(tcs);
      ByNameKeyed(tcs);
      var op := Diff(lastTargets, tcs);
      DiffTransforms(lastTargets, tcs, op);
      DiffThenApplyIff(defaults, other, lastTargets, tcs, op);
      LastIsNew(lastTargets, tcs, op);
      OperationNames(defaults, lastTargets, tcs, op);
      if |op.add| + |op.del| == 0 {
        NothingToDo(defaults, app.targets, lastTargets, tcs, op);
        return;
      }
      Remember(op);
      app.ApplyOperation(op);
      ShowSharing();
      defaults.SameTransitive(lastTargets, ByName(tcs), ByName(reading));
    }

    /** Any number of readings, however they differ. `lasts` and `states` are what
        the loader and the collector hold before each of them. The collector has
        the current reading and its other targets all along exactly when every
        change is harmless to the others; so it is when no name is shared. */
    method Run(app: App, readings: seq<Targets>, ghost other: Targets) returns (ghost lasts: seq<Targets>, ghost states: seq<Targets>)
      requires lastTargets == map[] && app.targets == other && app.defaults == defaults && defaults.Settles()
      requires forall r | r in readings :: DistinctNames(r) && defaults.KeepsNames(r)
      modifies this, app
      ensures |lasts| == |states| == |readings| + 1 && states[|readings|] == app.targets
      ensures ToldSince(other, states, old(app.log), app.log)
      ensures forall k | 0 <= k <= |readings| :: defaults.Same(lasts[k], ReadBefore(readings, k))
      ensures InStepAll(defaults, other, readings, states) <==> HarmlessAll(defaults, other, readings, lasts)
      ensures (forall r | r in readings :: NamesIn(r) !! other.Keys) ==>
                app.targets == defaults.Kept(ReadBefore(readings, |readings|)) + other
    {
      hide Harmless, KeyedByName, DistinctNames, ByName, NamesIn, ToldSince, ReadBefore, InStepAll, HarmlessAll, Along;
      hide Defaults.Kept, Defaults.Settles, Defaults.Same, Defaults.KeepsNames, Defaults.Completed;
      lasts, states := [lastTargets], [app.targets];
      defaults.NothingKept(other);
      RunStarts(defaults, other, readings);
      ToldNothing(other, app.log);
      for i := 0 to |readings|
        invariant |lasts| == |states| == i + 1 && states[i] == app.targets && lasts[i] == lastTargets
        invariant app.defaults == defaults && Along(defaults, other, readings, lasts, states)
        invariant KeyedByName(lastTargets) && defaults.KeepsNames(lastTargets)
        invariant ToldSince(other, states, old(app.log), app.log)
      {
        AlongLast(defaults, other, readings, lasts, states);
        assert readings[i] in readings;
        ghost var was := app.log;
        Update(app, readings[i], other);
        ReadNext(readings, i);
        ToldMore(other, states, old(app.log), was, app.targets, app.log != was);
        AllSnoc(defaults, other, readings, lasts, states, lastTargets, app.targets);
        lasts, states := lasts + [lastTargets], states + [app.targets];
      }
      AlongAll(defaults, other, readings, lasts, states);
    }
  }

  /** The reading before the one at k, by name; the first one finds nothing. */
  ghost function ReadBefore(readings: seq<Targets>, k: nat): Targets
    requires k <= |readings|
  {
    if k == 0 then map[] else ByName(readings[k - 1])
  }

  lemma ReadNext(readings: seq<Targets>, k: nat)
    requires k < |readings|
    ensures ReadBefore(readings, k + 1) == ByName(readings[k])
  {
  }

  lemma RunStarts(d: Defaults, other: Targets, readings: seq<Targets>)
    ensures ReadBefore(readings, 0) == map[] && d.Same(map[], map[])
    ensures KeyedByName(map[]) && d.KeepsNames(map[])
    ensures Along(d, other, readings, [map[]], [other])
  {
    d.NothingKept(other);
  }

  /** The states are the start and what the log tells, one entry for each change. */
  ghost predicate Told(start: Targets, states: seq<Targets>, log: seq<Targets>) {
    if |states| <= 1 then states == [start] && log == []
    else
      var n := |states| - 1;
      || (log != [] && log[|log| - 1] == states[n] && Told(start, states[..n], log[..|log| - 1]))
      || (states[n] == states[n - 1] && Told(start, states[..n], log))
  }

  lemma ToldSnoc(start: Targets, states: seq<Targets>, log: seq<Targets>, now: Targets, logged: bool)
    requires Told(start, states, log) && states != [] && (!logged ==> now == states[|states| - 1])
    ensures Told(start, states + [now], log + if logged then [now] else [])
  {
    var states' := states + [now];
    assert states'[..|states|] == states;
    if logged {
      assert (log + [now])[..|log|] == log;
    } else {
      assert log + [] == log;
    }
  }

  ghost predicate ToldSince(start: Targets, states: seq<Targets>, before: seq<Targets>, now: seq<Targets>) {
    before <= now && Told(start, states, now[|before|..])
  }

  lemma ToldNothing(start: Targets, log: seq<Targets>)
    ensures ToldSince(start, [start], log, log)
  {
    assert log[|log|..] == [];
  }

  lemma ToldMore(start: Targets, states: seq<Targets>, before: seq<Targets>, was: seq<Targets>, now: Targets, logged: bool)
    requires ToldSince(start, states, before, was) && states != [] && (!logged ==> now == states[|states| - 1])
    ensures ToldSince(start, states + [now], before, was + if logged then [now] else [])
  {
    ToldSnoc(start, states, was[|before|..], now, logged);
    var more := if logged then [now] else [];
    assert (was + more)[|before|..] == was[|before|..] + more;
  }

  ghost predicate InStepAll(d: Defaults, other: Targets, readings: seq<Targets>, states: seq<Targets>)
    requires |states| <= |readings| + 1
  {
    forall k | 0 <= k < |states| :: states[k] == d.Kept(ReadBefore(readings, k)) + other
  }

  ghost predicate HarmlessAll(d: Defaults, other: Targets, readings: seq<Targets>, lasts: seq<Targets>)
    requires |lasts| <= |readings| + 1
  {
    forall k | 0 <= k < |lasts| - 1 :: Harmless(d, other, lasts[k], d.Completed(readings[k]))
  }

  /** What holds of the readings so far. */
  ghost predicate Along(d: Defaults, other: Targets, readings: seq<Targets>, lasts: seq<Targets>, states: seq<Targets>) {
    && 0 < |lasts| == |states| <= |readings| + 1
    && (forall k | 0 <= k < |lasts| :: d.Same(lasts[k], ReadBefore(readings, k)))
    && (InStepAll(d, other, readings, states) <==> HarmlessAll(d, other, readings, lasts))
  }

  lemma AlongLast(d: Defaults, other: Targets, readings: seq<Targets>, lasts: seq<Targets>, states: seq<Targets>)
    requires Along(d, other, readings, lasts, states)
    ensures d.Kept(lasts[|lasts| - 1]) == d.Kept(ReadBefore(readings, |lasts| - 1))
  {
    d.SameKept(lasts[|lasts| - 1], ReadBefore(readings, |lasts| - 1));
  }

  lemma AllSnoc(d: Defaults, other: Targets, readings: seq<Targets>, lasts: seq<Targets>, states: seq<Targets>,
                last: Targets, state: Targets)
    requires Along(d, other, readings, lasts, states) && |lasts| <= |readings|
    requires d.Same(last, ReadBefore(readings, |lasts|))
    requires var i := |states| - 1;
      states[i] == d.Kept(ReadBefore(readings, i)) + other ==>
        (state == d.Kept(ReadBefore(readings, i + 1)) + other <==> Harmless(d, other, lasts[i], d.Completed(readings[i])))
    ensures Along(d, other, readings, lasts + [last], states + [state])
  {
    hide Harmless, ReadBefore, Defaults.Kept, Defaults.Completed, Defaults.Same;
    var n := |states|;
    var states', lasts' := states + [state], lasts + [last];
    assert forall k | 0 <= k < n :: states'[k] == states[k] && lasts'[k] == lasts[k];
    assert InStepAll(d, other, readings, states') <==>
      InStepAll(d, other, readings, states) && state == d.Kept(ReadBefore(readings, n)) + other;
    assert HarmlessAll(d, other, readings, lasts') <==>
      HarmlessAll(d, other, readings, lasts) && Harmless(d, other, lasts[n - 1], d.Completed(readings[n - 1]));
  }

  lemma AlongAll(d: Defaults, other: Targets, readings: seq<Targets>, lasts: seq<Targets>, states: seq<Targets>)
    requires Along(d, other, readings, lasts, states) && |lasts| == |readings| + 1
    ensures forall k | 0 <= k <= |readings| :: d.Same(lasts[k], ReadBefore(readings, k))
    ensures InStepAll(d, other, readings, states) <==> HarmlessAll(d, other, readings, lasts)
    ensures (forall r | r in readings :: NamesIn(r) !! other.Keys) ==>
              states[|readings|] == d.Kept(ReadBefore(readings, |readings|)) + other
  {
    hide InStepAll, HarmlessAll, ReadBefore, NamesIn, Defaults.Same, Defaults.Kept;
    UnsharedAll(d, other, readings, lasts, states);
  }

  lemma UnsharedAll(d: Defaults, other: Targets, readings: seq<Targets>, lasts: seq<Targets>, states: seq<Targets>)
    requires |lasts| == |states| == |readings| + 1
    requires forall k | 0 <= k <= |readings| :: d.Same(lasts[k], ReadBefore(readings, k))
    requires InStepAll(d, other, readings, states) <==> HarmlessAll(d, other, readings, lasts)
    ensures (forall r | r in readings :: NamesIn(r) !! other.Keys) ==>
              states[|readings|] == d.Kept(ReadBefore(readings, |readings|)) + other
  {
    hide Harmless, ReadBefore, NamesIn, Defaults.Same, Defaults.Kept, Defaults.Completed;
    if forall r | r in readings :: NamesIn(r) !! other.Keys {
      forall k | 0 <= k < |readings| ensures Harmless(d, other, lasts[k], d.Completed(readings[k])) {
        Unshared(d, other, readings, lasts, k);
      }
    }
  }

  lemma Unshared(d: Defaults, other: Targets, readings: seq<Targets>, lasts: seq<Targets>, k: nat)
    requires k < |readings| && k < |lasts| && d.Same(lasts[k], ReadBefore(readings, k))
    requires forall r | r in readings :: NamesIn(r) !! other.Keys
    ensures Harmless(d, other, lasts[k], d.Completed(readings[k]))
  {
    if k > 0 {
      assert readings[k - 1] in readings;
      assert lasts[k].Keys == ByName(readings[k - 1]).Keys == NamesIn(readings[k - 1]);
    }
  }
}
