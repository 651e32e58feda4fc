/** On-change reads of the cache (pkg/cache/oc_cache.go): writers store a leaf and
    then publish it, a reader registers its live queries and then reads the current
    state. The module is a transition system whose steps interleave freely; a value
    is read in one step and sent in another, for the reader and for writers. */
module OnChangeRead {
  import opened Basics

  type Value = string

  datatype Key = Key(sub: string, target: string, path: seq<string>)

  const GLOB := "*"

  /** The options of one read; paths are complete paths with globs. */
  datatype ReadOpts = ReadOpts(subscription: string, target: string, paths: seq<seq<string>>, updatesOnly: bool)

  predicate GlobEq(q: string, s: string) { q == GLOB || q == s }

  predicate PathMatches(q: seq<string>, p: seq<string>) {
    |q| <= |p| && forall i | 0 <= i < |q| :: GlobEq(q[i], p[i])
  }

  predicate AllSubscriptions(ro: ReadOpts) { ro.subscription == "" || ro.subscription == GLOB }

  /** The live query of path i matches the leaf. */
  predicate Matches(ro: ReadOpts, i: nat, k: Key) {
    && i < |ro.paths|
    && (AllSubscriptions(ro) || ro.subscription == k.sub)
    && GlobEq(ro.target, k.target)
    && PathMatches(ro.paths[i], k.path)
  }

  /** A query with globs or exact values, cut anywhere, matches the leaf it was made
      from; one that asks for another subscription, target or element does not, nor
      does one that is longer than the leaf's path. */
  lemma MatchesLeaf(ro: ReadOpts, i: nat, k: Key)
    requires i < |ro.paths|
    ensures (ro.subscription in {"", GLOB, k.sub} && ro.target in {GLOB, k.target} && |ro.paths[i]| <= |k.path|
             && forall j | 0 <= j < |ro.paths[i]| :: ro.paths[i][j] in {GLOB, k.path[j]}) ==> Matches(ro, i, k)
    ensures Matches(ro, i, k) ==> |ro.paths[i]| <= |k.path|
    ensures ro.subscription !in {"", GLOB, k.sub} ==> !Matches(ro, i, k)
    ensures ro.target !in {GLOB, k.target} ==> !Matches(ro, i, k)
    ensures forall j | 0 <= j < |ro.paths[i]| && j < |k.path| && ro.paths[i][j] !in {GLOB, k.path[j]} :: !Matches(ro, i, k)
  {
  }

  /** Where the reader stands. */
  datatype Phase =
    | Register(i: nat)
    | GetCaches(i: nat)
    | Walk(i: nat, todo: set<string>)
    | Visit(i: nat, leaves: set<Key>, todo: set<string>)
    | Emit(i: nat, leaves: set<Key>, todo: set<string>, k: Key, v: Value)
    | Live

  datatype State = State(
    caches: map<string, set<string>>,       // subscription cache -> its targets
    store: map<Key, Value>,                 // all leaves
    unpublished: set<Key>,                  // stored, publication not begun
    reading: multiset<(Key, nat)>,          // matched client calls that have not read the leaf yet
    sending: multiset<(Key, Value)>,        // values read by writers and not sent yet
    registered: set<nat>,
    phase: Phase,
    received: seq<(Key, Value)>,
    ever: set<(Key, Value)>,                // history: every value a leaf has had
    since: set<(Key, nat)>)                 // history: leaves stored after query i was registered

  datatype Step =
    | Prepare(sub: string, target: string)
    | Store(key: Key, value: Value)
    | Publish(key: Key)
    | ReadLeaf(key: Key, query: nat)
    | Send(key: Key, value: Value)
    | RegisterQuery
    | TakeCaches
    | PickCache(sub: string)
    | VisitLeaf(key: Key)
    | EmitLeaf
    | LeaveCache
    | LeavePath

  predicate HasTarget(s: State, ro: ReadOpts, sub: string) {
    sub in s.caches && (ro.target == GLOB || ro.target in s.caches[sub])
  }

  /** The leaves a cache query for path i visits at this moment. */
  function QueryLeaves(s: State, ro: ReadOpts, i: nat, sub: string): set<Key> {
    set k | k in s.store && k.sub == sub && Matches(ro, i, k)
  }

  /** The client calls a publication of k makes: one for each query registered now
      that matches. */
  function Calls(s: State, ro: ReadOpts, k: Key): set<(Key, nat)> {
    set i | i in s.registered && Matches(ro, i, k) :: (k, i)
  }

  predicate Init(ro: ReadOpts, s: State) {
    && (forall k | k in s.store :: k.sub in s.caches && k.target in s.caches[k.sub])
    && (forall k | k in s.store :: (k, s.store[k]) in s.ever)
    && s.unpublished <= s.store.Keys
    && s.reading == multiset{} && s.sending == multiset{}
    && s.registered == {} && s.phase == Register(0) && s.received == [] && s.since == {}
  }

  predicate Next(ro: ReadOpts, s: State, step: Step, s': State) {
    match step
    // Write, under the lock: the subscription cache and its target exist from here on
    case Prepare(sub, target) =>
      s' == s.(caches := s.caches[sub := (if sub in s.caches then s.caches[sub] else {}) + {target}])
    case Store(k, v) =>
      && k.sub in s.caches && k.target in s.caches[k.sub]
      && s' == s.(store := s.store[k := v], unpublished := s.unpublished + {k},
                  ever := s.ever + {(k, v)},
                  since := s.since + (set i | i in s.registered :: (k, i)))
    // the match tree is walked with the queries registered now
    case Publish(k) =>
      && k in s.store
      && s' == s.(unpublished := s.unpublished - {k},
                  reading := s.reading + multiset(Calls(s, ro, k)))
    // a match client reads the leaf as it is now, not as it was stored
    case ReadLeaf(k, i) =>
      && (k, i) in s.reading && k in s.store
      && s' == s.(reading := s.reading - multiset{(k, i)},
                  sending := s.sending + multiset{(k, s.store[k])})
    case Send(k, v) =>
      && (k, v) in s.sending
      && s' == s.(sending := s.sending - multiset{(k, v)}, received := s.received + [(k, v)])
    case RegisterQuery =>
      && s.phase.Register?
      && (if s.phase.i < |ro.paths| then
            s' == s.(registered := s.registered + {s.phase.i},
                     phase := if ro.updatesOnly then Register(s.phase.i + 1) else GetCaches(s.phase.i))
          else s' == s.(phase := Live))
    case TakeCaches =>
      && s.phase.GetCaches?
      && s' == s.(phase := Walk(s.phase.i, set n | n in s.caches && (AllSubscriptions(ro) || ro.subscription == n)))
    case PickCache(sub) =>
      && s.phase.Walk? && sub in s.phase.todo
      && s' == s.(phase := if HasTarget(s, ro, sub)
                           then Visit(s.phase.i, QueryLeaves(s, ro, s.phase.i, sub), s.phase.todo - {sub})
                           else Walk(s.phase.i, s.phase.todo - {sub}))
    // a leaf that is there from the start of the query is visited; a later one may be
    case VisitLeaf(k) =>
      && s.phase.Visit? && k in s.store && Matches(ro, s.phase.i, k)
      && s' == s.(phase := Emit(s.phase.i, s.phase.leaves - {k}, s.phase.todo, k, s.store[k]))
    case EmitLeaf =>
      && s.phase.Emit?
      && s' == s.(phase := Visit(s.phase.i, s.phase.leaves, s.phase.todo), received := s.received + [(s.phase.k, s.phase.v)])
    case LeaveCache =>
      && s.phase.Visit? && s.phase.leaves == {}
      && s' == s.(phase := Walk(s.phase.i, s.phase.todo))
    case LeavePath =>
      && s.phase.Walk? && s.phase.todo == {}
      && s' == s.(phase := Register(s.phase.i + 1))
  }

  /** A run: a start and any number of steps, in any interleaving. */
  predicate IsRun(ro: ReadOpts, run: seq<State>, steps: seq<Step>) {
    && |run| == |steps| + 1 && Init(ro, run[0])
    && forall j | 0 <= j < |steps| :: Next(ro, run[j], steps[j], run[j + 1])
  }

  /** The reader is live and no write is on its way. */
  predicate Quiet(s: State) {
    s.phase == Live && s.unpublished == {} && s.reading == multiset{} && s.sending == multiset{}
  }

  // ---------------------------------------------------------------------
  // The invariant
  // ---------------------------------------------------------------------

  /** Paths the reader has not registered yet. */
  predicate Ahead(phase: Phase, i: nat) {
    !phase.Live? && (i > phase.i || (i == phase.i && phase.Register?))
  }

  /** The reader's own walk will still send the current value of k for path i. */
  predicate WillVisit(s: State, k: Key, i: nat) {
    match s.phase
    case Register(j) => j <= i
    case GetCaches(j) => j <= i
    case Walk(j, todo) => j < i || (j == i && k.sub in todo)
    case Visit(j, leaves, todo) => j < i || (j == i && (k in leaves || k.sub in todo))
    case Emit(j, leaves, todo, k', v) =>
      j < i || (j == i && (k in leaves || k.sub in todo || (k' == k && k in s.store && v == s.store[k])))
    case Live => false
  }

  /** The current value of k has reached the reader, or is bound to. */
  predicate Informed(s: State, k: Key, i: nat) {
    k in s.store &&
    (|| (k, s.store[k]) in s.received
     || k in s.unpublished
     || (k, i) in s.reading
     || (k, s.store[k]) in s.sending
     || WillVisit(s, k, i))
  }

  predicate StoreOk(s: State) {
    && (forall k | k in s.store :: k.sub in s.caches && k.target in s.caches[k.sub])
    && s.unpublished <= s.store.Keys
  }

  predicate CallsOk(ro: ReadOpts, s: State) {
    forall x | x in s.reading :: x.0 in s.store && Matches(ro, x.1, x.0)
  }

  predicate PhaseOk(ro: ReadOpts, s: State) {
    && (forall i | 0 <= i < |ro.paths| :: i in s.registered <==> !Ahead(s.phase, i))
    && (forall x | x in s.since :: x.0 in s.store && x.1 in s.registered)
    && (!s.phase.Register? && !s.phase.Live? ==> s.phase.i < |ro.paths| && !ro.updatesOnly)
  }

  predicate Consistent(ro: ReadOpts, s: State) { StoreOk(s) && CallsOk(ro, s) && PhaseOk(ro, s) }

  /** Every value on its way to the reader, or received, is one the leaf had, and
      the leaf matches a query. */
  ghost predicate Genuine(ro: ReadOpts, s: State) {
    && (forall k | k in s.store :: (k, s.store[k]) in s.ever)
    && (forall x | x in s.sending :: GenuineAt(ro, s, x))
    && (forall x | x in s.received :: GenuineAt(ro, s, x))
    && (s.phase.Emit? ==> GenuineAt(ro, s, (s.phase.k, s.phase.v)))
  }

  ghost predicate GenuineAt(ro: ReadOpts, s: State, x: (Key, Value)) {
    x in s.ever && exists i :: Matches(ro, i, x.0)
  }

  /** The leaves the read has to report: all of them, or those stored after the
      registration of a query when only updates are asked for. */
  predicate Due(ro: ReadOpts, s: State, k: Key, i: nat) {
    k in s.store && Matches(ro, i, k) && (!ro.updatesOnly || (k, i) in s.since)
  }

  ghost predicate AllInformed(ro: ReadOpts, s: State) {
    forall k, i | Due(ro, s, k, i) :: Informed(s, k, i)
  }

  lemma StoreStep(ro: ReadOpts, s: State, step: Step, s': State)
    requires StoreOk(s) && Next(ro, s, step, s')
    ensures StoreOk(s') && s.store.Keys <= s'.store.Keys
  {
  }

  lemma CallsStep(ro: ReadOpts, s: State, step: Step, s': State)
    requires CallsOk(ro, s) && Next(ro, s, step, s')
    ensures CallsOk(ro, s')
  {
    if step.Publish? {
      forall x | x in s'.reading ensures x.0 in s'.store && Matches(ro, x.1, x.0) {
        assert x in s.reading || x in Calls(s, ro, step.key);
      }
    } else {
      assert forall x | x in s'.reading :: x in s.reading;
    }
  }

  lemma PhaseStep(ro: ReadOpts, s: State, step: Step, s': State)
    requires PhaseOk(ro, s) && Next(ro, s, step, s')
    ensures PhaseOk(ro, s')
  {
  }

  lemma GenuineSending(ro: ReadOpts, s: State, step: Step, s': State, x: (Key, Value))
    requires CallsOk(ro, s) && Genuine(ro, s) && Next(ro, s, step, s') && x in s'.sending
    ensures GenuineAt(ro, s', x)
  {
    if x in s.sending {
      assert GenuineAt(ro, s, x);
    } else {
      assert step.ReadLeaf? && x == (step.key, s.store[step.key]);
      assert Matches(ro, step.query, (step.key, step.query).0);
    }
  }

  lemma GenuineReceived(ro: ReadOpts, s: State, step: Step, s': State, x: (Key, Value))
    requires Genuine(ro, s) && Next(ro, s, step, s') && x in s'.received
    ensures GenuineAt(ro, s', x)
  {
    if x in s.received || x in s.sending {
      assert GenuineAt(ro, s, x);
    } else {
      assert step.EmitLeaf? && x == (s.phase.k, s.phase.v);
    }
  }

  lemma GenuineStep(ro: ReadOpts, s: State, step: Step, s': State)
    requires CallsOk(ro, s) && Genuine(ro, s) && Next(ro, s, step, s')
    ensures Genuine(ro, s')
  {
    forall x | x in s'.sending ensures GenuineAt(ro, s', x) { GenuineSending(ro, s, step, s', x); }
    forall x | x in s'.received ensures GenuineAt(ro, s', x) { GenuineReceived(ro, s, step, s', x); }
  }

  /** Steps of writers keep the reader informed. */
  lemma InformedWriter(ro: ReadOpts, s: State, step: Step, s': State, k: Key, i: nat)
    requires step.Publish? || step.ReadLeaf? || step.Send?
    requires PhaseOk(ro, s) && Next(ro, s, step, s')
    requires Matches(ro, i, k) && Informed(s, k, i)
    ensures Informed(s', k, i)
  {
    match step
    case Publish(k') =>
      if k' == k && i in s.registered { assert (k, i) in Calls(s, ro, k); }
    case ReadLeaf(k', i') =>
      assert (k, i) in s.reading ==> (k, i) in s'.reading || (k, s.store[k]) in s'.sending;
    case Send(k', v) =>
      assert (k', v) in s'.received;
  }

  /** Steps of the reader keep it informed. */
  lemma InformedReader(ro: ReadOpts, s: State, step: Step, s': State, k: Key, i: nat)
    requires StoreOk(s) && PhaseOk(ro, s) && Next(ro, s, step, s')
    requires !step.Prepare? && !step.Store? && !step.Publish? && !step.ReadLeaf? && !step.Send?
    requires Matches(ro, i, k) && Informed(s, k, i) && (!ro.updatesOnly || i in s.registered)
    ensures Informed(s', k, i)
  {
    if WillVisit(s, k, i) && !WillVisit(s', k, i) {
      if step.EmitLeaf? { assert s'.received[|s.received|] == (s.phase.k, s.phase.v); }
    }
  }

  lemma InformedStep(ro: ReadOpts, s: State, step: Step, s': State, k: Key, i: nat)
    requires Consistent(ro, s) && AllInformed(ro, s) && Next(ro, s, step, s')
    requires Due(ro, s', k, i)
    ensures Informed(s', k, i)
  {
    if !(step.Store? && step.key == k) {
      assert Due(ro, s, k, i);
      assert Informed(s, k, i);
      if step.Publish? || step.ReadLeaf? || step.Send? {
        InformedWriter(ro, s, step, s', k, i);
      } else if !step.Prepare? && !step.Store? {
        InformedReader(ro, s, step, s', k, i);
      }
    }
  }

  lemma {:induction false} RunInvariant(ro: ReadOpts, run: seq<State>, steps: seq<Step>, j: nat)
    requires IsRun(ro, run, steps) && j < |run|
    ensures Consistent(ro, run[j]) && Genuine(ro, run[j]) && AllInformed(ro, run[j])
  {
    if j > 0 {
      RunInvariant(ro, run, steps, j - 1);
      var s, step, s' := run[j - 1], steps[j - 1], run[j];
      assert Next(ro, s, step, s');
      StoreStep(ro, s, step, s');
      CallsStep(ro, s, step, s');
      PhaseStep(ro, s, step, s');
      GenuineStep(ro, s, step, s');
      forall k, i | Due(ro, s', k, i) ensures Informed(s', k, i) { InformedStep(ro, s, step, s', k, i); }
    }
  }

  /** No update is lost: when everything has settled, the reader has received the
      final value of every matching leaf, whichever caches and targets existed
      when the read began. */
  lemma NoLostUpdate(ro: ReadOpts, run: seq<State>, steps: seq<Step>, k: Key, i: nat)
    requires IsRun(ro, run, steps) && !ro.updatesOnly
    requires Quiet(run[|run| - 1]) && k in run[|run| - 1].store && Matches(ro, i, k)
    ensures (k, run[|run| - 1].store[k]) in run[|run| - 1].received
  {
    RunInvariant(ro, run, steps, |run| - 1);
    assert Due(ro, run[|run| - 1], k, i);
  }

  /** With updates_only the same holds for every leaf stored after its query was
      registered. */
  lemma NoLostUpdateSince(ro: ReadOpts, run: seq<State>, steps: seq<Step>, k: Key, i: nat)
    requires IsRun(ro, run, steps)
    requires Quiet(run[|run| - 1]) && (k, i) in run[|run| - 1].since && Matches(ro, i, k)
    ensures k in run[|run| - 1].store && (k, run[|run| - 1].store[k]) in run[|run| - 1].received
  {
    RunInvariant(ro, run, steps, |run| - 1);
    assert Due(ro, run[|run| - 1], k, i);
  }

  /** Nothing is made up: a received value is one the leaf had, and the leaf
      matches a query of the read. */
  lemma OnlyGenuineUpdates(ro: ReadOpts, run: seq<State>, steps: seq<Step>, j: nat, x: (Key, Value))
    requires IsRun(ro, run, steps) && j < |run| && x in run[j].received
    ensures x in run[j].ever && exists i :: Matches(ro, i, x.0)
  {
    RunInvariant(ro, run, steps, j);
  }

  // ---------------------------------------------------------------------
  // Which value comes last
  // ---------------------------------------------------------------------

  /** The step sends a value of k to the reader. */
  predicate Sends(s: State, step: Step, k: Key) {
    (step.Send? && step.key == k) || (step.EmitLeaf? && s.phase.Emit? && s.phase.k == k)
  }

  function SentValue(s: State, step: Step, k: Key): Value
    requires Sends(s, step, k)
  {
    if step.Send? then step.value else s.phase.v
  }

  /** The last value received for k. */
  function LastFor(received: seq<(Key, Value)>, k: Key): Option<Value> {
    if received == [] then None
    else
      var x := received[|received| - 1];
      if x.0 == k then Some(x.1) else LastFor(received[..|received| - 1], k)
  }

  lemma LastForSnoc(received: seq<(Key, Value)>, x: (Key, Value), k: Key)
    ensures LastFor(received + [x], k) == if x.0 == k then Some(x.1) else LastFor(received, k)
  {
    assert (received + [x])[..|received|] == received;
  }

  /** A writer has a value of k to send. */
  predicate Sending(s: State, k: Key) { exists x | x in s.sending :: x.0 == k }

  /** The reader's walk has one to send. */
  predicate Walking(s: State, k: Key, i: nat) {
    (s.phase.Emit? && s.phase.k == k) || WillVisit(s, k, i)
  }

  /** A value of k will still be sent. */
  predicate Outstanding(s: State, k: Key, i: nat) {
    k in s.unpublished || (k, i) in s.reading || Sending(s, k) || Walking(s, k, i)
  }

  lemma OutstandingWriter(ro: ReadOpts, s: State, step: Step, s': State, k: Key, i: nat)
    requires step.Publish? || step.ReadLeaf? || step.Send?
    requires PhaseOk(ro, s) && Next(ro, s, step, s') && !ro.updatesOnly
    requires Matches(ro, i, k) && Outstanding(s, k, i) && !Sends(s, step, k)
    ensures Outstanding(s', k, i)
  {
    hide PathMatches, Sending;
    SendingStep(ro, s, step, s', k);
    match step
    case Publish(k') =>
      if k' == k && i in s.registered { assert (k, i) in Calls(s, ro, k); }
    case ReadLeaf(k', i') =>
      assert (k, i) in s.reading ==> (k, i) in s'.reading || k' == k;
    case Send(k', v) =>
  }

  lemma SendingStep(ro: ReadOpts, s: State, step: Step, s': State, k: Key)
    requires Next(ro, s, step, s') && !Sends(s, step, k)
    ensures Sending(s, k) ==> Sending(s', k)
    ensures step.ReadLeaf? && step.key == k ==> Sending(s', k)
  {
    if Sending(s, k) {
      var x :| x in s.sending && x.0 == k;
      assert x in s'.sending;
    }
    if step.ReadLeaf? && step.key == k { assert (k, s.store[k]) in s'.sending; }
  }

  lemma OutstandingReader(ro: ReadOpts, s: State, step: Step, s': State, k: Key, i: nat)
    requires StoreOk(s) && PhaseOk(ro, s) && Next(ro, s, step, s') && !ro.updatesOnly
    requires !step.Publish? && !step.ReadLeaf? && !step.Send?
    requires k in s.store && Matches(ro, i, k) && Outstanding(s, k, i) && !Sends(s, step, k)
    ensures Outstanding(s', k, i)
  {
    SendingStep(ro, s, step, s', k);
    hide Sending;
  }

  lemma OutstandingStep(ro: ReadOpts, s: State, step: Step, s': State, k: Key, i: nat)
    requires Consistent(ro, s) && Next(ro, s, step, s') && !ro.updatesOnly
    requires k in s.store && Matches(ro, i, k) && Outstanding(s, k, i) && !Sends(s, step, k)
    ensures Outstanding(s', k, i)
  {
    hide Next, Outstanding, Matches, Sends, StoreOk, PhaseOk;
    if step.Publish? || step.ReadLeaf? || step.Send? {
      OutstandingWriter(ro, s, step, s', k, i);
    } else {
      OutstandingReader(ro, s, step, s', k, i);
    }
  }

  lemma ReceivedStep(ro: ReadOpts, s: State, step: Step, s': State, k: Key)
    requires Next(ro, s, step, s')
    ensures LastFor(s'.received, k) == if Sends(s, step, k) then Some(SentValue(s, step, k)) else LastFor(s.received, k)
    ensures k in s.store ==> k in s'.store
    ensures !(step.Store? && step.key == k) ==>
              (k in s'.store <==> k in s.store) && (k in s.store ==> s'.store[k] == s.store[k])
    ensures step.Store? && step.key == k ==> k in s'.store && k in s'.unpublished
  {
    if step.Send? { LastForSnoc(s.received, (step.key, step.value), k); }
    if step.EmitLeaf? { LastForSnoc(s.received, (s.phase.k, s.phase.v), k); }
  }

  /** After the last value of k was sent: it stays the last one received, and k is
      as it was then, or a value is outstanding. */
  lemma {:induction false} SinceSend(ro: ReadOpts, run: seq<State>, steps: seq<Step>, k: Key, i: nat, j: nat, l: nat)
    requires IsRun(ro, run, steps) && !ro.updatesOnly && Matches(ro, i, k)
    requires j < l < |run| && Sends(run[j], steps[j], k)
    requires forall m | j < m < |steps| :: !Sends(run[m], steps[m], k)
    ensures LastFor(run[l].received, k) == Some(SentValue(run[j], steps[j], k))
    ensures k in run[l].store ==>
              (k in run[j].store && run[j].store[k] == run[l].store[k]) || Outstanding(run[l], k, i)
    decreases l
  {
    hide Next, Matches, Sends, SentValue, LastFor, Consistent, Genuine, AllInformed;
    var s, step, s' := run[l - 1], steps[l - 1], run[l];
    assert Next(ro, s, step, s');
    ReceivedStep(ro, s, step, s', k);
    if j < l - 1 {
      SinceSend(ro, run, steps, k, i, j, l - 1);
      RunInvariant(ro, run, steps, l - 1);
      hide Outstanding;
      if step.Store? && step.key == k {
        StoredOutstanding(s', k, i);
      } else if k in s.store && Outstanding(s, k, i) {
        OutstandingStep(ro, s, step, s', k, i);
      }
    } else if step.Store? && step.key == k {
      StoredOutstanding(s', k, i);
    }
  }

  lemma StoredOutstanding(s: State, k: Key, i: nat)
    requires k in s.unpublished
    ensures Outstanding(s, k, i)
  {
  }

  /** When everything has settled, the value received last for a leaf is the
      current one exactly when it was current at the moment it was sent. */
  lemma LastIsCurrentIff(ro: ReadOpts, run: seq<State>, steps: seq<Step>, k: Key, i: nat, j: nat)
    requires IsRun(ro, run, steps) && !ro.updatesOnly && Quiet(run[|run| - 1])
    requires k in run[|run| - 1].store && Matches(ro, i, k)
    requires j < |steps| && Sends(run[j], steps[j], k)
    requires forall m | j < m < |steps| :: !Sends(run[m], steps[m], k)
    ensures LastFor(run[|run| - 1].received, k) == Some(SentValue(run[j], steps[j], k))
    ensures LastFor(run[|run| - 1].received, k) == Some(run[|run| - 1].store[k]) <==>
            k in run[j].store && run[j].store[k] == SentValue(run[j], steps[j], k)
  {
    SinceSend(ro, run, steps, k, i, j, |run| - 1);
  }

  /** A run that ends with a stale value: the walk has read "old" and sends it
      after a writer has stored, published and sent "new". */
  lemma StaleComesLast() returns (ro: ReadOpts, run: seq<State>, steps: seq<Step>, k: Key)
    ensures IsRun(ro, run, steps) && !ro.updatesOnly && Matches(ro, 0, k)
    ensures var end := run[|run| - 1];
      && Quiet(end) && k in end.store && end.store[k] == "new" && LastFor(end.received, k) == Some("old")
  {
    hide Next, Matches, Init, LastFor;
    ro := ReadOpts("", GLOB, [["leaf"]], false);
    k := Key("sub", "r1", ["leaf"]);
    var s0 := State(map["sub" := {"r1"}], map[k := "old"], {}, multiset{}, multiset{}, {}, Register(0), [], {(k, "old")}, {});
    var s1 := s0.(registered := {0}, phase := GetCaches(0));
    var s2 := s1.(phase := Walk(0, {"sub"}));
    var s3 := s2.(phase := Visit(0, {k}, {}));
    var s4 := s3.(phase := Emit(0, {}, {}, k, "old"));
    var s5 := s4.(store := map[k := "new"], unpublished := {k}, ever := {(k, "old"), (k, "new")}, since := {(k, 0)});
    var s6 := s5.(unpublished := {}, reading := multiset{(k, 0)});
    var s7 := s6.(reading := multiset{}, sending := multiset{(k, "new")});
    var s8 := s7.(sending := multiset{}, received := [(k, "new")]);
    var s9 := s8.(phase := Visit(0, {}, {}), received := [(k, "new"), (k, "old")]);
    var s10 := s9.(phase := Walk(0, {}));
    var s11 := s10.(phase := Register(1));
    var s12 := s11.(phase := Live);
    run := [s0, s1, s2, s3, s4, s5, s6, s7, s8, s9, s10, s11, s12];
    steps := [RegisterQuery, TakeCaches, PickCache("sub"), VisitLeaf(k), Store(k, "new"), Publish(k),
              ReadLeaf(k, 0), Send(k, "new"), EmitLeaf, LeaveCache, LeavePath, RegisterQuery];
    StaleStart(ro, k, s0);
    StaleWalk(ro, k, s0, s1, s2, s3, s4);
    StaleStore(ro, k, s4, s5);
    StalePublish(ro, k, s5, s6);
    StaleSend(ro, k, s6, s7, s8);
    StaleRest(ro, k, s8, s9, s10, s11, s12);
    LastForSnoc([(k, "new")], (k, "old"), k);
    assert [(k, "new")] + [(k, "old")] == s12.received;
  }

  lemma StaleStart(ro: ReadOpts, k: Key, s: State)
    requires ro == ReadOpts("", GLOB, [["leaf"]], false) && k == Key("sub", "r1", ["leaf"])
    requires s == State(map["sub" := {"r1"}], map[k := "old"], {}, multiset{}, multiset{}, {}, Register(0), [], {(k, "old")}, {})
    ensures Init(ro, s) && Matches(ro, 0, k)
  {
  }

  lemma StaleWalk(ro: ReadOpts, k: Key, s0: State, s1: State, s2: State, s3: State, s4: State)
    requires ro == ReadOpts("", GLOB, [["leaf"]], false) && k == Key("sub", "r1", ["leaf"]) && Matches(ro, 0, k)
    requires s0 == State(map["sub" := {"r1"}], map[k := "old"], {}, multiset{}, multiset{}, {}, Register(0), [], {(k, "old")}, {})
    requires s1 == s0.(registered := {0}, phase := GetCaches(0)) && s2 == s1.(phase := Walk(0, {"sub"}))
    requires s3 == s2.(phase := Visit(0, {k}, {})) && s4 == s3.(phase := Emit(0, {}, {}, k, "old"))
    ensures Next(ro, s0, RegisterQuery, s1) && Next(ro, s1, TakeCaches, s2)
    ensures Next(ro, s2, PickCache("sub"), s3) && Next(ro, s3, VisitLeaf(k), s4)
  {
    hide Matches;
    assert {} + {0} == {0};
    assert (set n | n in s1.caches && (AllSubscriptions(ro) || ro.subscription == n)) == {"sub"};
    assert QueryLeaves(s2, ro, 0, "sub") == {k};
    assert {"sub"} - {"sub"} == {} && {k} - {k} == {};
  }

  lemma StaleStore(ro: ReadOpts, k: Key, s: State, s': State)
    requires k.sub in s.caches && k.target in s.caches[k.sub]
    requires s.store == map[k := "old"] && s.unpublished == {} && s.registered == {0}
    requires s.ever == {(k, "old")} && s.since == {}
    requires s' == s.(store := map[k := "new"], unpublished := {k}, ever := {(k, "old"), (k, "new")}, since := {(k, 0)})
    ensures Next(ro, s, Store(k, "new"), s')
  {
    assert s.store[k := "new"] == map[k := "new"];
    assert (set i | i in s.registered :: (k, i)) == {(k, 0)};
    assert {(k, "old")} + {(k, "new")} == {(k, "old"), (k, "new")};
  }

  lemma StalePublish(ro: ReadOpts, k: Key, s: State, s': State)
    requires Matches(ro, 0, k) && k in s.store && s.unpublished == {k} && s.registered == {0} && s.reading == multiset{}
    requires s' == s.(unpublished := {}, reading := multiset{(k, 0)})
    ensures Next(ro, s, Publish(k), s')
  {
    hide Matches;
    assert Calls(s, ro, k) == {(k, 0)};
    assert multiset({(k, 0)}) == multiset{(k, 0)};
  }

  lemma StaleSend(ro: ReadOpts, k: Key, s: State, s': State, s'': State)
    requires s.store == map[k := "new"] && s.reading == multiset{(k, 0)} && s.sending == multiset{} && s.received == []
    requires s' == s.(reading := multiset{}, sending := multiset{(k, "new")})
    requires s'' == s'.(sending := multiset{}, received := [(k, "new")])
    ensures Next(ro, s, ReadLeaf(k, 0), s') && Next(ro, s', Send(k, "new"), s'')
  {
    assert [] + [(k, "new")] == [(k, "new")];
  }

  lemma StaleRest(ro: ReadOpts, k: Key, s8: State, s9: State, s10: State, s11: State, s12: State)
    requires |ro.paths| == 1 && s8.phase == Emit(0, {}, {}, k, "old") && s8.received == [(k, "new")]
    requires s9 == s8.(phase := Visit(0, {}, {}), received := [(k, "new"), (k, "old")])
    requires s10 == s9.(phase := Walk(0, {})) && s11 == s10.(phase := Register(1)) && s12 == s11.(phase := Live)
    ensures Next(ro, s8, EmitLeaf, s9) && Next(ro, s9, LeaveCache, s10)
    ensures Next(ro, s10, LeavePath, s11) && Next(ro, s11, RegisterQuery, s12)
  {
    assert [(k, "new")] + [(k, "old")] == [(k, "new"), (k, "old")];
  }
}
