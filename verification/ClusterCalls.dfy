/** The calls of a cluster leader (pkg/app/clustering.go): what a series of calls
    to the locker and to the instances says about selections, failures and
    waiting, whatever the code that made them reports. */
module ClusterCalls {
  import opened Basics
  import opened ClusterLoad

  const LOCK_WAIT_TIME := 100_000_000

  datatype DispatchError = NoError | Canceled | LockerFailed | NoServices | NoSuitable | UnassignFailed

  /** One selection of a dispatch: the service, whether it accepted the target,
      and how many reads found the lock still free. */
  datatype Attempt = Attempt(service: string, accepted: bool, emptyReads: nat)

  /** A call and its answer. */
  datatype Event =
    | Assigned(service: string, ok: bool)
    | Unassigned(name: string, service: string, ok: bool)
    | LockChecked(name: string, ok: bool, locked: bool)
    | LockRead(name: string, ok: bool, holder: Option<string>)
    | Listed(ok: bool)
    | ContextChecked(done: bool)
  {
    predicate Empty() { LockRead? && ok && (holder == None || holder.value == "") }

    /** The lock was seen to be held. */
    predicate SeesHolder() { (LockChecked? && ok && locked) || (LockRead? && ok && holder.Some? && holder.value != "") }

    /** Nothing but locks of this target is looked at or released. */
    predicate Concerns(target: string) {
      Unassigned? || LockChecked? || LockRead? ==> name == target
    }
  }

  /** The last of the calls made since answers for the error. */
  predicate Explained(err: DispatchError, before: seq<Event>, now: seq<Event>) {
    err.NoError? || (
      && before < now
      && var last := now[|now| - 1];
      match err
      case Canceled => last == ContextChecked(true)
      case LockerFailed => last == Listed(false) || (last.LockChecked? && !last.ok)
      case UnassignFailed => last.Unassigned? && !last.ok
      case _ => true)
  }

  /** The selections behind a series of calls, each with its empty reads. */
  function TraceOf(es: seq<Event>): seq<Attempt> {
    if es == [] then []
    else
      var trace, e := TraceOf(es[..|es| - 1]), es[|es| - 1];
      if e.Assigned? then trace + [Attempt(e.service, e.ok, 0)]
      else if e.Empty() && trace != [] then
        var last := trace[|trace| - 1];
        trace[|trace| - 1 := last.(emptyReads := last.emptyReads + 1)]
      else trace
  }

  function EmptyReads(es: seq<Event>): nat {
    if es == [] then 0 else EmptyReads(es[..|es| - 1]) + if es[|es| - 1].Empty() then 1 else 0
  }

  /** No assignment, and no other target concerned. */
  predicate Waiting(es: seq<Event>, name: string) {
    forall e | e in es :: !e.Assigned? && e.Concerns(name)
  }

  lemma TraceSnoc(es: seq<Event>, e: Event)
    ensures e.Assigned? ==> TraceOf(es + [e]) == TraceOf(es) + [Attempt(e.service, e.ok, 0)]
    ensures EmptyReads(es + [e]) == EmptyReads(es) + if e.Empty() then 1 else 0
  {
    assert (es + [e])[..|es|] == es;
  }

  /** The calls of a dispatch: assignments as in the trace, no other target
      concerned. */
  ghost predicate Dispatched(es: seq<Event>, trace: seq<Attempt>, name: string) {
    TraceOf(es) == trace && forall e | e in es :: e.Concerns(name)
  }

  /** Names of the targets that were released. */
  ghost function Released(es: seq<Event>): set<string> { set e | e in es && e.Unassigned? :: e.name }

  lemma ReleasedAppend(a: seq<Event>, b: seq<Event>)
    ensures Released(a + b) == Released(a) + Released(b)
    ensures Released([]) == {}
  {
    assert forall e :: e in a + b <==> e in a || e in b;
  }

  lemma ReleasedOne(n: string, service: string, ok: bool, es: seq<Event>, trace: seq<Attempt>)
    requires Dispatched(es, trace, n)
    ensures Released([Listed(true)]) == {} && Released([Listed(false)]) == {}
    ensures Released([Listed(true), Unassigned(n, service, ok)]) == {n}
    ensures Released([Listed(true), Unassigned(n, service, ok)] + es) == {n}
  {
    var first := [Listed(true), Unassigned(n, service, ok)];
    assert first[1] in first && first[1] in first + es;
    ReleasedAppend(first, es);
  }

  /** The calls of one selection: an assignment, then reads and releases. */
  ghost predicate OneSelection(es: seq<Event>, a: Attempt, name: string) {
    && es != [] && es[0] == Assigned(a.service, a.accepted)
    && Waiting(es[1..], name) && EmptyReads(es[1..]) == a.emptyReads
  }

  /** What follows an assignment only adds empty reads to its selection. */
  lemma {:induction false} TraceWaiting(es: seq<Event>, trace: seq<Attempt>, a: Attempt, waits: seq<Event>, name: string)
    requires TraceOf(es) == trace + [a] && a.emptyReads == 0 && Waiting(waits, name)
    ensures TraceOf(es + waits) == trace + [a.(emptyReads := EmptyReads(waits))]
    decreases |waits|
  {
    if waits == [] {
      assert es + waits == es;
    } else {
      var w, e := waits[..|waits| - 1], waits[|waits| - 1];
      assert e in waits && forall x | x in w :: x in waits;
      TraceWaiting(es, trace, a, w, name);
      assert (es + waits)[..|es + waits| - 1] == es + w;
    }
  }

  /** Calls that are neither assignments nor lock reads. */
  lemma TraceQuiet(es: seq<Event>, e: Event)
    requires !e.Assigned? && !e.LockRead?
    ensures TraceOf(es + [e]) == TraceOf(es)
  {
    assert (es + [e])[..|es|] == es;
  }

  // ---------------------------------------------------------------------
  // Bounds
  // ---------------------------------------------------------------------

  /** Empty reads before a reselection: max(1, ceil(timeout / wait) - 1). */
  function MaxEmptyReads(timeout: int): nat {
    var enough := (timeout + LOCK_WAIT_TIME - 1) / LOCK_WAIT_TIME - 1;
    if enough < 1 then 1 else enough
  }

  /** It is the first number of reads, at least one, at which one more waiting time
      reaches the timeout. */
  lemma MaxEmptyReadsIs(timeout: int)
    ensures var n := MaxEmptyReads(timeout);
      && n >= 1 && (n + 1) * LOCK_WAIT_TIME >= timeout
      && (n == 1 || n * LOCK_WAIT_TIME < timeout)
  {
  }

  ghost function Failed(trace: seq<Attempt>): set<string> {
    set a | a in trace && !a.accepted :: a.service
  }

  function FailCount(trace: seq<Attempt>): nat {
    if trace == [] then 0
    else FailCount(trace[..|trace| - 1]) + if trace[|trace| - 1].accepted then 0 else 1
  }

  /** Selected services are registered and not denied, none is selected again
      after it failed, and waiting is bounded. */
  ghost predicate Within(trace: seq<Attempt>, services: Services, denied: seq<string>, timeout: int) {
    && (forall a | a in trace :: a.service in services && a.service !in denied && a.emptyReads <= MaxEmptyReads(timeout))
    && (forall i, j | 0 <= i < j < |trace| :: !trace[i].accepted ==> trace[j].service != trace[i].service)
  }

  ghost predicate Bounded(trace: seq<Attempt>, services: Services, denied: seq<string>, timeout: int) {
    Within(trace, services, denied, timeout) && FailCount(trace) == |Failed(trace)|
  }

  lemma BoundedSnoc(trace: seq<Attempt>, a: Attempt, services: Services, denied: seq<string>, timeout: int)
    requires Bounded(trace, services, denied, timeout)
    requires a.service in services && a.service !in denied && a.service !in Failed(trace)
    requires a.emptyReads <= MaxEmptyReads(timeout)
    ensures Bounded(trace + [a], services, denied, timeout)
    ensures Failed(trace + [a]) == Failed(trace) + if a.accepted then {} else {a.service}
  {
    hide MaxEmptyReads, Within, Failed;
    assert (trace + [a])[..|trace|] == trace;
    FailedSnoc(trace, a);
    WithinSnoc(trace, a, services, denied, timeout);
  }

  lemma WithinSnoc(trace: seq<Attempt>, a: Attempt, services: Services, denied: seq<string>, timeout: int)
    requires Within(trace, services, denied, timeout)
    requires a.service in services && a.service !in denied && a.service !in Failed(trace)
    requires a.emptyReads <= MaxEmptyReads(timeout)
    ensures Within(trace + [a], services, denied, timeout)
  {
    hide MaxEmptyReads;
    var longer := trace + [a];
    forall i, j | 0 <= i < j < |longer| && !longer[i].accepted ensures longer[j].service != longer[i].service {
      assert longer[i] in trace;
    }
  }

  /** The growing deny list: service ids, the initial ones and the failed ones. */
  ghost predicate DeniedSoFar(denied: seq<string>, initially: seq<string>, trace: seq<Attempt>) {
    ServiceIds(denied) && forall d :: d in denied <==> d in initially || d in Failed(trace)
  }

  lemma DeniedSnoc(denied: seq<string>, initially: seq<string>, trace: seq<Attempt>, attempt: Attempt)
    requires DeniedSoFar(denied, initially, trace) && HasApiSuffix(attempt.service)
    ensures DeniedSoFar(if attempt.accepted then denied else denied + [attempt.service], initially, trace + [attempt])
  {
    FailedSnoc(trace, attempt);
  }

  lemma FailedSnoc(trace: seq<Attempt>, a: Attempt)
    ensures Failed(trace + [a]) == Failed(trace) + if a.accepted then {} else {a.service}
  {
  }

  /** Failed assignments never outnumber the services that were not denied. */
  lemma FailuresBounded(trace: seq<Attempt>, services: Services, denied: seq<string>, timeout: int)
    requires Bounded(trace, services, denied, timeout)
    ensures FailCount(trace) <= |services.Keys - set d | d in denied|
  {
    SubsetSize(Failed(trace), services.Keys - set d | d in denied);
  }

  lemma {:induction false} SubsetSize(a: set<string>, b: set<string>)
    requires a <= b
    ensures |a| <= |b|
    decreases a
  {
    if a != {} {
      var x :| x in a;
      SubsetSize(a - {x}, b - {x});
    }
  }

  // ---------------------------------------------------------------------
  // The same bounds on the calls themselves
  // ---------------------------------------------------------------------

  /** A service is assigned only if it is registered and not denied, and not again
      after it refused; between two assignments reads of a free lock are bounded. */
  ghost predicate CallsBounded(es: seq<Event>, services: Services, denied: seq<string>, timeout: int) {
    && (forall i | 0 <= i < |es| && es[i].Assigned? :: es[i].service in services && es[i].service !in denied)
    && (forall i, j | 0 <= i < j < |es| && es[i].Assigned? && es[j].Assigned? && !es[i].ok :: es[j].service != es[i].service)
    && (forall a, j | 0 <= a < j <= |es| && es[a].Assigned? && (forall k | a < k < j :: !es[k].Assigned?) ::
          |EmptyAfter(es, a, j)| <= MaxEmptyReads(timeout))
  }

  ghost function EmptyAfter(es: seq<Event>, a: nat, j: nat): set<nat>
    requires j <= |es|
  {
    set k: nat | a < k < j && es[k].Empty()
  }

  lemma {:induction false} FailedCalls(es: seq<Event>, s: string)
    ensures s in Failed(TraceOf(es)) <==> Assigned(s, false) in es
    decreases |es|
  {
    if es != [] {
      var before, e := es[..|es| - 1], es[|es| - 1];
      assert es == before + [e];
      FailedCalls(before, s);
      var trace, t := TraceOf(before), TraceOf(es);
      if e.Assigned? {
        FailedSnoc(trace, Attempt(e.service, e.ok, 0));
      } else if e.Empty() && trace != [] {
        FailedLast(trace, t);
      }
    }
  }

  lemma FailedLast(a: seq<Attempt>, b: seq<Attempt>)
    requires |a| == |b| > 0 && a[..|a| - 1] == b[..|b| - 1]
    requires a[|a| - 1].service == b[|b| - 1].service && a[|a| - 1].accepted == b[|b| - 1].accepted
    ensures Failed(a) == Failed(b)
  {
    var n := |a| - 1;
    assert a == a[..n] + [a[n]] && b == a[..n] + [b[n]];
    FailedSnoc(a[..n], a[n]);
    FailedSnoc(a[..n], b[n]);
  }

  lemma WithinPrefix(trace: seq<Attempt>, services: Services, denied: seq<string>, timeout: int, n: nat)
    requires n <= |trace| && Within(trace, services, denied, timeout)
    ensures Within(trace[..n], services, denied, timeout)
  {
    assert forall a | a in trace[..n] :: a in trace;
  }

  /** What is within the bounds was so before the last call. */
  lemma WithinBefore(es: seq<Event>, services: Services, denied: seq<string>, timeout: int)
    requires es != [] && Within(TraceOf(es), services, denied, timeout)
    ensures Within(TraceOf(es[..|es| - 1]), services, denied, timeout)
  {
    var before, e := es[..|es| - 1], es[|es| - 1];
    var trace, t := TraceOf(before), TraceOf(es);
    if e.Assigned? {
      assert t[..|trace|] == trace;
      hide TraceOf;
      WithinPrefix(t, services, denied, timeout, |trace|);
    } else if e.Empty() && trace != [] {
      var n := |trace| - 1;
      assert t == trace[n := trace[n].(emptyReads := trace[n].emptyReads + 1)];
      hide TraceOf;
      FewerReads(trace, t, services, denied, timeout);
    }
  }

  lemma FewerReads(trace: seq<Attempt>, t: seq<Attempt>, services: Services, denied: seq<string>, timeout: int)
    requires trace != [] && Within(t, services, denied, timeout)
    requires var n := |trace| - 1; t == trace[n := trace[n].(emptyReads := trace[n].emptyReads + 1)]
    ensures Within(trace, services, denied, timeout)
  {
    forall a | a in trace
      ensures a.service in services && a.service !in denied && a.emptyReads <= MaxEmptyReads(timeout)
    {
      var i :| 0 <= i < |trace| && trace[i] == a;
      assert t[i] in t;
    }
    hide MaxEmptyReads;
    assert forall i | 0 <= i < |trace| :: t[i].service == trace[i].service && t[i].accepted == trace[i].accepted;
  }

  lemma {:induction false} WithinAt(es: seq<Event>, services: Services, denied: seq<string>, timeout: int, j: nat)
    requires j <= |es| && Within(TraceOf(es), services, denied, timeout)
    ensures Within(TraceOf(es[..j]), services, denied, timeout)
    decreases |es|
  {
    if j == |es| {
      assert es[..j] == es;
    } else {
      WithinBefore(es, services, denied, timeout);
      WithinAt(es[..|es| - 1], services, denied, timeout, j);
      assert es[..|es| - 1][..j] == es[..j];
    }
  }

  lemma EmptyAfterSnoc(es: seq<Event>, a: nat, j: nat)
    requires a < j < |es|
    ensures |EmptyAfter(es, a, j + 1)| == |EmptyAfter(es, a, j)| + if es[j].Empty() then 1 else 0
  {
    assert EmptyAfter(es, a, j + 1) == EmptyAfter(es, a, j) + if es[j].Empty() then {j} else {};
  }

  /** The selection made at a, some calls later. */
  lemma {:induction false} SelectionAt(es: seq<Event>, a: nat, j: nat)
    requires a < j <= |es| && es[a].Assigned? && forall k | a < k < j :: !es[k].Assigned?
    ensures var trace := TraceOf(es[..j]);
      && trace != [] && trace[|trace| - 1].service == es[a].service && trace[|trace| - 1].accepted == es[a].ok
      && |EmptyAfter(es, a, j)| == trace[|trace| - 1].emptyReads
      && trace[..|trace| - 1] == TraceOf(es[..a])
    decreases j
  {
    assert es[..j] == es[..j - 1] + [es[j - 1]];
    if j == a + 1 {
      assert EmptyAfter(es, a, j) == {};
      TraceSnoc(es[..a], es[a]);
    } else {
      SelectionAt(es, a, j - 1);
      EmptyAfterSnoc(es, a, j - 1);
      hide EmptyAfter;
      assert es[..j][..j - 1] == es[..j - 1];
    }
  }

  lemma CallsWithin(es: seq<Event>, services: Services, denied: seq<string>, timeout: int)
    requires Within(TraceOf(es), services, denied, timeout)
    ensures CallsBounded(es, services, denied, timeout)
  {
    forall a, j | 0 <= a < j <= |es| && es[a].Assigned? && (forall k | a < k < j :: !es[k].Assigned?)
      ensures |EmptyAfter(es, a, j)| <= MaxEmptyReads(timeout)
    {
      SelectionAt(es, a, j);
      WithinAt(es, services, denied, timeout, j);
      var trace := TraceOf(es[..j]);
      assert trace[|trace| - 1] in trace;
    }
    forall i | 0 <= i < |es| && es[i].Assigned? ensures es[i].service in services && es[i].service !in denied {
      SelectionAt(es, i, i + 1);
      WithinAt(es, services, denied, timeout, i + 1);
      var trace := TraceOf(es[..i + 1]);
      assert trace[|trace| - 1] in trace;
    }
    forall i, j | 0 <= i < j < |es| && es[i].Assigned? && es[j].Assigned? && !es[i].ok
      ensures es[j].service != es[i].service
    {
      RefusedOnce(es, services, denied, timeout, i, j);
    }
  }

  lemma RefusedOnce(es: seq<Event>, services: Services, denied: seq<string>, timeout: int, i: nat, j: nat)
    requires Within(TraceOf(es), services, denied, timeout)
    requires i < j < |es| && es[i].Assigned? && es[j].Assigned? && !es[i].ok
    ensures es[j].service != es[i].service
  {
    hide TraceOf, EmptyAfter;
    SelectionAt(es, j, j + 1);
    WithinAt(es, services, denied, timeout, j + 1);
    assert es[..j][i] == Assigned(es[i].service, false);
    FailedCalls(es[..j], es[i].service);
    NotSelected(TraceOf(es[..j + 1]), services, denied, timeout, es[i].service);
  }

  lemma NotSelected(trace: seq<Attempt>, services: Services, denied: seq<string>, timeout: int, s: string)
    requires trace != [] && Within(trace, services, denied, timeout) && s in Failed(trace[..|trace| - 1])
    ensures trace[|trace| - 1].service != s
  {
    var a :| a in trace[..|trace| - 1] && !a.accepted && a.service == s;
    var k :| 0 <= k < |trace| - 1 && trace[k] == a;
  }

  /** Failed assignments are as many as the calls that were refused. */
  ghost function RefusedAt(es: seq<Event>): set<int> {
    set i | 0 <= i < |es| && es[i].Assigned? && !es[i].ok
  }

  lemma RefusedSnoc(es: seq<Event>)
    requires es != []
    ensures var n := |es| - 1;
      |RefusedAt(es)| == |RefusedAt(es[..n])| + if es[n].Assigned? && !es[n].ok then 1 else 0
  {
    var n := |es| - 1;
    assert RefusedAt(es) == RefusedAt(es[..n]) + if es[n].Assigned? && !es[n].ok then {n} else {};
  }

  lemma FailCountLast(a: seq<Attempt>, b: seq<Attempt>)
    requires |a| == |b| > 0 && a[..|a| - 1] == b[..|b| - 1] && a[|a| - 1].accepted == b[|b| - 1].accepted
    ensures FailCount(a) == FailCount(b)
  {
  }

  lemma {:induction false} FailuresAre(es: seq<Event>)
    ensures FailCount(TraceOf(es)) == |RefusedAt(es)|
    decreases |es|
  {
    if es != [] {
      var n := |es| - 1;
      FailuresAre(es[..n]);
      RefusedSnoc(es);
      hide RefusedAt;
      var trace, t := TraceOf(es[..n]), TraceOf(es);
      if es[n].Assigned? {
        assert t[..|trace|] == trace;
      } else if es[n].Empty() && trace != [] {
        FailCountLast(trace, t);
      }
    }
  }
}
