/** The cluster leader (pkg/app/clustering.go): choosing a service for a target,
    dispatching, rebalancing and draining. Go's map iteration is an arbitrary
    choice of the next key. The locker and the instances' APIs are the methods of
    the section "The cluster": they may fail, and an instance takes a lock only
    for a target it was asked to take. */
module ClusterApp {
  import opened Basics
  import opened ClusterLoad
  import opened ClusterCalls
  import Ordering

  /** What selectService returns; a missing map entry gives no service and no
      error, as a nil pointer does in the source. */
  datatype Selection =
    | Selected(service: Option<Service>)
    | NotFound
    | NoMoreSuitable
    | ListFailed

  ghost predicate SelectionOk(services: Services, locks: Locks, tags: seq<string>, denied: seq<string>, r: Selection) {
    match r
    case Selected(s) => s.Some? && Optimal(services, locks, tags, denied, s.value)
    case NotFound => services == map[]
    case NoMoreSuitable => services != map[] && !Suitable(services, tags, denied)
    case ListFailed => true
  }

  /** The hypotheses under which a selection is optimal. */
  ghost predicate Conventional(services: Services, denied: seq<string>) {
    WellNamed(services) && ServiceIds(denied)
  }

  /** The list holds exactly the instances with the longest tag prefix. */
  ghost predicate MatchingOk(services: Services, tags: seq<string>, matching: seq<string>) {
    forall n :: n in matching <==> Best(services, tags, ApiId(n))
  }

  predicate ServiceDenied(id: string, denied: seq<string>) { id in denied }

  lemma InstanceId(services: Services, id: string)
    requires WellNamed(services) && id in services
    ensures ApiId(TrimApi(id)) == id && TrimApi(TrimApi(id)) == TrimApi(id)
  {
    TrimApiId(id);
  }

  lemma OnlyKey(services: Services, id: string)
    requires |services| == 1 && id in services
    ensures services.Keys == {id}
  {
    assert |services.Keys - {id}| == 0;
  }

  lemma {:induction false} BestExists(services: Services, tags: seq<string>)
    requires services != map[]
    ensures exists id :: Best(services, tags, id)
    decreases |services|
  {
    var id :| id in services;
    var rest := services - {id};
    if rest == map[] {
      assert forall id' | id' in services :: id' == id || id' in rest;
      assert Best(services, tags, id);
    } else {
      assert |rest| < |services| by { assert services.Keys == rest.Keys + {id}; }
      BestExists(rest, tags);
      var b :| Best(rest, tags, b);
      assert forall id' | id' in services && id' != id :: id' in rest && rest[id'] == services[id'];
      assert Best(services, tags,
                  if Common(services[id].tags, tags) > Common(services[b].tags, tags) then id else b);
    }
  }

  function Lookup(services: Services, id: string): Option<Service> {
    if id in services then Some(services[id]) else None
  }

  ghost function InstanceNames(ids: seq<string>): set<string> { set id | id in ids :: TrimApi(id) }

  ghost predicate ExactLoads(load: map<string, nat>, locks: Locks) {
    forall i | i in load :: load[i] == Load(locks, i)
  }

  /** If the target is locked, a service selected in the trace holds it. */
  ghost predicate HeldBySelected(locks: Locks, name: string, trace: seq<Attempt>) {
    name in locks ==> exists a :: a in trace && locks[name] == TrimApi(a.service)
  }

  /** A free target went to an optimal service. */
  ghost predicate Placed(services: Services, before: Locks, tags: seq<string>, denied: seq<string>,
                         name: string, after: Locks)
  {
    exists id {:trigger services[id]} ::
      id in services && Optimal(services, before, tags, denied, services[id]) && after == before[name := TrimApi(id)]
  }

  lemma OptimalIsLeast(services: Services, locks: Locks, id: string)
    requires WellNamed(services) && id in services && Optimal(services, locks, [], [], services[id])
    ensures IsLeast(Instances(services), locks, TrimApi(id))
  {
    forall i | i in Instances(services) ensures Load(locks, TrimApi(id)) <= Load(locks, i) {
      var id' :| id' in services && TrimApi(id') == i;
      NoTagsAllBest(services, id');
    }
  }

  /** An untagged target that is placed goes to a least loaded instance. */
  lemma PlacedAtLeast(services: Services, before: Locks, name: string, after: Locks) returns (to: string)
    requires WellNamed(services) && Placed(services, before, [], [], name, after)
    ensures IsLeast(Instances(services), before, to) && after == before[name := to]
  {
    var id :| id in services && Optimal(services, before, [], [], services[id]) && after == before[name := TrimApi(id)];
    OptimalIsLeast(services, before, id);
    to := TrimApi(id);
  }

  /** Every target config is stored under its own name. */
  predicate Keyed(targets: map<string, TargetConfig>) { forall n | n in targets :: targets[n].name == n }

  ghost predicate Same(a: Locks, b: Locks, t: string) {
    (t in a <==> t in b) && (t in a ==> a[t] == b[t])
  }

  datatype Waited = Acquired | Exhausted | Interrupted

  ghost predicate AtMostOneLost(before: set<string>, after: set<string>) {
    after <= before && exists t :: before - {t} <= after
  }

  class App {
    var apiServices: Services
    var locks: Locks
    var targets: map<string, TargetConfig>
    /** The calls made so far; only the methods of the section "The cluster" add
        to them. */
    ghost var events: seq<Event>

    /** TargetAssignmentTimeout, in nanoseconds. */
    const assignmentTimeout: int

    /** No locker or API call fails, and an assigned instance takes the lock at
        once. Where this is false, every call may fail and locks may come late. */
    const reliable: bool

    constructor (assignmentTimeout: int, reliable: bool, targets: map<string, TargetConfig>, locks: Locks)
      ensures this.assignmentTimeout == assignmentTimeout && this.reliable == reliable
      ensures this.targets == targets && this.locks == locks && apiServices == map[] && events == []
    {
      this.assignmentTimeout := assignmentTimeout;
      this.reliable := reliable;
      this.targets, this.locks := targets, locks;
      this.apiServices, events := map[], [];
    }

    /** The registered services become exactly the last update, whatever they
        were before. Of two services with one id the later one stays. */
    method UpdateServices(srvs: seq<Service>)
      modifies this`apiServices
      ensures apiServices == ById(srvs, map[]) && LastWins(srvs, apiServices)
    {
      hide LastWins;
      UpdateLast(srvs);
      if |srvs| == 0 && |apiServices| == 0 {
        return;
      }
      if |srvs| == 0 && |apiServices| != 0 {
        apiServices := map[];
        return;
      }
      if |apiServices| == 0 {
        assert srvs[0..] == srvs;
        for i := 0 to |srvs|
          invariant ById(srvs[i..], apiServices) == ById(srvs, map[])
        {
          assert srvs[i..][1..] == srvs[i + 1..];
          apiServices := apiServices[srvs[i].id := srvs[i]];
        }
        return;
      }
      var newSrvs: Services := map[];
      assert srvs[0..] == srvs;
      for i := 0 to |srvs|
        invariant ById(srvs[i..], newSrvs) == ById(srvs, map[])
      {
        assert srvs[i..][1..] == srvs[i + 1..];
        newSrvs := newSrvs[srvs[i].id := srvs[i]];
      }
      var todo := apiServices.Keys;
      while todo != {}
        invariant forall n | n in apiServices :: n in todo || n in newSrvs
      {
        var n :| n in todo;
        if n !in newSrvs { apiServices := apiServices - {n}; }
        todo := todo - {n};
      }
      todo := newSrvs.Keys;
      while todo != {}
        invariant apiServices.Keys <= newSrvs.Keys
        invariant forall n | n in newSrvs && n !in todo :: n in apiServices && apiServices[n] == newSrvs[n]
      {
        var n :| n in todo;
        if n in newSrvs { apiServices := apiServices[n := newSrvs[n]]; }
        todo := todo - {n};
      }
      assert apiServices == newSrvs;
    }

    // -------------------------------------------------------------------
    // Tag matching
    // -------------------------------------------------------------------

    method GetInstancesTagsMatches(tags: seq<string>) returns (maxMatch: map<string, nat>)
      ensures tags == [] ==> maxMatch == map[]
      ensures WellNamed(apiServices) && tags != [] ==>
                && (forall n :: n in maxMatch <==> ApiId(n) in apiServices)
                && (forall n | n in maxMatch :: CommonPrefix(apiServices[ApiId(n)].tags, tags, maxMatch[n]))
    {
      maxMatch := map[];
      if |tags| == 0 { return; }
      var todo := apiServices.Keys;
      while todo != {}
        invariant todo <= apiServices.Keys
        invariant WellNamed(apiServices) ==>
                    && (forall n :: n in maxMatch <==> ApiId(n) in apiServices && ApiId(n) !in todo)
                    && (forall n | n in maxMatch :: CommonPrefix(apiServices[ApiId(n)].tags, tags, maxMatch[n]))
      {
        var id :| id in todo;
        var name := TrimApi(id);
        var count := MatchTags(apiServices[id].tags, tags);
        if WellNamed(apiServices) { InstanceId(apiServices, id); }
        forall n ensures ApiId(n) == id ==> n == name { ApiIdTrim(n); }
        maxMatch := maxMatch[name := count];
        todo := todo - {id};
      }
    }

    /** The inner loop: tags are compared up to the first difference. */
    method MatchTags(serviceTags: seq<string>, tags: seq<string>) returns (count: nat)
      ensures CommonPrefix(serviceTags, tags, count)
    {
      count := 0;
      var i := 0;
      while i < |serviceTags|
        invariant i <= |serviceTags| && i <= |tags| && count == i
        invariant serviceTags[..i] == tags[..i]
        invariant i < |serviceTags| || CommonPrefix(serviceTags, tags, count)
      {
        if i + 1 > |tags| { break; }
        if serviceTags[i] == tags[i] {
          count := count + 1;
          i := i + 1;
          continue;
        }
        break;
      }
    }

    method GetHighestTagsMatches(tagsCount: map<string, nat>) returns (ss: seq<string>)
      ensures (forall k | k in tagsCount :: !HasApiSuffix(k)) ==>
                forall n :: n in ss <==> n in tagsCount && forall k | k in tagsCount :: tagsCount[k] <= tagsCount[n]
    {
      ss := [];
      var high: int := -1;
      var todo := tagsCount.Keys;
      ghost var plain := forall k | k in tagsCount :: !HasApiSuffix(k);
      while todo != {}
        invariant todo <= tagsCount.Keys
        invariant high < 0 <==> todo == tagsCount.Keys
        invariant forall k | k in tagsCount && k !in todo :: tagsCount[k] <= high
        invariant high >= 0 ==> exists k :: k in tagsCount && k !in todo && tagsCount[k] == high
        invariant plain ==> forall n :: n in ss <==> n in tagsCount && n !in todo && tagsCount[n] == high
      {
        var s :| s in todo;
        var c := tagsCount[s];
        todo := todo - {s};
        if high < 0 || c > high {
          ss := [TrimApi(s)];
          high := c;
          continue;
        }
        if high == c { ss := ss + [TrimApi(s)]; }
      }
    }

    // -------------------------------------------------------------------
    // Loads
    // -------------------------------------------------------------------

    /** Number of locks of each instance; with no argument, of every lock holder
        and every registered instance. */
    method GetInstancesLoad(instances: seq<string>) returns (ok: bool, load: map<string, nat>)
      modifies this`events
      ensures events == old(events) + [Listed(ok)]
      ensures reliable ==> ok
      ensures ok ==> ExactLoads(load, locks)
      ensures ok && WellNamed(apiServices) ==>
                load.Keys == if instances == [] then locks.Values + Instances(apiServices) else SetOf(instances)
    {
      load := map[];
      ok := ListLocks();
      if !ok { return false, map[]; }
      load := CountLocks();
      load := AddIdle(load);
      if |instances| > 0 {
        var filteredLoad: map<string, nat> := map[];
        for i := 0 to |instances|
          invariant events == old(events) + [Listed(true)]
          invariant filteredLoad.Keys == SetOf(instances[..i])
          invariant ExactLoads(filteredLoad, locks)
        {
          var n := instances[i];
          assert instances[..i + 1] == instances[..i] + [n];
          if n !in load { NoHolder(n); }
          filteredLoad := filteredLoad[n := if n in load then load[n] else 0];
        }
        assert instances[..|instances|] == instances;
        return true, filteredLoad;
      }
      return true, load;
    }

    lemma NoHolder(n: string)
      requires n !in locks.Values
      ensures Load(locks, n) == 0
    {
      assert forall t | t in locks :: locks[t] in locks.Values;
      assert Held(locks, n) == {};
    }

    method CountLocks() returns (load: map<string, nat>)
      ensures load.Keys == locks.Values && ExactLoads(load, locks)
    {
      load := map[];
      var todo := locks.Keys;
      ghost var done: Locks := map[];
      while todo != {}
        invariant todo <= locks.Keys
        invariant done == map t | t in locks && t !in todo :: locks[t]
        invariant load.Keys == done.Values
        invariant ExactLoads(load, done)
      {
        var t :| t in todo;
        var instance := locks[t];
        ghost var before := done;
        todo := todo - {t};
        done := done[t := instance];
        forall i ensures Load(done, i) == Load(before, i) + if i == instance then 1 else 0 {
          LoadTake(before, t, instance, i);
        }
        assert done.Values == before.Values + {instance} by {
          assert forall t' | t' in before :: done[t'] == before[t'];
          assert done[t] == instance;
          assert forall v | v in before.Values :: exists t' :: t' in done && done[t'] == v;
        }
        if instance !in load {
          assert Held(before, instance) == {} by { assert forall t' | t' in before :: before[t'] in before.Values; }
          load := load[instance := 0];
        }
        load := load[instance := load[instance] + 1];
      }
      assert done == locks;
    }

    method AddIdle(counted: map<string, nat>) returns (load: map<string, nat>)
      requires counted.Keys == locks.Values && ExactLoads(counted, locks)
      ensures ExactLoads(load, locks) && locks.Values <= load.Keys
      ensures WellNamed(apiServices) ==> load.Keys == locks.Values + Instances(apiServices)
    {
      load := counted;
      var todo := apiServices.Keys;
      while todo != {}
        invariant todo <= apiServices.Keys && locks.Values <= load.Keys
        invariant ExactLoads(load, locks)
        invariant WellNamed(apiServices) ==>
                    load.Keys == locks.Values + (set id | id in apiServices && id !in todo :: TrimApi(id))
      {
        var id :| id in todo;
        var instance := TrimApi(apiServices[id].id);
        if instance !in load {
          NoHolder(instance);
          load := load[instance := 0];
        }
        todo := todo - {id};
      }
    }

    method GetLowLoadInstance(load: map<string, nat>) returns (ss: string)
      ensures load != map[] ==> ss in load && forall i | i in load :: load[ss] <= load[i]
    {
      ss := "";
      var low: int := -1;
      var todo := load.Keys;
      while todo != {}
        invariant todo <= load.Keys
        invariant if low < 0 then todo == load.Keys else ss in load && low == load[ss]
        invariant forall i | i in load && i !in todo :: low <= load[i]
      {
        var s :| s in todo;
        if low < 0 || load[s] < low { ss, low := s, load[s]; }
        todo := todo - {s};
      }
    }

    method GetHighAndLowInstance(load: map<string, nat>) returns (highIns: string, lowIns: string)
      ensures load != map[] ==>
                && highIns in load && (forall i | i in load :: load[i] <= load[highIns])
                && lowIns in load && (forall i | i in load :: load[lowIns] <= load[i])
    {
      highIns, lowIns := "", "";
      var high: int, low: int := -1, -1;
      var todo := load.Keys;
      while todo != {}
        invariant todo <= load.Keys
        invariant if high < 0 then todo == load.Keys else highIns in load && high == load[highIns]
        invariant if low < 0 then todo == load.Keys else lowIns in load && low == load[lowIns]
        invariant forall i | i in load && i !in todo :: low <= load[i] <= high
      {
        var s :| s in todo;
        if high < 0 || load[s] > high { highIns, high := s, load[s]; }
        if low < 0 || load[s] < low { lowIns, low := s, load[s]; }
        todo := todo - {s};
      }
    }

    // -------------------------------------------------------------------
    // Selection
    // -------------------------------------------------------------------

    /** Instances with the longest common tag prefix; all of them for a target
        without tags. */
    method MatchingInstances(tags: seq<string>) returns (matching: seq<string>)
      ensures WellNamed(apiServices) ==> MatchingOk(apiServices, tags, matching)
    {
      matching := [];
      var tagCount := GetInstancesTagsMatches(tags);
      if |tagCount| > 0 {
        matching := GetHighestTagsMatches(tagCount);
        if WellNamed(apiServices) {
          assert tags != [];
          forall n | n in tagCount ensures !HasApiSuffix(n) && tagCount[n] == Common(apiServices[ApiId(n)].tags, tags) {
            ApiIdTrim(n);
            CommonIff(apiServices[ApiId(n)].tags, tags, tagCount[n]);
          }
          forall n ensures n in matching <==> Best(apiServices, tags, ApiId(n)) {
            forall id | id in apiServices ensures TrimApi(id) in tagCount && ApiId(TrimApi(id)) == id {
              InstanceId(apiServices, id);
            }
          }
        }
      } else {
        var todo := apiServices.Keys;
        while todo != {}
          invariant todo <= apiServices.Keys
          invariant WellNamed(apiServices) ==> forall n :: n in matching <==> ApiId(n) in apiServices && ApiId(n) !in todo
        {
          var n :| n in todo;
          if WellNamed(apiServices) { InstanceId(apiServices, n); }
          forall m ensures ApiId(m) == n ==> m == TrimApi(n) { ApiIdTrim(m); }
          matching := matching + [TrimApi(n)];
          todo := todo - {n};
        }
        if WellNamed(apiServices) {
          assert tagCount == map[];
          if tags != [] {
            forall id | id in apiServices ensures TrimApi(id) in tagCount { InstanceId(apiServices, id); }
          }
        }
      }
    }

    method SelectService(tags: seq<string>, denied: seq<string>) returns (r: Selection)
      modifies this`events
      ensures (events == old(events) && !r.ListFailed?) || events == old(events) + [Listed(!r.ListFailed?)]
      ensures Conventional(apiServices, denied) ==> SelectionOk(apiServices, locks, tags, denied, r)
      ensures reliable ==> !r.ListFailed?
    {
      hide *;
      var numServices := |apiServices|;
      if numServices == 0 {
        NoneRegistered(tags, denied);
        return NotFound;
      }
      if numServices == 1 {
        var id :| id in apiServices;
        OneRegistered(tags, denied, id);
        if ServiceDenied(id, denied) { return NoMoreSuitable; }
        return Selected(Some(apiServices[id]));
      }
      var matching := MatchingInstances(tags);
      if |matching| == 1 {
        var id := ApiId(matching[0]);
        OneMatch(tags, matching, denied);
        if ServiceDenied(id, denied) { return NoMoreSuitable; }
        return Selected(Lookup(apiServices, id));
      }
      assert apiServices != map[];
      r := SelectByLoad(tags, matching, denied);
    }

    lemma NoneRegistered(tags: seq<string>, denied: seq<string>)
      requires |apiServices| == 0
      ensures SelectionOk(apiServices, locks, tags, denied, NotFound)
    {
    }

    lemma OneRegistered(tags: seq<string>, denied: seq<string>, id: string)
      requires |apiServices| == 1 && id in apiServices
      ensures Conventional(apiServices, denied) ==>
                SelectionOk(apiServices, locks, tags, denied,
                            if ServiceDenied(id, denied) then NoMoreSuitable else Selected(Some(apiServices[id])))
    {
      OnlyKey(apiServices, id);
      assert Best(apiServices, tags, id);
    }

    lemma OneMatch(tags: seq<string>, matching: seq<string>, denied: seq<string>)
      requires |matching| == 1
      requires WellNamed(apiServices) ==> MatchingOk(apiServices, tags, matching)
      ensures Conventional(apiServices, denied) ==>
                SelectionOk(apiServices, locks, tags, denied,
                            if ServiceDenied(ApiId(matching[0]), denied) then NoMoreSuitable
                            else Selected(Lookup(apiServices, ApiId(matching[0]))))
    {
      if Conventional(apiServices, denied) {
        assert matching[0] in matching;
        forall id | Best(apiServices, tags, id) ensures id == ApiId(matching[0]) {
          InstanceId(apiServices, id);
          assert TrimApi(id) in matching;
        }
      }
    }

    /** Among the matching instances that are not denied, a least loaded one. */
    method SelectByLoad(tags: seq<string>, matching: seq<string>, denied: seq<string>) returns (r: Selection)
      requires apiServices != map[]
      requires WellNamed(apiServices) ==> MatchingOk(apiServices, tags, matching)
      modifies this`events
      ensures (events == old(events) && !r.ListFailed?) || events == old(events) + [Listed(!r.ListFailed?)]
      ensures Conventional(apiServices, denied) ==> SelectionOk(apiServices, locks, tags, denied, r)
      ensures reliable ==> !r.ListFailed?
    {
      hide *;
      var ok, load := GetInstancesLoad(matching);
      SomeMatch(tags, matching, denied);
      if !ok { return ListFailed; }
      assert Conventional(apiServices, denied) ==> matching[0] in load;
      if |load| == 0 {
        for i := 0 to |matching|
          invariant !Conventional(apiServices, denied)
        {
          var id := ApiId(matching[i]);
          if ServiceDenied(id, denied) { continue; }
          return Selected(Lookup(apiServices, id));
        }
        return NoMoreSuitable;
      }
      ghost var all := load;
      load := RemoveDenied(load, denied);
      LeftOver(tags, matching, denied, all, load);
      if |load| == 0 { return NoMoreSuitable; }
      assert load != map[];
      var ss := GetLowLoadInstance(load);
      LeastIsOptimal(tags, matching, denied, all, load, ss);
      if ApiId(ss) in apiServices { return Selected(Some(apiServices[ApiId(ss)])); }
      return Selected(Lookup(apiServices, ss));
    }

    lemma SomeMatch(tags: seq<string>, matching: seq<string>, denied: seq<string>)
      requires apiServices != map[]
      requires WellNamed(apiServices) ==> MatchingOk(apiServices, tags, matching)
      ensures WellNamed(apiServices) ==> matching != [] && matching[0] in SetOf(matching)
      ensures Conventional(apiServices, denied) ==> WellNamed(apiServices)
      ensures SelectionOk(apiServices, locks, tags, denied, ListFailed)
    {
      if WellNamed(apiServices) {
        BestExists(apiServices, tags);
        var id :| Best(apiServices, tags, id);
        InstanceId(apiServices, id);
        assert TrimApi(id) in matching;
      }
    }

    /** Nothing left after filtering: every best service is denied. */
    lemma LeftOver(tags: seq<string>, matching: seq<string>, denied: seq<string>, all: map<string, nat>, load: map<string, nat>)
      requires apiServices != map[]
      requires WellNamed(apiServices) ==> MatchingOk(apiServices, tags, matching) && all.Keys == SetOf(matching)
      requires load == all - InstanceNames(denied)
      ensures Conventional(apiServices, denied) && load == map[] ==>
                SelectionOk(apiServices, locks, tags, denied, NoMoreSuitable)
    {
      if Conventional(apiServices, denied) { AllowedInstances(tags, matching, denied, load); }
    }

    lemma LeastIsOptimal(tags: seq<string>, matching: seq<string>, denied: seq<string>, all: map<string, nat>, load: map<string, nat>, ss: string)
      requires WellNamed(apiServices) ==> MatchingOk(apiServices, tags, matching) && all.Keys == SetOf(matching)
      requires load == all - InstanceNames(denied) && ExactLoads(all, locks)
      requires ss in load && forall i | i in load :: load[ss] <= load[i]
      ensures Conventional(apiServices, denied) ==>
                && ApiId(ss) in apiServices
                && SelectionOk(apiServices, locks, tags, denied, Selected(Some(apiServices[ApiId(ss)])))
    {
      if Conventional(apiServices, denied) {
        AllowedInstances(tags, matching, denied, load);
        forall id | Best(apiServices, tags, id) && id !in denied
          ensures Load(locks, TrimApi(ApiId(ss))) <= Load(locks, TrimApi(id))
        {
          assert load[ss] <= load[TrimApi(id)];
        }
      }
    }

    method RemoveDenied(all: map<string, nat>, denied: seq<string>) returns (load: map<string, nat>)
      ensures load == all - InstanceNames(denied)
    {
      load := all;
      for i := 0 to |denied|
        invariant load == all - InstanceNames(denied[..i])
      {
        assert denied[..i + 1] == denied[..i] + [denied[i]];
        load := load - {TrimApi(denied[i])};
      }
      assert denied[..|denied|] == denied;
    }

    /** What is left after filtering: the best services that are not denied. */
    lemma AllowedInstances(tags: seq<string>, matching: seq<string>, denied: seq<string>, load: map<string, nat>)
      requires Conventional(apiServices, denied) && MatchingOk(apiServices, tags, matching)
      requires load.Keys == SetOf(matching) - InstanceNames(denied)
      ensures forall id | Best(apiServices, tags, id) && id !in denied :: TrimApi(id) in load
      ensures forall n | n in load :: Best(apiServices, tags, ApiId(n)) && ApiId(n) !in denied && TrimApi(ApiId(n)) == n
    {
      forall id | Best(apiServices, tags, id) && id !in denied ensures TrimApi(id) in load {
        InstanceId(apiServices, id);
        forall d | d in denied ensures TrimApi(d) != TrimApi(id) { TrimApiId(d); }
      }
      forall n | n in load ensures Best(apiServices, tags, ApiId(n)) && ApiId(n) !in denied && TrimApi(ApiId(n)) == n {
        ApiIdTrim(n);
      }
    }

    // -------------------------------------------------------------------
    // The cluster
    // -------------------------------------------------------------------

    method IsLocked(name: string) returns (ok: bool, locked: bool)
      modifies this`events
      ensures events == old(events) + [LockChecked(name, ok, locked)]
      ensures reliable ==> ok
      ensures ok ==> (locked <==> name in locks)
    {
      var fail: bool := *;
      ok, locked := reliable || !fail, name in locks;
      events := events + [LockChecked(name, ok, locked)];
    }

    /** One read of the lock of a target. */
    method ListLock(name: string) returns (ok: bool, holder: Option<string>)
      modifies this`events
      ensures events == old(events) + [LockRead(name, ok, holder)]
      ensures reliable ==> ok
      ensures ok ==> holder == if name in locks then Some(locks[name]) else None
    {
      var fail: bool := *;
      ok, holder := reliable || !fail, if name in locks then Some(locks[name]) else None;
      events := events + [LockRead(name, ok, holder)];
    }

    /** Whether all locks could be listed. */
    method ListLocks() returns (ok: bool)
      modifies this`events
      ensures events == old(events) + [Listed(ok)]
      ensures reliable ==> ok
    {
      var fail: bool := *;
      ok := reliable || !fail;
      events := events + [Listed(ok)];
    }

    /** Whether the context is done, and how many more checks it is not. */
    method ContextDone(deadline: nat) returns (done: bool, left: nat)
      modifies this`events
      ensures events == old(events) + [ContextChecked(done)]
      ensures done == (deadline == 0) && left == if done then 0 else deadline - 1
    {
      done := deadline == 0;
      left := if done then 0 else deadline - 1;
      events := events + [ContextChecked(done)];
    }

    /** Any instance that was asked to take a free target may do so. */
    method TakeLock(name: string, asked: set<string>)
      modifies this`locks
      ensures locks == old(locks)
           || (name !in old(locks) && exists id | id in asked :: locks == old(locks)[name := TrimApi(id)])
      ensures reliable && name in old(locks) ==> locks == old(locks)
    {
      var act: bool := *;
      if act && name !in locks && asked != {} {
        var id :| id in asked;
        locks := locks[name := TrimApi(id)];
      }
    }

    /** The two API calls of assignTarget. The instance may take the lock at any
        time from now on, even if a call was reported as failed. */
    method AssignTarget(tc: TargetConfig, service: Service) returns (ok: bool)
      modifies this`locks, this`events
      ensures events == old(events) + [Assigned(service.id, ok)]
      ensures locks == old(locks)
           || (tc.name !in old(locks) && locks == old(locks)[tc.name := TrimApi(service.id)])
      ensures reliable && tc.name !in old(locks) ==> ok && locks == old(locks)[tc.name := TrimApi(service.id)]
    {
      var fail: bool, act: bool := *, *;
      ok := reliable || !fail;
      events := events + [Assigned(service.id, ok)];
      if tc.name !in locks && (reliable || act) { locks := locks[tc.name := TrimApi(service.id)]; }
    }

    /** The delete call of unassignTarget: a registered instance releases the lock
        it holds. Its answer is not looked at, so it may also keep the lock. */
    method UnassignTarget(name: string, serviceID: string) returns (ok: bool)
      modifies this`locks, this`events
      ensures events == old(events) + [Unassigned(name, serviceID, ok)]
      ensures locks == old(locks)
           || (name in old(locks) && ApiId(old(locks)[name]) == serviceID && locks == old(locks) - {name})
      ensures serviceID !in apiServices ==> ok && locks == old(locks)
      ensures reliable ==> ok
      ensures reliable && serviceID in apiServices && name in old(locks) && ApiId(old(locks)[name]) == serviceID
              ==> locks == old(locks) - {name}
    {
      var fail: bool, act: bool := *, *;
      ok := reliable || serviceID !in apiServices || !fail;
      events := events + [Unassigned(name, serviceID, ok)];
      if serviceID in apiServices && name in locks && ApiId(locks[name]) == serviceID && (reliable || act) {
        locks := locks - {name};
      }
    }

    // -------------------------------------------------------------------
    // Dispatch
    // -------------------------------------------------------------------

    /** Dispatches one target. `deadline` is the number of checks after which the
        context is done: any number, so every moment of cancellation is covered. */
    method DispatchTarget(tc: TargetConfig, initiallyDenied: seq<string>, deadline: nat)
      returns (err: DispatchError, trace: seq<Attempt>)
      modifies this`locks, this`events
      ensures DispatchLog(old(events), events, trace, tc.name)
      ensures Explained(err, old(events), events) && !err.UnassignFailed?
      ensures err.NoError? ==> tc.name in locks && events[|events| - 1].SeesHolder()
      ensures WellNamed(apiServices) && ServiceIds(initiallyDenied) ==>
                && CallsBounded(events[|old(events)|..], apiServices, initiallyDenied, assignmentTimeout)
                && (err.NoServices? ==> apiServices == map[])
                && (err.NoSuitable? ==> Refused(apiServices, tc.tags, initiallyDenied, events[|old(events)|..]))
      ensures locks - {tc.name} == old(locks) - {tc.name}
      ensures tc.name in old(locks) ==> locks == old(locks) && trace == []
      ensures WellNamed(apiServices) && ServiceIds(initiallyDenied) ==>
                Bounded(trace, apiServices, initiallyDenied, assignmentTimeout)
      ensures WellNamed(apiServices) && ServiceIds(initiallyDenied) && tc.name !in old(locks) ==>
                HeldBySelected(locks, tc.name, trace)
      ensures Smooth(initiallyDenied, deadline) && tc.name !in old(locks) ==>
                if Suitable(apiServices, tc.tags, initiallyDenied)
                then err.NoError? && Placed(apiServices, old(locks), tc.tags, initiallyDenied, tc.name, locks)
                else !err.NoError? && locks == old(locks)
    {
      hide DispatchLog, OneSelection, Bounded, CallsBounded, Refused, DeniedSoFar, HeldBySelected;
      trace := [];
      ghost var named := WellNamed(apiServices) && ServiceIds(initiallyDenied);
      NothingDispatched(tc.name, initiallyDenied);
      var ok, locked := IsLocked(tc.name);
      LogStart(old(events), tc.name, ok, locked);
      LogBounded(old(events), events, trace, tc.name, initiallyDenied);
      if !ok { return LockerFailed, trace; }
      if locked { return NoError, trace; }
      var denied := initiallyDenied;
      var ctx := deadline;
      ghost var start := locks;
      while true
        invariant locks - {tc.name} == start - {tc.name}
        invariant old(events) < events && DispatchLog(old(events), events, trace, tc.name)
        invariant named ==> Bounded(trace, apiServices, initiallyDenied, assignmentTimeout)
        invariant named ==> DeniedSoFar(denied, initiallyDenied, trace) && ServiceIds(denied)
        invariant HeldBySelected(locks, tc.name, trace)
        invariant Smooth(initiallyDenied, deadline) ==> ctx == deadline && denied == initiallyDenied && locks == start
        decreases ctx
      {
        ghost var sofar := events;
        var over, left := ContextDone(ctx);
        LogQuiet(old(events), sofar, trace, tc.name, ContextChecked(over));
        LogBounded(old(events), events, trace, tc.name, initiallyDenied);
        if over { return Canceled, trace; }
        ctx := left;
        sofar := events;
        var sel := SelectService(tc.tags, denied);
        LogQuiet(old(events), sofar, trace, tc.name, Listed(!sel.ListFailed?));
        LogBounded(old(events), events, trace, tc.name, initiallyDenied);
        if sel.ListFailed? { return LockerFailed, trace; }
        if sel.NotFound? { return NoServices, trace; }
        if sel.NoMoreSuitable? {
          if named { NoneLeft(old(events), events, trace, tc, denied, initiallyDenied); }
          return NoSuitable, trace;
        }
        if sel.service.None? { continue; }
        var service := sel.service.value;
        ghost var before := locks;
        sofar := events;
        var attempt, done, ctx' := AssignAndWait(tc, service, (set a | a in trace :: a.service) + {service.id}, ctx);
        LogOne(old(events), sofar, events, trace, attempt, tc.name);
        if named { AttemptMade(denied, initiallyDenied, trace, attempt); }
        AskedSnoc(tc.name, before, locks, trace, attempt);
        trace := trace + [attempt];
        LogBounded(old(events), events, trace, tc.name, initiallyDenied);
        if !attempt.accepted {
          denied := denied + [service.id];
          continue;
        }
        ctx := ctx';
        if done.Acquired? { return NoError, trace; }
        if done.Interrupted? { return Canceled, trace; }
      }
    }

    /** The calls since: a check of the lock, then those of a dispatch. */
    ghost predicate DispatchLog(before: seq<Event>, now: seq<Event>, trace: seq<Attempt>, name: string) {
      && before < now && now[|before|].LockChecked?
      && Dispatched(now[|before|..], trace, name)
    }

    /** Every service with the longest tag prefix was denied, or has refused. */
    ghost predicate Refused(services: Services, tags: seq<string>, denied: seq<string>, es: seq<Event>) {
      forall id | Best(services, tags, id) :: id in denied || Assigned(id, false) in es
    }

    lemma LogStart(before: seq<Event>, name: string, ok: bool, locked: bool)
      ensures DispatchLog(before, before + [LockChecked(name, ok, locked)], [], name)
    {
      var e := LockChecked(name, ok, locked);
      assert (before + [e])[|before|..] == [] + [e];
      TraceQuiet([], e);
    }

    lemma LogQuiet(before: seq<Event>, sofar: seq<Event>, trace: seq<Attempt>, name: string, e: Event)
      requires DispatchLog(before, sofar, trace, name) && !e.Assigned? && !e.LockRead? && e.Concerns(name)
      ensures DispatchLog(before, sofar + [e], trace, name)
    {
      hide TraceOf;
      var es := sofar[|before|..];
      assert (sofar + [e])[|before|..] == es + [e];
      TraceQuiet(es, e);
    }

    lemma LogOne(before: seq<Event>, sofar: seq<Event>, now: seq<Event>, trace: seq<Attempt>, a: Attempt, name: string)
      requires DispatchLog(before, sofar, trace, name) && sofar <= now && OneSelection(now[|sofar|..], a, name)
      ensures DispatchLog(before, now, trace + [a], name)
    {
      hide Dispatched, OneSelection;
      assert now[|before|..] == sofar[|before|..] + now[|sofar|..];
      DispatchedOne(sofar[|before|..], trace, now[|sofar|..], a, name);
    }

    lemma LogBounded(before: seq<Event>, now: seq<Event>, trace: seq<Attempt>, name: string, denied: seq<string>)
      requires DispatchLog(before, now, trace, name)
      ensures before < now
      ensures Bounded(trace, apiServices, denied, assignmentTimeout) ==>
                CallsBounded(now[|before|..], apiServices, denied, assignmentTimeout)
    {
      if Bounded(trace, apiServices, denied, assignmentTimeout) {
        CallsWithin(now[|before|..], apiServices, denied, assignmentTimeout);
      }
    }

    lemma NoneLeft(before: seq<Event>, now: seq<Event>, trace: seq<Attempt>, tc: TargetConfig, denied: seq<string>, initially: seq<string>)
      requires DispatchLog(before, now, trace, tc.name) && DeniedSoFar(denied, initially, trace)
      requires !Suitable(apiServices, tc.tags, denied)
      ensures before < now && Refused(apiServices, tc.tags, initially, now[|before|..])
    {
      forall id | Best(apiServices, tc.tags, id)
        ensures id in initially || Assigned(id, false) in now[|before|..]
      {
        FailedCalls(now[|before|..], id);
      }
    }

    /** One selection: assign the target, and wait for its lock if that succeeded. */
    method AssignAndWait(tc: TargetConfig, service: Service, asked: set<string>, deadline: nat)
      returns (attempt: Attempt, done: Waited, ctx: nat)
      requires service.id in asked
      modifies this`locks, this`events
      ensures old(events) < events && OneSelection(events[|old(events)|..], attempt, tc.name)
      ensures attempt.service == service.id && attempt.emptyReads <= MaxEmptyReads(assignmentTimeout) && ctx <= deadline
      ensures locks - {tc.name} == old(locks) - {tc.name}
      ensures tc.name in locks ==>
                || (tc.name in old(locks) && locks[tc.name] == old(locks)[tc.name])
                || exists id :: id in asked && locks[tc.name] == TrimApi(id)
      ensures attempt.accepted && done.Acquired? ==> tc.name in locks && events[|events| - 1].SeesHolder()
      ensures attempt.accepted && done.Exhausted? ==> GivenUp(events[|events| - 1], tc.name, service.id)
      ensures attempt.accepted && done.Interrupted? ==> events[|events| - 1] == ContextChecked(true)
      ensures reliable && tc.name !in old(locks) && TrimApi(service.id) != "" ==>
                attempt.accepted && done.Acquired? && locks == old(locks)[tc.name := TrimApi(service.id)]
    {
      hide EmptyReads, Waiting, MaxEmptyReads, TrimApi;
      var accepted := AssignTarget(tc, service);
      assert events[|old(events)|..] == [Assigned(service.id, accepted)] + [];
      if !accepted {
        OneSelectionOf(service.id, false, [], tc.name);
        return Attempt(service.id, false, 0), Exhausted, deadline;
      }
      ghost var asking := events;
      var retries;
      done, retries, ctx := WaitForLock(tc.name, service.id, asked, deadline);
      assert events[|old(events)|..] == [Assigned(service.id, true)] + events[|asking|..];
      OneSelectionOf(service.id, true, events[|asking|..], tc.name);
      attempt := Attempt(service.id, true, retries);
    }

    lemma OneSelectionOf(service: string, ok: bool, waits: seq<Event>, name: string)
      requires Waiting(waits, name)
      ensures OneSelection([Assigned(service, ok)] + waits, Attempt(service, ok, EmptyReads(waits)), name)
      ensures Waiting([], name) && EmptyReads([]) == 0
    {
      assert ([Assigned(service, ok)] + waits)[1..] == waits;
    }

    lemma NothingDispatched(name: string, denied: seq<string>)
      ensures Dispatched([], [], name)
      ensures WellNamed(apiServices) ==> Bounded([], apiServices, denied, assignmentTimeout)
      ensures ServiceIds(denied) ==> DeniedSoFar(denied, denied, [])
      ensures name !in locks ==> HeldBySelected(locks, name, [])
    {
    }

    lemma DispatchedOne(log: seq<Event>, trace: seq<Attempt>, more: seq<Event>, a: Attempt, name: string)
      requires Dispatched(log, trace, name) && OneSelection(more, a, name)
      ensures Dispatched(log + more, trace + [a], name)
    {
      TraceSnoc(log, more[0]);
      TraceWaiting(log + [more[0]], trace, a.(emptyReads := 0), more[1..], name);
      assert log + more == (log + [more[0]]) + more[1..];
    }

    lemma AskedSnoc(name: string, before: Locks, after: Locks, trace: seq<Attempt>, attempt: Attempt)
      requires HeldBySelected(before, name, trace)
      requires name in after ==>
                 || (name in before && after[name] == before[name])
                 || after[name] == TrimApi(attempt.service)
                 || exists id :: id in (set a | a in trace :: a.service) + {attempt.service} && after[name] == TrimApi(id)
      ensures HeldBySelected(after, name, trace + [attempt])
    {
      assert attempt in trace + [attempt];
      assert forall a | a in trace :: a in trace + [attempt];
    }

    /** Recording a new selection keeps the bounds. */
    lemma AttemptMade(denied: seq<string>, initially: seq<string>, trace: seq<Attempt>, attempt: Attempt)
      requires Bounded(trace, apiServices, initially, assignmentTimeout) && DeniedSoFar(denied, initially, trace)
      requires attempt.service in apiServices && attempt.service !in denied && WellNamed(apiServices)
      requires attempt.emptyReads <= MaxEmptyReads(assignmentTimeout)
      ensures Bounded(trace + [attempt], apiServices, initially, assignmentTimeout)
      ensures DeniedSoFar(if attempt.accepted then denied else denied + [attempt.service], initially, trace + [attempt])
      ensures ServiceIds(if attempt.accepted then denied else denied + [attempt.service])
    {
      BoundedSnoc(trace, attempt, apiServices, initially, assignmentTimeout);
      DeniedSnoc(denied, initially, trace, attempt);
    }

    /** The conditions under which a dispatch settles at its first selection. */
    ghost predicate Smooth(denied: seq<string>, deadline: nat)
      reads this`apiServices
    {
      reliable && WellNamed(apiServices) && ServiceIds(denied) && deadline >= 1
    }

    /** Polls the lock until it is held, the retries are used up, or the context
        is done. */
    method WaitForLock(name: string, serviceID: string, asked: set<string>, deadline: nat)
      returns (done: Waited, retries: nat, ctx: nat)
      requires serviceID in asked
      modifies this`locks, this`events
      ensures old(events) <= events
      ensures Waiting(events[|old(events)|..], name) && EmptyReads(events[|old(events)|..]) == retries
      ensures locks - {name} == old(locks) - {name}
      ensures done.Acquired? ==> name in locks && locks[name] != "" && events != [] && events[|events| - 1].SeesHolder()
      ensures done.Interrupted? ==> events != [] && events[|events| - 1] == ContextChecked(true)
      ensures name in locks ==>
                (name in old(locks) && locks[name] == old(locks)[name]) || exists id :: id in asked && locks[name] == TrimApi(id)
      ensures retries <= MaxEmptyReads(assignmentTimeout)
      ensures done.Exhausted? ==> retries == MaxEmptyReads(assignmentTimeout)
      ensures done.Exhausted? ==> events != [] && GivenUp(events[|events| - 1], name, serviceID)
      ensures ctx <= deadline
      ensures reliable && name in old(locks) && old(locks)[name] != "" ==> done.Acquired? && locks == old(locks)
    {
      hide EmptyReads, Waiting;
      retries, ctx := 0, deadline;
      assert events[|events|..] == [];
      NothingWaited(name);
      while true
        invariant ctx <= deadline && old(events) <= events
        invariant Waiting(events[|old(events)|..], name) && EmptyReads(events[|old(events)|..]) == retries
        invariant locks - {name} == old(locks) - {name}
        invariant name in locks ==>
                    (name in old(locks) && locks[name] == old(locks)[name]) || exists id :: id in asked && locks[name] == TrimApi(id)
        invariant retries == 0 || (retries + 1) * LOCK_WAIT_TIME < assignmentTimeout
        invariant reliable && name in old(locks) ==> locks == old(locks)
        decreases ctx
      {
        TakeLock(name, asked);
        ghost var log := events[|old(events)|..];
        var ok, holder := ListLock(name);
        assert events[|old(events)|..] == log + [LockRead(name, ok, holder)];
        WaitedSnoc(log, LockRead(name, ok, holder), name);
        if !ok {
        } else if holder.Some? && holder.value != "" {
          return Acquired, retries, ctx;
        } else {
          retries := retries + 1;
          if (retries + 1) * LOCK_WAIT_TIME >= assignmentTimeout {
            log := events[|old(events)|..];
            var released := UnassignTarget(name, serviceID);
            assert events[|old(events)|..] == log + [Unassigned(name, serviceID, released)];
            WaitedSnoc(log, Unassigned(name, serviceID, released), name);
            return Exhausted, retries, ctx;
          }
        }
        log := events[|old(events)|..];
        var over, left := ContextDone(ctx);
        assert events[|old(events)|..] == log + [ContextChecked(over)];
        WaitedSnoc(log, ContextChecked(over), name);
        if over { return Interrupted, retries, ctx; }
        ctx := left;
      }
    }

    /** The target is released from a service that did not take its lock in time. */
    predicate GivenUp(e: Event, name: string, service: string) {
      e.Unassigned? && e.name == name && e.service == service
    }

    lemma NothingWaited(name: string)
      ensures Waiting([], name) && EmptyReads([]) == 0
    {
    }

    lemma WaitedSnoc(es: seq<Event>, e: Event, name: string)
      requires Waiting(es, name) && !e.Assigned? && e.Concerns(name)
      ensures Waiting(es + [e], name) && EmptyReads(es + [e]) == EmptyReads(es) + if e.Empty() then 1 else 0
    {
      TraceSnoc(es, e);
    }

    // -------------------------------------------------------------------
    // Rebalancing
    // -------------------------------------------------------------------

    /** Names of the targets an instance holds, in ascending order. */
    method GetInstanceTargets(instance: string) returns (ok: bool, names: seq<string>)
      modifies this`events
      ensures events == old(events) + [Listed(ok)]
      ensures reliable ==> ok
      ensures ok ==> names == Ordering.SortedKeys(Held(locks, instance))
    {
      ok := ListLocks();
      if !ok { return false, []; }
      var found: set<string> := {};
      var todo := locks.Keys;
      while todo != {}
        invariant todo <= locks.Keys
        invariant found == set t | t in locks && t !in todo && locks[t] == instance
      {
        var t :| t in todo;
        if locks[t] == instance { found := found + {t}; }
        todo := todo - {t};
      }
      assert found == Held(locks, instance);
      names := Ordering.SortStrings(found);
    }

    /** Every lock holder is registered, every target has a config without tags
        under its own name, and the cluster is reliable. */
    ghost predicate Ideal(table: Locks)
      reads this`apiServices, this`targets
    {
      && reliable && WellNamed(apiServices) && Keyed(targets)
      && (forall t | t in table :: t in targets && table[t] in Instances(apiServices))
      && (forall n | n in targets :: targets[n].tags == [])
    }

    /** n stands in the list and no known target stands before it. */
    ghost predicate FirstIn(names: seq<string>, n: string)
      reads this`targets
    {
      exists i :: (0 <= i < |names| && names[i] == n && forall j | 0 <= j < i :: names[j] !in targets)
    }

    /** The first target of the list that has a config. */
    method FirstKnown(names: seq<string>) returns (found: Option<string>)
      ensures found.None? ==> forall n | n in names :: n !in targets
      ensures found.Some? ==> found.value in targets && FirstIn(names, found.value)
    {
      for i := 0 to |names|
        invariant forall j | 0 <= j < i :: names[j] !in targets
      {
        if names[i] in targets { return Some(names[i]); }
      }
      return None;
    }

    /** What one round reads off the loads of an ideal cluster. */
    lemma RoundFacts(load: map<string, nat>, highest: string, lowest: string)
      requires Ideal(locks) && ExactLoads(load, locks)
      requires WellNamed(apiServices) ==> load.Keys == locks.Values + Instances(apiServices)
      requires load != map[] ==>
                 && highest in load && (forall i | i in load :: load[i] <= load[highest])
                 && lowest in load && (forall i | i in load :: load[lowest] <= load[i])
      ensures LoadOf(load, highest) - LoadOf(load, lowest) == Delta(Instances(apiServices), locks)
      ensures Delta(Instances(apiServices), locks) >= 2 ==> Movable(locks, highest)
    {
      assert load.Keys == Instances(apiServices) by {
        forall v | v in locks.Values ensures v in Instances(apiServices) {
          var t :| t in locks && locks[t] == v;
        }
      }
      if load == map[] {
        assert Instances(apiServices) == {};
      } else {
        MaxLoadIs(Instances(apiServices), locks, highest);
        MinLoadIs(Instances(apiServices), locks, lowest);
      }
    }

    lemma KeysKept(before: Locks, after: Locks, name: string)
      requires name in before && after - {name} == before - {name}
      ensures AtMostOneLost(before.Keys, after.Keys)
      ensures name in after ==> after.Keys == before.Keys
    {
      assert forall k | k != name :: k in after <==> k in after - {name};
      assert forall k | k != name :: k in before <==> k in before - {name};
      assert before.Keys - {name} <= after.Keys;
    }

    lemma NoneLost(keys: set<string>)
      ensures AtMostOneLost(keys, keys)
    {
      assert keys - {""} <= keys;
    }

    /** The first target the instance holds, by name, that has a config. */
    ghost predicate FirstHeld(table: Locks, instance: string, n: string)
      reads this`targets
    {
      && n in targets && n in Held(table, instance)
      && forall m | m in Held(table, instance) && Ordering.Less(m, n) :: m !in targets
    }

    /** The body of one round: pick a target of the highest instance, release it
        and dispatch it again. No name without an error means that no target of the
        instance has a config. */
    method RebalanceOne(highest: string) returns (err: DispatchError, name: Option<string>)
      modifies this`locks, this`events
      ensures RoundLog(err, old(events), events, highest, name)
      ensures name.None? ==> locks == old(locks)
      ensures name.None? && err.NoError? ==> forall n | n in Held(locks, highest) :: n !in targets
      ensures name.Some? ==> FirstHeld(old(locks), highest, name.value)
      ensures name.Some? ==> name.value in targets && name.value in old(locks)
      ensures name.Some? && Keyed(targets) ==>
                && locks - {name.value} == old(locks) - {name.value}
                && (err.NoError? ==> name.value in locks)
      ensures Movable(old(locks), highest) ==>
                err.NoError? && name.Some? && Move(Instances(apiServices), old(locks), locks) && Ideal(locks)
    {
      hide *;
      var listed, held := GetInstanceTargets(highest);
      MovableFacts(highest);
      RoundListed(old(events), highest, listed);
      if !listed { return LockerFailed, None; }
      if |held| == 0 {
        NobodyHeld(highest);
        return NoError, None;
      }
      name := FirstKnown(held);
      HeldFacts(highest, held, name);
      if name.None? { return NoError, None; }
      var released := UnassignTarget(name.value, ApiId(highest));
      ghost var freed := locks;
      RoundReleased(old(events), events, highest, name.value, released);
      if !released { return UnassignFailed, name; }
      var deadline: nat :| reliable ==> deadline >= 1;
      var tc := targets[name.value];
      ConfigFacts(old(locks), highest, name.value, deadline);
      assert Movable(old(locks), highest) ==> freed == old(locks) - {name.value};
      var trace;
      ghost var sofar := events;
      err, trace := DispatchTarget(tc, [], deadline);
      LogParts(sofar, events, trace, tc.name);
      RefusedLonger(tc.tags, [], []);
      RoundDispatched(err, old(events), sofar, events, highest, name.value, released, trace);
      if Movable(old(locks), highest) { MoveMade(old(locks), highest, name.value, locks); }
    }

    /** The calls of a round: the locks are listed; then, if there is a target, it
        is released from the highest instance, and if that succeeded, dispatched. */
    ghost predicate RoundLog(err: DispatchError, before: seq<Event>, now: seq<Event>, highest: string, name: Option<string>)
      reads this`apiServices, this`targets
    {
      && before < now && Explained(err, before, now)
      && (Keyed(targets) ==> Released(now[|before|..]) == SetOfOption(name))
      && (name.Some? ==>
            && |now| >= |before| + 2
            && (now[|before| + 1] == Unassigned(name.value, ApiId(highest), false) ==> err.UnassignFailed?)
            && now[|before| + 1].Unassigned? && now[|before| + 1].name == name.value && now[|before| + 1].service == ApiId(highest)
            && (err.NoError? ==> now[|now| - 1].SeesHolder()))
      && (WellNamed(apiServices) && err.NoServices? ==> apiServices == map[])
      && (WellNamed(apiServices) && err.NoSuitable? ==>
            name.Some? && name.value in targets && Refused(apiServices, targets[name.value].tags, [], now[|before|..]))
    }

    lemma RoundListed(before: seq<Event>, highest: string, ok: bool)
      ensures RoundLog(if ok then NoError else LockerFailed, before, before + [Listed(ok)], highest, None)
    {
      assert (before + [Listed(ok)])[|before|..] == [Listed(ok)];
    }

    lemma RoundReleased(before: seq<Event>, now: seq<Event>, highest: string, n: string, ok: bool)
      requires now == before + [Listed(true)] + [Unassigned(n, ApiId(highest), ok)]
      ensures !ok ==> RoundLog(UnassignFailed, before, now, highest, Some(n))
    {
      NothingDispatched(n, []);
      ReleasedOne(n, ApiId(highest), ok, [], []);
      assert now[|before|..] == [Listed(true), Unassigned(n, ApiId(highest), ok)];
    }

    lemma RoundDispatched(err: DispatchError, before: seq<Event>, sofar: seq<Event>, now: seq<Event>, highest: string,
                          n: string, ok: bool, trace: seq<Attempt>)
      requires sofar == before + [Listed(true)] + [Unassigned(n, ApiId(highest), ok)] && ok && n in targets
      requires DispatchLog(sofar, now, trace, targets[n].name) && Explained(err, sofar, now) && !err.UnassignFailed?
      requires err.NoError? ==> now != [] && now[|now| - 1].SeesHolder()
      requires WellNamed(apiServices) && err.NoServices? ==> apiServices == map[]
      requires WellNamed(apiServices) && err.NoSuitable? ==>
                 |sofar| <= |now| && Refused(apiServices, targets[n].tags, [], now[|sofar|..])
      ensures RoundLog(err, before, now, highest, Some(n))
    {
      hide Dispatched, Released, Refused;
      var first := [Listed(true), Unassigned(n, ApiId(highest), ok)];
      LogParts(sofar, now, trace, targets[n].name);
      ExplainedLonger(err, before, sofar, now);
      assert now[|before|..] == first + now[|sofar|..];
      if Keyed(targets) { ReleasedOne(n, ApiId(highest), ok, now[|sofar|..], trace); }
      RefusedLonger(targets[n].tags, first, now[|sofar|..]);
    }

    lemma ExplainedLonger(err: DispatchError, before: seq<Event>, sofar: seq<Event>, now: seq<Event>)
      requires before <= sofar && Explained(err, sofar, now) && sofar < now
      ensures Explained(err, before, now)
    {
    }

    lemma LogParts(before: seq<Event>, now: seq<Event>, trace: seq<Attempt>, name: string)
      requires DispatchLog(before, now, trace, name)
      ensures before < now && now[|before|].LockChecked? && now[|before|].name == name
      ensures Dispatched(now[|before|..], trace, name)
    {
      assert now[|before|..][0] == now[|before|] && now[|before|] in now[|before|..];
    }

    lemma RefusedLonger(tags: seq<string>, first: seq<Event>, more: seq<Event>)
      ensures ServiceIds([])
      ensures Refused(apiServices, tags, [], more) ==> Refused(apiServices, tags, [], first + more)
    {
    }

    lemma NobodyHeld(instance: string)
      ensures Ordering.SortedKeys(Held(locks, instance)) == [] ==> Held(locks, instance) == {}
    {
    }

    ghost function SetOfOption(name: Option<string>): set<string> { if name.Some? then {name.value} else {} }

    /** The cluster is ideal, unbalanced, and `highest` is most loaded. */
    ghost predicate Movable(table: Locks, highest: string)
      reads this`apiServices, this`targets
    {
      && Ideal(table) && IsMost(Instances(apiServices), table, highest)
      && Delta(Instances(apiServices), table) >= 2
    }

    /** A most loaded instance of an unbalanced cluster is registered and holds
        targets. */
    lemma MovableFacts(highest: string)
      ensures Movable(locks, highest) ==> reliable && ApiId(highest) in apiServices && Held(locks, highest) != {}
    {
      if Movable(locks, highest) {
        var id :| id in apiServices && TrimApi(id) == highest;
        InstanceId(apiServices, id);
        MaxLoadIs(Instances(apiServices), locks, highest);
        assert Load(locks, highest) >= 2;
      }
    }

    lemma HeldFacts(highest: string, held: seq<string>, name: Option<string>)
      requires held == Ordering.SortedKeys(Held(locks, highest)) && held != []
      requires name.None? ==> forall n | n in held :: n !in targets
      requires name.Some? ==> name.value in targets && FirstIn(held, name.value)
      ensures name.Some? ==> name.value in locks && locks[name.value] == highest && FirstHeld(locks, highest, name.value)
      ensures name.None? ==> forall n | n in Held(locks, highest) :: n !in targets
      ensures Movable(locks, highest) ==> name.Some?
    {
      assert held[0] in Held(locks, highest);
      if name.Some? { FirstInHeld(highest, held, name.value); }
    }

    lemma FirstInHeld(instance: string, held: seq<string>, n: string)
      requires held == Ordering.SortedKeys(Held(locks, instance)) && n in targets && FirstIn(held, n)
      ensures FirstHeld(locks, instance, n)
    {
      var i :| 0 <= i < |held| && held[i] == n && forall j | 0 <= j < i :: held[j] !in targets;
      Ordering.SortedKeysAscending(Held(locks, instance));
      forall m | m in Held(locks, instance) && Ordering.Less(m, n) ensures m !in targets {
        var j :| 0 <= j < |held| && held[j] == m;
        Ordering.LessTotal(m, n);
      }
    }

    lemma ConfigFacts(before: Locks, highest: string, name: string, deadline: nat)
      requires name in targets && name in before && (reliable ==> deadline >= 1)
      ensures Keyed(targets) ==> targets[name].name == name
      ensures Movable(before, highest) ==>
                && Keyed(targets) && reliable && targets[name].tags == [] && Smooth([], deadline)
                && Suitable(apiServices, [], [])
    {
      if Movable(before, highest) {
        BestExists(apiServices, []);
        assert ServiceIds([]);
      }
    }

    lemma MoveMade(before: Locks, highest: string, name: string, after: Locks)
      requires Movable(before, highest) && name in before && before[name] == highest
      requires Placed(apiServices, before - {name}, [], [], name, after)
      ensures Move(Instances(apiServices), before, after) && Ideal(after)
    {
      hide *;
      MovableParts(before, highest);
      var to := PlacedAtLeast(apiServices, before - {name}, name, after);
      LeastAfterRelease(Instances(apiServices), before, name, to);
      assert after == before[name := to];
      StillIdeal(before, name, to);
    }

    lemma MovableParts(before: Locks, highest: string)
      requires Movable(before, highest)
      ensures WellNamed(apiServices) && Ideal(before) && IsMost(Instances(apiServices), before, highest)
      ensures Delta(Instances(apiServices), before) >= 2
    {
    }

    lemma StillIdeal(before: Locks, name: string, to: string)
      requires Ideal(before) && name in before && IsLeast(Instances(apiServices), before - {name}, to)
      ensures Ideal(before[name := to])
    {
    }

    lemma MovesSnoc(group: set<string>, history: seq<Locks>, next: Locks)
      requires history != [] && Moves(group, history)
      requires Delta(group, history[|history| - 1]) >= 2 && Move(group, history[|history| - 1], next)
      ensures Moves(group, history + [next])
    {
    }

    method ClusterRebalanceTargets() returns (err: DispatchError, moved: seq<string>, ghost history: seq<Locks>)
      modifies this`locks, this`events
      ensures |moved| <= MAX_REBALANCE_LOOP
      ensures forall t | t in moved :: t in targets
      ensures RebalanceLog(old(events), events, moved) && Reported(err, old(events), events, moved)
      ensures Keyed(targets) ==> forall t | t in moved :: t in old(locks)
      ensures Keyed(targets) && err.NoError? ==> locks.Keys == old(locks).Keys
      ensures Keyed(targets) ==> AtMostOneLost(old(locks).Keys, locks.Keys)
      ensures WellNamed(apiServices) && err.NoError? ==> Rebalanced(old(locks), locks, |moved|)
      ensures Ideal(old(locks)) ==>
                && err.NoError? && Run(Instances(apiServices), history)
                && history[0] == old(locks) && history[|history| - 1] == locks
    {
      hide *;
      var rebalanceCount, maxIter := 0, -1;
      moved, history := [], [locks];
      ghost var group := Instances(apiServices);
      ghost var ideal := Ideal(locks);
      RebalanceStarts(events);
      while true
        invariant |moved| == rebalanceCount <= MAX_REBALANCE_LOOP == 100
        invariant -1 <= maxIter <= MAX_REBALANCE_LOOP && (rebalanceCount > 0 ==> rebalanceCount <= maxIter)
        invariant RebalanceLog(old(events), events, moved)
        invariant Conserved(old(locks), locks, moved)
        invariant CapFixed(old(locks), locks, maxIter, rebalanceCount)
        invariant ideal ==> IdealRun(group, history, old(locks), locks, rebalanceCount, maxIter)
        decreases MAX_REBALANCE_LOOP - rebalanceCount, maxIter < 0
      {
        ConservedSo(old(locks), locks, moved);
        ghost var start := events;
        var ok, highest, delta := Difference();
        LogListed(old(events), start, moved, ok);
        if ideal { IdealLists(group, history, old(locks), rebalanceCount, maxIter); }
        if !ok { return LockerFailed, moved, history; }
        if maxIter < 0 {
          CapTaken(old(locks), delta, rebalanceCount);
          if ideal { IdealCap(group, history, old(locks), rebalanceCount, delta); }
          maxIter := delta / 2;
          if maxIter > MAX_REBALANCE_LOOP { maxIter := MAX_REBALANCE_LOOP; }
        }
        if delta < 2 || rebalanceCount >= maxIter {
          if ideal { RunEnds(group, history, old(locks), rebalanceCount, maxIter); }
          if WellNamed(apiServices) { NothingLeft(old(locks), |moved|, delta, maxIter); }
          return NoError, moved, history;
        }
        ghost var before, sofar := locks, events;
        var name;
        err, name := RebalanceOne(highest);
        LogRound(err, old(events), sofar, events, moved, highest, name);
        if name.None? {
          if WellNamed(apiServices) && err.NoError? { NothingHeld(old(locks), |moved|, highest); }
          return err, moved, history;
        }
        ConservedMove(err, old(locks), before, locks, moved, name.value);
        if ideal { IdealMove(group, history, old(locks), before, rebalanceCount, maxIter); }
        moved := moved + [name.value];
        history := history + [locks];
        if !err.NoError? { return err, moved, history; }
        CapKept(old(locks), before, locks, maxIter, rebalanceCount);
        rebalanceCount := rebalanceCount + 1;
      }
    }

    /** A most loaded instance, and how far it is from a least loaded one. */
    method Difference() returns (ok: bool, highest: string, delta: int)
      modifies this`events
      ensures events == old(events) + [Listed(ok)]
      ensures reliable ==> ok
      ensures ok && WellNamed(apiServices) ==>
                delta == Delta(Group(locks), locks) >= 0 && (delta >= 2 ==> IsMost(Group(locks), locks, highest))
      ensures ok && Ideal(locks) ==>
                delta == Delta(Instances(apiServices), locks) && (delta >= 2 ==> Movable(locks, highest))
    {
      hide *;
      var load;
      ok, load := GetInstancesLoad([]);
      var lowest;
      highest, lowest := GetHighAndLowInstance(load);
      delta := LoadOf(load, highest) - LoadOf(load, lowest);
      if ok && WellNamed(apiServices) { LoadFacts(load, highest, lowest); }
      if ok && Ideal(locks) { RoundFacts(load, highest, lowest); }
    }

    /** Moved targets were known and locked, and no lock has been lost. */
    ghost predicate Conserved(first: Locks, now: Locks, moved: seq<string>)
      reads this`targets
    {
      && (forall t | t in moved :: t in targets && (Keyed(targets) ==> t in first))
      && (Keyed(targets) ==> now.Keys == first.Keys)
    }

    /** The cap is that of the first difference. */
    ghost predicate CapFixed(first: Locks, now: Locks, maxIter: int, count: nat)
      reads this`apiServices
    {
      && (maxIter < 0 ==> count == 0 && now == first)
      && (WellNamed(apiServices) && maxIter >= 0 ==> maxIter == Cap(Delta(Group(first), first)))
    }

    /** The moves of an ideal cluster so far. */
    ghost predicate IdealRun(group: set<string>, history: seq<Locks>, first: Locks, now: Locks, count: nat, maxIter: int)
      reads this`apiServices, this`targets
    {
      && Ideal(now) && |history| == count + 1 && Moves(group, history)
      && history[0] == first && history[count] == now
      && (maxIter >= 0 ==> maxIter == Cap(Delta(group, first)))
    }

    lemma RebalanceStarts(log: seq<Event>)
      ensures RebalanceLog(log, log, []) && Conserved(locks, locks, []) && CapFixed(locks, locks, -1, 0)
      ensures Ideal(locks) ==> IdealRun(Instances(apiServices), [locks], locks, locks, 0, -1)
      ensures MAX_REBALANCE_LOOP == 100
    {
      MovedNone(log);
    }

    lemma ConservedSo(first: Locks, now: Locks, moved: seq<string>)
      requires Conserved(first, now, moved)
      ensures forall t | t in moved :: t in targets
      ensures Keyed(targets) ==> (forall t | t in moved :: t in first)
      ensures Keyed(targets) ==> now.Keys == first.Keys && AtMostOneLost(first.Keys, now.Keys)
    {
      NoneLost(first.Keys);
    }

    lemma ConservedMove(err: DispatchError, first: Locks, before: Locks, now: Locks, moved: seq<string>, name: string)
      requires Conserved(first, before, moved) && name in targets && name in before
      requires Keyed(targets) ==> now - {name} == before - {name} && (err.NoError? ==> name in now)
      ensures var more := moved + [name];
        && (forall t | t in more :: t in targets)
        && (Keyed(targets) ==> (forall t | t in more :: t in first) && AtMostOneLost(first.Keys, now.Keys))
        && (err.NoError? ==> Conserved(first, now, more))
    {
      if Keyed(targets) { KeysKept(before, now, name); }
    }

    lemma CapTaken(first: Locks, delta: int, count: nat)
      requires CapFixed(first, locks, -1, count)
      requires WellNamed(apiServices) ==> delta == Delta(Group(locks), locks) >= 0
      ensures count == 0 && CapFixed(first, locks, Cap(delta), count)
      ensures MAX_REBALANCE_LOOP == 100 && Cap(delta) == if delta / 2 > 100 then 100 else delta / 2
    {
    }

    lemma CapKept(first: Locks, before: Locks, now: Locks, maxIter: int, count: nat)
      requires CapFixed(first, before, maxIter, count) && maxIter >= 0
      ensures CapFixed(first, now, maxIter, count + 1)
    {
    }

    lemma IdealLists(group: set<string>, history: seq<Locks>, first: Locks, count: nat, maxIter: int)
      requires IdealRun(group, history, first, locks, count, maxIter)
      ensures reliable && Ideal(locks)
    {
    }

    lemma IdealCap(group: set<string>, history: seq<Locks>, first: Locks, count: nat, delta: int)
      requires IdealRun(group, history, first, locks, count, -1) && count == 0 && group == Instances(apiServices)
      requires delta == Delta(group, locks)
      ensures IdealRun(group, history, first, locks, count, Cap(delta))
    {
    }

    lemma IdealMove(group: set<string>, history: seq<Locks>, first: Locks, before: Locks, count: nat, maxIter: int)
      requires IdealRun(group, history, first, before, count, maxIter) && Ideal(locks)
      requires Delta(group, before) >= 2 && Move(group, before, locks)
      ensures IdealRun(group, history + [locks], first, locks, count + 1, maxIter)
    {
      MovesSnoc(group, history, locks);
    }

    /** The targets released are the moved ones. */
    ghost predicate RebalanceLog(before: seq<Event>, now: seq<Event>, moved: seq<string>)
      reads this`targets
    {
      before <= now && (Keyed(targets) ==> MovedSince(before, now, moved))
    }

    /** What an error of a rebalance means. */
    ghost predicate Reported(err: DispatchError, before: seq<Event>, now: seq<Event>, moved: seq<string>)
      reads this`apiServices, this`targets
    {
      && before < now && Explained(err, before, now)
      && (WellNamed(apiServices) && err.NoServices? ==> apiServices == map[])
      && (WellNamed(apiServices) && err.NoSuitable? ==>
            && moved != [] && moved[|moved| - 1] in targets
            && Refused(apiServices, targets[moved[|moved| - 1]].tags, [], now[|before|..]))
    }

    lemma LogListed(before: seq<Event>, sofar: seq<Event>, moved: seq<string>, ok: bool)
      requires RebalanceLog(before, sofar, moved)
      ensures RebalanceLog(before, sofar + [Listed(ok)], moved)
      ensures Reported(if ok then NoError else LockerFailed, before, sofar + [Listed(ok)], moved)
    {
      NotReleased(ok);
      assert (sofar + [Listed(ok)])[|sofar|..] == [Listed(ok)];
      if Keyed(targets) { MovedMore(before, sofar, sofar + [Listed(ok)], moved, None); }
    }

    lemma LogRound(err: DispatchError, before: seq<Event>, sofar: seq<Event>, now: seq<Event>, moved: seq<string>, highest: string, name: Option<string>)
      requires RebalanceLog(before, sofar, moved) && RoundLog(err, sofar, now, highest, name)
      ensures var more := if name.Some? then moved + [name.value] else moved;
        RebalanceLog(before, now, more) && Reported(err, before, now, more)
    {
      hide MovedSince, Refused, Released;
      if Keyed(targets) { MovedMore(before, sofar, now, moved, name); }
      ExplainedLonger(err, before, sofar, now);
      assert now[|before|..] == sofar[|before|..] + now[|sofar|..];
      if name.Some? && name.value in targets {
        RefusedLonger(targets[name.value].tags, sofar[|before|..], now[|sofar|..]);
      }
    }

    /** All lock holders and registered instances. */
    ghost function Group(table: Locks): set<string>
      reads this`apiServices
    {
      table.Values + Instances(apiServices)
    }

    /** Loads are balanced, or the cap of the first difference is used up, or some
        most loaded instance has no target with a config. */
    ghost predicate Rebalanced(first: Locks, now: Locks, moves: nat)
      reads this`apiServices, this`targets
    {
      || Delta(Group(now), now) < 2
      || moves == Cap(Delta(Group(first), first))
      || exists h :: IsMost(Group(now), now, h) && forall n | n in Held(now, h) :: n !in targets
    }

    lemma LoadFacts(load: map<string, nat>, highest: string, lowest: string)
      requires ExactLoads(load, locks) && load.Keys == locks.Values + Instances(apiServices)
      requires load != map[] ==>
                 && highest in load && (forall i | i in load :: load[i] <= load[highest])
                 && lowest in load && (forall i | i in load :: load[lowest] <= load[i])
      ensures LoadOf(load, highest) - LoadOf(load, lowest) == Delta(Group(locks), locks) >= 0
      ensures Delta(Group(locks), locks) >= 2 ==> IsMost(Group(locks), locks, highest)
    {
      if load == map[] {
        assert Group(locks) == {};
      } else {
        MaxLoadIs(Group(locks), locks, highest);
        MinLoadIs(Group(locks), locks, lowest);
      }
    }

    lemma NothingLeft(first: Locks, moves: nat, delta: int, maxIter: int)
      requires CapFixed(first, locks, maxIter, moves) && WellNamed(apiServices) && delta == Delta(Group(locks), locks)
      requires delta < 2 || (maxIter >= 0 && moves >= maxIter) || maxIter < 0
      requires moves == 0 || moves <= maxIter
      requires maxIter >= 0
      ensures Rebalanced(first, locks, moves)
    {
    }

    lemma NothingHeld(first: Locks, moves: nat, highest: string)
      requires IsMost(Group(locks), locks, highest) && forall n | n in Held(locks, highest) :: n !in targets
      ensures Rebalanced(first, locks, moves)
    {
    }

    lemma NotReleased(ok: bool)
      ensures Released([Listed(ok)]) == SetOfOption(None)
    {
    }

    /** The targets released since are the moved ones. */
    ghost predicate MovedSince(start: seq<Event>, now: seq<Event>, moved: seq<string>)
      requires start <= now
    {
      Released(now[|start|..]) == SetOf(moved)
    }

    lemma MovedNone(start: seq<Event>)
      ensures MovedSince(start, start, [])
    {
      assert start[|start|..] == [];
    }

    lemma MovedMore(start: seq<Event>, sofar: seq<Event>, now: seq<Event>, moved: seq<string>, name: Option<string>)
      requires start <= sofar <= now && MovedSince(start, sofar, moved) && Released(now[|sofar|..]) == SetOfOption(name)
      ensures MovedSince(start, now, if name.Some? then moved + [name.value] else moved)
    {
      assert now[|start|..] == sofar[|start|..] + now[|sofar|..];
      ReleasedAppend(sofar[|start|..], now[|sofar|..]);
      if name.Some? { MovedSnoc(moved, name.value); }
    }

    lemma MovedSnoc(moved: seq<string>, n: string)
      ensures SetOf(moved + [n]) == SetOf(moved) + {n}
    {
      var more := moved + [n];
      SetOfSnoc(more, |moved|);
      assert more[..|moved|] == moved && more[..|moved| + 1] == more;
    }

    lemma RunEnds(group: set<string>, history: seq<Locks>, first: Locks, count: nat, maxIter: int)
      requires IdealRun(group, history, first, locks, count, maxIter) && maxIter >= 0
      requires count == 0 || count <= maxIter
      requires Delta(group, locks) < 2 || count >= maxIter
      ensures Run(group, history)
      ensures history[0] == first && history[|history| - 1] == locks
    {
      DeltaNonNegative(group, first);
    }

    // -------------------------------------------------------------------
    // Draining
    // -------------------------------------------------------------------

    /** The cluster is reliable and the drained instance is registered. */
    ghost predicate Drainable(id: string)
      reads this`apiServices, this`targets
    {
      reliable && WellNamed(apiServices) && Keyed(targets) && ApiId(id) in apiServices
    }

    /** The target has a config, and a service other than the drained one shares
        the longest tag prefix with it. */
    ghost predicate Relocatable(name: string, id: string)
      reads this`apiServices, this`targets
    {
      name in targets && Suitable(apiServices, targets[name].tags, [ApiId(id)])
    }

    /** Unlike rebalancing, draining releases a target before it looks for its
        config: a target without config loses its lock for good. */
    method DrainOne(name: string, id: string)
      modifies this`locks, this`events
      ensures Keyed(targets) ==> locks - {name} == old(locks) - {name}
      ensures old(events) < events && DrainCalls(name, id, events[|old(events)|..])
      ensures Drainable(id) && name in old(locks) && old(locks)[name] == id ==>
                (name in locks <==> Relocatable(name, id)) && (name in locks ==> locks[name] != id)
    {
      hide *;
      var released := UnassignTarget(name, ApiId(id));
      DrainFacts(name, id);
      ghost var asked := events;
      assert events[|old(events)|..] == [Unassigned(name, ApiId(id), released)];
      DrainCallsOnly(name, id, released, []);
      if !released { return; }
      if name !in targets { return; }
      ghost var freed := locks;
      var deadline: nat :| reliable ==> deadline >= 1;
      DrainDispatch(name, id, deadline);
      var tc := targets[name];
      var err, trace := DispatchTarget(tc, [ApiId(id)], deadline);
      LogParts(asked, events, trace, tc.name);
      assert events[|old(events)|..] == [Unassigned(name, ApiId(id), released)] + events[|asked|..];
      DrainCallsOnly(name, id, released, events[|asked|..]);
      if Drainable(id) && name !in freed && Relocatable(name, id) { PlacedElsewhere(freed, name, id, locks); }
    }

    /** The target was released, and if that succeeded and it has a config, its
        dispatch was begun. */
    ghost predicate DrainCalls(name: string, id: string, es: seq<Event>)
      reads this`targets
    {
      exists i, ok :: 0 <= i < |es| && es[i] == Unassigned(name, ApiId(id), ok)
        && (ok && name in targets ==> i + 1 < |es| && es[i + 1].LockChecked? && es[i + 1].name == targets[name].name)
    }

    lemma DrainCallsOnly(name: string, id: string, ok: bool, more: seq<Event>)
      requires ok && name in targets && more != [] ==> more[0].LockChecked? && more[0].name == targets[name].name
      ensures more != [] || !ok || name !in targets ==> DrainCalls(name, id, [Unassigned(name, ApiId(id), ok)] + more)
      ensures [Unassigned(name, ApiId(id), ok)] + [] == [Unassigned(name, ApiId(id), ok)]
    {
      var es := [Unassigned(name, ApiId(id), ok)] + more;
      assert es[0] == Unassigned(name, ApiId(id), ok) && (more != [] ==> es[1] == more[0]);
    }

    lemma DrainCallsLonger(name: string, id: string, first: seq<Event>, es: seq<Event>, more: seq<Event>)
      requires DrainCalls(name, id, es)
      ensures DrainCalls(name, id, first + es + more)
    {
      var i, ok :| 0 <= i < |es| && es[i] == Unassigned(name, ApiId(id), ok)
        && (ok && name in targets ==> i + 1 < |es| && es[i + 1].LockChecked? && es[i + 1].name == targets[name].name);
      var all := first + es + more;
      assert all[|first| + i] == es[i];
      if i + 1 < |es| { assert all[|first| + i + 1] == es[i + 1]; }
    }

    lemma DrainFacts(name: string, id: string)
      ensures Drainable(id) ==> reliable && ApiId(id) in apiServices
      ensures Relocatable(name, id) ==> name in targets
    {
    }

    lemma DrainDispatch(name: string, id: string, deadline: nat)
      requires name in targets && (reliable ==> deadline >= 1)
      ensures Keyed(targets) ==> targets[name].name == name
      ensures Drainable(id) ==> Keyed(targets) && Smooth([ApiId(id)], deadline)
      ensures Relocatable(name, id) <==> Suitable(apiServices, targets[name].tags, [ApiId(id)])
    {
      ApiIdTrim(id);
    }

    lemma PlacedElsewhere(before: Locks, name: string, id: string, after: Locks)
      requires WellNamed(apiServices) || Drainable(id)
      requires name in targets && Placed(apiServices, before, targets[name].tags, [ApiId(id)], name, after)
      ensures name in after && after[name] != id
    {
      var s :| s in apiServices && Optimal(apiServices, before, targets[name].tags, [ApiId(id)], apiServices[s])
        && after == before[name := TrimApi(s)];
      TrimApiId(s);
    }

    /** After a drain nothing is left on the instance, other instances keep what
        they held, and a drained target is held again exactly when it has a config
        and another service with its longest tag prefix. */
    method DrainInstance(id: string)
      modifies this`locks, this`events
      ensures old(events) < events && events[|old(events)|].Listed?
      ensures events[|old(events)|].ok ==>
                forall t | t in old(locks) && old(locks)[t] == id :: DrainCalls(t, id, events[|old(events)|..])
      ensures Keyed(targets) ==> forall t | t in old(locks) && old(locks)[t] != id :: Same(old(locks), locks, t)
      ensures Drainable(id) ==> forall t | t in locks :: t in old(locks) && locks[t] != id
      ensures Drainable(id) ==>
                forall t | t in old(locks) && old(locks)[t] == id :: t in locks <==> Relocatable(t, id)
    {
      hide *;
      var ok, names := GetInstanceTargets(id);
      ghost var start := locks;
      NotDrained(locks, id);
      if !ok { return; }
      Ordering.SortedKeysDistinct(Held(start, id));
      ghost var done: set<string> := {};
      for i := 0 to |names|
        invariant done == SetOf(names[..i])
        invariant Keyed(targets) ==> Drained(start, locks, done, id)
        invariant old(events) + [Listed(true)] <= events
        invariant forall t | t in done :: DrainCalls(t, id, events[|old(events)|..])
      {
        ghost var before, sofar := locks, events;
        DrainOne(names[i], id);
        assert events[|old(events)|..] == sofar[|old(events)|..] + events[|sofar|..];
        forall t | t in done ensures DrainCalls(t, id, events[|old(events)|..]) {
          DrainCallsLonger(t, id, [], sofar[|old(events)|..], events[|sofar|..]);
          assert [] + sofar[|old(events)|..] == sofar[|old(events)|..];
        }
        DrainCallsLonger(names[i], id, sofar[|old(events)|..], events[|sofar|..], []);
        assert sofar[|old(events)|..] + events[|sofar|..] + [] == events[|old(events)|..];
        NextName(names, i, Held(start, id));
        if Keyed(targets) { DrainStep(start, before, locks, done, names[i], id); }
        done := done + {names[i]};
      }
      AllNames(names, Held(start, id));
      HeldIs(start, id);
      DrainEnds(start, done, id);
    }

    lemma HeldIs(table: Locks, id: string)
      ensures forall t :: t in Held(table, id) <==> t in table && table[t] == id
    {
    }

    lemma NotDrained(start: Locks, id: string)
      ensures Drained(start, start, {}, id) && SetOf([]) == {}
      ensures Drainable(id) ==> reliable && Keyed(targets)
      ensures forall t :: Same(start, start, t)
    {
    }

    lemma NextName(names: seq<string>, i: nat, held: set<string>)
      requires i < |names| && Distinct(names) && forall n | n in names :: n in held
      ensures names[i] in held && names[i] !in SetOf(names[..i])
      ensures SetOf(names[..i + 1]) == SetOf(names[..i]) + {names[i]}
    {
      assert names[..i + 1] == names[..i] + [names[i]];
    }

    lemma AllNames(names: seq<string>, held: set<string>)
      requires forall n :: n in names <==> n in held
      ensures SetOf(names[..|names|]) == held
    {
      assert names[..|names|] == names;
    }

    /** The targets of `done` are drained, all others are as at the start. */
    ghost predicate Drained(start: Locks, now: Locks, done: set<string>, id: string)
      reads this`apiServices, this`targets
    {
      && (forall t | t !in done :: Same(start, now, t))
      && (Drainable(id) ==> forall t | t in done :: t in start && Settled(now, t, id))
    }

    ghost predicate Settled(now: Locks, t: string, id: string)
      reads this`apiServices, this`targets
    {
      (t in now <==> Relocatable(t, id)) && (t in now ==> now[t] != id)
    }

    lemma DrainStep(start: Locks, before: Locks, now: Locks, done: set<string>, n: string, id: string)
      requires Drained(start, before, done, id)
      requires n in Held(start, id) && n !in done && now - {n} == before - {n}
      requires Drainable(id) && n in before && before[n] == id ==>
                 (n in now <==> Relocatable(n, id)) && (n in now ==> now[n] != id)
      ensures Drained(start, now, done + {n}, id)
    {
      assert Same(start, before, n);
      forall t | t !in done + {n} ensures Same(start, now, t) {
        assert Same(start, before, t);
        OthersSame(before, now, n, t);
      }
      if Drainable(id) {
        forall t | t in done + {n} ensures t in start && Settled(now, t, id) {
          if t != n {
            assert Settled(before, t, id);
            OthersSame(before, now, n, t);
          }
        }
      }
    }

    lemma OthersSame(before: Locks, now: Locks, n: string, t: string)
      requires now - {n} == before - {n} && t != n
      ensures Same(before, now, t)
    {
      assert t in now <==> t in now - {n};
      assert t in before <==> t in before - {n};
      if t in now { assert (now - {n})[t] == (before - {n})[t]; }
    }

    lemma DrainEnds(start: Locks, done: set<string>, id: string)
      requires done == Held(start, id)
      requires Keyed(targets) ==> Drained(start, locks, done, id)
      ensures Keyed(targets) ==> forall t | t in start && start[t] != id :: Same(start, locks, t)
      ensures Drainable(id) ==> forall t | t in locks :: t in start && locks[t] != id
      ensures Drainable(id) ==> forall t | t in start && start[t] == id :: t in locks <==> Relocatable(t, id)
    {
      if Drainable(id) {
        forall t | t in locks ensures t in start && locks[t] != id {
          if t !in done { assert Same(start, locks, t); }
        }
        forall t | t in start && start[t] == id ensures t in locks <==> Relocatable(t, id) {
          assert t in done && Settled(locks, t, id);
        }
      }
    }
  }

  /** Two registered instances, the first of which holds the only target, one
      without configuration. */
  ghost predicate HoldsUnknown(app: App)
    reads app
  {
    && app.reliable && app.targets == map[] && app.locks == map["t" := "a"]
    && app.apiServices == map["a-api" := Service("a-api", [])]["b-api" := Service("b-api", [])]
  }

  /** There is a service to take the target, but it cannot be relocated. */
  lemma UnknownTargetLost(app: App)
    requires HoldsUnknown(app)
    ensures app.Drainable("a") && app.locks["t"] == "a" && !app.Relocatable("t", "a")
    ensures Suitable(app.apiServices, [], [ApiId("a")])
  {
    assert "a" + "-api" == "a-api" && "b" + "-api" == "b-api";
    NamedService("a", Service("a-api", []));
    NamedService("b", Service("b-api", []));
    NoTagsAllBest(app.apiServices, "b-api");
    assert "a-api"[0] == 'a' && "b-api"[0] == 'b';
  }

  /** So draining the instance leaves nobody with it. */
  method DrainUnknownTarget(app: App)
    requires HoldsUnknown(app)
    modifies app
    ensures app.locks == map[]
  {
    UnknownTargetLost(app);
    app.DrainInstance("a");
    assert "t" !in app.locks;
    assert forall t :: t !in app.locks;
  }

  lemma NamedService(instance: string, s: Service)
    requires instance != "" && !HasApiSuffix(instance) && s.id == ApiId(instance)
    ensures WellNamed(map[s.id := s])
  {
    ApiIdTrim(instance);
  }

  /** A Go map read: a missing key reads as zero. */
  function LoadOf(load: map<string, nat>, instance: string): nat {
    if instance in load then load[instance] else 0
  }

  function ById(srvs: seq<Service>, base: Services): Services
    decreases |srvs|
  {
    if srvs == [] then base else ById(srvs[1..], base[srvs[0].id := srvs[0]])
  }

  predicate HasId(srvs: seq<Service>, id: string) { exists s | s in srvs :: s.id == id }

  /** Every id of the update is there with the last service that has it, and no
      other id. */
  ghost predicate LastWins(srvs: seq<Service>, services: Services) {
    && (forall id :: id in services <==> HasId(srvs, id))
    && (forall i | 0 <= i < |srvs| && !HasId(srvs[i + 1..], srvs[i].id) ::
          srvs[i].id in services && services[srvs[i].id] == srvs[i])
  }

  lemma UpdateLast(srvs: seq<Service>)
    ensures LastWins(srvs, ById(srvs, map[]))
  {
    ByIdLast(srvs, map[]);
  }

  lemma {:induction false} ByIdLast(srvs: seq<Service>, base: Services)
    ensures forall id :: id in ById(srvs, base) <==> id in base || HasId(srvs, id)
    ensures forall id | id in base && !HasId(srvs, id) :: ById(srvs, base)[id] == base[id]
    ensures forall i | 0 <= i < |srvs| && !HasId(srvs[i + 1..], srvs[i].id) ::
              srvs[i].id in ById(srvs, base) && ById(srvs, base)[srvs[i].id] == srvs[i]
    decreases |srvs|
  {
    if srvs != [] {
      var s, rest := srvs[0], srvs[1..];
      assert forall x :: x in srvs <==> x == s || x in rest;
      assert forall id :: HasId(srvs, id) <==> s.id == id || HasId(rest, id);
      ByIdLast(rest, base[s.id := s]);
      forall i | 0 <= i < |srvs| && !HasId(srvs[i + 1..], srvs[i].id)
        ensures srvs[i].id in ById(srvs, base) && ById(srvs, base)[srvs[i].id] == srvs[i]
      {
        if i > 0 { assert rest[i - 1] == srvs[i] && rest[i - 1 + 1..] == srvs[i + 1..]; }
      }
    }
  }
}
