/** The gNMI proxy's ONCE subscription (pkg/app/proxy.go): one producer per target
    reads that target's responses and hands them, over an unbuffered channel, to a
    single forwarder that writes the client stream. */
module ProxyOnce {
  import opened Basics

  /** A subscribe response; an update may or may not have a prefix target. */
  datatype Message = Update(prefixTarget: string, body: string) | Sync | Other

  /** What was sent to the client; an update is tagged with the target it came
      from, which the client does not see. */
  datatype Frame = Data(from: string, update: Message) | ClientSync

  /** The forwarder fills an empty prefix target with the target's name. */
  function Fill(name: string, m: Message): Message {
    if m.Update? && m.prefixTarget == "" then m.(prefixTarget := name) else m
  }

  // ---------------------------------------------------------------------
  // The forwarder
  // ---------------------------------------------------------------------

  datatype Forwarder = Forwarder(syncs: set<string>, client: seq<Frame>, running: bool)

  /** One response handled; `sendOk` says whether a stream send succeeds. */
  function Handle(f: Forwarder, numTargets: nat, name: string, m: Message, sendOk: bool): Forwarder {
    match m
    case Update(_, _) =>
      if sendOk then f.(client := f.client + [Data(name, Fill(name, m))]) else f.(running := false)
    case Sync =>
      var syncs := f.syncs + {name};
      if |syncs| >= numTargets then
        Forwarder(syncs, if sendOk then f.client + [ClientSync] else f.client, false)
      else f.(syncs := syncs)
    case Other => f
  }

  /** The forwarder's loop over the responses it receives, as the source runs it:
      a set of targets that have synced and a stream to write. */
  method Forward(numTargets: nat, results: seq<(string, Message)>, sendOk: seq<bool>) returns (client: seq<Frame>)
    requires |results| == |sendOk|
    ensures client == HandleAll(numTargets, results, sendOk).client
    ensures forall c | 0 <= c < |client| && client[c].Data? :: ForwardedFrom(results, client[c], c)
    ensures forall c | 0 <= c < |client| - 1 :: client[c].Data?
  {
    HandledInOrder(numTargets, results, sendOk);
    hide ForwardedFrom;
    var syncs: set<string> := {};
    client := [];
    ghost var f := Forwarder({}, [], true);
    for i := 0 to |results|
      invariant f == HandleAll(numTargets, results[..i], sendOk[..i])
      invariant f == Forwarder(syncs, client, true)
    {
      assert results[..i + 1][..i] == results[..i] && sendOk[..i + 1][..i] == sendOk[..i];
      var (name, rsp) := results[i];
      f := Handle(f, numTargets, name, rsp, sendOk[i]);
      match rsp {
        case Update(prefixTarget, body) =>
          var filled := if prefixTarget == "" then Update(name, body) else rsp;
          if !sendOk[i] {
            HandledStops(numTargets, results, sendOk, i + 1);
            return;
          }
          client := client + [Data(name, filled)];
        case Sync =>
          syncs := syncs + {name};
          if |syncs| >= numTargets {
            if sendOk[i] { client := client + [ClientSync]; }
            HandledStops(numTargets, results, sendOk, i + 1);
            return;
          }
        case Other =>
      }
    }
    assert results[..|results|] == results && sendOk[..|results|] == sendOk;
  }

  /** u is the device's update m with the target's name where that named none. */
  predicate Named(name: string, m: Message, u: Message) {
    && m.Update? && u.Update? && u.body == m.body
    && u.prefixTarget == if m.prefixTarget == "" then name else m.prefixTarget
  }

  ghost function UpdatesIn(results: seq<(string, Message)>, i: nat): nat
    requires i <= |results|
  {
    |set k | 0 <= k < i && results[k].1.Update?|
  }

  /** The frame is the c-th update among the responses, under its target. */
  ghost predicate ForwardedFrom(results: seq<(string, Message)>, f: Frame, c: nat)
    requires f.Data?
  {
    exists i :: 0 <= i < |results| && UpdatesIn(results, i) == c && f.from == results[i].0
      && Named(results[i].0, results[i].1, f.update)
  }

  lemma UpdatesInSnoc(results: seq<(string, Message)>, i: nat)
    requires i < |results|
    ensures UpdatesIn(results, i + 1) == UpdatesIn(results, i) + if results[i].1.Update? then 1 else 0
    ensures UpdatesIn(results, 0) == 0
  {
    var before := set k | 0 <= k < i && results[k].1.Update?;
    var after := set k | 0 <= k < i + 1 && results[k].1.Update?;
    assert after == before + if results[i].1.Update? then {i} else {};
  }

  lemma UpdatesInPrefix(results: seq<(string, Message)>, n: nat, i: nat)
    requires i <= n <= |results|
    ensures UpdatesIn(results[..n], i) == UpdatesIn(results, i)
  {
    assert (set k | 0 <= k < i && results[..n][k].1.Update?) == (set k | 0 <= k < i && results[k].1.Update?);
  }

  /** The forwarder sends the updates it is given, in order and without a gap. */
  lemma {:induction false} HandledInOrder(numTargets: nat, results: seq<(string, Message)>, sendOk: seq<bool>)
    requires |results| == |sendOk|
    ensures var f := HandleAll(numTargets, results, sendOk);
      && (forall c | 0 <= c < |f.client| && f.client[c].Data? :: ForwardedFrom(results, f.client[c], c))
      && (forall c | 0 <= c < |f.client| - 1 :: f.client[c].Data?)
      && (f.running ==> |f.client| == UpdatesIn(results, |results|) && forall c | 0 <= c < |f.client| :: f.client[c].Data?)
  {
    if results != [] {
      var n := |results| - 1;
      var before := HandleAll(numTargets, results[..n], sendOk[..n]);
      var f := HandleAll(numTargets, results, sendOk);
      HandledInOrder(numTargets, results[..n], sendOk[..n]);
      UpdatesInSnoc(results, n);
      UpdatesInPrefix(results, n, n);
      forall c | 0 <= c < |f.client| && f.client[c].Data? ensures ForwardedFrom(results, f.client[c], c) {
        if c < |before.client| {
          ForwardedLonger(results, n, before.client[c], c);
        } else {
          assert Named(results[n].0, results[n].1, f.client[c].update) && UpdatesIn(results, n) == c;
        }
      }
    }
  }

  lemma ForwardedLonger(results: seq<(string, Message)>, n: nat, f: Frame, c: nat)
    requires n <= |results| && f.Data? && ForwardedFrom(results[..n], f, c)
    ensures ForwardedFrom(results, f, c)
  {
    var i :| 0 <= i < n && UpdatesIn(results[..n], i) == c && f.from == results[..n][i].0
      && Named(results[..n][i].0, results[..n][i].1, f.update);
    UpdatesInPrefix(results, n, i);
    assert results[..n][i] == results[i];
  }

  ghost function HandleAll(numTargets: nat, results: seq<(string, Message)>, sendOk: seq<bool>): Forwarder
    requires |results| == |sendOk|
  {
    if results == [] then Forwarder({}, [], true)
    else
      var n := |results| - 1;
      var f := HandleAll(numTargets, results[..n], sendOk[..n]);
      if f.running then Handle(f, numTargets, results[n].0, results[n].1, sendOk[n]) else f
  }

  lemma {:induction false} HandledStops(numTargets: nat, results: seq<(string, Message)>, sendOk: seq<bool>, n: nat)
    requires |results| == |sendOk| && n <= |results|
    requires !HandleAll(numTargets, results[..n], sendOk[..n]).running
    ensures HandleAll(numTargets, results, sendOk) == HandleAll(numTargets, results[..n], sendOk[..n])
  {
    if n == |results| {
      assert results[..n] == results && sendOk[..n] == sendOk;
    } else {
      var m := |results| - 1;
      assert results[..m][..n] == results[..n] && sendOk[..m][..n] == sendOk[..n];
      HandledStops(numTargets, results[..m], sendOk[..m], n);
    }
  }

  // ---------------------------------------------------------------------
  // The whole handler
  // ---------------------------------------------------------------------

  datatype Producer = Producer(
    next: nat,                  // responses taken from the target's stream
    held: Option<Message>,      // taken, waiting for the forwarder
    running: bool)

  datatype State = State(
    producers: map<string, Producer>,
    forwarder: Forwarder,
    handled: map<string, nat>)  // history: responses of each target handled without a failed send

  datatype Step =
    | Take(name: string)
    | Hand(name: string, sendOk: bool)
    | StopProducer(name: string)
    | StopForwarder

  type Streams = map<string, seq<Message>>

  predicate Init(streams: Streams, s: State) {
    && s.producers == (map n | n in streams :: Producer(0, None, true))
    && s.handled == (map n | n in streams :: 0)
    && s.forwarder == Forwarder({}, [], true)
  }

  /** A send of this response by this forwarder succeeds or is not needed. */
  predicate Accepted(m: Message, sendOk: bool) { sendOk || !m.Update? }

  predicate Next(streams: Streams, s: State, step: Step, s': State) {
    match step
    case Take(n) =>
      && n in streams && n in s.producers
      && var p := s.producers[n];
      && p.running && p.held.None? && p.next < |streams[n]|
      && s' == s.(producers := s.producers[n := Producer(p.next + 1, Some(streams[n][p.next]), true)])
    // the rendezvous of the unbuffered channel, then the forwarder's work
    case Hand(n, sendOk) =>
      && n in s.producers && n in s.handled && s.forwarder.running
      && var p := s.producers[n];
      && p.held.Some?
      && s' == State(s.producers[n := p.(held := None)],
                     Handle(s.forwarder, |streams|, n, p.held.value, sendOk),
                     if Accepted(p.held.value, sendOk) then s.handled[n := p.next] else s.handled)
    // done context, stop channel, target error or end of the target's stream:
    // a producer looks at these only when it holds nothing
    case StopProducer(n) =>
      && n in s.producers && s.producers[n].held.None?
      && s' == s.(producers := s.producers[n := s.producers[n].(running := false)])
    // done context, or all producers are gone
    case StopForwarder =>
      s' == s.(forwarder := s.forwarder.(running := false))
  }

  predicate IsPath(streams: Streams, path: seq<State>, steps: seq<Step>) {
    |path| == |steps| + 1 && forall j | 0 <= j < |steps| :: Next(streams, path[j], steps[j], path[j + 1])
  }

  predicate IsRun(streams: Streams, run: seq<State>, steps: seq<Step>) {
    IsPath(streams, run, steps) && Init(streams, run[0])
  }

  // ---------------------------------------------------------------------
  // What the client sees
  // ---------------------------------------------------------------------

  /** The updates of one target in the client stream, in order. */
  function From(client: seq<Frame>, name: string): seq<Message> {
    if client == [] then []
    else
      var last := client[|client| - 1];
      From(client[..|client| - 1], name) + if last.Data? && last.from == name then [last.update] else []
  }

  /** The updates of a target's responses as the proxy forwards them. */
  function Forwarded(name: string, ms: seq<Message>): seq<Message> {
    if ms == [] then []
    else
      var last := ms[|ms| - 1];
      Forwarded(name, ms[..|ms| - 1]) + if last.Update? then [Fill(name, last)] else []
  }

  /** Update* then at most one sync, and the sync is last. */
  predicate OnceGrammar(client: seq<Frame>) {
    forall i | 0 <= i < |client| && client[i] == ClientSync :: i == |client| - 1
  }

  lemma FromSnoc(client: seq<Frame>, f: Frame, name: string)
    ensures From(client + [f], name) == From(client, name) + if f.Data? && f.from == name then [f.update] else []
  {
    assert (client + [f])[..|client|] == client;
  }

  lemma ForwardedSnoc(name: string, ms: seq<Message>, n: nat)
    requires n < |ms|
    ensures Forwarded(name, ms[..n + 1]) == Forwarded(name, ms[..n]) + if ms[n].Update? then [Fill(name, ms[n])] else []
  {
    assert ms[..n + 1][..n] == ms[..n];
  }

  // ---------------------------------------------------------------------
  // The invariant
  // ---------------------------------------------------------------------

  /** Producer and history of one target fit its stream. */
  predicate TargetOk(streams: Streams, s: State, n: string) {
    && n in streams && n in s.producers && n in s.handled
    && var p := s.producers[n];
    && s.handled[n] <= p.next <= |streams[n]|
    && (p.held.Some? ==> p.next > 0 && p.held.value == streams[n][p.next - 1])
    && (s.forwarder.running ==> s.handled[n] == p.next - if p.held.Some? then 1 else 0)
  }

  ghost predicate StreamOk(streams: Streams, s: State, n: string) {
    && n in streams && n in s.handled && s.handled[n] <= |streams[n]|
    && From(s.forwarder.client, n) == Forwarded(n, streams[n][..s.handled[n]])
    && (n in s.forwarder.syncs <==> Sync in streams[n][..s.handled[n]])
  }

  ghost predicate Inv(streams: Streams, s: State) {
    && s.producers.Keys == streams.Keys && s.handled.Keys == streams.Keys
    && SyncsOk(streams.Keys, s.forwarder)
    && (forall n | n in streams :: TargetOk(streams, s, n))
    && (forall n | n in streams :: StreamOk(streams, s, n))
  }

  lemma HandledFrom(f: Forwarder, num: nat, n: string, m: Message, sendOk: bool, x: string)
    ensures From(Handle(f, num, n, m, sendOk).client, x)
         == From(f.client, x) + if m.Update? && sendOk && x == n then [Fill(n, m)] else []
    ensures x in Handle(f, num, n, m, sendOk).syncs <==> x in f.syncs || (m.Sync? && x == n)
  {
    FromSnoc(f.client, Data(n, Fill(n, m)), x);
    FromSnoc(f.client, ClientSync, x);
    assert From(f.client, x) + [] == From(f.client, x);
  }

  lemma StreamStep(n: string, ms: seq<Message>, k: nat)
    requires k < |ms|
    ensures Forwarded(n, ms[..k + 1]) == Forwarded(n, ms[..k]) + if ms[k].Update? then [Fill(n, ms[k])] else []
    ensures Sync in ms[..k + 1] <==> Sync in ms[..k] || ms[k].Sync?
  {
    ForwardedSnoc(n, ms, k);
    assert ms[..k + 1] == ms[..k] + [ms[k]];
  }

  /** Handing over a response keeps the stream of its own target in step. */
  lemma HandOwn(streams: Streams, s: State, n: string, sendOk: bool, s': State)
    requires TargetOk(streams, s, n) && StreamOk(streams, s, n) && Next(streams, s, Hand(n, sendOk), s')
    ensures TargetOk(streams, s', n) && StreamOk(streams, s', n)
  {
    var m, k := s.producers[n].held.value, s.handled[n];
    HandledFrom(s.forwarder, |streams|, n, m, sendOk, n);
    StreamStep(n, streams[n], k);
    assert Forwarded(n, streams[n][..k]) + [] == Forwarded(n, streams[n][..k]);
  }

  /** ... and the streams of the others where they were. */
  lemma HandOther(streams: Streams, s: State, n: string, sendOk: bool, s': State, x: string)
    requires TargetOk(streams, s, x) && StreamOk(streams, s, x) && Next(streams, s, Hand(n, sendOk), s') && x != n
    ensures TargetOk(streams, s', x) && StreamOk(streams, s', x)
  {
    HandledFrom(s.forwarder, |streams|, n, s.producers[n].held.value, sendOk, x);
    assert From(s.forwarder.client, x) + [] == From(s.forwarder.client, x);
  }

  predicate SyncsOk(names: set<string>, f: Forwarder) {
    && f.syncs <= names && OnceGrammar(f.client)
    && (ClientSync in f.client ==> !f.running && f.syncs == names)
  }

  lemma HandSyncs(names: set<string>, f: Forwarder, n: string, m: Message, sendOk: bool)
    requires SyncsOk(names, f) && f.running && n in names
    ensures SyncsOk(names, Handle(f, |names|, n, m, sendOk))
  {
    if m.Sync? && |f.syncs + {n}| >= |names| { SameSize(f.syncs + {n}, names); }
  }

  lemma {:induction false} SameSize(a: set<string>, b: set<string>)
    requires a <= b && |a| >= |b|
    ensures a == b
    decreases a
  {
    if a == {} {
      assert |b| == 0;
    } else {
      var x :| x in a;
      SameSize(a - {x}, b - {x});
    }
  }

  lemma TargetStep(streams: Streams, s: State, step: Step, s': State, x: string)
    requires TargetOk(streams, s, x) && StreamOk(streams, s, x) && Next(streams, s, step, s')
    ensures TargetOk(streams, s', x) && StreamOk(streams, s', x)
  {
    match step
    case Hand(n, sendOk) =>
      if x == n { HandOwn(streams, s, n, sendOk, s'); } else { HandOther(streams, s, n, sendOk, s', x); }
    case Take(n) =>
    case StopProducer(n) =>
    case StopForwarder =>
  }

  lemma SyncsStep(streams: Streams, s: State, step: Step, s': State)
    requires SyncsOk(streams.Keys, s.forwarder) && s.producers.Keys == streams.Keys && Next(streams, s, step, s')
    ensures SyncsOk(streams.Keys, s'.forwarder)
  {
    if step.Hand? {
      assert |streams.Keys| == |streams|;
      HandSyncs(streams.Keys, s.forwarder, step.name, s.producers[step.name].held.value, step.sendOk);
    }
  }

  lemma KeysStep(streams: Streams, s: State, step: Step, s': State)
    requires s.producers.Keys == streams.Keys && s.handled.Keys == streams.Keys && Next(streams, s, step, s')
    ensures s'.producers.Keys == streams.Keys && s'.handled.Keys == streams.Keys
  {
  }

  lemma InvStep(streams: Streams, s: State, step: Step, s': State)
    requires Inv(streams, s) && Next(streams, s, step, s')
    ensures Inv(streams, s')
  {
    hide Next, TargetOk, StreamOk, SyncsOk;
    KeysStep(streams, s, step, s');
    SyncsStep(streams, s, step, s');
    forall x | x in streams ensures TargetOk(streams, s', x) && StreamOk(streams, s', x) {
      assert TargetOk(streams, s, x) && StreamOk(streams, s, x);
      TargetStep(streams, s, step, s', x);
    }
  }

  lemma {:induction false} RunInvariant(streams: Streams, run: seq<State>, steps: seq<Step>, j: nat)
    requires IsRun(streams, run, steps) && j < |run|
    ensures Inv(streams, run[j])
  {
    if j > 0 {
      RunInvariant(streams, run, steps, j - 1);
      InvStep(streams, run[j - 1], steps[j - 1], run[j]);
    }
  }

  // ---------------------------------------------------------------------
  // The theorems
  // ---------------------------------------------------------------------

  /** In every interleaving the client stream is Update* and at most one final
      sync, and each target's updates arrive in order, none left out or repeated
      up to some point of its stream. */
  lemma ClientStream(streams: Streams, run: seq<State>, steps: seq<Step>, j: nat, n: string)
    requires IsRun(streams, run, steps) && j < |run| && n in streams
    ensures OnceGrammar(run[j].forwarder.client)
    ensures exists k :: 0 <= k <= |streams[n]|
              && From(run[j].forwarder.client, n) == Forwarded(n, streams[n][..k])
  {
    RunInvariant(streams, run, steps, j);
    assert StreamOk(streams, run[j], n);
  }

  /** The client's sync comes only after every target has sent its own, and after
      all updates a target sent before that. */
  lemma SyncComesLast(streams: Streams, run: seq<State>, steps: seq<Step>, j: nat, n: string, first: nat)
    requires IsRun(streams, run, steps) && j < |run| && ClientSync in run[j].forwarder.client
    requires n in streams && first <= |streams[n]| && Sync !in streams[n][..first]
    ensures Sync in streams[n]
    ensures Forwarded(n, streams[n][..first]) <= From(run[j].forwarder.client, n)
  {
    RunInvariant(streams, run, steps, j);
    assert StreamOk(streams, run[j], n);
    var k := run[j].handled[n];
    SyncStays(streams[n], k, first);
    ForwardedPrefix(n, streams[n], first, k);
  }

  lemma SyncStays(ms: seq<Message>, a: nat, b: nat)
    requires a <= |ms| && b <= |ms|
    ensures a <= b && Sync in ms[..a] ==> Sync in ms[..b]
  {
    if a <= b { assert ms[..a] == ms[..b][..a]; }
  }

  lemma {:induction false} ForwardedPrefix(name: string, ms: seq<Message>, a: nat, b: nat)
    requires a <= b <= |ms|
    ensures Forwarded(name, ms[..a]) <= Forwarded(name, ms[..b])
  {
    if a < b {
      ForwardedPrefix(name, ms, a, b - 1);
      ForwardedSnoc(name, ms, b - 1);
    }
  }

  // ---------------------------------------------------------------------
  // When the handler can return
  // ---------------------------------------------------------------------

  /** All producers and the forwarder have ended. */
  predicate Returned(s: State) {
    !s.forwarder.running && forall n | n in s.producers :: !s.producers[n].running
  }

  ghost predicate CanReturn(streams: Streams, s: State) {
    exists path, steps :: IsPath(streams, path, steps) && path[0] == s && Returned(path[|path| - 1])
  }

  /** A producer that waits for a forwarder that has ended waits forever. */
  lemma {:induction false} WaitsForever(streams: Streams, path: seq<State>, steps: seq<Step>, n: string, j: nat)
    requires IsPath(streams, path, steps) && j < |path| && !path[0].forwarder.running
    requires n in path[0].producers && path[0].producers[n].held.Some? && path[0].producers[n].running
    ensures !path[j].forwarder.running
    ensures n in path[j].producers && path[j].producers[n] == path[0].producers[n]
  {
    if j > 0 {
      WaitsForever(streams, path, steps, n, j - 1);
      assert Next(streams, path[j - 1], steps[j - 1], path[j]);
    }
  }

  ghost function RunningProducers(s: State): set<string> {
    set n | n in s.producers && s.producers[n].running
  }

  /** Producers that hold nothing can end one after the other. */
  lemma {:induction false} EndAll(streams: Streams, s: State) returns (path: seq<State>, steps: seq<Step>)
    requires !s.forwarder.running && forall n | n in s.producers :: s.producers[n].held.None?
    ensures IsPath(streams, path, steps) && path[0] == s && Returned(path[|path| - 1])
    decreases RunningProducers(s)
  {
    if n :| n in RunningProducers(s) {
      var s' := s.(producers := s.producers[n := s.producers[n].(running := false)]);
      assert Next(streams, s, StopProducer(n), s');
      assert RunningProducers(s') == RunningProducers(s) - {n};
      var path', steps' := EndAll(streams, s');
      path, steps := [s] + path', [StopProducer(n)] + steps';
      forall j | 0 <= j < |steps| ensures Next(streams, path[j], steps[j], path[j + 1]) {
        if j > 0 { assert Next(streams, path'[j - 1], steps'[j - 1], path'[j - 1 + 1]); }
      }
    } else {
      path, steps := [s], [];
      assert forall n | n in s.producers :: n !in RunningProducers(s);
    }
  }

  /** A producer that holds a response is running. */
  lemma {:induction false} HoldersRun(streams: Streams, run: seq<State>, steps: seq<Step>, j: nat)
    requires IsRun(streams, run, steps) && j < |run|
    ensures forall n | n in run[j].producers && run[j].producers[n].held.Some? :: run[j].producers[n].running
  {
    if j > 0 {
      HoldersRun(streams, run, steps, j - 1);
      assert Next(streams, run[j - 1], steps[j - 1], run[j]);
    }
  }

  /** Once the forwarder has ended, the handler can return exactly when no producer
      holds a response: the send to the forwarder waits for nothing else. */
  lemma ReturnIff(streams: Streams, run: seq<State>, steps: seq<Step>, j: nat)
    requires IsRun(streams, run, steps) && j < |run| && !run[j].forwarder.running
    ensures CanReturn(streams, run[j]) <==> forall n | n in run[j].producers :: run[j].producers[n].held.None?
  {
    var s := run[j];
    if forall n | n in s.producers :: s.producers[n].held.None? {
      var path, more := EndAll(streams, s);
    } else {
      var n :| n in s.producers && s.producers[n].held.Some?;
      HoldersRun(streams, run, steps, j);
      forall path, more | IsPath(streams, path, more) && path[0] == s ensures !Returned(path[|path| - 1]) {
        WaitsForever(streams, path, more, n, |path| - 1);
      }
    }
  }

  /** One target that sends a response behind its sync is enough for that. */
  lemma HandlerStuck(streams: Streams) returns (run: seq<State>, steps: seq<Step>)
    requires streams == map["a" := [Sync, Other]]
    ensures IsRun(streams, run, steps) && !CanReturn(streams, run[|run| - 1])
    ensures run[|run| - 1].forwarder.client == [ClientSync]
  {
    var f := Forwarder({"a"}, [ClientSync], false);
    var s0 := State(map["a" := Producer(0, None, true)], Forwarder({}, [], true), map["a" := 0]);
    var s1 := s0.(producers := map["a" := Producer(1, Some(Sync), true)]);
    var s2 := State(map["a" := Producer(1, None, true)], f, map["a" := 1]);
    var s3 := s2.(producers := map["a" := Producer(2, Some(Other), true)]);
    run, steps := [s0, s1, s2, s3], [Take("a"), Hand("a", true), Take("a")];
    assert {} + {"a"} == {"a"} && [] + [ClientSync] == [ClientSync];
    assert s0.producers["a" := Producer(1, Some(Sync), true)] == s1.producers;
    assert s1.producers["a" := Producer(1, None, true)] == s2.producers && s1.handled["a" := 1] == s2.handled;
    assert s2.producers["a" := Producer(2, Some(Other), true)] == s3.producers;
    assert Next(streams, s0, Take("a"), s1);
    assert Next(streams, s1, Hand("a", true), s2);
    assert Next(streams, s2, Take("a"), s3);
    ReturnIff(streams, run, steps, 3);
  }

  // ---------------------------------------------------------------------
  // Update by update
  // ---------------------------------------------------------------------

  ghost function StreamUpdates(ms: seq<Message>, q: nat): nat
    requires q <= |ms|
  {
    |UpdateSet(ms, q)|
  }

  ghost function UpdateSet(ms: seq<Message>, q: nat): set<int>
    requires q <= |ms|
  {
    set k | 0 <= k < q && ms[k].Update?
  }

  ghost function FrameSet(client: seq<Frame>, n: string, c: nat): set<int>
    requires c <= |client|
  {
    set k | 0 <= k < c && client[k].Data? && client[k].from == n
  }

  ghost function ClientUpdates(client: seq<Frame>, n: string, c: nat): nat
    requires c <= |client|
  {
    |FrameSet(client, n, c)|
  }

  lemma {:induction false} ForwardedAt(n: string, ms: seq<Message>, q: nat)
    requires q <= |ms|
    ensures |Forwarded(n, ms[..q])| == StreamUpdates(ms, q)
    decreases q
  {
    if q == 0 {
      assert UpdateSet(ms, 0) == {};
    } else {
      ForwardedAt(n, ms, q - 1);
      ForwardedSnoc(n, ms, q - 1);
      assert UpdateSet(ms, q) == UpdateSet(ms, q - 1) + if ms[q - 1].Update? then {q - 1} else {};
    }
  }

  lemma {:induction false} FromAt(client: seq<Frame>, n: string, c: nat)
    requires c <= |client|
    ensures |From(client[..c], n)| == ClientUpdates(client, n, c)
    ensures From(client[..c], n) <= From(client, n)
    decreases |client| - c, c
  {
    FromLength(client, n, c);
    if c == |client| {
      assert client[..c] == client;
    } else {
      FromAt(client, n, c + 1);
      assert client[..c + 1] == client[..c] + [client[c]];
      FromSnoc(client[..c], client[c], n);
    }
  }

  lemma {:induction false} FromLength(client: seq<Frame>, n: string, c: nat)
    requires c <= |client|
    ensures |From(client[..c], n)| == ClientUpdates(client, n, c)
    decreases c
  {
    if c == 0 {
      assert FrameSet(client, n, 0) == {};
    } else {
      FromLength(client, n, c - 1);
      var f := client[c - 1];
      assert client[..c] == client[..c - 1] + [f];
      FromSnoc(client[..c - 1], f, n);
      assert FrameSet(client, n, c)
        == FrameSet(client, n, c - 1) + if f.Data? && f.from == n then {c - 1} else {};
    }
  }

  /** The update that comes after r others. */
  lemma {:induction false} ForwardedNth(n: string, ms: seq<Message>, k: nat, r: nat) returns (q: nat)
    requires k <= |ms| && r < |Forwarded(n, ms[..k])|
    ensures q < k && StreamUpdates(ms, q) == r && Named(n, ms[q], Forwarded(n, ms[..k])[r])
    decreases k
  {
    ForwardedSnoc(n, ms, k - 1);
    if r < |Forwarded(n, ms[..k - 1])| {
      q := ForwardedNth(n, ms, k - 1, r);
    } else {
      q := k - 1;
      ForwardedAt(n, ms, q);
    }
  }

  /** In every run the update of a target that comes to the client after r others
      of it is the one in the target's stream after r others, with the target's name
      in the prefix where it had none, and otherwise as it was. */
  lemma EachUpdate(streams: Streams, run: seq<State>, steps: seq<Step>, j: nat, n: string, c: nat) returns (q: nat)
    requires IsRun(streams, run, steps) && j < |run| && n in streams
    requires c < |run[j].forwarder.client| && run[j].forwarder.client[c].Data? && run[j].forwarder.client[c].from == n
    ensures q < |streams[n]| && StreamUpdates(streams[n], q) == ClientUpdates(run[j].forwarder.client, n, c)
    ensures Named(n, streams[n][q], run[j].forwarder.client[c].update)
  {
    var client := run[j].forwarder.client;
    RunInvariant(streams, run, steps, j);
    assert StreamOk(streams, run[j], n);
    var r := |From(client[..c], n)|;
    FromAt(client, n, c);
    FromAt(client, n, c + 1);
    assert client[..c + 1] == client[..c] + [client[c]];
    FromSnoc(client[..c], client[c], n);
    assert From(client, n)[r] == From(client[..c + 1], n)[r] == client[c].update;
    q := ForwardedNth(n, streams[n], run[j].handled[n], r);
  }

  /** The place of the r-th update of a target in the client stream. */
  lemma {:induction false} FromNth(client: seq<Frame>, n: string, r: nat, e: nat) returns (c: nat)
    requires e <= |client| && r < |From(client[..e], n)|
    ensures c < e && client[c].Data? && client[c].from == n && ClientUpdates(client, n, c) == r
    decreases e
  {
    assert client[..e] == client[..e - 1] + [client[e - 1]];
    FromSnoc(client[..e - 1], client[e - 1], n);
    if r < |From(client[..e - 1], n)| {
      c := FromNth(client, n, r, e - 1);
    } else {
      c := e - 1;
      FromLength(client, n, c);
    }
  }

  /** Before the client's sync comes every update that a target sent before its
      own. */
  lemma EveryUpdate(streams: Streams, run: seq<State>, steps: seq<Step>, j: nat, n: string, q: nat) returns (c: nat)
    requires IsRun(streams, run, steps) && j < |run| && ClientSync in run[j].forwarder.client
    requires n in streams && q < |streams[n]| && streams[n][q].Update? && Sync !in streams[n][..q]
    ensures c < |run[j].forwarder.client| && run[j].forwarder.client[c].Data? && run[j].forwarder.client[c].from == n
    ensures ClientUpdates(run[j].forwarder.client, n, c) == StreamUpdates(streams[n], q)
    ensures Named(n, streams[n][q], run[j].forwarder.client[c].update)
  {
    var client := run[j].forwarder.client;
    assert streams[n][..q + 1] == streams[n][..q] + [streams[n][q]];
    SyncComesLast(streams, run, steps, j, n, q + 1);
    ForwardedAt(n, streams[n], q);
    ForwardedAt(n, streams[n], q + 1);
    ForwardedSnoc(n, streams[n], q);
    assert client[..|client|] == client;
    c := FromNth(client, n, StreamUpdates(streams[n], q), |client|);
    var q' := EachUpdate(streams, run, steps, j, n, c);
    SameRank(streams[n], q, q');
  }

  lemma SameRank(ms: seq<Message>, a: nat, b: nat)
    requires a < |ms| && b < |ms| && ms[a].Update? && ms[b].Update? && StreamUpdates(ms, a) == StreamUpdates(ms, b)
    ensures a == b
  {
    if a < b { RankGrows(ms, a, b); }
    if b < a { RankGrows(ms, b, a); }
  }

  lemma {:induction false} RankGrows(ms: seq<Message>, a: nat, b: nat)
    requires a < b <= |ms| && ms[a].Update?
    ensures StreamUpdates(ms, a) < StreamUpdates(ms, b)
    decreases b
  {
    assert UpdateSet(ms, b) == UpdateSet(ms, b - 1) + if ms[b - 1].Update? then {b - 1} else {};
    if a < b - 1 { RankGrows(ms, a, b - 1); }
  }

  // ---------------------------------------------------------------------
  // The sync is sent
  // ---------------------------------------------------------------------

  /** No send fails and the forwarder is not stopped from outside. */
  predicate Undisturbed(steps: seq<Step>) {
    forall step | step in steps :: !step.StopForwarder? && (step.Hand? ==> step.sendOk)
  }

  /** Each target has had a sync handled. */
  predicate AllSyncsHandled(streams: Streams, s: State) {
    forall n | n in streams :: n in s.handled && s.handled[n] <= |streams[n]| && Sync in streams[n][..s.handled[n]]
  }

  /** Undisturbed, the client has its sync as soon as each target has had a sync
      handled, and until then the forwarder runs. */
  lemma {:induction false} SyncIsSent(streams: Streams, run: seq<State>, steps: seq<Step>, j: nat)
    requires IsRun(streams, run, steps) && j < |run| && Undisturbed(steps)
    ensures run[j].forwarder.running <==> ClientSync !in run[j].forwarder.client
    ensures streams != map[] && AllSyncsHandled(streams, run[j]) ==> ClientSync in run[j].forwarder.client
  {
    RunInvariant(streams, run, steps, j);
    AllSynced(streams, run[j]);
    SyncsSent(streams, run, steps, j);
  }

  lemma AllSynced(streams: Streams, s: State)
    requires Inv(streams, s)
    ensures AllSyncsHandled(streams, s) ==> s.forwarder.syncs == streams.Keys
  {
    if AllSyncsHandled(streams, s) {
      forall n | n in streams ensures n in s.forwarder.syncs { assert StreamOk(streams, s, n); }
    }
  }

  lemma {:induction false} SyncsSent(streams: Streams, run: seq<State>, steps: seq<Step>, j: nat)
    requires IsRun(streams, run, steps) && j < |run| && Undisturbed(steps)
    ensures run[j].forwarder.running <==> ClientSync !in run[j].forwarder.client
    ensures run[j].forwarder.running && streams != map[] ==> |run[j].forwarder.syncs| < |streams|
  {
    if j == 0 {
      assert streams != map[] ==> |streams| > 0;
    } else {
      SyncsSent(streams, run, steps, j - 1);
      var s, step, s' := run[j - 1], steps[j - 1], run[j];
      assert Next(streams, s, step, s') && step in steps;
      if step.Hand? {
        var f := s.forwarder;
        assert s'.forwarder == Handle(f, |streams|, step.name, s.producers[step.name].held.value, true);
      }
    }
  }
}
