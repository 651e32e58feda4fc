/** Subscriptions served from the cache (pkg/gnmiserver/subscribe.go): what the
    STREAM, ONCE and POLL handlers attempt to send, in order. The cache and the
    gRPC stream are inputs: a read gives notifications or errors, and every send
    may fail. */
module SubscribeServer {

  type Body = string

  /** An item of a cache read's channel. */
  datatype Item = Note(body: Body) | Failure

  datatype Frame = Data(body: Body) | SyncResponse

  /** An attempt to send a frame, and whether the stream took it. */
  datatype Attempt = Attempt(frame: Frame, ok: bool)

  function Frames(attempts: seq<Attempt>): seq<Frame> {
    if attempts == [] then []
    else Frames(attempts[..|attempts| - 1]) + if attempts[|attempts| - 1].ok then [attempts[|attempts| - 1].frame] else []
  }

  predicate OnlyData(attempts: seq<Attempt>) { forall a | a in attempts :: a.frame.Data? }

  predicate AllOk(attempts: seq<Attempt>) { forall a | a in attempts :: a.ok }

  /** Bodies of a read up to its first error. */
  function UpToFailure(read: seq<Item>): seq<Body> {
    if read == [] || read[0].Failure? then [] else [read[0].body] + UpToFailure(read[1..])
  }

  function Bodies(attempts: seq<Attempt>): seq<Body>
    requires OnlyData(attempts)
  {
    if attempts == [] then [] else [attempts[0].frame.body] + Bodies(attempts[1..])
  }

  /** One read sent to the client: its notifications in order, up to an error of
      the read or a failed send. `err` tells whether one of these happened. */
  ghost predicate ReadSent(read: seq<Item>, attempts: seq<Attempt>, err: bool) {
    && OnlyData(attempts)
    && Bodies(attempts) <= UpToFailure(read)
    && (forall i | 0 <= i < |attempts| - 1 :: attempts[i].ok)
    && (err <==> (Failure in read && AllOk(attempts)) || !AllOk(attempts))
    && (AllOk(attempts) ==> Bodies(attempts) == UpToFailure(read))
  }

  lemma BodiesSnoc(attempts: seq<Attempt>, b: Body, ok: bool)
    requires OnlyData(attempts)
    ensures OnlyData(attempts + [Attempt(Data(b), ok)])
    ensures Bodies(attempts + [Attempt(Data(b), ok)]) == Bodies(attempts) + [b]
  {
    if attempts != [] {
      assert attempts[0] in attempts;
      assert forall a | a in attempts[1..] :: a in attempts;
      BodiesSnoc(attempts[1..], b, ok);
      assert (attempts + [Attempt(Data(b), ok)])[1..] == attempts[1..] + [Attempt(Data(b), ok)];
    } else {
      assert [Attempt(Data(b), ok)][1..] == [];
    }
  }

  lemma AllSent(read: seq<Item>, attempts: seq<Attempt>)
    requires OnlyData(attempts) && AllOk(attempts)
    requires Bodies(attempts) + [] == UpToFailure(read)
    ensures ReadSent(read, attempts, Failure in read)
  {
    assert Bodies(attempts) + [] == Bodies(attempts);
    forall i | 0 <= i < |attempts| - 1 ensures attempts[i].ok { assert attempts[i] in attempts; }
  }

  lemma LastFailed(read: seq<Item>, attempts: seq<Attempt>)
    requires attempts != [] && OnlyData(attempts) && Bodies(attempts) <= UpToFailure(read)
    requires AllOk(attempts[..|attempts| - 1]) && !attempts[|attempts| - 1].ok
    ensures ReadSent(read, attempts, true)
  {
    hide Bodies, UpToFailure;
    assert attempts[|attempts| - 1] in attempts;
    forall i | 0 <= i < |attempts| - 1 ensures attempts[i].ok {
      assert attempts[i] in attempts[..|attempts| - 1];
    }
  }

  /** The notifications before i have been sent, and there was no error. */
  ghost predicate SentUpTo(read: seq<Item>, attempts: seq<Attempt>, i: nat)
    requires i <= |read|
  {
    && OnlyData(attempts) && AllOk(attempts) && Failure !in read[..i]
    && Bodies(attempts) + UpToFailure(read[i..]) == UpToFailure(read)
  }

  lemma NothingSent(read: seq<Item>)
    ensures SentUpTo(read, [], 0)
  {
    assert read[0..] == read;
    assert [] + UpToFailure(read) == UpToFailure(read);
  }

  lemma SentOne(read: seq<Item>, attempts: seq<Attempt>, i: nat, ok: bool)
    requires i < |read| && SentUpTo(read, attempts, i) && read[i].Note?
    ensures var more := attempts + [Attempt(Data(read[i].body), ok)];
      if ok then SentUpTo(read, more, i + 1) else ReadSent(read, more, true)
  {
    var b, rest := read[i].body, UpToFailure(read[i + 1..]);
    var more := attempts + [Attempt(Data(b), ok)];
    assert read[i..][1..] == read[i + 1..] && read[i..][0] == read[i];
    assert UpToFailure(read[i..]) == [b] + rest;
    BodiesSnoc(attempts, b, ok);
    hide UpToFailure, Bodies, ReadSent;
    assert Bodies(attempts) + ([b] + rest) == (Bodies(attempts) + [b]) + rest;
    assert read[..i + 1] == read[..i] + [read[i]];
    if !ok {
      assert more[..|attempts|] == attempts;
      LastFailed(read, more);
    }
  }

  lemma SentAll(read: seq<Item>, attempts: seq<Attempt>, i: nat)
    requires i <= |read| && SentUpTo(read, attempts, i) && (i < |read| ==> read[i].Failure?)
    ensures ReadSent(read, attempts, i < |read|)
  {
    assert UpToFailure(read[i..]) == [];
    assert i < |read| ==> read[i] in read;
    assert i == |read| ==> read[..i] == read;
    hide UpToFailure, Bodies, ReadSent;
    AllSent(read, attempts);
  }

  lemma {:induction false} UpToFailureIs(read: seq<Item>)
    ensures var bodies := UpToFailure(read);
      && |bodies| <= |read| && (forall i | 0 <= i < |bodies| :: read[i] == Note(bodies[i]))
      && (|bodies| < |read| ==> read[|bodies|].Failure?)
  {
    if read != [] { UpToFailureIs(read[1..]); }
  }

  lemma {:induction false} BodiesAre(attempts: seq<Attempt>)
    requires OnlyData(attempts)
    ensures |Bodies(attempts)| == |attempts|
    ensures forall i | 0 <= i < |attempts| :: attempts[i].frame == Data(Bodies(attempts)[i])
  {
    if attempts != [] {
      assert attempts[0] in attempts && forall a | a in attempts[1..] :: a in attempts;
      BodiesAre(attempts[1..]);
    }
  }

  /** Attempt by attempt: the i-th one sends the i-th notification of the read, up
      to its first error, which is reached if all sends succeed. */
  lemma SentInOrder(read: seq<Item>, attempts: seq<Attempt>, err: bool)
    requires ReadSent(read, attempts, err)
    ensures |attempts| <= |read| && forall i | 0 <= i < |attempts| :: read[i].Note? && attempts[i].frame == Data(read[i].body)
    ensures !err ==> |attempts| == |read| && AllOk(attempts)
    ensures err ==> (attempts != [] && !attempts[|attempts| - 1].ok) || (|attempts| < |read| && read[|attempts|].Failure?)
  {
    UpToFailureIs(read);
    BodiesAre(attempts);
    if AllOk(attempts) {
      if |attempts| == |read| {
        forall x | x in read ensures x.Note? { }
      } else {
        assert read[|attempts|] in read;
      }
    } else {
      var a :| a in attempts && !a.ok;
    }
  }

  /** The loop of the ONCE handler, and of the initial phase of STREAM. */
  method SendRead(read: seq<Item>) returns (attempts: seq<Attempt>, err: bool)
    ensures ReadSent(read, attempts, err)
  {
    hide *;
    attempts := [];
    NothingSent(read);
    for i := 0 to |read|
      invariant SentUpTo(read, attempts, i)
    {
      if read[i].Failure? {
        SentAll(read, attempts, i);
        return attempts, true;
      }
      var ok: bool := *;
      SentOne(read, attempts, i, ok);
      attempts := attempts + [Attempt(Data(read[i].body), ok)];
      if !ok { return attempts, true; }
    }
    SentAll(read, attempts, |read|);
    err := false;
  }

  // ---------------------------------------------------------------------
  // STREAM
  // ---------------------------------------------------------------------

  /** Update*, or Update* Sync Update*. */
  predicate StreamGrammar(frames: seq<Frame>) {
    forall i, j | 0 <= i < j < |frames| :: !(frames[i].SyncResponse? && frames[j].SyncResponse?)
  }

  lemma FramesSnoc(attempts: seq<Attempt>, a: Attempt)
    ensures Frames(attempts + [a]) == Frames(attempts) + if a.ok then [a.frame] else []
  {
    assert (attempts + [a])[..|attempts|] == attempts;
  }

  lemma {:induction false} FramesAppend(a: seq<Attempt>, b: seq<Attempt>)
    ensures Frames(a + b) == Frames(a) + Frames(b)
  {
    if b == [] {
      assert a + b == a && Frames(a) + [] == Frames(a);
    } else {
      var c, last := b[..|b| - 1], b[|b| - 1];
      assert b == c + [last] && a + b == (a + c) + [last];
      FramesAppend(a, c);
      FramesSnoc(a + c, last);
      FramesSnoc(c, last);
      var f := if last.ok then [last.frame] else [];
      assert (Frames(a) + Frames(c)) + f == Frames(a) + (Frames(c) + f);
    }
  }

  lemma {:induction false} FramesOfData(attempts: seq<Attempt>)
    requires OnlyData(attempts)
    ensures forall f | f in Frames(attempts) :: f.Data?
  {
    if attempts != [] {
      var rest, last := attempts[..|attempts| - 1], attempts[|attempts| - 1];
      assert last in attempts;
      assert forall a | a in rest :: a in attempts;
      FramesOfData(rest);
    }
  }

  /** All batches of the initial phase, one per subscription list item. */
  ghost predicate ReadsSent(batches: seq<seq<Item>>, attempts: seq<Attempt>)
    decreases |batches|
  {
    if batches == [] then attempts == []
    else exists a, b :: attempts == a + b && ReadSent(batches[0], a, false) && ReadsSent(batches[1..], b)
  }

  /** Everything before the sync succeeded and is the whole initial state. */
  ghost predicate Synced(updatesOnly: bool, batches: seq<seq<Item>>, initial: seq<Attempt>) {
    if updatesOnly then initial == [] else ReadsSent(batches, initial)
  }

  lemma ReadsCons(batch: seq<Item>, rest: seq<seq<Item>>, a: seq<Attempt>, b: seq<Attempt>)
    requires ReadSent(batch, a, false) && ReadsSent(rest, b)
    ensures ReadsSent([batch] + rest, a + b)
  {
    hide ReadSent;
    assert ([batch] + rest)[1..] == rest;
  }

  lemma ReadsFirst(batches: seq<seq<Item>>, attempts: seq<Attempt>) returns (a: seq<Attempt>, b: seq<Attempt>)
    requires batches != [] && ReadsSent(batches, attempts)
    ensures attempts == a + b && ReadSent(batches[0], a, false) && ReadsSent(batches[1..], b)
  {
    hide ReadSent;
    a, b :| attempts == a + b && ReadSent(batches[0], a, false) && ReadsSent(batches[1..], b);
  }

  lemma {:induction false} ReadsSnoc(batches: seq<seq<Item>>, read: seq<Item>, a: seq<Attempt>, b: seq<Attempt>)
    requires ReadsSent(batches, a) && ReadSent(read, b, false)
    ensures ReadsSent(batches + [read], a + b)
    decreases |batches|
  {
    hide ReadSent;
    if batches == [] {
      hide ReadsSent;
      ReadsNone();
      ReadsCons(read, [], b, []);
      assert a == [] by { ReadsNoneInv(a); }
      assert batches + [read] == [read] + [] && a + b == b + [];
    } else {
      hide ReadsSent;
      var x, y := ReadsFirst(batches, a);
      ReadsSnoc(batches[1..], read, y, b);
      ReadsCons(batches[0], batches[1..] + [read], x, y + b);
      assert batches + [read] == [batches[0]] + (batches[1..] + [read]);
      assert a + b == x + (y + b);
    }
  }

  lemma ReadsNone()
    ensures ReadsSent([], [])
  {
  }

  lemma ReadsNoneInv(a: seq<Attempt>)
    requires ReadsSent([], a)
    ensures a == []
  {
  }

  /** The reads before some point were sent whole, and the one there broke off. */
  ghost predicate BrokenOff(batches: seq<seq<Item>>, attempts: seq<Attempt>) {
    exists k, a, b :: 0 <= k < |batches| && attempts == a + b && ReadsSent(batches[..k], a) && ReadSent(batches[k], b, true)
  }

  /** Bodies of a channel's notifications; errors are skipped. */
  function Notes(items: seq<Item>): seq<Body> {
    if items == [] then []
    else Notes(items[..|items| - 1]) + if items[|items| - 1].Note? then [items[|items| - 1].body] else []
  }

  /** Every note is there, in its place among the notes. */
  lemma {:induction false} NotesAt(items: seq<Item>, i: nat)
    requires i < |items| && items[i].Note?
    ensures var r := |set k | 0 <= k < i && items[k].Note?|;
      r < |Notes(items)| && Notes(items)[r] == items[i].body
    ensures |Notes(items)| == |set k | 0 <= k < |items| && items[k].Note?|
    decreases |items|
  {
    NotesLength(items);
    if i < |items| - 1 {
      var before := items[..|items| - 1];
      NotesAt(before, i);
      assert (set k | 0 <= k < i && before[k].Note?) == (set k | 0 <= k < i && items[k].Note?);
    } else {
      NotesLength(items[..i]);
      assert (set k | 0 <= k < i && items[..i][k].Note?) == (set k | 0 <= k < i && items[k].Note?);
    }
  }

  lemma {:induction false} NotesLength(items: seq<Item>)
    ensures |Notes(items)| == |set k | 0 <= k < |items| && items[k].Note?|
  {
    if items != [] {
      var n := |items| - 1;
      NotesLength(items[..n]);
      assert (set k | 0 <= k < n && items[..n][k].Note?) == (set k | 0 <= k < n && items[k].Note?);
      assert (set k | 0 <= k < |items| && items[k].Note?) == (set k | 0 <= k < n && items[k].Note?) + if items[n].Note? then {n} else {};
    }
  }

  /** The STREAM handler. After the sync, notifications of all subscriptions are
      sent in any interleaving: `live` is one such interleaving. The attempts are
      the initial state, one sync and live data; the handler stops for good at the
      first failure before the sync, and goes on after failures behind it. */
  method HandleStream(updatesOnly: bool, batches: seq<seq<Item>>, live: seq<Item>)
    returns (initial: seq<Attempt>, sync: seq<Attempt>, later: seq<Attempt>)
    ensures OnlyData(initial) && OnlyData(later)
    ensures |sync| <= 1 && forall a | a in sync :: a.frame == SyncResponse
    ensures sync != [] ==> Synced(updatesOnly, batches, initial)
    ensures sync == [] ==> !updatesOnly && BrokenOff(batches, initial)
    ensures later != [] ==> sync != [] && sync[0].ok
    ensures updatesOnly ==> initial == [] && |sync| == 1
    ensures sync != [] && sync[0].ok ==> Bodies(later) == Notes(live)
  {
    initial, sync, later := [], [], [];
    if !updatesOnly {
      assert batches[..0] == [];
      for i := 0 to |batches|
        invariant OnlyData(initial) && ReadsSent(batches[..i], initial)
      {
        var attempts, err := SendRead(batches[i]);
        ghost var before := initial;
        initial := initial + attempts;
        if err {
          assert BrokenOff(batches, initial) by { assert initial == before + attempts; }
          return;
        }
        ReadsSnoc(batches[..i], batches[i], before, attempts);
        assert batches[..i + 1] == batches[..i] + [batches[i]];
      }
      assert batches[..|batches|] == batches;
    }
    var ok: bool := *;
    sync := [Attempt(SyncResponse, ok)];
    if !ok { return; }
    for i := 0 to |live|
      invariant OnlyData(later) && Bodies(later) == Notes(live[..i])
    {
      assert live[..i + 1][..i] == live[..i];
      if live[i].Failure? { continue; }
      var sent: bool := *;
      BodiesSnoc(later, live[i].body, sent);
      later := later + [Attempt(Data(live[i].body), sent)];
    }
    assert live[..|live|] == live;
  }

  lemma OneSync(before: seq<Frame>, sync: seq<Frame>, after: seq<Frame>)
    requires forall f | f in before || f in after :: f.Data?
    requires sync == [] || sync == [SyncResponse]
    requires after != [] ==> sync != []
    ensures StreamGrammar(before + sync + after)
    ensures SyncResponse in before + sync + after <==> sync != []
  {
    var all := before + sync + after;
    forall i | 0 <= i < |all|
      ensures all[i].SyncResponse? ==> i == |before| && sync != []
    {
      if i < |before| {
        assert all[i] in before;
      } else if i >= |before| + |sync| {
        assert all[i] in after;
      }
    }
    if sync != [] { assert all[|before|] == SyncResponse; }
  }

  /** What the client receives is a prefix of Update* Sync Update*, and of
      Sync Update* when only updates are asked for. */
  lemma StreamFrames(updatesOnly: bool, batches: seq<seq<Item>>, initial: seq<Attempt>, sync: seq<Attempt>, later: seq<Attempt>)
    requires OnlyData(initial) && OnlyData(later)
    requires |sync| <= 1 && forall a | a in sync :: a.frame == SyncResponse
    requires later != [] ==> sync != [] && sync[0].ok
    requires updatesOnly ==> initial == []
    ensures var frames := Frames(initial + sync + later);
      && StreamGrammar(frames)
      && (updatesOnly && frames != [] ==> frames[0] == SyncResponse)
      && (SyncResponse in frames <==> sync != [] && sync[0].ok)
  {
    var f := if sync != [] && sync[0].ok then [SyncResponse] else [];
    SyncFrames(sync);
    FramesAppend(initial, sync);
    FramesAppend(initial + sync, later);
    FramesOfData(initial);
    FramesOfData(later);
    NoFrames();
    hide Frames, StreamGrammar, OnlyData;
    OneSync(Frames(initial), f, Frames(later));
  }

  lemma SyncFrames(sync: seq<Attempt>)
    requires |sync| <= 1 && forall a | a in sync :: a.frame == SyncResponse
    ensures Frames(sync) == if sync != [] && sync[0].ok then [SyncResponse] else []
  {
    hide Frames;
    NoFrames();
    if sync != [] {
      var a := sync[0];
      assert a in sync && a.frame == SyncResponse;
      FramesSnoc([], a);
      assert [] + [a] == sync;
    }
  }

  lemma NoFrames()
    ensures Frames([]) == []
  {
  }

  // ---------------------------------------------------------------------
  // ONCE and POLL
  // ---------------------------------------------------------------------

  /** What arrives on a POLL stream. */
  datatype Request = Poll | OtherRequest | Closed | Broken

  /** A read of the cache and then a sync, attempted whatever happened to the
      read. */
  ghost predicate RoundOf(read: seq<Item>, attempts: seq<Attempt>) {
    && attempts != [] && attempts[|attempts| - 1].frame == SyncResponse
    && (ReadSent(read, attempts[..|attempts| - 1], false) || ReadSent(read, attempts[..|attempts| - 1], true))
  }

  method HandleOnce(read: seq<Item>) returns (attempts: seq<Attempt>)
    ensures RoundOf(read, attempts)
  {
    hide ReadSent;
    var data, err := SendRead(read);
    var ok: bool := *;
    attempts := data + [Attempt(SyncResponse, ok)];
    assert attempts[..|attempts| - 1] == data;
  }

  /** Polls before the first request that is something else. */
  function Accepted(requests: seq<Request>): (n: nat)
    ensures n <= |requests| && (forall i | 0 <= i < n :: requests[i].Poll?)
    ensures n < |requests| ==> !requests[n].Poll?
  {
    if requests == [] || !requests[0].Poll? then 0 else 1 + Accepted(requests[1..])
  }

  function End(marks: seq<nat>): nat { if marks == [] then 0 else marks[|marks| - 1] + 1 }

  /** The attempts are one round after the other; marks are the places of their
      syncs. batches[k] is the state of the cache at round k. */
  ghost predicate Rounds(batches: seq<seq<Item>>, attempts: seq<Attempt>, marks: seq<nat>) {
    if marks == [] then attempts == []
    else
      var n := |marks| - 1;
      var start := End(marks[..n]);
      && n < |batches| && start <= marks[n] == |attempts| - 1
      && RoundOf(batches[n], attempts[start..])
      && Rounds(batches, attempts[..start], marks[..n])
  }

  function SyncCount(attempts: seq<Attempt>): nat {
    if attempts == [] then 0
    else SyncCount(attempts[..|attempts| - 1]) + if attempts[|attempts| - 1].frame.SyncResponse? then 1 else 0
  }

  /** The POLL handler: a round for the subscription and one for each accepted
      poll, so many sync attempts, and no others. */
  method HandlePoll(batches: seq<seq<Item>>, requests: seq<Request>) returns (attempts: seq<Attempt>, ghost marks: seq<nat>)
    requires |batches| > |requests|
    ensures Rounds(batches, attempts, marks) && |marks| == 1 + Accepted(requests)
    ensures SyncCount(attempts) == 1 + Accepted(requests)
    ensures forall j | 0 <= j < |attempts| :: attempts[j].frame.SyncResponse? <==> j in marks
  {
    hide RoundOf, Rounds, SyncCount;
    attempts := HandleOnce(batches[0]);
    NoRounds(batches);
    RoundsSnoc(batches, [], [], attempts);
    assert [] + attempts == attempts;
    marks := [|attempts| - 1];
    assert [] + marks == marks;
    var i := 0;
    assert requests[0..] == requests;
    while i < |requests|
      invariant i <= |requests| && |marks| == i + 1
      invariant i + Accepted(requests[i..]) == Accepted(requests)
      invariant Rounds(batches, attempts, marks)
    {
      assert requests[i..][1..] == requests[i + 1..];
      if !requests[i].Poll? {
        PollSyncs(batches, attempts, marks);
        return;
      }
      var more := HandleOnce(batches[i + 1]);
      RoundsSnoc(batches, attempts, marks, more);
      attempts := attempts + more;
      marks := marks + [|attempts| - 1];
      i := i + 1;
    }
    PollSyncs(batches, attempts, marks);
  }

  lemma NoRounds(batches: seq<seq<Item>>)
    ensures Rounds(batches, [], [])
  {
  }

  lemma RoundsSnoc(batches: seq<seq<Item>>, attempts: seq<Attempt>, marks: seq<nat>, more: seq<Attempt>)
    requires Rounds(batches, attempts, marks) && |marks| < |batches| && RoundOf(batches[|marks|], more)
    ensures more != [] && Rounds(batches, attempts + more, marks + [|attempts + more| - 1])
  {
    assert more != [];
    assert End(marks) == |attempts|;
    hide RoundOf;
    var all, marks' := attempts + more, marks + [|attempts + more| - 1];
    assert marks'[..|marks|] == marks;
    assert all[|attempts|..] == more && all[..|attempts|] == attempts;
  }

  lemma {:induction false} SyncCountAppend(a: seq<Attempt>, b: seq<Attempt>)
    requires OnlyData(b)
    ensures SyncCount(a + b) == SyncCount(a)
  {
    if b == [] {
      assert a + b == a;
    } else {
      var c := b[..|b| - 1];
      assert (a + b)[..|a + b| - 1] == a + c;
      assert b[|b| - 1] in b;
      assert forall x | x in c :: x in b;
      SyncCountAppend(a, c);
    }
  }

  /** Syncs are attempted at the marks and nowhere else. */
  lemma {:induction false} PollSyncs(batches: seq<seq<Item>>, attempts: seq<Attempt>, marks: seq<nat>)
    requires Rounds(batches, attempts, marks)
    ensures SyncCount(attempts) == |marks|
    ensures forall m | m in marks :: m < |attempts|
    ensures forall j | 0 <= j < |attempts| :: attempts[j].frame.SyncResponse? <==> j in marks
    decreases |marks|
  {
    hide *;
    NoSyncs();
    var start := RoundsLast(batches, attempts, marks);
    if marks != [] {
      var n := |marks| - 1;
      var before, last := attempts[..start], attempts[start..];
      PollSyncs(batches, before, marks[..n]);
      assert attempts == before + last && marks == marks[..n] + [marks[n]];
      RoundSyncs(batches[n], before, last);
      MarksSnoc(before, last, marks[..n]);
    }
  }

  lemma RoundsLast(batches: seq<seq<Item>>, attempts: seq<Attempt>, marks: seq<nat>) returns (start: nat)
    requires Rounds(batches, attempts, marks)
    ensures marks == [] ==> attempts == []
    ensures marks != [] ==>
              var n := |marks| - 1;
              && n < |batches| && start < |attempts| && marks[n] == |attempts| - 1
              && RoundOf(batches[n], attempts[start..]) && Rounds(batches, attempts[..start], marks[..n])
  {
    hide RoundOf;
    start := if marks == [] then 0 else End(marks[..|marks| - 1]);
  }

  lemma MarksSnoc(before: seq<Attempt>, last: seq<Attempt>, marks: seq<nat>)
    requires last != [] && forall m | m in marks :: m < |before|
    requires forall j | 0 <= j < |before| :: before[j].frame.SyncResponse? <==> j in marks
    requires forall j | |before| <= j < |before + last| ::
               (before + last)[j].frame.SyncResponse? <==> j == |before + last| - 1
    ensures var all, marks' := before + last, marks + [|before + last| - 1];
      && (forall m | m in marks' :: m < |all|)
      && forall j | 0 <= j < |all| :: all[j].frame.SyncResponse? <==> j in marks'
  {
  }

  lemma NoSyncs()
    ensures SyncCount([]) == 0
  {
  }

  lemma RoundSyncs(read: seq<Item>, before: seq<Attempt>, round: seq<Attempt>)
    requires RoundOf(read, round)
    ensures SyncCount(before + round) == SyncCount(before) + 1
    ensures forall j | |before| <= j < |before + round| ::
              (before + round)[j].frame.SyncResponse? <==> j == |before + round| - 1
  {
    var all, data := before + round, round[..|round| - 1];
    SyncCountAppend(before, data);
    assert all[..|all| - 1] == before + data;
    forall j | |before| <= j < |all| ensures all[j].frame.SyncResponse? <==> j == |all| - 1 {
      if j < |all| - 1 { assert all[j] == data[j - |before|] && data[j - |before|] in data; }
    }
  }
}
