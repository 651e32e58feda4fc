/** Sampled reads with suppress-redundant (pkg/cache/oc_cache.go): a value is sent
    only if it differs from the last one sent under the same name. The name is the
    target, the prefix and the path printed without keys. */
module SampledRead {
  import opened Basics
  import opened PathSyntax
  import PathPrint
  import PathParser
  import PathPieces

  type Value = string

  /** What tells leaves apart: target, prefix and path, keys included. */
  datatype Leaf = Leaf(target: string, prefix: Path, path: Path)

  datatype Update = Update(leaf: Leaf, val: Value)

  /** A cached notification: the updates share target and prefix. */
  datatype Notification = Notification(target: string, prefix: Path, updates: seq<(Path, Value)>, deletes: seq<Path>)

  /** What goes to the client's channel. */
  datatype Message =
    | Whole(notification: Notification)
    | One(update: Update)
    | Deletes(target: string, prefix: Path, paths: seq<Path>)

  /** The key of lastSent. */
  ghost function Name(l: Leaf): string {
    l.target + "/" + PathPrint.Print(l.prefix, true) + "/" + PathPrint.Print(l.path, true)
  }

  // ---------------------------------------------------------------------
  // What the filter means
  // ---------------------------------------------------------------------

  /** The last value seen under each name, sent or not. */
  ghost function LastByName(us: seq<Update>): map<string, Value> {
    if us == [] then map[]
    else LastByName(us[..|us| - 1])[Name(us[|us| - 1].leaf) := us[|us| - 1].val]
  }

  /** u is news after the updates us: nothing or something else was seen last
      under its name. */
  ghost predicate News(us: seq<Update>, u: Update) {
    Name(u.leaf) in LastByName(us) ==> LastByName(us)[Name(u.leaf)] != u.val
  }

  /** The updates that were news when they came. */
  ghost function Filtered(us: seq<Update>): seq<Update> {
    if us == [] then []
    else
      var before, u := us[..|us| - 1], us[|us| - 1];
      Filtered(before) + if News(before, u) then [u] else []
  }

  /** The state a client builds from updates: the last value of each leaf. */
  ghost function View(us: seq<Update>): map<Leaf, Value> {
    if us == [] then map[] else View(us[..|us| - 1])[us[|us| - 1].leaf := us[|us| - 1].val]
  }

  /** No two of the leaves share a name. */
  ghost predicate DistinctNames(leaves: set<Leaf>) {
    forall a, b | a in leaves && b in leaves && Name(a) == Name(b) :: a == b
  }

  ghost function LeavesOf(us: seq<Update>): set<Leaf> { set u | u in us :: u.leaf }

  lemma {:induction false} Snoc(us: seq<Update>)
    requires us != []
    ensures us == us[..|us| - 1] + [us[|us| - 1]]
    ensures LeavesOf(us) == LeavesOf(us[..|us| - 1]) + {us[|us| - 1].leaf}
  {
    assert us == us[..|us| - 1] + [us[|us| - 1]];
  }

  /** The last value sent under a name is the last value seen under it. */
  lemma {:induction false} SentIsSeen(us: seq<Update>)
    ensures LastByName(Filtered(us)) == LastByName(us)
  {
    if us != [] {
      var before, u := us[..|us| - 1], us[|us| - 1];
      SentIsSeen(before);
      var f := Filtered(before);
      if News(before, u) {
        assert (f + [u])[..|f|] == f;
      } else {
        assert f + [] == f;
      }
    }
  }

  /** Consecutive values sent under one name differ: filtering again drops
      nothing. */
  lemma {:induction false} ConsecutiveDiffer(us: seq<Update>)
    ensures Filtered(Filtered(us)) == Filtered(us)
  {
    if us != [] {
      var before, u := us[..|us| - 1], us[|us| - 1];
      ConsecutiveDiffer(before);
      SentIsSeen(before);
      var f := Filtered(before);
      if News(before, u) {
        assert (f + [u])[..|f|] == f;
      } else {
        assert f + [] == f;
      }
    }
  }

  lemma {:induction false} ConsecutiveValues(us: seq<Update>, i: nat, j: nat)
    requires i < j < |Filtered(us)| && Name(Filtered(us)[i].leaf) == Name(Filtered(us)[j].leaf)
    requires forall m | i < m < j :: Name(Filtered(us)[m].leaf) != Name(Filtered(us)[j].leaf)
    ensures Filtered(us)[i].val != Filtered(us)[j].val
  {
    var f := Filtered(us);
    ConsecutiveDiffer(us);
    FilteredNews(f, j);
    LastAt(f, i, j);
  }

  /** A list the filter leaves alone has only news in it. */
  lemma {:induction false} FilteredNews(f: seq<Update>, j: nat)
    requires Filtered(f) == f && j < |f|
    ensures News(f[..j], f[j])
    decreases |f|
  {
    var before, u := f[..|f| - 1], f[|f| - 1];
    FilteredLength(before);
    assert News(before, u);
    assert Filtered(f)[..|f| - 1] == Filtered(before);
    if j < |f| - 1 {
      FilteredNews(before, j);
      assert before[..j] == f[..j];
    }
  }

  lemma {:induction false} FilteredLength(us: seq<Update>)
    ensures |Filtered(us)| <= |us|
  {
    if us != [] { FilteredLength(us[..|us| - 1]); }
  }

  lemma {:induction false} LastAt(f: seq<Update>, i: nat, j: nat)
    requires i < j <= |f|
    requires forall m | i < m < j :: Name(f[m].leaf) != Name(f[i].leaf)
    ensures Name(f[i].leaf) in LastByName(f[..j]) && LastByName(f[..j])[Name(f[i].leaf)] == f[i].val
  {
    assert f[..j][..j - 1] == f[..j - 1];
    if i < j - 1 { LastAt(f, i, j - 1); }
  }

  // ---------------------------------------------------------------------
  // The client's view
  // ---------------------------------------------------------------------

  lemma {:induction false} ViewByName(us: seq<Update>, l: Leaf)
    requires DistinctNames(LeavesOf(us) + {l})
    ensures l in View(us) <==> Name(l) in LastByName(us)
    ensures l in View(us) ==> View(us)[l] == LastByName(us)[Name(l)]
  {
    if us != [] {
      Snoc(us);
      ViewByName(us[..|us| - 1], l);
    }
  }

  lemma ViewSnoc(us: seq<Update>, u: Update)
    ensures View(us + [u]) == View(us)[u.leaf := u.val]
  {
    assert (us + [u])[..|us|] == us;
  }

  /** An update that is no news does not change the view. */
  lemma OldNews(us: seq<Update>, u: Update)
    requires DistinctNames(LeavesOf(us) + {u.leaf}) && !News(us, u)
    ensures View(us)[u.leaf := u.val] == View(us)
  {
    ViewByName(us, u.leaf);
  }

  /** With distinct names the client builds the view of the unfiltered stream. */
  lemma {:induction false} ViewRefined(us: seq<Update>)
    requires DistinctNames(LeavesOf(us))
    ensures View(Filtered(us)) == View(us)
  {
    if us != [] {
      var before, u := us[..|us| - 1], us[|us| - 1];
      Snoc(us);
      ViewRefined(before);
      FilteredSnoc(before, u);
      ViewSnoc(before, u);
      if News(before, u) {
        ViewSnoc(Filtered(before), u);
      } else {
        assert Filtered(before) + [] == Filtered(before);
        OldNews(before, u);
      }
    }
  }

  /** Two leaves that share a name: the second one's equal value never arrives. */
  lemma SharedNameLost(a: Leaf, b: Leaf, v: Value)
    requires a != b && Name(a) == Name(b)
    ensures var us := [Update(a, v), Update(b, v)];
      b in View(us) && b !in View(Filtered(us))
  {
    var first := [Update(a, v)];
    var us := [Update(a, v), Update(b, v)];
    assert us[..1] == first && first[..0] == [];
    assert Filtered([]) == [] && LastByName([]) == map[];
    assert [] + [Update(a, v)] == first;
    assert Filtered(first) == first;
    assert first + [] == first;
    assert Filtered(us) == first;
    assert View([]) == map[];
  }

  /** What a name tells: the target, and the element names of prefix and path. */
  ghost function NameParts(l: Leaf): seq<string> {
    [l.target] + (if l.prefix.elem == [] then [""] else PathPieces.ElemNames(l.prefix.elem))
      + if l.path.elem == [] then [""] else PathPieces.ElemNames(l.path.elem)
  }

  ghost predicate SlashFree(l: Leaf) {
    && '/' !in l.target && l.prefix.origin == "" && l.path.origin == ""
    && (forall pe | pe in l.prefix.elem :: '/' !in pe.name) && (forall pe | pe in l.path.elem :: '/' !in pe.name)
  }

  lemma NameSplit(l: Leaf)
    requires SlashFree(l)
    ensures Split(Name(l), '/') == NameParts(l)
  {
    hide Split, PathPrint.Print;
    var prefix, path := PathPrint.Print(l.prefix, true), PathPrint.Print(l.path, true);
    PrintSplit(l.prefix);
    PrintSplit(l.path);
    PathPieces.SplitFirst(l.target, prefix + "/" + path, '/');
    PathPieces.SplitAppend(prefix, path, '/');
    assert prefix + "/" + path == prefix + ['/'] + path;
    assert Name(l) == l.target + ['/'] + (prefix + "/" + path);
    hide PathPieces.ElemNames, Name;
    assert [l.target] + (Split(prefix, '/') + Split(path, '/')) == ([l.target] + Split(prefix, '/')) + Split(path, '/');
  }

  lemma PrintSplit(p: Path)
    requires p.origin == "" && forall pe | pe in p.elem :: '/' !in pe.name
    ensures Split(PathPrint.Print(p, true), '/') == if p.elem == [] then [""] else PathPieces.ElemNames(p.elem)
  {
    hide Split, PathPrint.Join;
    assert "" + PathPrint.Join(p.elem, true, false) == PathPrint.Join(p.elem, true, false);
    PathPieces.NamesSplit(p.elem);
  }

  /** Two leaves share a name exactly when it tells the same of both: with prefixes
      of one length, the same target and the same element names, whatever their
      keys. */
  lemma NameIff(a: Leaf, b: Leaf)
    requires SlashFree(a) && SlashFree(b) && |a.prefix.elem| == |b.prefix.elem|
    requires forall pe | pe in a.path.elem || pe in b.path.elem :: pe.name != ""
    ensures Name(a) == Name(b) <==>
      && a.target == b.target
      && PathPieces.ElemNames(a.prefix.elem) == PathPieces.ElemNames(b.prefix.elem)
      && PathPieces.ElemNames(a.path.elem) == PathPieces.ElemNames(b.path.elem)
  {
    NameSplit(a);
    NameSplit(b);
    if PathPieces.ElemNames(a.prefix.elem) == PathPieces.ElemNames(b.prefix.elem)
      && PathPieces.ElemNames(a.path.elem) == PathPieces.ElemNames(b.path.elem)
    {
      SamePrint(a.prefix, b.prefix);
      SamePrint(a.path, b.path);
    }
    if Name(a) == Name(b) { SameParts(a, b); }
  }

  lemma SamePrint(p: Path, q: Path)
    requires p.origin == q.origin && PathPieces.ElemNames(p.elem) == PathPieces.ElemNames(q.elem)
    ensures PathPrint.Print(p, true) == PathPrint.Print(q, true)
  {
    PathPieces.JoinStripped(p.elem);
    PathPieces.JoinStripped(q.elem);
    var a, b := PathPieces.Stripped(p.elem), PathPieces.Stripped(q.elem);
    assert |p.elem| == |PathPieces.ElemNames(p.elem)| == |PathPieces.ElemNames(q.elem)| == |q.elem|;
    forall i | 0 <= i < |a| ensures a[i] == b[i] {
      assert PathPieces.ElemNames(p.elem)[i] == PathPieces.ElemNames(q.elem)[i];
    }
    assert a == b;
  }

  lemma SameParts(a: Leaf, b: Leaf)
    requires NameParts(a) == NameParts(b) && |a.prefix.elem| == |b.prefix.elem|
    requires forall pe | pe in a.path.elem || pe in b.path.elem :: pe.name != ""
    ensures a.target == b.target
    ensures PathPieces.ElemNames(a.prefix.elem) == PathPieces.ElemNames(b.prefix.elem)
    ensures PathPieces.ElemNames(a.path.elem) == PathPieces.ElemNames(b.path.elem)
  {
    var x, y := NameParts(a), NameParts(b);
    var n := 1 + if a.prefix.elem == [] then 1 else |a.prefix.elem|;
    assert x[0] == a.target && y[0] == b.target;
    assert x[1..n] == y[1..n] && x[n..] == y[n..];
    var p, q := PathPieces.ElemNames(a.path.elem), PathPieces.ElemNames(b.path.elem);
    assert x[1..n] == if a.prefix.elem == [] then [""] else PathPieces.ElemNames(a.prefix.elem);
    assert y[1..n] == if b.prefix.elem == [] then [""] else PathPieces.ElemNames(b.prefix.elem);
    assert x[n..] == (if a.path.elem == [] then [""] else p) && y[n..] == if b.path.elem == [] then [""] else q;
    assert a.path.elem != [] ==> a.path.elem[0] in a.path.elem && p[0] != "";
    assert b.path.elem != [] ==> b.path.elem[0] in b.path.elem && q[0] != "";
  }

  /** Names leave out keys: here, any two instances of one list entry. */
  lemma KeysNotInName(target: string, prefix: Path, name: string, m: map<string, string>, m': map<string, string>)
    ensures Name(Leaf(target, prefix, Path("", [PathElem(name, m)]))) == Name(Leaf(target, prefix, Path("", [PathElem(name, m')])))
  {
    assert PathPrint.Join([PathElem(name, m)], true, false) == name + "";
    assert PathPrint.Join([PathElem(name, m')], true, false) == name + "";
  }

  /** The state of interface 2 of a target, equal to that of interface 1, is lost. */
  lemma SecondInterfaceLost(a: Leaf, b: Leaf)
    requires a == Leaf("r1", Path("", []), Path("", [PathElem("interface", map["name" := "1"])]))
    requires b == Leaf("r1", Path("", []), Path("", [PathElem("interface", map["name" := "2"])]))
    ensures var us := [Update(a, "up"), Update(b, "up")];
      b in View(us) && b !in View(Filtered(us))
  {
    KeysNotInName("r1", Path("", []), "interface", map["name" := "1"], map["name" := "2"]);
    assert a.path.elem[0].key["name"] != b.path.elem[0].key["name"];
    SharedNameLost(a, b, "up");
  }

  /** Whatever updates come, the client ends with the right view: this holds for a
      set of leaves exactly when no two of them share a name. */
  lemma ViewRefinedIff(leaves: set<Leaf>)
    ensures (forall us: seq<Update> | LeavesOf(us) <= leaves :: View(Filtered(us)) == View(us))
       <==> DistinctNames(leaves)
  {
    if DistinctNames(leaves) {
      forall us: seq<Update> | LeavesOf(us) <= leaves ensures View(Filtered(us)) == View(us) { ViewRefined(us); }
    } else {
      var a, b :| a in leaves && b in leaves && Name(a) == Name(b) && a != b;
      SharedNameLost(a, b, "");
      var us := [Update(a, ""), Update(b, "")];
      assert LeavesOf(us) <= leaves;
      assert View(Filtered(us)) != View(us);
    }
  }

  lemma {:induction false} ViewOfVisited(us: seq<Update>, l: Leaf, cached: map<Leaf, Value>, start: nat)
    requires start <= |us|
    requires forall j | start <= j < |us| :: us[j].leaf in cached && us[j].val == cached[us[j].leaf]
    requires exists j :: start <= j < |us| && us[j].leaf == l
    ensures l in View(us) && View(us)[l] == cached[l]
  {
    var last := us[|us| - 1];
    if last.leaf != l {
      var before := us[..|us| - 1];
      var j :| start <= j < |us| && us[j].leaf == l;
      assert before[j].leaf == l;
      ViewOfVisited(before, l, cached, start);
    }
  }

  /** After a sample that visited every present leaf, in any order and after any
      earlier updates, the client's view holds the cached value of each. */
  lemma SampleComplete(earlier: seq<Update>, sample: seq<Update>, cached: map<Leaf, Value>, l: Leaf)
    requires DistinctNames(LeavesOf(earlier + sample))
    requires forall u | u in sample :: u.leaf in cached && u.val == cached[u.leaf]
    requires LeavesOf(sample) == cached.Keys && l in cached
    ensures var view := View(Filtered(earlier + sample)); l in view && view[l] == cached[l]
  {
    var us := earlier + sample;
    var u :| u in sample && u.leaf == l;
    var j :| 0 <= j < |sample| && sample[j] == u;
    assert us[|earlier| + j].leaf == l;
    ViewOfVisited(us, l, cached, |earlier|);
    ViewRefined(us);
  }

  // ---------------------------------------------------------------------
  // The read itself
  // ---------------------------------------------------------------------

  ghost function Updates(n: Notification): seq<Update> {
    UpdatesFrom(n, |n.updates|)
  }

  ghost function UpdatesFrom(n: Notification, m: nat): seq<Update>
    requires m <= |n.updates|
  {
    if m == 0 then []
    else UpdatesFrom(n, m - 1) + [Update(Leaf(n.target, n.prefix, n.updates[m - 1].0), n.updates[m - 1].1)]
  }

  /** The updates of a notification, each under its target and prefix. */
  lemma {:induction false} UpdatesAre(n: Notification, m: nat)
    requires m <= |n.updates|
    ensures |UpdatesFrom(n, m)| == m
    ensures forall i | 0 <= i < m :: UpdatesFrom(n, m)[i] == Update(Leaf(n.target, n.prefix, n.updates[i].0), n.updates[i].1)
  {
    if m > 0 { UpdatesAre(n, m - 1); }
  }

  /** The delete messages are exactly those of the notifications with deletes. */
  ghost predicate DeletesSent(visited: seq<Notification>, out: seq<Message>) {
    && (forall gl | gl in visited && gl.deletes != [] :: Deletes(gl.target, gl.prefix, gl.deletes) in out)
    && (forall m | m in out && m.Deletes? ::
          exists gl :: gl in visited && gl.deletes != [] && m == Deletes(gl.target, gl.prefix, gl.deletes))
  }

  lemma NoDeletes()
    ensures DeletesSent([], [])
  {
  }

  lemma DeletesAppend(a: seq<Notification>, b: seq<Notification>, x: seq<Message>, y: seq<Message>)
    requires DeletesSent(a, x) && DeletesSent(b, y)
    ensures DeletesSent(a + b, x + y)
  {
    forall m | m in x + y && m.Deletes?
      ensures exists gl :: gl in a + b && gl.deletes != [] && m == Deletes(gl.target, gl.prefix, gl.deletes)
    {
      if m in x {
        var gl :| gl in a && gl.deletes != [] && m == Deletes(gl.target, gl.prefix, gl.deletes);
        assert gl in a + b;
      } else {
        var gl :| gl in b && gl.deletes != [] && m == Deletes(gl.target, gl.prefix, gl.deletes);
        assert gl in a + b;
      }
    }
  }

  lemma DeletesOfOne(gl: Notification, out: seq<Message>)
    requires gl.deletes != [] ==> out != [] && out[|out| - 1] == Deletes(gl.target, gl.prefix, gl.deletes)
    requires forall i | 0 <= i < |out| :: out[i].One? || (gl.deletes != [] && i == |out| - 1)
    ensures DeletesSent([gl], out)
  {
    forall m | m in out && m.Deletes?
      ensures exists x :: x in [gl] && x.deletes != [] && m == Deletes(x.target, x.prefix, x.deletes)
    {
      var i :| 0 <= i < |out| && out[i] == m;
      assert gl in [gl];
    }
    if gl.deletes != [] { assert out[|out| - 1] in out; }
  }

  ghost function AllUpdates(ns: seq<Notification>): seq<Update> {
    if ns == [] then [] else AllUpdates(ns[..|ns| - 1]) + Updates(ns[|ns| - 1])
  }

  ghost function Flat(ticks: seq<seq<Notification>>): seq<Notification> {
    if ticks == [] then [] else Flat(ticks[..|ticks| - 1]) + ticks[|ticks| - 1]
  }

  /** Every notification as it is, deletes included. */
  function Wholes(visited: seq<Notification>): seq<Message> {
    if visited == [] then [] else Wholes(visited[..|visited| - 1]) + [Whole(visited[|visited| - 1])]
  }

  /** The single updates among the messages. */
  function Sent(ms: seq<Message>): seq<Update> {
    if ms == [] then []
    else Sent(ms[..|ms| - 1]) + if ms[|ms| - 1].One? then [ms[|ms| - 1].update] else []
  }

  lemma SentSnoc(ms: seq<Message>, m: Message)
    ensures Sent(ms + [m]) == Sent(ms) + if m.One? then [m.update] else []
  {
    assert (ms + [m])[..|ms|] == ms;
  }

  lemma FilteredSnoc(us: seq<Update>, u: Update)
    ensures Filtered(us + [u]) == Filtered(us) + if News(us, u) then [u] else []
    ensures LastByName(us + [u]) == LastByName(us)[Name(u.leaf) := u.val]
  {
    assert (us + [u])[..|us|] == us;
  }

  /** The options of one read of one subscription cache. */
  class ReadOpts {
    const suppressRedundant: bool
    var lastSent: map<string, Value>
    /** Everything visited so far, in order. */
    ghost var seen: seq<Update>

    constructor (suppressRedundant: bool)
      ensures this.suppressRedundant == suppressRedundant && seen == [] && Valid()
    {
      this.suppressRedundant := suppressRedundant;
      lastSent, seen := map[], [];
    }

    /** lastSent holds the last value seen under each name. */
    ghost predicate Valid()
      reads this
    {
      lastSent == LastByName(seen)
    }

    /** One update of a leaf: sent unless lastSent has the same value. */
    method Offer(u: Update, valXPath: string) returns (ms: seq<Message>)
      requires Valid() && valXPath == Name(u.leaf)
      modifies this
      ensures Valid() && seen == old(seen) + [u]
      ensures Filtered(seen) == Filtered(old(seen)) + Sent(ms)
      ensures forall m | m in ms :: m == One(u)
    {
      FilteredSnoc(seen, u);
      SentSnoc([], One(u));
      assert [] + [One(u)] == [One(u)] && Sent([]) == [] && [] + [u] == [u];
      ms := [];
      if valXPath !in lastSent || lastSent[valXPath] != u.val {
        ms := [One(u)];
        lastSent := lastSent[valXPath := u.val];
      } else {
        assert lastSent[valXPath := u.val] == lastSent;
      }
      seen := seen + [u];
    }

    /** The query callback for one leaf. */
    method HandleLeaf(gl: Notification) returns (out: seq<Message>)
      requires suppressRedundant ==> Valid()
      modifies this
      ensures !suppressRedundant ==> out == [Whole(gl)] && seen == old(seen)
      ensures suppressRedundant ==>
                && Valid() && seen == old(seen) + Updates(gl)
                && Filtered(old(seen)) + Sent(out) == Filtered(seen)
                && (gl.deletes != [] ==> out != [] && out[|out| - 1] == Deletes(gl.target, gl.prefix, gl.deletes))
                && (forall i | 0 <= i < |out| :: out[i].One? || (gl.deletes != [] && i == |out| - 1))
    {
      out := [];
      if !suppressRedundant { return [Whole(gl)]; }
      out := OfferAll(gl);
      assert forall i | 0 <= i < |out| :: out[i] in out;
      if gl.deletes != [] {
        SentSnoc(out, Deletes(gl.target, gl.prefix, gl.deletes));
        assert Sent(out) + [] == Sent(out);
        out := out + [Deletes(gl.target, gl.prefix, gl.deletes)];
      }
    }

    method OfferAll(gl: Notification) returns (out: seq<Message>)
      requires Valid()
      modifies this
      ensures Valid() && seen == old(seen) + Updates(gl)
      ensures Filtered(old(seen)) + Sent(out) == Filtered(seen)
      ensures forall m | m in out :: m.One?
    {
      hide *;
      out := [];
      var prefix := PathParser.GnmiPathToXPath(gl.prefix, true);
      ghost var start := seen;
      Nothing(gl, start);
      for i := 0 to |gl.updates|
        invariant Valid() && seen == start + UpdatesFrom(gl, i)
        invariant Filtered(start) + Sent(out) == Filtered(seen)
        invariant forall m | m in out :: m.One?
      {
        var (path, val) := gl.updates[i];
        var p := PathParser.GnmiPathToXPath(path, true);
        var u := Update(Leaf(gl.target, gl.prefix, path), val);
        NameOf(u.leaf, prefix, p);
        var ms := Offer(u, gl.target + "/" + prefix + "/" + p);
        SentAppend(out, ms);
        Regroup(Filtered(start), Sent(out), Sent(ms));
        NextUpdate(gl, i, start, u);
        out := out + ms;
      }
      Everything(gl);
    }

    lemma Nothing(gl: Notification, start: seq<Update>)
      ensures start + UpdatesFrom(gl, 0) == start && Filtered(start) + Sent([]) == Filtered(start)
    {
    }

    lemma NameOf(l: Leaf, prefix: string, p: string)
      requires prefix == PathPrint.Print(l.prefix, true) && p == PathPrint.Print(l.path, true)
      ensures l.target + "/" + prefix + "/" + p == Name(l)
    {
    }

    lemma NextUpdate(gl: Notification, i: nat, start: seq<Update>, u: Update)
      requires i < |gl.updates| && u == Update(Leaf(gl.target, gl.prefix, gl.updates[i].0), gl.updates[i].1)
      ensures (start + UpdatesFrom(gl, i)) + [u] == start + UpdatesFrom(gl, i + 1)
    {
    }

    lemma Everything(gl: Notification)
      ensures UpdatesFrom(gl, |gl.updates|) == Updates(gl)
    {
    }

    lemma Regroup(a: seq<Update>, b: seq<Update>, c: seq<Update>)
      ensures (a + b) + c == a + (b + c) && b + [] == b
    {
    }

    /** One sample: the leaves the query visits, in its order. */
    method HandleSingleQuery(visited: seq<Notification>) returns (out: seq<Message>)
      requires suppressRedundant ==> Valid()
      modifies this
      ensures suppressRedundant ==>
                && Valid() && seen == old(seen) + AllUpdates(visited)
                && Filtered(old(seen)) + Sent(out) == Filtered(seen)
                && DeletesSent(visited, out)
      ensures !suppressRedundant ==> seen == old(seen) && out == Wholes(visited)
    {
      hide *;
      out := [];
      QueryStarts(seen);
      assert visited[..0] == [];
      for i := 0 to |visited|
        invariant suppressRedundant ==> Valid() && QueryDone(old(seen), seen, visited[..i], out)
        invariant !suppressRedundant ==> seen == old(seen) && out == Wholes(visited[..i])
      {
        ghost var mid := seen;
        var ms := HandleLeaf(visited[i]);
        assert visited[..i + 1] == visited[..i] + [visited[i]];
        WholesSnoc(visited[..i], visited[i]);
        if suppressRedundant { QueryMore(old(seen), mid, seen, visited[..i], visited[i], out, ms); }
        out := out + ms;
      }
      assert visited[..|visited|] == visited;
      if suppressRedundant { QueryEnds(old(seen), seen, visited, out); }
    }

    /** The news among the visited updates, and all deletes. */
    ghost predicate QueryDone(before: seq<Update>, now: seq<Update>, visited: seq<Notification>, out: seq<Message>) {
      now == before + AllUpdates(visited) && Filtered(before) + Sent(out) == Filtered(now) && DeletesSent(visited, out)
    }

    lemma QueryStarts(before: seq<Update>)
      ensures QueryDone(before, before, [], []) && Wholes([]) == []
    {
      assert before + [] == before && Filtered(before) + [] == Filtered(before);
    }

    lemma WholesSnoc(visited: seq<Notification>, gl: Notification)
      ensures Wholes(visited + [gl]) == Wholes(visited) + [Whole(gl)]
    {
      assert (visited + [gl])[..|visited|] == visited;
    }

    lemma QueryMore(before: seq<Update>, mid: seq<Update>, now: seq<Update>, visited: seq<Notification>, gl: Notification,
                    out: seq<Message>, ms: seq<Message>)
      requires QueryDone(before, mid, visited, out)
      requires now == mid + Updates(gl) && Filtered(mid) + Sent(ms) == Filtered(now)
      requires gl.deletes != [] ==> ms != [] && ms[|ms| - 1] == Deletes(gl.target, gl.prefix, gl.deletes)
      requires forall i | 0 <= i < |ms| :: ms[i].One? || (gl.deletes != [] && i == |ms| - 1)
      ensures QueryDone(before, now, visited + [gl], out + ms)
    {
      DeletesOfOne(gl, ms);
      DeletesAppend(visited, [gl], out, ms);
      assert (visited + [gl])[..|visited|] == visited;
      hide DeletesSent, Filtered, Sent, Updates;
      SentAppend(out, ms);
      Regroup(Filtered(before), Sent(out), Sent(ms));
      Regroup(before, AllUpdates(visited), Updates(gl));
    }

    lemma QueryEnds(before: seq<Update>, now: seq<Update>, visited: seq<Notification>, out: seq<Message>)
      requires QueryDone(before, now, visited, out)
      ensures now == before + AllUpdates(visited) && Filtered(before) + Sent(out) == Filtered(now) && DeletesSent(visited, out)
    {
    }

    /** A sampled read: the current state unless only updates are asked for, then
        one sample per tick. Over the whole read the client gets exactly the
        updates that were news. */
    method HandleSampledQuery(updatesOnly: bool, first: seq<Notification>, ticks: seq<seq<Notification>>)
      returns (out: seq<Message>)
      requires suppressRedundant ==> Valid() && seen == []
      modifies this
      ensures suppressRedundant ==>
                && Valid() && Sent(out) == Filtered(seen)
                && seen == AllUpdates(if updatesOnly then Flat(ticks) else first + Flat(ticks))
                && DeletesSent(if updatesOnly then Flat(ticks) else first + Flat(ticks), out)
      ensures !suppressRedundant ==> out == Wholes(if updatesOnly then Flat(ticks) else first + Flat(ticks))
    {
      hide *;
      out := [];
      NoDeletes();
      SampleStart(first, ticks);
      ghost var visited := if updatesOnly then [] else first;
      if !updatesOnly { out := HandleSingleQuery(first); }
      for i := 0 to |ticks|
        invariant suppressRedundant ==>
                    && Valid() && Sent(out) == Filtered(seen) && seen == AllUpdates(visited + Flat(ticks[..i]))
                    && DeletesSent(visited + Flat(ticks[..i]), out)
        invariant !suppressRedundant ==> out == Wholes(visited + Flat(ticks[..i]))
      {
        var ms := HandleSingleQuery(ticks[i]);
        SentAppend(out, ms);
        if suppressRedundant { DeletesAppend(visited + Flat(ticks[..i]), ticks[i], out, ms); }
        SampleStep(visited, ticks, i);
        out := out + ms;
      }
      assert ticks[..|ticks|] == ticks;
      assert [] + Flat(ticks) == Flat(ticks);
    }

    lemma SampleStart(first: seq<Notification>, ticks: seq<seq<Notification>>)
      ensures Filtered([]) == [] && Sent([]) == [] && AllUpdates([]) == [] && Wholes([]) == []
      ensures [] + AllUpdates(first) == AllUpdates(first)
      ensures first + Flat(ticks[..0]) == first && [] + Flat(ticks[..0]) == []
      ensures forall ms :: [] + Sent(ms) == Sent(ms)
    {
    }

    lemma SampleStep(visited: seq<Notification>, ticks: seq<seq<Notification>>, i: nat)
      requires i < |ticks|
      ensures AllUpdates(visited + Flat(ticks[..i + 1])) == AllUpdates(visited + Flat(ticks[..i])) + AllUpdates(ticks[i])
      ensures Wholes(visited + Flat(ticks[..i + 1])) == Wholes(visited + Flat(ticks[..i])) + Wholes(ticks[i])
      ensures visited + Flat(ticks[..i + 1]) == visited + Flat(ticks[..i]) + ticks[i]
    {
      hide Wholes, AllUpdates;
      assert ticks[..i + 1][..i] == ticks[..i];
      UpdatesAppend(visited + Flat(ticks[..i]), ticks[i]);
      WholesAppend(visited + Flat(ticks[..i]), ticks[i]);
      assert (visited + Flat(ticks[..i])) + ticks[i] == visited + (Flat(ticks[..i]) + ticks[i]);
    }

    lemma {:induction false} WholesAppend(a: seq<Notification>, b: seq<Notification>)
      ensures Wholes(a + b) == Wholes(a) + Wholes(b)
    {
      if b == [] {
        assert a + b == a && Wholes(a) + [] == Wholes(a);
      } else {
        var c := b[..|b| - 1];
        assert (a + b)[..|a + b| - 1] == a + c;
        WholesAppend(a, c);
      }
    }

    lemma {:induction false} UpdatesAppend(a: seq<Notification>, b: seq<Notification>)
      ensures AllUpdates(a + b) == AllUpdates(a) + AllUpdates(b)
    {
      if b == [] {
        assert a + b == a && AllUpdates(a) + [] == AllUpdates(a);
      } else {
        var c, n := b[..|b| - 1], b[|b| - 1];
        assert (a + b)[..|a + b| - 1] == a + c;
        UpdatesAppend(a, c);
        Regroup(AllUpdates(a), AllUpdates(c), Updates(n));
      }
    }

    lemma {:induction false} SentAppend(a: seq<Message>, b: seq<Message>)
      ensures Sent(a + b) == Sent(a) + Sent(b)
    {
      if b == [] {
        assert a + b == a && Sent(a) + [] == Sent(a);
      } else {
        var c, m := b[..|b| - 1], b[|b| - 1];
        assert b == c + [m] && a + b == (a + c) + [m];
        SentAppend(a, c);
        SentSnoc(a + c, m);
        SentSnoc(c, m);
        Regroup(Sent(a), Sent(c), if m.One? then [m.update] else []);
      }
    }
  }
}
