/** Tags of an event (pkg/formatters/event.go): the keys of the notification's
    prefix and of the update's path, merged in any order the map of path tags is
    iterated in. */
module EventTags {
  import opened Basics
  import opened PathSyntax

  type Tags = map<string, string>

  /** Where a path tag goes whose own name the prefix uses with another value. */
  function Renamed(path: string, k: string): string { path + "_" + k }

  lemma RenamedOnce(path: string, j: string, k: string)
    ensures Renamed(path, j) == Renamed(path, k) <==> j == k
    ensures Renamed(path, k)[|path| + 1..] == k && |Renamed(path, k)| > |k|
  {
    assert Renamed(path, j)[|path| + 1..] == j;
    assert Renamed(path, k)[|path| + 1..] == k;
  }

  // ---------------------------------------------------------------------
  // Merging in a given order
  // ---------------------------------------------------------------------

  /** Body of the merge loop. */
  function MergeTag(path: string, tags: Tags, k: string, v: string): Tags {
    if k !in tags then tags[k := v]
    else if tags[k] != v then tags[Renamed(path, k) := v]
    else tags
  }

  function MergeIn(path: string, tags: Tags, m: Tags, order: seq<string>): Tags
    requires forall k | k in order :: k in m
    decreases |order|
  {
    if order == [] then tags
    else MergeIn(path, MergeTag(path, tags, order[0], m[order[0]]), m, order[1..])
  }

  /** An order in which Go may iterate over `m`. */
  ghost predicate IsOrder(order: seq<string>, m: Tags) {
    && (forall k :: k in order <==> k in m)
    && Distinct(order)
  }

  lemma {:induction false} MergeSnoc(path: string, tags: Tags, m: Tags, order: seq<string>, k: string)
    requires k in m && forall x | x in order :: x in m
    ensures MergeIn(path, tags, m, order + [k]) == MergeTag(path, MergeIn(path, tags, m, order), k, m[k])
    decreases |order|
  {
    if order == [] {
      assert ([k])[1..] == [] && order + [k] == [k];
    } else {
      assert (order + [k])[1..] == order[1..] + [k];
      MergeSnoc(path, MergeTag(path, tags, order[0], m[order[0]]), m, order[1..], k);
    }
  }

  /** Some order exists. */
  lemma {:induction false} OrderExists(m: Tags) returns (order: seq<string>)
    ensures IsOrder(order, m)
    decreases |m|
  {
    if m == map[] {
      order := [];
    } else {
      var k :| k in m;
      var rest := OrderExists(m - {k});
      order := [k] + rest;
    }
  }

  // ---------------------------------------------------------------------
  // The intended result, and when it is reached
  // ---------------------------------------------------------------------

  ghost predicate Clash(prefix: Tags, m: Tags, k: string) {
    k in prefix && k in m && prefix[k] != m[k]
  }

  ghost function Clashing(prefix: Tags, m: Tags): set<string> { set k | k in m && Clash(prefix, m, k) }

  ghost function MovedNames(path: string, ks: set<string>): set<string> { set k | k in ks :: Renamed(path, k) }

  /** Every tag of the prefix keeps its value, and the value of every path tag is
      found under its name or its name behind the path. */
  ghost predicate NothingLost(path: string, prefix: Tags, m: Tags, out: Tags) {
    && (forall y | y in prefix :: y in out && out[y] == prefix[y])
    && (forall k | k in m :: Held(out, k, m[k]) || Held(out, Renamed(path, k), m[k]))
  }

  ghost predicate Held(tags: Tags, k: string, v: string) { k in tags && tags[k] == v }

  /** A value the two maps hold under `k`, where the prefix goes first. */
  ghost predicate HeldByEither(prefix: Tags, m: Tags, k: string, v: string) {
    if k in prefix then prefix[k] == v else k in m && m[k] == v
  }

  /** The new name of a clashing tag is not used with another value, unless it is
      used by a path tag only and that one's value is found behind the path too. */
  ghost predicate Room(path: string, prefix: Tags, m: Tags, k: string)
    requires k in m
  {
    var r := Renamed(path, k);
    && (r in prefix ==> prefix[r] == m[k])
    && (r !in prefix && r in m && m[r] != m[k] ==> HeldByEither(prefix, m, Renamed(path, r), m[r]))
  }

  ghost predicate Consistent(path: string, prefix: Tags, m: Tags) {
    forall k | Clash(prefix, m, k) :: Room(path, prefix, m, k)
  }

  /** y is the new name of a clashing tag. */
  ghost predicate Moved(path: string, prefix: Tags, m: Tags, y: string) {
    |y| > |path| && y == Renamed(path, y[|path| + 1..]) && Clash(prefix, m, y[|path| + 1..])
  }

  /** The merged tags, whatever the order. */
  ghost function Merged(path: string, prefix: Tags, m: Tags): Tags {
    map y | y in prefix.Keys + m.Keys + MovedNames(path, Clashing(prefix, m)) ::
      if Moved(path, prefix, m, y) then m[y[|path| + 1..]] else if y in prefix then prefix[y] else m[y]
  }

  lemma MergedAt(path: string, prefix: Tags, m: Tags, y: string)
    ensures y in Merged(path, prefix, m) <==> y in prefix || y in m || Moved(path, prefix, m, y)
    ensures Moved(path, prefix, m, y) ==> Held(Merged(path, prefix, m), y, m[y[|path| + 1..]])
    ensures !Moved(path, prefix, m, y) && y in prefix ==> Held(Merged(path, prefix, m), y, prefix[y])
    ensures !Moved(path, prefix, m, y) && y !in prefix && y in m ==> Held(Merged(path, prefix, m), y, m[y])
  {
    forall k ensures Renamed(path, k)[|path| + 1..] == k { RenamedOnce(path, k, k); }
  }

  lemma MovedClash(path: string, prefix: Tags, m: Tags, k: string)
    ensures Moved(path, prefix, m, Renamed(path, k)) <==> Clash(prefix, m, k)
  {
    RenamedOnce(path, k, k);
  }

  /** State of the merge when the tags in `done` have been handled. */
  ghost predicate Midway(path: string, prefix: Tags, m: Tags, done: set<string>, tags: Tags) {
    && (forall y | y in tags :: Held(Merged(path, prefix, m), y, tags[y]) || Waiting(path, prefix, m, done, tags, y))
    && (forall y | y in prefix || y in done :: y in tags)
    && (forall k | k in done && Clash(prefix, m, k) :: Held(tags, Renamed(path, k), m[k]))
  }

  /** y is held by a path tag and will be taken by a clashing tag. */
  ghost predicate Waiting(path: string, prefix: Tags, m: Tags, done: set<string>, tags: Tags, y: string) {
    y !in prefix && Moved(path, prefix, m, y) && y[|path| + 1..] !in done && y in m && Held(tags, y, m[y])
  }

  lemma MidwayNew(path: string, prefix: Tags, m: Tags, done: set<string>, tags: Tags, k: string)
    requires Midway(path, prefix, m, done, tags) && k in m && k !in done && k !in tags
    ensures Midway(path, prefix, m, done + {k}, tags[k := m[k]])
  {
    var after := tags[k := m[k]];
    MergedAt(path, prefix, m, k);
    RenamedOnce(path, k, k);
    forall y | y in after
      ensures Held(Merged(path, prefix, m), y, after[y]) || Waiting(path, prefix, m, done + {k}, after, y)
    {
      MergedAt(path, prefix, m, y);
    }
    forall j | j in done + {k} && Clash(prefix, m, j)
      ensures Held(after, Renamed(path, j), m[j])
    {
    }
  }

  lemma MidwaySame(path: string, prefix: Tags, m: Tags, done: set<string>, tags: Tags, k: string)
    requires Midway(path, prefix, m, done, tags) && Consistent(path, prefix, m)
    requires k in m && k !in done && Held(tags, k, m[k])
    ensures Midway(path, prefix, m, done + {k}, tags)
  {
  }

  /** A tag that is moved finds its new name free or holding its value. */
  lemma MovesInto(path: string, prefix: Tags, m: Tags, done: set<string>, tags: Tags, k: string)
    requires Midway(path, prefix, m, done, tags) && Consistent(path, prefix, m)
    requires k in m && k !in done && k in tags && tags[k] != m[k]
    ensures Held(Merged(path, prefix, m), Renamed(path, k), m[k])
  {
    var r := Renamed(path, k);
    MergedAt(path, prefix, m, r);
    MergedAt(path, prefix, m, k);
    MovedClash(path, prefix, m, k);
    if !Clash(prefix, m, k) {
      assert Held(Merged(path, prefix, m), k, tags[k]);
      assert Moved(path, prefix, m, k);
      assert Room(path, prefix, m, k[|path| + 1..]);
    }
  }

  lemma MidwayMove(path: string, prefix: Tags, m: Tags, done: set<string>, tags: Tags, k: string)
    requires Midway(path, prefix, m, done, tags) && Consistent(path, prefix, m)
    requires k in m && k !in done && k in tags && tags[k] != m[k]
    ensures Midway(path, prefix, m, done + {k}, tags[Renamed(path, k) := m[k]])
  {
    var r := Renamed(path, k);
    var after := tags[r := m[k]];
    MovesInto(path, prefix, m, done, tags, k);
    RenamedOnce(path, k, k);
    forall y | y in after
      ensures Held(Merged(path, prefix, m), y, after[y]) || Waiting(path, prefix, m, done + {k}, after, y)
    {
      if y != r && Waiting(path, prefix, m, done, tags, y) {
        assert y[|path| + 1..] != k;
      }
    }
    forall j | j in done + {k} && Clash(prefix, m, j)
      ensures Held(after, Renamed(path, j), m[j])
    {
      RenamedOnce(path, j, k);
    }
  }

  lemma MidwayStart(path: string, prefix: Tags, m: Tags)
    requires Consistent(path, prefix, m)
    ensures Midway(path, prefix, m, {}, prefix)
  {
    forall y | y in prefix
      ensures Held(Merged(path, prefix, m), y, prefix[y])
    {
      MergedAt(path, prefix, m, y);
      if Moved(path, prefix, m, y) { assert Room(path, prefix, m, y[|path| + 1..]); }
    }
  }

  lemma MidwayStep(path: string, prefix: Tags, m: Tags, done: set<string>, tags: Tags, k: string)
    requires Midway(path, prefix, m, done, tags) && Consistent(path, prefix, m)
    requires k in m && k !in done
    ensures Midway(path, prefix, m, done + {k}, MergeTag(path, tags, k, m[k]))
  {
    hide Midway, Consistent;
    if k !in tags {
      MidwayNew(path, prefix, m, done, tags, k);
    } else if tags[k] == m[k] {
      MidwaySame(path, prefix, m, done, tags, k);
    } else {
      MidwayMove(path, prefix, m, done, tags, k);
    }
  }

  lemma MidwayEnd(path: string, prefix: Tags, m: Tags, tags: Tags)
    requires Midway(path, prefix, m, m.Keys, tags)
    ensures tags == Merged(path, prefix, m)
  {
    var merged := Merged(path, prefix, m);
    forall y
      ensures y in tags <==> y in merged
      ensures y in merged && y in tags ==> tags[y] == merged[y]
    {
      MergedAt(path, prefix, m, y);
    }
  }

  lemma {:induction false} MidwayAfter(path: string, prefix: Tags, m: Tags, order: seq<string>, full: seq<string>)
    requires IsOrder(full, m) && order <= full && Consistent(path, prefix, m)
    ensures Midway(path, prefix, m, SetOf(order), MergeIn(path, prefix, m, order))
    decreases |order|
  {
    hide Midway, Consistent;
    if order == [] {
      MidwayStart(path, prefix, m);
      assert SetOf(order) == {};
    } else {
      var before, k := order[..|order| - 1], order[|order| - 1];
      MidwayAfter(path, prefix, m, before, full);
      assert order == before + [k];
      MergeSnoc(path, prefix, m, before, k);
      MidwayStep(path, prefix, m, SetOf(before), MergeIn(path, prefix, m, before), k);
      assert SetOf(order) == SetOf(before) + {k};
    }
  }

  /** When there is room for the moved tags, all orders give the same tags and
      nothing is lost. */
  lemma MergeIsOrderFree(path: string, prefix: Tags, m: Tags, order: seq<string>)
    requires IsOrder(order, m) && Consistent(path, prefix, m)
    ensures MergeIn(path, prefix, m, order) == Merged(path, prefix, m)
    ensures NothingLost(path, prefix, m, Merged(path, prefix, m))
  {
    hide Midway, Consistent, Merged, NothingLost;
    MidwayAfter(path, prefix, m, order, order);
    assert SetOf(order) == m.Keys;
    MidwayEnd(path, prefix, m, MergeIn(path, prefix, m, order));
    MergedKeeps(path, prefix, m);
  }

  lemma MergedKeeps(path: string, prefix: Tags, m: Tags)
    requires Consistent(path, prefix, m)
    ensures NothingLost(path, prefix, m, Merged(path, prefix, m))
  {
    var merged := Merged(path, prefix, m);
    forall y | y in prefix ensures Held(merged, y, prefix[y]) {
      MergedAt(path, prefix, m, y);
      if Moved(path, prefix, m, y) { assert Room(path, prefix, m, y[|path| + 1..]); }
    }
    forall k | k in m ensures Held(merged, k, m[k]) || Held(merged, Renamed(path, k), m[k]) {
      MergedAt(path, prefix, m, k);
      MovedClash(path, prefix, m, k);
      MergedAt(path, prefix, m, Renamed(path, k));
      if !Clash(prefix, m, k) && Moved(path, prefix, m, k) { assert Room(path, prefix, m, k[|path| + 1..]); }
    }
  }

  // ---------------------------------------------------------------------
  // When there is no room
  // ---------------------------------------------------------------------

  /** A name that no tag of the order is moved to. */
  lemma {:induction false} NotMoved(path: string, tags: Tags, m: Tags, order: seq<string>, y: string)
    requires forall k | k in order :: k in m && Renamed(path, k) != y
    ensures var out := MergeIn(path, tags, m, order);
      && (y in out <==> y in tags || y in order)
      && (y in out ==> out[y] == if y in tags then tags[y] else m[y])
    decreases |order|
  {
    if order != [] {
      assert order[0] in order;
      NotMoved(path, MergeTag(path, tags, order[0], m[order[0]]), m, order[1..], y);
    }
  }

  lemma OrderFirst(m: Tags, k: string) returns (rest: seq<string>)
    requires k in m
    ensures IsOrder([k] + rest, m) && k !in rest
  {
    rest := OrderExists(m - {k});
  }

  lemma OthersNotMoved(path: string, m: Tags, order: seq<string>, rest: seq<string>, k: string)
    requires IsOrder(order + rest, m) && k in order
    ensures forall x | x in rest :: x in m && Renamed(path, x) != Renamed(path, k)
  {
    forall x | x in rest
      ensures x in m && Renamed(path, x) != Renamed(path, k)
    {
      assert x in order + rest;
      RenamedOnce(path, x, k);
      var i :| 0 <= i < |order| && order[i] == k;
      var j :| 0 <= j < |rest| && rest[j] == x;
      assert (order + rest)[i] == k && (order + rest)[|order| + j] == x;
    }
  }

  /** The prefix's own tag is overwritten when the clashing tag comes first. */
  lemma PrefixTagLost(path: string, prefix: Tags, m: Tags, k: string) returns (order: seq<string>)
    requires Clash(prefix, m, k)
    requires Renamed(path, k) in prefix && prefix[Renamed(path, k)] != m[k]
    ensures IsOrder(order, m) && !NothingLost(path, prefix, m, MergeIn(path, prefix, m, order))
  {
    var rest := OrderFirst(m, k);
    order := [k] + rest;
    OthersNotMoved(path, m, [k], rest, k);
    assert order[1..] == rest;
    NotMoved(path, prefix[Renamed(path, k) := m[k]], m, rest, Renamed(path, k));
    assert Renamed(path, k) in prefix;
  }

  /** The path's own tag is overwritten when it comes before the clashing one. */
  lemma PathTagLost(path: string, prefix: Tags, m: Tags, k: string) returns (order: seq<string>)
    requires Clash(prefix, m, k)
    requires Renamed(path, k) !in prefix && Renamed(path, k) in m && m[Renamed(path, k)] != m[k]
    requires !HeldByEither(prefix, m, Renamed(path, Renamed(path, k)), m[Renamed(path, k)])
    ensures IsOrder(order, m) && !NothingLost(path, prefix, m, MergeIn(path, prefix, m, order))
  {
    var r := Renamed(path, k);
    var x := Renamed(path, r);
    RenamedOnce(path, k, r);
    RenamedOnce(path, r, r);
    var rest := OrderExists(m - {r, k});
    order := [r, k] + rest;
    OthersNotMoved(path, m, [r, k], rest, k);
    OthersNotMoved(path, m, [r, k], rest, r);
    var tags := prefix[r := m[r]][r := m[k]];
    assert MergeIn(path, prefix, m, order) == MergeIn(path, tags, m, rest) by {
      assert order[1..] == [k] + rest && order[1..][1..] == rest;
    }
    NotMoved(path, tags, m, rest, r);
    NotMoved(path, tags, m, rest, x);
  }

  /** The merge keeps everything in every order exactly when there is room. */
  lemma NothingLostIff(path: string, prefix: Tags, m: Tags)
    ensures (forall order | IsOrder(order, m) :: NothingLost(path, prefix, m, MergeIn(path, prefix, m, order)))
      <==> Consistent(path, prefix, m)
  {
    if Consistent(path, prefix, m) {
      forall order | IsOrder(order, m)
        ensures NothingLost(path, prefix, m, MergeIn(path, prefix, m, order))
      {
        MergeIsOrderFree(path, prefix, m, order);
      }
    } else {
      var k :| Clash(prefix, m, k) && !Room(path, prefix, m, k);
      var order;
      if Renamed(path, k) in prefix {
        order := PrefixTagLost(path, prefix, m, k);
      } else {
        order := PathTagLost(path, prefix, m, k);
      }
    }
  }

  /** No name that a tag could be moved to is used. */
  ghost predicate Apart(path: string, prefix: Tags, m: Tags) {
    forall k :: Renamed(path, k) !in prefix && Renamed(path, k) !in m
  }

  lemma ApartHeld(path: string, prefix: Tags, m: Tags, k: string)
    requires k in m
    requires Apart(path, prefix, m)
    ensures Held(Merged(path, prefix, m), if Clash(prefix, m, k) then Renamed(path, k) else k, m[k])
  {
    hide Merged;
    MergedAt(path, prefix, m, k);
    MovedClash(path, prefix, m, k);
    MergedAt(path, prefix, m, Renamed(path, k));
    RenamedOnce(path, k, k);
  }

  lemma MergedKeys(path: string, prefix: Tags, m: Tags)
    ensures Merged(path, prefix, m).Keys == (prefix.Keys + m.Keys) + MovedNames(path, Clashing(prefix, m))
  {
    hide MovedNames, Clashing;
  }

  lemma ApartCount(path: string, prefix: Tags, m: Tags)
    requires Apart(path, prefix, m)
    ensures |Merged(path, prefix, m)| == |prefix.Keys + m.Keys| + |Clashing(prefix, m)|
  {
    MovedCount(path, Clashing(prefix, m));
    var out := Merged(path, prefix, m);
    var moved := MovedNames(path, Clashing(prefix, m));
    assert out.Keys == (prefix.Keys + m.Keys) + moved by { hide *; MergedKeys(path, prefix, m); }
    assert (prefix.Keys + m.Keys) !! moved;
    assert |out| == |out.Keys|;
  }

  /** Each tag is where it should be, and there are no others. */
  ghost predicate Complete(path: string, prefix: Tags, m: Tags, out: Tags) {
    && (forall k | k in prefix :: Held(out, k, prefix[k]))
    && (forall k | k in m :: Held(out, if Clash(prefix, m, k) then Renamed(path, k) else k, m[k]))
    && |out| == |prefix.Keys + m.Keys| + |Clashing(prefix, m)|
  }

  /** Then there is room, every order gives the same tags, and they are complete. */
  lemma ApartMerge(path: string, prefix: Tags, m: Tags, order: seq<string>)
    requires Apart(path, prefix, m) && IsOrder(order, m)
    ensures Consistent(path, prefix, m) && MergeIn(path, prefix, m, order) == Merged(path, prefix, m)
    ensures Complete(path, prefix, m, Merged(path, prefix, m))
  {
    assert Consistent(path, prefix, m);
    hide Consistent, Merged, MergeIn, Clash, Clashing, IsOrder, Apart;
    MergeIsOrderFree(path, prefix, m, order);
    ApartCount(path, prefix, m);
    forall k | k in m ensures Held(Merged(path, prefix, m), if Clash(prefix, m, k) then Renamed(path, k) else k, m[k]) {
      ApartHeld(path, prefix, m, k);
    }
  }

  /** So it is when the path has a "/" and no tag name has one. */
  lemma SlashFreeNames(path: string, prefix: Tags, m: Tags, order: seq<string>)
    requires '/' in path && IsOrder(order, m)
    requires forall k | k in prefix || k in m :: '/' !in k
    ensures MergeIn(path, prefix, m, order) == Merged(path, prefix, m)
    ensures Complete(path, prefix, m, MergeIn(path, prefix, m, order))
  {
    forall k ensures '/' in Renamed(path, k) { }
    hide Complete, MergeIn, Merged, IsOrder;
    ApartMerge(path, prefix, m, order);
  }

  /** A "/" or ":" stands before the first "_". */
  predicate Marked(s: string) {
    s != "" && s[0] != '_' && (s[0] == '/' || s[0] == ':' || Marked(s[1..]))
  }

  lemma {:induction false} MarkedAppend(a: string, b: string)
    requires Marked(a)
    ensures Marked(a + b)
  {
    assert (a + b)[1..] == a[1..] + b;
    if Marked(a[1..]) { MarkedAppend(a[1..], b); }
  }

  /** So it is, too, when such a mark is in the path and in no tag name, whatever
      else the names hold. */
  lemma MarkedNames(path: string, prefix: Tags, m: Tags, order: seq<string>)
    requires Marked(path) && IsOrder(order, m)
    requires forall k | k in prefix || k in m :: !Marked(k)
    ensures MergeIn(path, prefix, m, order) == Merged(path, prefix, m)
    ensures Complete(path, prefix, m, MergeIn(path, prefix, m, order))
  {
    hide Complete, MergeIn, Merged, IsOrder;
    forall k ensures Marked(Renamed(path, k)) {
      MarkedAppend(path, "_" + k);
      assert Renamed(path, k) == path + ("_" + k);
    }
    ApartMerge(path, prefix, m, order);
  }

  lemma {:induction false} MovedCount(path: string, ks: set<string>)
    ensures |MovedNames(path, ks)| == |ks|
  {
    if ks != {} {
      var k :| k in ks;
      MovedCount(path, ks - {k});
      forall j | j in ks - {k} ensures Renamed(path, j) != Renamed(path, k) { RenamedOnce(path, j, k); }
      assert MovedNames(path, ks) == MovedNames(path, ks - {k}) + {Renamed(path, k)};
    }
  }

  /** Two orders that differ, one of which loses a value: a clashing tag whose new
      name is used by another tag of the path. */
  lemma TakenNameLost(path: string, k: string, x: string, y: string, z: string)
    requires x != y && y != z
    ensures var r, prefix := Renamed(path, k), map[k := x];
      var m := prefix[k := y][r := z];
      && IsOrder([k, r], m) && IsOrder([r, k], m)
      && MergeIn(path, prefix, m, [k, r]) == map[k := x][r := y][Renamed(path, r) := z]
      && MergeIn(path, prefix, m, [r, k]) == map[k := x][r := y]
      && !NothingLost(path, prefix, m, MergeIn(path, prefix, m, [r, k]))
  {
    var r, prefix := Renamed(path, k), map[k := x];
    var m := prefix[k := y][r := z];
    RenamedOnce(path, k, k);
    RenamedOnce(path, r, r);
    assert [k, r][1..] == [r] && [r, k][1..] == [k] && [k][1..] == [] && [r][1..] == [];
    hide Renamed;
    assert MergeTag(path, prefix, k, y) == prefix[r := y];
    assert MergeIn(path, prefix, m, [k, r]) == MergeIn(path, prefix[r := y], m, [r]);
    assert MergeTag(path, prefix[r := y], r, z) == prefix[r := y][Renamed(path, r) := z];
    assert MergeIn(path, prefix[r := y], m, [r]) == MergeIn(path, prefix[r := y][Renamed(path, r) := z], m, []);
    assert MergeTag(path, prefix, r, z) == prefix[r := z];
    assert MergeIn(path, prefix, m, [r, k]) == MergeIn(path, prefix[r := z], m, [k]);
    assert MergeTag(path, prefix[r := z], k, y) == prefix[r := y];
    assert MergeIn(path, prefix[r := z], m, [k]) == MergeIn(path, prefix[r := y], m, []);
  }

  // ---------------------------------------------------------------------
  // Tags of one path
  // ---------------------------------------------------------------------

  function Last(pieces: seq<string>): string
    requires pieces != []
  {
    pieces[|pieces| - 1]
  }

  /** What stands before a key's name in its tag: nothing, or the element's name
      without its module prefix, and "_". */
  function TagPrefix(name: string): string {
    if name == "" then "" else Last(Split(name, ':')) + "_"
  }

  /** Tags of the keys of one element. */
  ghost function ElemTags(pe: PathElem): Tags {
    map t | t in (set k | k in pe.key :: TagPrefix(pe.name) + k) :: pe.key[t[|TagPrefix(pe.name)|..]]
  }

  lemma ElemTagsAt(pe: PathElem, k: string)
    ensures TagPrefix(pe.name) + k in ElemTags(pe) <==> k in pe.key
    ensures k in pe.key ==> ElemTags(pe)[TagPrefix(pe.name) + k] == pe.key[k]
  {
    var all := set j | j in pe.key :: TagPrefix(pe.name) + j;
    forall j ensures (TagPrefix(pe.name) + j)[|TagPrefix(pe.name)|..] == j { }
    if TagPrefix(pe.name) + k in all {
      var j :| j in pe.key && TagPrefix(pe.name) + j == TagPrefix(pe.name) + k;
      assert (TagPrefix(pe.name) + j)[|TagPrefix(pe.name)|..] == (TagPrefix(pe.name) + k)[|TagPrefix(pe.name)|..];
    }
  }

  /** Later elements win over earlier ones with the same last name and key. */
  ghost function ElemsTags(elems: seq<PathElem>): Tags {
    if elems == [] then map[] else ElemsTags(elems[..|elems| - 1]) + ElemTags(elems[|elems| - 1])
  }

  ghost function PathTags(p: Path, target: string): Tags {
    ElemsTags(p.elem) + if target != "" then map["target" := target] else map[]
  }

  function ElemsName(elems: seq<PathElem>): string {
    if elems == [] then ""
    else ElemsName(elems[..|elems| - 1]) + if elems[|elems| - 1].name != "" then "/" + elems[|elems| - 1].name else ""
  }

  function PathName(p: Path): string {
    (if p.origin != "" then p.origin + ":" else "") + ElemsName(p.elem)
  }

  // What these functions give, without the way they do it.

  /** `local` is the name behind the last ":", or all of it. */
  predicate LocalName(name: string, local: string) {
    ':' !in local && (name == local || (|name| > |local| && name[|name| - |local| - 1..] == ":" + local))
  }

  /** t is the tag of key k of an element: the local name, "_" and the key, or the
      key alone for an element without a name. */
  predicate IsTag(name: string, k: string, t: string) {
    if name == "" then t == k
    else |t| > |k| && t[|t| - |k| - 1..] == "_" + k && LocalName(name, t[..|t| - |k| - 1])
  }

  predicate HasTag(pe: PathElem, t: string) { exists k | k in pe.key :: IsTag(pe.name, k, t) }

  predicate TagOf(pe: PathElem, t: string, v: string) { exists k | k in pe.key :: IsTag(pe.name, k, t) && pe.key[k] == v }

  /** The last element that has the tag gives it v. */
  ghost predicate LastTag(elems: seq<PathElem>, t: string, v: string) {
    exists i :: 0 <= i < |elems| && TagOf(elems[i], t, v) && forall j | i < j < |elems| :: !HasTag(elems[j], t)
  }

  /** The tags of a path: its own target under "target", and otherwise what the
      last element gives that has the tag. */
  ghost predicate TagsAre(tags: Tags, elems: seq<PathElem>, target: string) {
    forall t, v :: Held(tags, t, v) <==> if t == "target" && target != "" then v == target else LastTag(elems, t, v)
  }

  lemma SplitTail(name: string) returns (i: nat)
    ensures i <= |name| && ':' !in name[..i]
    ensures i == |name| ==> Split(name, ':') == [name] && ':' !in name
    ensures i < |name| ==> name[i] == ':' && Last(Split(name, ':')) == Last(Split(name[i + 1..], ':'))
  {
    i := IndexOf(name, ':');
    assert name[..|name|] == name;
  }

  lemma LocalInTail(name: string, i: nat, local: string)
    requires i < |name| && name[i] == ':' && LocalName(name[i + 1..], local)
    ensures LocalName(name, local)
  {
    var tail := name[i + 1..];
    if tail == local {
      assert name[|name| - |local| - 1..] == ":" + local;
    } else {
      assert name[|name| - |local| - 1..] == tail[|tail| - |local| - 1..];
    }
  }

  lemma {:induction false} LastPiece(name: string)
    ensures LocalName(name, Last(Split(name, ':')))
    decreases |name|
  {
    hide Split;
    var i := SplitTail(name);
    if i < |name| {
      hide LocalName, Last;
      LastPiece(name[i + 1..]);
      LocalInTail(name, i, Last(Split(name[i + 1..], ':')));
    }
  }

  lemma LocalUnique(name: string, x: string, y: string)
    requires LocalName(name, x) && LocalName(name, y)
    ensures x == y
  {
    if |x| < |y| { LongerLocal(name, x, y); }
    if |y| < |x| { LongerLocal(name, y, x); }
    if |x| == |y| && x != name && y != name {
      assert x == name[|name| - |x| - 1..][1..] && y == name[|name| - |y| - 1..][1..];
    }
  }

  lemma LongerLocal(name: string, x: string, y: string)
    requires LocalName(name, x) && |x| < |y| <= |name|
    requires y == name || (|y| < |name| && name[|name| - |y| - 1..] == ":" + y)
    ensures ':' in y
  {
    assert name[|name| - |x| - 1..][0] == ':';
    if y != name {
      assert y == name[|name| - |y| - 1..][1..];
    }
    assert y[|y| - |x| - 1] == name[|name| - |x| - 1] == ':';
  }

  lemma TagPrefixIs(name: string, k: string, t: string)
    ensures IsTag(name, k, t) <==> t == TagPrefix(name) + k
  {
    if name == "" {
      assert "" + k == k;
    } else {
      var local := Last(Split(name, ':'));
      LastPiece(name);
      hide Split;
      if t == TagPrefix(name) + k {
        assert t == local + ("_" + k);
        assert t[..|t| - |k| - 1] == local;
      }
      if IsTag(name, k, t) {
        LocalUnique(name, local, t[..|t| - |k| - 1]);
        assert t == t[..|t| - |k| - 1] + t[|t| - |k| - 1..];
        assert local + ("_" + k) == (local + "_") + k;
      }
    }
  }

  lemma ElemTagsAre(pe: PathElem, t: string, v: string)
    ensures Held(ElemTags(pe), t, v) <==> TagOf(pe, t, v)
    ensures t in ElemTags(pe) <==> HasTag(pe, t)
  {
    hide TagPrefix, IsTag;
    var name := TagPrefix(pe.name);
    if t in ElemTags(pe) {
      var k := t[|name|..];
      var j :| j in pe.key && name + j == t;
      assert j == k;
      ElemTagsAt(pe, k);
      TagPrefixIs(pe.name, k, t);
    }
    if HasTag(pe, t) {
      var k :| k in pe.key && IsTag(pe.name, k, t);
      TagPrefixIs(pe.name, k, t);
      ElemTagsAt(pe, k);
      forall j | j in pe.key && IsTag(pe.name, j, t) ensures j == k {
        TagPrefixIs(pe.name, j, t);
        assert (name + j)[|name|..] == (name + k)[|name|..];
      }
    }
  }

  lemma {:induction false} ElemsTagsAre(elems: seq<PathElem>, t: string, v: string)
    ensures Held(ElemsTags(elems), t, v) <==> LastTag(elems, t, v)
  {
    if elems != [] {
      var n := |elems| - 1;
      var before, pe := elems[..n], elems[n];
      ElemsTagsAre(before, t, v);
      ElemTagsAre(pe, t, v);
      hide ElemTags, TagOf, HasTag;
      assert LastTag(elems, t, v) <==> if HasTag(pe, t) then TagOf(pe, t, v) else LastTag(before, t, v) by {
        LastTagSnoc(before, pe, t, v);
        assert elems == before + [pe];
      }
    }
  }

  lemma LastTagSnoc(before: seq<PathElem>, pe: PathElem, t: string, v: string)
    ensures LastTag(before + [pe], t, v) <==> if HasTag(pe, t) then TagOf(pe, t, v) else LastTag(before, t, v)
  {
    var elems, n := before + [pe], |before|;
    assert TagOf(pe, t, v) ==> HasTag(pe, t);
    hide TagOf, HasTag;
    assert elems[n] == pe && forall i | 0 <= i < n :: elems[i] == before[i];
  }

  lemma PathTagsAre(p: Path, target: string)
    ensures TagsAre(PathTags(p, target), p.elem, target)
  {
    forall t, v
      ensures Held(PathTags(p, target), t, v) <==> if t == "target" && target != "" then v == target else LastTag(p.elem, t, v)
    {
      ElemsTagsAre(p.elem, t, v);
    }
  }

  method KeyTags(pe: PathElem, before: Tags) returns (tags: Tags)
    ensures tags == before + ElemTags(pe)
  {
    hide ElemTags, Split, IndexOf;
    tags := before;
    var todo := pe.key.Keys;
    assert pe.key - todo == map[];
    NoKeys(pe.name);
    while todo != {}
      invariant todo <= pe.key.Keys
      invariant tags == before + ElemTags(PathElem(pe.name, pe.key - todo))
    {
      ghost var done := PathElem(pe.name, pe.key - todo);
      var k :| k in todo;
      todo := todo - {k};
      ghost var next := PathElem(pe.name, pe.key - todo);
      assert next.key == done.key[k := pe.key[k]];
      AddKey(done, k, pe.key[k]);
      assert ElemTags(next) == ElemTags(done)[TagPrefix(pe.name) + k := pe.key[k]];
      if pe.name == "" {
        assert TagPrefix(pe.name) + k == k;
        tags := tags[k := pe.key[k]];
        continue;
      }
      tags := tags[Last(Split(pe.name, ':')) + "_" + k := pe.key[k]];
    }
    assert pe.key - {} == pe.key;
  }

  lemma NoKeys(name: string)
    ensures ElemTags(PathElem(name, map[])) == map[]
  {
  }

  lemma AddKey(pe: PathElem, k: string, v: string)
    requires k !in pe.key
    ensures ElemTags(PathElem(pe.name, pe.key[k := v])) == ElemTags(pe)[TagPrefix(pe.name) + k := v]
  {
    var next := PathElem(pe.name, pe.key[k := v]);
    var name := TagPrefix(pe.name);
    forall t
      ensures t in ElemTags(next) <==> t in ElemTags(pe) || t == name + k
      ensures t in ElemTags(next) ==> ElemTags(next)[t] == ElemTags(pe)[name + k := v][t]
    {
      if name <= t {
        assert t == name + t[|name|..];
        ElemTagsAt(pe, t[|name|..]);
        ElemTagsAt(next, t[|name|..]);
        assert t == name + k <==> t[|name|..] == k;
      }
    }
  }

  /** tagsFromGNMIPath; a nil path is `None`. */
  method TagsFromGnmiPath(p: Option<Path>, target: string) returns (name: string, tags: Tags)
    ensures p == None ==> name == "" && tags == map[]
    ensures p.Some? ==> name == PathName(p.value) && tags == PathTags(p.value, target)
    ensures p.Some? ==> TagsAre(tags, p.value.elem, target)
  {
    if p.Some? { PathTagsAre(p.value, target); }
    hide TagsAre;
    if p == None { return "", map[]; }
    name, tags := ElemsNameTags(if p.value.origin != "" then p.value.origin + ":" else "", p.value.elem);
    if target != "" { tags := tags["target" := target]; }
  }

  /** The loop over the elements. */
  method ElemsNameTags(start: string, elems: seq<PathElem>) returns (name: string, tags: Tags)
    ensures name == start + ElemsName(elems) && tags == ElemsTags(elems)
  {
    hide ElemTags;
    name, tags := start, map[];
    assert start + "" == start;
    for i := 0 to |elems|
      invariant name == start + ElemsName(elems[..i])
      invariant tags == ElemsTags(elems[..i])
    {
      var e := elems[i];
      assert elems[..i + 1][..i] == elems[..i];
      if e.name != "" { name := name + "/" + e.name; }
      tags := KeyTags(e, tags);
    }
    assert elems[..|elems|] == elems;
  }

  // ---------------------------------------------------------------------
  // An update's event
  // ---------------------------------------------------------------------

  function TrimLeft(s: string): string { if s != "" && s[0] == '/' then TrimLeft(s[1..]) else s }

  function TrimRight(s: string): string { if s != "" && s[|s| - 1] == '/' then TrimRight(s[..|s| - 1]) else s }

  lemma {:induction false} TrimLeftIs(s: string)
    ensures var t := TrimLeft(s);
      && |t| <= |s| && t == s[|s| - |t|..] && (t != "" ==> t[0] != '/')
      && forall i | 0 <= i < |s| - |t| :: s[i] == '/'
  {
    if s != "" && s[0] == '/' {
      TrimLeftIs(s[1..]);
      var t := TrimLeft(s[1..]);
      assert TrimLeft(s) == t;
      hide TrimLeft;
      assert s[1..][|s| - 1 - |t|..] == s[|s| - |t|..];
      forall i | 0 <= i < |s| - |t| ensures s[i] == '/' {
        if i > 0 { assert s[1..][i - 1] == s[i]; }
      }
    }
  }

  lemma {:induction false} TrimRightIs(s: string)
    ensures var t := TrimRight(s);
      && t <= s && (t != "" ==> t[|t| - 1] != '/')
      && forall i | |t| <= i < |s| :: s[i] == '/'
  {
    if s != "" && s[|s| - 1] == '/' { TrimRightIs(s[..|s| - 1]); }
  }

  function EventPath(prefix: string, name: string): (path: string)
    ensures '/' in path
  {
    TrimRight(prefix) + "/" + TrimLeft(name)
  }

  /** Tags of the event for an update or a deleted path. Without room for a
      clashing tag they may depend on the order. */
  method EventTags(prefixName: string, prefixTags: Tags, p: Option<Path>, target: string)
    returns (path: string, tags: Tags)
    ensures var name, own := if p == None then "" else PathName(p.value), if p == None then map[] else PathTags(p.value, target);
      && path == EventPath(prefixName, name)
      && (exists order :: IsOrder(order, own) && tags == MergeIn(path, prefixTags, own, order))
      && (Consistent(path, prefixTags, own) ==> tags == Merged(path, prefixTags, own) && NothingLost(path, prefixTags, own, tags))
  {
    hide IsOrder, Merged, NothingLost, Consistent, PathTags, PathName, EventPath;
    var name, own := TagsFromGnmiPath(p, target);
    path := EventPath(prefixName, name);
    tags := MergeTags(path, prefixTags, own);
  }

  method MergeTags(path: string, prefixTags: Tags, own: Tags) returns (tags: Tags)
    ensures exists order :: IsOrder(order, own) && tags == MergeIn(path, prefixTags, own, order)
    ensures Consistent(path, prefixTags, own) ==> tags == Merged(path, prefixTags, own) && NothingLost(path, prefixTags, own, tags)
  {
    hide Merged, NothingLost, Consistent, MergeIn;
    tags := prefixTags;
    var todo := own.Keys;
    ghost var order: seq<string> := [];
    NoMerge(path, prefixTags, own);
    while todo != {}
      invariant todo <= own.Keys
      invariant forall k :: k in order <==> k in own && k !in todo
      invariant Distinct(order)
      invariant tags == MergeIn(path, prefixTags, own, order)
    {
      var k :| k in todo;
      todo := todo - {k};
      MergeSnoc(path, prefixTags, own, order, k);
      order := order + [k];
      if k in tags {
        if tags[k] != own[k] { tags := tags[path + "_" + k := own[k]]; }
        continue;
      }
      tags := tags[k := own[k]];
    }
    assert IsOrder(order, own);
    if Consistent(path, prefixTags, own) { MergeIsOrderFree(path, prefixTags, own, order); }
  }

  lemma NoMerge(path: string, tags: Tags, m: Tags)
    ensures MergeIn(path, tags, m, []) == tags
  {
  }

  lemma {:induction false} SplitKeepsOut(s: string, sep: char, c: char)
    requires c !in s
    ensures forall piece | piece in Split(s, sep) :: c !in piece
    decreases |s|
  {
    var i := IndexOf(s, sep);
    if i < |s| { SplitKeepsOut(s[i + 1..], sep, c); }
  }

  /** Tag names of a path have no "/" when its element names and keys have none. */
  lemma {:induction false} SlashFreeTags(elems: seq<PathElem>)
    requires forall pe | pe in elems :: '/' !in pe.name && forall k | k in pe.key :: '/' !in k
    ensures forall t | t in ElemsTags(elems) :: '/' !in t
  {
    if elems != [] {
      var pe := elems[|elems| - 1];
      assert pe in elems;
      SlashFreeTags(elems[..|elems| - 1]);
      SplitKeepsOut(pe.name, ':', '/');
      assert Last(Split(pe.name, ':')) in Split(pe.name, ':');
    }
  }

  // ---------------------------------------------------------------------
  // Paths as they come
  // ---------------------------------------------------------------------

  lemma {:induction false} SplitNoSep(s: string, sep: char)
    ensures forall piece | piece in Split(s, sep) :: sep !in piece
    decreases |s|
  {
    var i := IndexOf(s, sep);
    if i < |s| { SplitNoSep(s[i + 1..], sep); }
  }

  lemma {:induction false} Unmarked(a: string, b: string)
    requires '/' !in a && ':' !in a
    ensures !Marked(a + "_" + b)
  {
    if a != "" {
      assert a[0] in a && (a + "_" + b)[1..] == a[1..] + "_" + b;
      Unmarked(a[1..], b);
    }
  }

  /** The names the parser gives. */
  predicate Named(elems: seq<PathElem>) {
    forall pe | pe in elems :: pe.name != "" && '/' !in pe.name
  }

  lemma {:induction false} NamedTags(elems: seq<PathElem>)
    requires Named(elems)
    ensures forall t | t in ElemsTags(elems) :: !Marked(t)
  {
    if elems != [] {
      var pe := elems[|elems| - 1];
      assert pe in elems;
      NamedTags(elems[..|elems| - 1]);
      var local := Last(Split(pe.name, ':'));
      SplitKeepsOut(pe.name, ':', '/');
      SplitNoSep(pe.name, ':');
      assert local in Split(pe.name, ':');
      forall k ensures !Marked(TagPrefix(pe.name) + k) { Unmarked(local, k); }
    }
  }

  lemma NamedPathTags(p: Path, target: string)
    requires Named(p.elem)
    ensures forall t | t in PathTags(p, target) :: !Marked(t)
  {
    NamedTags(p.elem);
    TargetUnmarked();
  }

  lemma TargetUnmarked()
    ensures !Marked("target")
  {
    assert "target"[1..] == "arget" && "arget"[1..] == "rget" && "rget"[1..] == "get";
    assert "get"[1..] == "et" && "et"[1..] == "t" && "t"[1..] == "";
    assert !Marked("") && !Marked("t") && !Marked("et") && !Marked("get") && !Marked("rget") && !Marked("arget");
  }

  /** Trimming stops at a ":". */
  lemma {:induction false} TrimRightKeeps(a: string, b: string)
    ensures a + ":" <= TrimRight(a + ":" + b)
  {
    var s := a + ":" + b;
    if b != "" && b[|b| - 1] == '/' {
      TrimRightKeeps(a, b[..|b| - 1]);
      assert s[..|s| - 1] == a + ":" + b[..|b| - 1];
    }
  }

  lemma {:induction false} TrimRightFirst(s: string)
    requires s == "" || s[0] == '/'
    ensures TrimRight(s) == "" || TrimRight(s)[0] == '/'
  {
    if s != "" && s[|s| - 1] == '/' { TrimRightFirst(s[..|s| - 1]); }
  }

  lemma {:induction false} MarkedOrigin(origin: string)
    requires '_' !in origin
    ensures Marked(origin + ":")
  {
    if origin != "" {
      assert origin[0] in origin && (origin + ":")[1..] == origin[1..] + ":";
      MarkedOrigin(origin[1..]);
    }
  }

  lemma {:induction false} ElemsNameFirst(elems: seq<PathElem>)
    ensures ElemsName(elems) == "" || ElemsName(elems)[0] == '/'
  {
    if elems != [] { ElemsNameFirst(elems[..|elems| - 1]); }
  }

  /** The path of an event is marked unless the prefix has an origin with "_". */
  lemma EventPathMarked(prefix: Path, name: string)
    requires '_' !in prefix.origin
    ensures Marked(EventPath(PathName(prefix), name))
  {
    var start, rest := TrimRight(PathName(prefix)), "/" + TrimLeft(name);
    assert EventPath(PathName(prefix), name) == start + rest;
    ElemsNameFirst(prefix.elem);
    assert "" + ElemsName(prefix.elem) == ElemsName(prefix.elem);
    hide ElemsName, TrimLeft, EventPath;
    if prefix.origin == "" {
      TrimRightFirst(PathName(prefix));
      assert (start + rest)[0] == '/';
    } else {
      TrimRightKeeps(prefix.origin, ElemsName(prefix.elem));
      hide TrimRight, Marked;
      var o := prefix.origin + ":";
      MarkedOrigin(prefix.origin);
      MarkedAppend(o, start[|o|..] + rest);
      assert o + (start[|o|..] + rest) == start + rest;
    }
  }

  /** For prefix and path with the names the parser gives, whatever their keys, and
      a prefix whose origin has no "_": every order gives the same tags, and they
      are complete. */
  lemma PathsMerge(prefix: Path, prefixTarget: string, p: Path, target: string, order: seq<string>)
    requires Named(prefix.elem) && Named(p.elem) && '_' !in prefix.origin
    requires IsOrder(order, PathTags(p, target))
    ensures var path, tags, own := EventPath(PathName(prefix), PathName(p)), PathTags(prefix, prefixTarget), PathTags(p, target);
      && MergeIn(path, tags, own, order) == Merged(path, tags, own)
      && Complete(path, tags, own, MergeIn(path, tags, own, order))
  {
    EventPathMarked(prefix, PathName(p));
    NamedPathTags(prefix, prefixTarget);
    NamedPathTags(p, target);
    hide *;
    MarkedNames(EventPath(PathName(prefix), PathName(p)), PathTags(prefix, prefixTarget), PathTags(p, target), order);
  }

  // ---------------------------------------------------------------------
  // Paths on which the order matters
  // ---------------------------------------------------------------------

  lemma ElemTagsOfOne(name: string, k: string, v: string)
    ensures ElemTags(PathElem(name, map[k := v])) == map[TagPrefix(name) + k := v]
  {
    NoKeys(name);
    AddKey(PathElem(name, map[]), k, v);
  }

  lemma TagsOfTwo(a: PathElem, b: PathElem, origin: string)
    ensures PathTags(Path(origin, [a, b]), "") == ElemTags(a) + ElemTags(b)
    ensures PathTags(Path(origin, [a]), "") == ElemTags(a)
  {
    hide ElemTags;
    var none: Tags := map[];
    assert [a, b][..1] == [a] && [a][..0] == [];
    assert ElemsTags([]) == none;
    assert ElemsTags([a]) == ElemsTags([]) + ElemTags(a);
    assert none + ElemTags(a) == ElemTags(a) && ElemTags(a) + none == ElemTags(a);
    assert ElemsTags([a, b]) == ElemTags(a) + ElemTags(b);
    assert (ElemTags(a) + ElemTags(b)) + none == ElemTags(a) + ElemTags(b);
  }

  lemma PlainLocal(name: string)
    requires name != "" && ':' !in name
    ensures TagPrefix(name) == name + "_"
  {
    assert forall i | 0 <= i < |name| :: name[i] != ':';
    assert Split(name, ':') == [name];
  }

  lemma NamesOfTwo(origin: string, x: string, y: string, a: map<string, string>, b: map<string, string>)
    ensures PathName(Path(origin, [PathElem(x, a), PathElem(y, b)])) ==
      (if origin != "" then origin + ":" else "") + ((if x != "" then "/" + x else "") + if y != "" then "/" + y else "")
    ensures PathName(Path(origin, [PathElem(x, a)])) ==
      (if origin != "" then origin + ":" else "") + if x != "" then "/" + x else ""
  {
    var one, two := [PathElem(x, a)], [PathElem(x, a), PathElem(y, b)];
    assert two[..1] == one && one[..0] == [] && ElemsName([]) == "";
    var first := if x != "" then "/" + x else "";
    assert ElemsName(one) == "" + first && "" + first == first;
    assert ElemsName(two) == first + if y != "" then "/" + y else "";
  }

  /** The merge of an event's tags in an order that loses one of them. */
  ghost predicate Loses(prefix: Path, p: Path, order: seq<string>) {
    var path := EventPath(PathName(prefix), PathName(p));
    && IsOrder(order, PathTags(p, ""))
    && !NothingLost(path, PathTags(prefix, ""), PathTags(p, ""), MergeIn(path, PathTags(prefix, ""), PathTags(p, ""), order))
  }

  lemma LosesTaken(prefix: Path, p: Path, path: string, k: string, x: string, y: string, z: string)
    requires path == EventPath(PathName(prefix), PathName(p)) && x != y && y != z
    requires PathTags(prefix, "") == map[k := x] && PathTags(p, "") == map[k := y][Renamed(path, k) := z]
    ensures Loses(prefix, p, [Renamed(path, k), k])
  {
    hide PathTags, PathName, EventPath, MergeIn, NothingLost, IsOrder;
    TakenNameLost(path, k, x, y, z);
    assert map[k := x][k := y] == map[k := y];
  }

  /** An element without a name: its keys are tags as they are, "/" included. */
  lemma NamelessTagLost(prefix: Path, p: Path)
    requires prefix == Path("", [PathElem("", map["k" := "1"])])
    requires p == Path("", [PathElem("p", map[]), PathElem("", map["k" := "2", "/p_k" := "3"])])
    ensures Loses(prefix, p, ["/p_k", "k"])
  {
    hide PathTags, PathName, ElemTags, Loses;
    var own: Tags := map["k" := "2", "/p_k" := "3"];
    NamesOfTwo("", "", "", map["k" := "1"], map[]);
    NamesOfTwo("", "p", "", map[], own);
    assert PathName(prefix) == "" && PathName(p) == "/p";
    assert "/p"[1..] == "p" && TrimLeft("p") == "p" && TrimLeft("/p") == "p" && TrimRight("") == "";
    assert EventPath(PathName(prefix), PathName(p)) == "" + "/" + "p";
    ElemTagsOfOne("", "k", "1");
    ElemTagsOfOne("", "k", "2");
    AddKey(PathElem("", map["k" := "2"]), "/p_k", "3");
    NoKeys("p");
    TagsOfTwo(PathElem("", map["k" := "1"]), PathElem("", map[]), "");
    TagsOfTwo(PathElem("p", map[]), PathElem("", own), "");
    assert TagPrefix("") + "k" == "k" && TagPrefix("") + "/p_k" == "/p_k";
    assert map["k" := "2"]["/p_k" := "3"] == own;
    assert Renamed("/p", "k") == "/p_k";
    LosesTaken(prefix, p, "/p", "k", "1", "2", "3");
  }

  lemma OriginPath()
    ensures EventPath("a_b:/e", "/a/e") == "a_b:/e/a/e"
    ensures Renamed("a_b:/e/a/e", "e_k") == "a_" + "b:/e/a/e_e_k"
  {
    assert "/a/e"[1..] == "a/e" && TrimLeft("a/e") == "a/e" && TrimLeft("/a/e") == "a/e";
    var prefix := "a_b:/e";
    assert prefix[|prefix| - 1] == 'e' && TrimRight(prefix) == prefix;
    assert prefix + "/" + "a/e" == "a_b:/e/a/e";
    assert "a_b:/e/a/e" + "_" + "e_k" == "a_" + "b:/e/a/e_e_k";
  }

  lemma OriginNames(prefix: Path, p: Path, key: string)
    requires prefix == Path("a_b", [PathElem("e", map["k" := "1"])])
    requires p == Path("", [PathElem("a", map[key := "3"]), PathElem("e", map["k" := "2"])])
    ensures EventPath(PathName(prefix), PathName(p)) == "a_b:/e/a/e"
  {
    hide PathName, EventPath;
    NamesOfTwo("a_b", "e", "", map["k" := "1"], map[]);
    NamesOfTwo("", "a", "e", map[key := "3"], map["k" := "2"]);
    assert "a_b" + ":" + ("/" + "e") == "a_b:/e";
    assert "" + (("/" + "a") + ("/" + "e")) == "/a/e";
    OriginPath();
  }

  lemma OriginTags(prefix: Path, p: Path, key: string)
    requires prefix == Path("a_b", [PathElem("e", map["k" := "1"])])
    requires p == Path("", [PathElem("a", map[key := "3"]), PathElem("e", map["k" := "2"])])
    requires "a_" + key != "e_k"
    ensures PathTags(prefix, "") == map["e_k" := "1"]
    ensures PathTags(p, "") == map["e_k" := "2"]["a_" + key := "3"]
  {
    hide PathTags, ElemTags, TagPrefix;
    PlainLocal("a");
    PlainLocal("e");
    assert "a" + "_" == "a_" && "e" + "_" + "k" == "e_k";
    ElemTagsOfOne("e", "k", "1");
    ElemTagsOfOne("e", "k", "2");
    ElemTagsOfOne("a", key, "3");
    TagsOfTwo(prefix.elem[0], prefix.elem[0], "a_b");
    TagsOfTwo(p.elem[0], p.elem[1], "");
    var r := "a_" + key;
    assert map[r := "3"] + map["e_k" := "2"] == map["e_k" := "2"][r := "3"];
  }

  /** A prefix origin with "_": all names are as the parser gives them, and the key
      of a path tag takes the new name of another one. */
  lemma OriginTagLost(prefix: Path, p: Path)
    requires prefix == Path("a_b", [PathElem("e", map["k" := "1"])])
    requires p == Path("", [PathElem("a", map["b:/e/a/e_e_k" := "3"]), PathElem("e", map["k" := "2"])])
    ensures Named(prefix.elem) && Named(p.elem)
    ensures Loses(prefix, p, ["a_" + "b:/e/a/e_e_k", "e_k"])
  {
    hide PathTags, PathName, EventPath, Renamed, Loses;
    var r := "a_" + "b:/e/a/e_e_k";
    assert r[0] == 'a' && "e_k"[0] == 'e';
    OriginPath();
    OriginNames(prefix, p, "b:/e/a/e_e_k");
    OriginTags(prefix, p, "b:/e/a/e_e_k");
    LosesTaken(prefix, p, "a_b:/e/a/e", "e_k", "1", "2", "3");
  }
}
