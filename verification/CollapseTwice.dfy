/** A path whose prefixes have been collapsed: exactly when it is read back with
    nothing lost, and exactly when collapsing it again changes nothing. */
module CollapseTwice {
  import opened Basics
  import opened PathSyntax
  import opened PathPrint
  import opened PathRoundTrip
  import opened PathPieces
  import opened PrefixCollapse
  import opened Ordering
  import PathGrammar

  /** No two neighbours have the same non-empty prefix. */
  predicate NeighboursDiffer(names: seq<string>) {
    forall i | 0 < i < |names| ::
      PrefixElem(names[i - 1]).0 == "" || PrefixElem(names[i - 1]).0 != PrefixElem(names[i]).0
  }

  // ---------------------------------------------------------------------
  // One pass over elements
  // ---------------------------------------------------------------------

  lemma NextWeight(pe: PathElem, parent: string)
    ensures var (next, parent') := Next(pe, parent);
      if parent == "" || parent != PrefixElem(pe.name).0 then next == pe && parent' == PrefixElem(pe.name).0
      else next != pe && |ElemText(next, false, false)| < |ElemText(pe, false, false)|
  {
    PrefixElemJoin(pe.name);
  }

  lemma DifferFirst(name: string, rest: seq<string>)
    ensures NeighboursDiffer([name] + rest) <==>
      rest == [] || ((PrefixElem(name).0 == "" || PrefixElem(name).0 != PrefixElem(rest[0]).0) && NeighboursDiffer(rest))
  {
    hide PrefixElem;
    var all := [name] + rest;
    assert forall i | 0 < i < |rest| :: all[i] == rest[i - 1] && all[i + 1] == rest[i];
    if rest != [] {
      assert all[0] == name && all[1] == rest[0];
    }
    if NeighboursDiffer(all) {
      forall i | 0 < i < |rest|
        ensures PrefixElem(rest[i - 1]).0 == "" || PrefixElem(rest[i - 1]).0 != PrefixElem(rest[i]).0
      {
        assert PrefixElem(all[i + 1 - 1]).0 == "" || PrefixElem(all[i + 1 - 1]).0 != PrefixElem(all[i + 1]).0;
      }
    }
  }

  /** A pass that changes anything makes the text shorter, and it changes nothing
      exactly when no prefix repeats the one before it. */
  lemma {:induction false} RenamedWeight(elems: seq<PathElem>, parent: string)
    ensures Renamed(elems, parent) != elems ==> Weight(Renamed(elems, parent)) < Weight(elems)
    ensures Renamed(elems, parent) == elems <==>
      elems == [] || ((parent == "" || parent != PrefixElem(elems[0].name).0) && NeighboursDiffer(Names(elems)))
  {
    if elems != [] {
      var pe, rest := elems[0], elems[1..];
      var (next, parent') := Next(pe, parent);
      var r := Renamed(rest, parent');
      NextWeight(pe, parent);
      RenamedWeight(rest, parent');
      DifferFirst(pe.name, Names(rest));
      hide PrefixElem, ElemText, NeighboursDiffer, Next;
      assert elems == [pe] + rest && Renamed(elems, parent) == [next] + r;
      assert Names(elems) == [pe.name] + Names(rest);
      WeightFirst(pe, rest);
      WeightFirst(next, r);
      assert next == pe && r == rest ==> [next] + r == elems;
      assert [next] + r == elems ==> next == pe && r == rest by {
        if [next] + r == elems { assert ([next] + r)[0] == next && ([next] + r)[1..] == r; }
      }
    }
  }

  lemma WeightFirst(pe: PathElem, rest: seq<PathElem>)
    ensures Weight([pe] + rest) == |ElemText(pe, false, false)| + 1 + Weight(rest)
  {
    hide ElemText;
    assert ([pe] + rest)[1..] == rest;
  }

  // ---------------------------------------------------------------------
  // Text that collapsing leaves alone
  // ---------------------------------------------------------------------

  /** The text is what printing the elements gives, and no prefix repeats. */
  ghost predicate Canonical(t: string, elems: seq<PathElem>) {
    t == "/" + Join(elems, false, false) && NeighboursDiffer(Names(elems))
  }

  /** Collapsing leaves an absolute path alone exactly when it cannot be parsed or
      is canonical for what it is parsed to. */
  lemma FixedIff(t: string)
    requires t != "" && t[0] == '/'
    ensures CollapseText(t) == t <==> Parse(t).Err? || Canonical(t, Parse(t).value.elem)
  {
    hide Parse, Join, Names, NeighboursDiffer, CollapseText, Renamed, Weight;
    if Parse(t).Ok? {
      var elems := Parse(t).value.elem;
      AbsoluteOutcome(t);
      assert Parse(t) == Ok(Path("", elems));
      CollapsedText(t, Path("", elems));
      PrintShrinks(t, elems);
      RenamedWeight(elems, "");
      var r := Renamed(elems, "");
      assert "" + "/" + Join(r, false, false) == "/" + Join(r, false, false);
      assert elems == [] ==> NeighboursDiffer(Names(elems)) by { NoNames(); }
      if r != elems {
        JoinWeight(r);
      }
    } else {
      Unparsed(t);
    }
  }

  lemma NoNames()
    ensures NeighboursDiffer(Names([]))
  {
  }

  lemma Unparsed(t: string)
    requires Parse(t).Err?
    ensures CollapseText(t) == t
  {
    hide Parse;
  }

  /** For every string at all: collapsing it twice is collapsing it once exactly
      when the collapsed text cannot be parsed or is canonical. */
  lemma CollapsedTwiceIff(s: string)
    ensures var t := CollapseText(s);
      CollapseText(t) == t <==> Parse(t).Err? || Canonical(t, Parse(t).value.elem)
  {
    hide Parse, CollapseText, Canonical;
    if Parse(s).Ok? {
      CollapsedText(s, Parse(s).value);
      FixedIff(CollapseText(s));
    } else {
      Unparsed(s);
    }
  }

  // ---------------------------------------------------------------------
  // In terms of the path
  // ---------------------------------------------------------------------

  /** The elements after one pass, behind the origin that is read as one. */
  function Once(p: Path): seq<PathElem> { Lead(p.origin) + Renamed(p.elem, "") }

  /** An element with keys has lost its whole name, or the origin cannot be read:
      the collapsed text is malformed and comes back as it is. */
  ghost predicate OnceMalformed(p: Path) {
    !Readable(p.origin) || exists pe :: pe in Renamed(p.elem, "") && Nameless(pe)
  }

  /** Nothing is lost in the collapsed text and no prefix is left to drop. */
  ghost predicate OnceFinished(p: Path) {
    && NUL !in p.origin && (p.origin != "" ==> p.elem != [])
    && (forall pe | pe in Renamed(p.elem, "") :: pe.name != "")
    && NeighboursDiffer(Names(Once(p)))
  }

  lemma OriginInText(origin: string, y: string)
    requires NUL in origin
    ensures NUL in OriginText(origin) + y
  {
    var i :| 0 <= i < |origin| && origin[i] == NUL;
    assert ("/" + origin + ":" + y)[i + 1] == NUL;
  }

  lemma LeadWeight(origin: string)
    ensures Weight(Lead(origin)) == |OriginText(origin)|
  {
    if origin != "" {
      BareText(origin + ":");
      assert Lead(origin)[1..] == [];
    }
  }

  lemma {:induction false} WeightAppend(a: seq<PathElem>, b: seq<PathElem>)
    ensures Weight(a + b) == Weight(a) + Weight(b)
  {
    hide Weight, ElemText;
    if a == [] {
      NoWeight();
      assert a + b == b;
    } else {
      WeightAppend(a[1..], b);
      WeightFirst(a[0], a[1..]);
      WeightFirst(a[0], a[1..] + b);
      assert a == [a[0]] + a[1..] && a + b == [a[0]] + (a[1..] + b);
    }
  }

  lemma TextWeight(s: string, p: Path)
    requires Parse(s) == Ok(p)
    ensures |CollapseText(s)| == Weight(Once(p)) + if p.elem == [] then 1 else 0
  {
    var r := Renamed(p.elem, "");
    assert |r| == |p.elem|;
    hide Parse, CollapseText, Join, Renamed, OriginText, Lead, Weight;
    CollapsedText(s, p);
    LeadWeight(p.origin);
    WeightAppend(Lead(p.origin), r);
    if r == [] {
      JoinNone();
      NoWeight();
    } else {
      JoinWeight(r);
    }
  }

  lemma NoWeight()
    ensures Weight([]) == 0
  {
  }

  /** The first element keeps its name. */
  lemma FirstKept(s: string, p: Path)
    requires Parse(s) == Ok(p)
    ensures p.elem != [] ==> Renamed(p.elem, "") != [] && Visible(Renamed(p.elem, "")) != []
    ensures p.elem == [] ==> Renamed(p.elem, "") == []
  {
    ParseSound(s, p);
    if p.elem != [] {
      assert SoundElem(p.elem[0]);
      assert Renamed(p.elem, "")[0] == p.elem[0];
    }
  }

  lemma {:induction false} VisibleWeight(r: seq<PathElem>)
    requires forall pe | pe in r :: !Nameless(pe)
    ensures Weight(Visible(r)) <= Weight(r)
    ensures (exists pe :: pe in r && pe.name == "") ==> Weight(Visible(r)) < Weight(r)
  {
    if r != [] {
      var pe, rest := r[0], r[1..];
      assert r == [pe] + rest && pe in r;
      VisibleWeight(rest);
      VisibleFirst(pe, rest);
      WeightFirst(pe, rest);
      WeightFirst(pe, Visible(rest));
      if pe.name == "" {
        assert [] + Visible(rest) == Visible(rest);
      }
    }
  }

  /** The text is the printed elements, unless an origin stands alone. */
  lemma OnceText(s: string, p: Path)
    requires Parse(s) == Ok(p)
    ensures CollapseText(s) == "/" + Join(Once(p), false, false) <==> (p.origin != "" ==> p.elem != [])
  {
    var r := Renamed(p.elem, "");
    assert |r| == |p.elem|;
    hide Parse, CollapseText, Renamed, Weight, Join, ElemText;
    CollapsedText(s, p);
    var y := Join(r, false, false);
    if p.origin == "" {
      assert [] + r == r && "" + "/" + y == "/" + y;
    } else if p.elem == [] {
      TextWeight(s, p);
      JoinWeight(Once(p));
    } else {
      BareText(p.origin + ":");
      JoinFirst(Lead(p.origin)[0], r);
      Regroup(p.origin, y);
    }
  }

  lemma Regroup(origin: string, y: string)
    ensures "/" + origin + ":" + "/" + y == "/" + (origin + ":" + ("/" + y))
  {
  }

  /** For a path whose keys hold no bracket, whatever its names and its origin. */
  lemma PlainTwiceOnce(s: string, p: Path)
    requires Parse(s) == Ok(p) && PlainKeys(p)
    ensures CollapseText(CollapseText(s)) == CollapseText(s) <==> OnceMalformed(p) || OnceFinished(p)
  {
    hide Parse, CollapseText, Join, Renamed, NeighboursDiffer, Names, Visible, Weight, OriginElems;
    var t, r := CollapseText(s), Renamed(p.elem, "");
    CollapsedRead(s, p);
    FixedIff(t);
    if Parse(t).Ok? {
      var elems := OriginElems(p.origin) + Visible(r);
      CollapsedText(s, p);
      ParseSound(s, p);
      if NUL in p.origin {
        assert NUL in t by { OriginInText(p.origin, "/" + Join(r, false, false)); }
        ParseSound(t, Path("", elems));
        JoinNoNul(elems);
        assert t != "/" + Join(elems, false, false);
      } else {
        OriginAlone(p.origin);
        TextWeight(s, p);
        FirstKept(s, p);
        if exists pe :: pe in r && pe.name == "" {
          VisibleWeight(r);
          WeightAppend(Lead(p.origin), Visible(r));
          WeightAppend(Lead(p.origin), r);
          JoinWeight(elems);
        } else {
          AllVisible(r);
          assert elems == Once(p);
          OnceText(s, p);
        }
      }
    }
  }

  // ---------------------------------------------------------------------
  // In terms of the names the path had
  // ---------------------------------------------------------------------

  /** The element drops its prefix, which is that of the one before. */
  predicate Drops(name: string, parent: string) { parent != "" && parent == PrefixElem(name).0 }

  /** No name is dropped as a whole. */
  predicate NamesLeft(names: seq<string>, parent: string) {
    names == [] ||
    var (cur, name) := PrefixElem(names[0]);
    (Drops(names[0], parent) ==> name != "") && NamesLeft(names[1..], cur)
  }

  /** Some element with keys drops its whole name. */
  predicate KeysLeft(elems: seq<PathElem>, parent: string) {
    elems != [] &&
    var (cur, name) := PrefixElem(elems[0].name);
    (Drops(elems[0].name, parent) && name == "" && elems[0].key != map[]) || KeysLeft(elems[1..], cur)
  }

  /** No name, as it is after the first pass, has the non-empty prefix of the one
      before, which is `seen` for the first; `parent` is the prefix the one before
      had in the path. */
  predicate PrefixesDiffer(names: seq<string>, parent: string, seen: string) {
    names == [] ||
    var (cur, name) := PrefixElem(names[0]);
    var left := PrefixElem(if Drops(names[0], parent) then name else names[0]).0;
    (seen == "" || seen != left) && PrefixesDiffer(names[1..], cur, left)
  }

  lemma NextDrops(pe: PathElem, parent: string)
    ensures var (cur, name) := PrefixElem(pe.name);
      Next(pe, parent) == (if Drops(pe.name, parent) then (PathElem(name, pe.key), cur) else (pe, cur))
  {
  }

  lemma {:induction false} NamesLeftIff(elems: seq<PathElem>, parent: string)
    requires forall pe | pe in elems :: pe.name != ""
    ensures NamesLeft(Names(elems), parent) <==> forall pe | pe in Renamed(elems, parent) :: pe.name != ""
  {
    if elems != [] {
      var pe, rest := elems[0], elems[1..];
      assert pe in elems && Names(elems)[1..] == Names(rest);
      NextDrops(pe, parent);
      var (next, cur) := Next(pe, parent);
      NamesLeftIff(rest, cur);
      hide PrefixElem, Next;
      assert Renamed(elems, parent) == [next] + Renamed(rest, cur);
    }
  }

  lemma {:induction false} KeysLeftIff(elems: seq<PathElem>, parent: string)
    requires forall pe | pe in elems :: pe.name != ""
    ensures KeysLeft(elems, parent) <==> exists pe :: pe in Renamed(elems, parent) && Nameless(pe)
  {
    if elems != [] {
      var pe, rest := elems[0], elems[1..];
      assert pe in elems;
      NextDrops(pe, parent);
      var (next, cur) := Next(pe, parent);
      KeysLeftIff(rest, cur);
      assert KeysLeft(elems, parent) <==> Nameless(next) || KeysLeft(rest, cur);
      assert Renamed(elems, parent) == [next] + Renamed(rest, cur);
      hide *;
      NamelessFirst(next, Renamed(rest, cur));
    }
  }

  lemma NamelessFirst(pe: PathElem, rest: seq<PathElem>)
    ensures (exists x :: x in [pe] + rest && Nameless(x)) <==> Nameless(pe) || exists x :: x in rest && Nameless(x)
  {
    hide Nameless;
    assert forall x :: x in [pe] + rest <==> x == pe || x in rest;
  }

  lemma {:induction false} PrefixesDifferIff(elems: seq<PathElem>, parent: string, seen: string)
    ensures PrefixesDiffer(Names(elems), parent, seen) <==>
      var names := Names(Renamed(elems, parent));
      names == [] || ((seen == "" || seen != PrefixElem(names[0]).0) && NeighboursDiffer(names))
  {
    if elems != [] {
      var pe, rest := elems[0], elems[1..];
      assert Names(elems)[1..] == Names(rest);
      NextDrops(pe, parent);
      var (next, cur) := Next(pe, parent);
      var left := PrefixElem(next.name).0;
      PrefixesDifferIff(rest, cur, left);
      DifferFirst(next.name, Names(Renamed(rest, cur)));
      assert Names(Renamed(elems, parent)) == [next.name] + Names(Renamed(rest, cur)) by {
        assert Renamed(elems, parent)[1..] == Renamed(rest, cur);
      }
      hide PrefixElem, Next, NeighboursDiffer, Renamed;
    }
  }

  /** An element with keys loses its whole name, or the origin cannot be read: the
      collapsed text is malformed and comes back as it is. */
  predicate Malformed(p: Path) { !Readable(p.origin) || KeysLeft(p.elem, "") }

  /** No name is lost, and none has a prefix left that a second pass would drop;
      the origin counts as the prefix before the first. */
  predicate Finished(p: Path) {
    && NUL !in p.origin && (p.origin != "" ==> p.elem != [])
    && NamesLeft(Names(p.elem), "") && PrefixesDiffer(Names(p.elem), "", p.origin)
  }

  lemma OnceNames(p: Path)
    ensures p.origin == "" ==> Names(Once(p)) == Names(Renamed(p.elem, ""))
    ensures p.origin != "" ==> Names(Once(p)) == [p.origin + ":"] + Names(Renamed(p.elem, ""))
  {
    hide Renamed;
    var r := Renamed(p.elem, "");
    if p.origin == "" { assert Once(p) == r; } else { assert Once(p)[1..] == r; }
  }

  lemma FinishedIff(s: string, p: Path)
    requires Parse(s) == Ok(p)
    ensures OnceMalformed(p) <==> Malformed(p)
    ensures OnceFinished(p) <==> Finished(p)
  {
    ParseSound(s, p);
    assert forall pe | pe in p.elem :: SoundElem(pe);
    var names := Names(Renamed(p.elem, ""));
    KeysLeftIff(p.elem, "");
    NamesLeftIff(p.elem, "");
    PrefixesDifferIff(p.elem, "", p.origin);
    OnceNames(p);
    NoNames();
    assert |names| == |p.elem|;
    hide Parse, PrefixElem, NeighboursDiffer, Renamed, KeysLeft, NamesLeft, PrefixesDiffer, Readable, Once;
    if p.origin != "" {
      OriginPrefix(p.origin);
      DifferFirst(p.origin + ":", names);
    }
  }

  /** For an accepted string whose keys hold no bracket, whatever its names and its
      origin. */
  lemma PlainTwiceIff(s: string, p: Path)
    requires Parse(s) == Ok(p) && PlainKeys(p)
    ensures CollapseText(CollapseText(s)) == CollapseText(s) <==> Malformed(p) || Finished(p)
  {
    hide *;
    PlainTwiceOnce(s, p);
    FinishedIff(s, p);
  }

  // ---------------------------------------------------------------------
  // Names with at most one ":"
  // ---------------------------------------------------------------------

  /** A bare name, or a prefix and a name, with no ":" in the non-empty name. */
  predicate Simple(n: string) {
    var (_, name) := PrefixElem(n);
    name != "" && ':' !in name
  }

  lemma {:induction false} SimpleKept(elems: seq<PathElem>, parent: string)
    requires forall pe | pe in elems :: Simple(pe.name) && pe.name != ""
    ensures forall pe | pe in Renamed(elems, parent) :: pe.name != ""
  {
    if elems != [] {
      var pe := elems[0];
      var (next, parent') := Next(pe, parent);
      assert pe in elems && elems == [pe] + elems[1..];
      SimpleKept(elems[1..], parent');
    }
  }

  lemma SimpleOnce(s: string, p: Path)
    requires Parse(s) == Ok(p) && forall pe | pe in p.elem :: Simple(pe.name)
    ensures forall pe | pe in Renamed(p.elem, "") :: pe.name != ""
    ensures NeighboursDiffer(Names(Renamed(p.elem, "")))
  {
    ParseSound(s, p);
    assert forall pe | pe in p.elem :: SoundElem(pe) && AtMostOneColon(pe.name);
    SimpleKept(p.elem, "");
    RenamedIdempotent(p.elem, "", "");
    RenamedWeight(Renamed(p.elem, ""), "");
    NoNames();
  }

  /** On a path without origin, with simple names and keys without brackets,
      collapsing again changes nothing. */
  lemma AbsoluteIdempotent(s: string, p: Path)
    requires Parse(s) == Ok(p) && p.origin == "" && PlainKeys(p)
    requires forall pe | pe in p.elem :: Simple(pe.name)
    ensures CollapseText(CollapseText(s)) == CollapseText(s)
  {
    SimpleOnce(s, p);
    PlainTwiceOnce(s, p);
    hide Parse, CollapseText, Renamed, NeighboursDiffer, Names;
    assert Once(p) == Renamed(p.elem, "");
  }

  /** On a path with an origin, which the leading "/" turns into an element, it
      changes nothing exactly when the origin cannot be read as one, or it is read
      as it is and there are elements of which the first has another prefix. */
  lemma OriginIdempotentIff(s: string, p: Path)
    requires Parse(s) == Ok(p) && p.origin != "" && PlainKeys(p)
    requires forall pe | pe in p.elem :: Simple(pe.name)
    ensures CollapseText(CollapseText(s)) == CollapseText(s) <==>
      !Readable(p.origin) || (NUL !in p.origin && p.elem != [] && PrefixElem(p.elem[0].name).0 != p.origin)
  {
    var r := Renamed(p.elem, "");
    SimpleOnce(s, p);
    PlainTwiceOnce(s, p);
    ParseSound(s, p);
    OriginPrefix(p.origin);
    assert p.elem != [] ==> r[0] == p.elem[0];
    hide Parse, CollapseText, Renamed, NeighboursDiffer, PrefixElem, Simple;
    assert Names(Once(p)) == [p.origin + ":"] + Names(r) by { assert Once(p)[1..] == r; }
    DifferFirst(p.origin + ":", Names(r));
  }

  lemma OriginPrefix(origin: string)
    requires ':' !in origin
    ensures PrefixElem(origin + ":").0 == origin
  {
    var name := origin + ":";
    PathGrammar.IndexOfAppend(origin, ':', "");
    assert name == origin + [':'] + "";
    assert name[..|origin|] == origin;
  }

  // ---------------------------------------------------------------------
  // Names prefix:name, which inheritance restores
  // ---------------------------------------------------------------------

  lemma SoundName(t: string, p: Path, origin: string)
    requires Parse(t) == Ok(p) && PathElem(origin + ":", map[]) in p.elem
    ensures NUL !in origin
  {
    ParseSound(t, p);
    assert SoundElem(PathElem(origin + ":", map[]));
    assert forall c | c in origin :: c in origin + ":";
  }

  lemma PlainOnce(p: Path)
    ensures PlainKeys(Path("", Once(p))) <==> PlainKeys(p)
  {
    var r := Renamed(p.elem, "");
    assert Once(p) == Lead(p.origin) + r;
    assert PlainMap(map[]);
    if PlainKeys(p) {
      forall pe | pe in r ensures PlainMap(pe.key) {
        var i :| 0 <= i < |r| && r[i] == pe;
        assert p.elem[i] in p.elem;
      }
    }
    if PlainKeys(Path("", Once(p))) {
      forall pe | pe in p.elem ensures PlainMap(pe.key) {
        var i :| 0 <= i < |r| && p.elem[i] == pe;
        assert r[i] in Once(p);
      }
    }
  }

  lemma ReadableRead(s: string, p: Path)
    requires Parse(s) == Ok(p) && forall pe | pe in Renamed(p.elem, "") :: pe.name != ""
    requires PlainKeys(p)
    ensures Parse(CollapseText(s)).Ok? <==> Readable(p.origin)
    ensures Readable(p.origin) && NUL !in p.origin ==> Parse(CollapseText(s)) == Ok(Path("", Once(p)))
  {
    ParseSound(s, p);
    hide Parse, CollapseText, Renamed, NeighboursDiffer, PrefixElem, Join, OriginElems, Once, SoundElem;
    CollapsedRead(s, p);
    AllVisible(Renamed(p.elem, ""));
    if NUL !in p.origin && Readable(p.origin) {
      OriginAlone(p.origin);
      OnceIs(p);
    }
  }

  lemma NamedOnce(t: string, p: Path)
    requires Parse(t) == Ok(Path("", Once(p)))
    ensures forall pe | pe in Renamed(p.elem, "") :: pe.name != ""
  {
    hide Parse, Renamed, Once;
    ParseSound(t, Path("", Once(p)));
    OnceIs(p);
    forall pe | pe in Renamed(p.elem, "") ensures pe.name != "" { assert pe in Once(p) && SoundElem(pe); }
  }

  lemma ReadOnce(s: string, p: Path)
    requires Parse(s) == Ok(p) && Parse(CollapseText(s)) == Ok(Path("", Once(p)))
    ensures PlainKeys(p) && NUL !in p.origin && forall pe | pe in Renamed(p.elem, "") :: pe.name != ""
  {
    hide Parse, CollapseText, Renamed, Join, Once, SoundPath;
    NamedOnce(CollapseText(s), p);
    OnceIs(p);
    if p.origin != "" { SoundName(CollapseText(s), Path("", Once(p)), p.origin); }
    if p.origin == "" || p.elem != [] {
      OnceText(s, p);
      assert "/" + ("" + Join(Once(p), false, false)) == "/" + Join(Once(p), false, false);
      PrintRoundTrip(Path("", Once(p)));
      PlainOnce(p);
    }
  }

  /** The collapsed text is read back as the collapsed elements, behind the origin
      as an element, exactly when keys hold no bracket, no name is dropped as a
      whole, and the origin is readable and without NUL. */
  lemma CollapsedParsesIff(s: string, p: Path)
    requires Parse(s) == Ok(p)
    ensures Parse(CollapseText(s)) == Ok(Path("", Once(p)))
       <==> PlainKeys(p) && NamesLeft(Names(p.elem), "") && Readable(p.origin) && NUL !in p.origin
  {
    ParseSound(s, p);
    assert forall pe | pe in p.elem :: SoundElem(pe);
    NamesLeftIff(p.elem, "");
    hide *;
    if Parse(CollapseText(s)) == Ok(Path("", Once(p))) {
      ReadOnce(s, p);
      if NamesLeft(Names(p.elem), "") { ReadableRead(s, p); }
    }
    if PlainKeys(p) && NamesLeft(Names(p.elem), "") { ReadableRead(s, p); }
  }

  lemma OnceIs(p: Path)
    ensures Once(p) == Lead(p.origin) + Renamed(p.elem, "")
    ensures p.origin != "" ==> PathElem(p.origin + ":", map[]) in Once(p)
  {
  }

  lemma InheritedNames(elems: seq<PathElem>)
    requires forall pe | pe in elems :: Prefixed(pe.name)
    ensures forall pe | pe in elems :: Simple(pe.name)
    ensures var r := Renamed(elems, "");
      && |r| == |elems| && Inherit(Names(r), "") == Names(elems)
      && forall i | 0 <= i < |r| :: r[i].key == elems[i].key
  {
    assert forall n | n in Names(elems) :: Prefixed(n);
    RenamedNames(elems, "");
    CollapseLossless(Names(elems), "");
  }

  /** Behind `lead`, inheritance gives the names of the goal, and keys are equal. */
  predicate Restores(elems: seq<PathElem>, lead: seq<PathElem>, goal: seq<PathElem>) {
    && |elems| == |lead| + |goal| && lead <= elems
    && Inherit(Names(elems[|lead|..]), "") == Names(goal)
    && forall i | 0 <= i < |goal| :: elems[|lead| + i].key == goal[i].key
  }

  lemma RestoresBehind(lead: seq<PathElem>, r: seq<PathElem>, goal: seq<PathElem>)
    requires |r| == |goal| && Inherit(Names(r), "") == Names(goal)
    requires forall i | 0 <= i < |r| :: r[i].key == goal[i].key
    ensures Restores(lead + r, lead, goal)
  {
    hide Inherit, Names;
    assert (lead + r)[|lead|..] == r;
  }

  /** Then inheritance gives back every name and all keys, behind the origin. */
  lemma CollapsedTextRestores(s: string, p: Path)
    requires Parse(s) == Ok(p) && PlainKeys(p) && Readable(p.origin) && NUL !in p.origin
    requires forall pe | pe in p.elem :: Prefixed(pe.name)
    ensures Parse(CollapseText(s)).Ok? && Restores(Parse(CollapseText(s)).value.elem, Lead(p.origin), p.elem)
  {
    var r, lead := Renamed(p.elem, ""), Lead(p.origin);
    InheritedNames(p.elem);
    hide *;
    SimpleOnce(s, p);
    ReadableRead(s, p);
    OnceIs(p);
    RestoresBehind(lead, r, p.elem);
  }

  // ---------------------------------------------------------------------
  // Inputs on which collapsing twice differs
  // ---------------------------------------------------------------------

  lemma {:induction false} NoBracketEscaped(t: string, prev: char)
    requires NoBracket(t)
    ensures Escaped(t, prev)
  {
    if t != "" {
      assert t == [t[0]] + t[1..] && t[0] in t;
      NoBracketEscaped(t[1..], t[0]);
    }
  }

  lemma PlainName(a: string, b: string)
    requires ':' !in a && NoBracket(a + ":" + b)
    requires '/' !in a + b && NUL !in a + b && '\\' !in a + b
    ensures PrefixElem(a + ":" + b) == (a, b)
    ensures forall hasKeys :: GoodName(a + ":" + b, hasKeys)
  {
    var n := a + ":" + b;
    NoBracketEscaped(n, '/');
    PathGrammar.IndexOfAppend(a, ':', b);
    assert n == a + [':'] + b && n[..|a|] == a && n[|a| + 1..] == b;
    forall c | c in n ensures c == ':' || c in a + b { }
    assert n[|n| - 1] in n;
  }

  lemma TwoNames(x: string, y: string)
    ensures Join([PathElem(x, map[]), PathElem(y, map[])], false, false) == x + ("/" + y)
  {
    BareText(x);
    BareText(y);
    JoinFirst(PathElem(x, map[]), [PathElem(y, map[])]);
    JoinFirst(PathElem(y, map[]), []);
    hide Join;
    assert [PathElem(y, map[])] + [] == [PathElem(y, map[])] && y + "" == y;
    assert [PathElem(x, map[])] + [PathElem(y, map[])] == [PathElem(x, map[]), PathElem(y, map[])];
  }

  lemma ColonNames()
    ensures PrefixElem("p:x") == ("p", "x") && PrefixElem("p:y") == ("p", "y") && PrefixElem("p:p:y") == ("p", "p:y")
    ensures GoodName("p:x", false) && GoodName("p:p:y", false)
  {
    hide PrefixElem, GoodName;
    PlainName("p", "x");
    PlainName("p", "y");
    PlainName("p", "p:y");
    assert "p" + ":" + "x" == "p:x" && "p" + ":" + "y" == "p:y" && "p" + ":" + "p:y" == "p:p:y";
  }

  lemma ColonsParse(p: Path)
    requires p == Path("", [PathElem("p:x", map[]), PathElem("p:p:y", map[])])
    ensures Parse("/p:x/p:p:y") == Ok(p) && PlainKeys(p)
  {
    hide GoodName, PrefixElem, Join, Parse;
    ColonNames();
    TwoNames("p:x", "p:p:y");
    assert SoundPath(p) && PlainKeys(p);
    PrintRoundTrip(p);
    assert Absolute(p, false) == "/p:x/p:p:y";
  }

  lemma ColonsUnfinished(p: Path)
    requires p == Path("", [PathElem("p:x", map[]), PathElem("p:p:y", map[])])
    ensures !OnceMalformed(p) && !OnceFinished(p)
  {
    hide GoodName, PrefixElem, Parse;
    ColonNames();
    TwoRenamed(p.elem);
    hide Renamed;
    var names := Names(Once(p));
    assert names[1 - 1] == "p:x" && names[1] == "p:y";
  }

  /** A name with two colons loses its second prefix in the second pass. */
  lemma ColonsNotIdempotent()
    ensures CollapseText(CollapseText("/p:x/p:p:y")) != CollapseText("/p:x/p:p:y")
  {
    hide *;
    var p := Path("", [PathElem("p:x", map[]), PathElem("p:p:y", map[])]);
    ColonsParse(p);
    ColonsUnfinished(p);
    PlainTwiceOnce("/p:x/p:p:y", p);
  }

  lemma TwoRenamed(elems: seq<PathElem>)
    requires elems == [PathElem("p:x", map[]), PathElem("p:p:y", map[])]
    requires PrefixElem("p:x") == ("p", "x") && PrefixElem("p:p:y") == ("p", "p:y")
    ensures Renamed(elems, "") == [PathElem("p:x", map[]), PathElem("p:y", map[])]
  {
    hide PrefixElem;
    assert elems[1..] == [PathElem("p:p:y", map[])];
    assert elems[1..][1..] == [];
    assert Renamed([], "p") == [];
  }

  /** A path of one name. */
  lemma NameParses(origin: string, name: string)
    requires GoodName(name, false) && ':' !in origin && '/' !in origin
    ensures Parse((if origin == "" then "/" else origin + ":/") + name) == Ok(Path(origin, [PathElem(name, map[])]))
  {
    hide GoodName, Join, Parse;
    var pe := PathElem(name, map[]);
    var p := Path(origin, [pe]);
    BareText(name);
    JoinFirst(pe, []);
    assert [pe] + [] == [pe] && name + "" == name;
    assert SoundPath(p) && PlainKeys(p);
    PrintRoundTrip(p);
    assert "/" + ("" + name) == "/" + name && "" + (origin + ":/" + name) == origin + ":/" + name;
  }

  lemma OriginParses(p: Path)
    requires p == Path("o", [PathElem("o:a", map[])])
    ensures Parse("o:/o:a") == Ok(p) && PlainKeys(p) && Simple("o:a") && PrefixElem("o:a").0 == "o"
    ensures Readable("o")
  {
    hide GoodName, Parse, PrefixElem;
    PlainName("o", "a");
    PlainName("o", "");
    assert "o" + ":" + "a" == "o:a" && "o" + ":" + "" == "o:";
    NameParses("o", "o:a");
    NameParses("", "o:");
    assert "o" + ":/" + "o:a" == "o:/o:a" && "/" + "o" + ":" == "/" + "o:";
  }

  /** The origin, read as an element, takes the prefix of the first one. */
  lemma OriginNotIdempotent()
    ensures CollapseText(CollapseText("o:/o:a")) != CollapseText("o:/o:a")
  {
    var p := Path("o", [PathElem("o:a", map[])]);
    OriginParses(p);
    hide Parse, CollapseText, PlainKeys, Simple, PrefixElem, Readable;
    assert forall pe | pe in p.elem :: pe == p.elem[0];
    OriginIdempotentIff("o:/o:a", p);
  }

  // An escaped bracket is printed as it is and read back as two keys, which are
  // then printed in another order.

  lemma KeyOrder()
    ensures SortedKeys({"b", "k"}) == ["b", "k"] && SortedKeys({"k"}) == ["k"]
  {
    assert "b"[0] == 'b' && "k"[0] == 'k';
    assert IsLeast("b", {"b", "k"});
    SortedKeysOf({"b", "k"}, "b");
    assert {"b", "k"} - {"b"} == {"k"};
    SortedKeysOf({"k"}, "k");
    assert {"k"} - {"k"} == {};
  }

  lemma OneKeyText(m: map<string, string>, k: string, esc: bool)
    requires k in m
    ensures KeysText([k], m, esc) == BracketText(KeyText(Written(esc, (k, m[k]))))
  {
    hide Written;
    var text := BracketText(KeyText(Written(esc, (k, m[k]))));
    assert [k][1..] == [] && KeysText([], m, esc) == "" && text + "" == text;
  }

  lemma OneKeyElem(m: map<string, string>)
    requires m == map["k" := "a][b=c"]
    ensures ElemText(PathElem("x:e", m), false, false) == "x:e" + ("[" + ("k" + "=" + "a][b=c") + "]")
    ensures ElemText(PathElem("x:e", m), false, true) == "x:e" + ("[" + ("k" + "=" + "a\\]\\[b=c") + "]")
  {
    KeyOrder();
    EscapedValue();
    OneKeyText(m, "k", false);
    OneKeyText(m, "k", true);
    hide SortedKeys, KeysText, Escape;
    assert m.Keys == {"k"};
  }

  lemma TwoKeysElem(m: map<string, string>)
    requires m == map["k" := "a", "b" := "c"]
    ensures ElemText(PathElem("x:e", m), false, false)
      == "x:e" + (("[" + ("b" + "=" + "c") + "]") + ("[" + ("k" + "=" + "a") + "]"))
  {
    KeyOrder();
    OneKeyText(m, "k", false);
    TwoKeysText(m);
    hide SortedKeys, KeysText;
    assert m.Keys == {"b", "k"};
  }

  lemma TwoKeysText(m: map<string, string>)
    requires "b" in m && "k" in m
    ensures KeysText(["b", "k"], m, false) == BracketText(KeyText(("b", m["b"]))) + KeysText(["k"], m, false)
  {
    assert ["b", "k"][1..] == ["k"];
  }

  lemma EscapedValue()
    ensures Escape("a][b=c") == "a\\]\\[b=c" && Escape("k") == "k"
  {
    assert "a][b=c"[1..] == "][b=c" && "][b=c"[1..] == "[b=c" && "[b=c"[1..] == "b=c";
    EscapePlain("b=c");
    EscapePlain("k");
    assert Escape("[b=c") == ['\\', '['] + "b=c";
    assert Escape("][b=c") == ['\\', ']'] + Escape("[b=c");
    assert Escape("a][b=c") == ['a'] + Escape("][b=c");
  }

  lemma BracketKeys()
    ensures SoundKey("k", "a][b=c") && GoodKey(("k", "a")) && GoodKey(("b", "c"))
    ensures PrefixElem("x:e") == ("x", "e") && forall hasKeys :: GoodName("x:e", hasKeys)
  {
    hide PrefixElem, GoodName;
    PlainName("x", "e");
    assert "x" + ":" + "e" == "x:e";
    NoBracketEscaped(KeyText(("k", "a")), '[');
    NoBracketEscaped(KeyText(("b", "c")), '[');
  }

  lemma BracketParse(m: map<string, string>, p: Path)
    requires m == map["k" := "a][b=c"] && p == Path("", [PathElem("x:e", m)])
    ensures Parse("/x:e[k=a\\]\\[b=c]") == Ok(p)
  {
    hide Parse, Join, ElemText, GoodName, SoundKey, PrefixElem, Escape;
    BracketKeys();
    assert SoundPath(p);
    EscapedRoundTrip(p);
    OneKeyElem(m);
    JoinAlone(p.elem[0], true);
    assert Absolute(p, true) == "/x:e[k=a\\]\\[b=c]";
  }

  lemma BracketRead(m: map<string, string>, p: Path)
    requires m == map["k" := "a][b=c"] && p == Path("", [PathElem("x:e", m)])
    ensures CollapseText("/x:e[k=a\\]\\[b=c]") == "/x:e[k=a][b=c]"
  {
    hide Parse, Join, ElemText, PrefixElem, CollapseText;
    assert p.elem[1..] == [];
    assert Renamed(p.elem, "") == p.elem;
    hide Renamed;
    BracketParse(m, p);
    OneKeyElem(m);
    JoinAlone(p.elem[0], false);
    CollapsedText("/x:e[k=a\\]\\[b=c]", p);
  }

  lemma JoinAlone(pe: PathElem, esc: bool)
    ensures Join([pe], false, esc) == ElemText(pe, false, esc)
  {
  }

  lemma ElemRead(e: RawElem)
    requires GoodElem(e)
    ensures Parse("/" + RenderElem(e)) == Ok(Path("", [ElemMeaning(e)]))
  {
    var text := RenderElem(e);
    PathGrammar.CookElem(e, '/');
    PathGrammar.RenderKeysNoNul(e.keys);
    PathGrammar.ParseElemRender(e);
    assert NUL !in text && text != "";
    hide Cook, Parse, ParseElem, RenderElem, ElemMeaning, Outcome, GoodElem;
    OnePiece(text, '/');
    NoPiece();
    SlashBetween("", text, NUL);
    assert "" + "/" + text == "/" + text && [] + [ElemMeaning(e)] == [ElemMeaning(e)];
    AbsoluteOutcome("/" + text);
  }

  lemma BracketReadBack(m: map<string, string>)
    requires m == map["k" := "a", "b" := "c"]
    ensures Parse("/x:e[k=a][b=c]") == Ok(Path("", [PathElem("x:e", m)]))
  {
    hide GoodKey, GoodName, PrefixElem, Parse, KeyMap, RenderElem;
    var e := RawElem("x:e", [("k", "a"), ("b", "c")]);
    BracketKeys();
    assert GoodElem(e);
    ElemRead(e);
    TwoRaw();
    assert "/" + "x:e[k=a][b=c]" == "/x:e[k=a][b=c]";
  }

  lemma TwoRaw()
    ensures RenderElem(RawElem("x:e", [("k", "a"), ("b", "c")])) == "x:e[k=a][b=c]"
    ensures KeyMap([("k", "a"), ("b", "c")], map[]) == map["k" := "a", "b" := "c"]
  {
    var keys := [("k", "a"), ("b", "c")];
    assert keys[1..] == [("b", "c")] && keys[1..][1..] == [];
    assert RenderKeys([]) == "" && RenderKeys(keys[1..]) == "[" + ("b" + "=" + "c") + "]" + "";
    assert RenderKeys(keys) == "[" + ("k" + "=" + "a") + "]" + RenderKeys(keys[1..]);
    assert "k"[1..] == "" && "a"[1..] == "" && "b"[1..] == "" && "c"[1..] == "";
    assert Unescape("") == "" && Unescape("k") == "k" && Unescape("a") == "a" && Unescape("b") == "b" && Unescape("c") == "c";
    var none: map<string, string> := map[];
    assert KeyMap(keys, none) == KeyMap(keys[1..], none["k" := "a"]);
    assert KeyMap(keys[1..], none["k" := "a"]) == KeyMap([], none["k" := "a"]["b" := "c"]);
  }

  /** An escaped bracket in a key value is printed as it is. The text is read back
      with two keys, and printed with these in order. */
  lemma BracketsNotIdempotent()
    ensures CollapseText(CollapseText("/x:e[k=a\\]\\[b=c]")) != CollapseText("/x:e[k=a\\]\\[b=c]")
  {
    var one, two := map["k" := "a][b=c"], map["k" := "a", "b" := "c"];
    var pe := PathElem("x:e", two);
    hide Parse, CollapseText, Renamed, KeyMap, ElemText, Join;
    BracketRead(one, Path("", [PathElem("x:e", one)]));
    BracketReadBack(two);
    FixedIff("/x:e[k=a][b=c]");
    TwoKeysElem(two);
    JoinAlone(pe, false);
    var printed := "/" + ("x:e" + (("[" + ("b" + "=" + "c") + "]") + ("[" + ("k" + "=" + "a") + "]")));
    assert printed[5] == 'b' && "/x:e[k=a][b=c]"[5] == 'k';
  }
}
