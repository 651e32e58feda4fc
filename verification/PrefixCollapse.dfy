/** Collapsing module prefixes in a path (pkg/app/path.go): an element drops its
    prefix when it repeats the one before it. */
module PrefixCollapse {
  import opened Basics
  import opened PathSyntax
  import opened PathPrint
  import opened PathRoundTrip
  import opened PathPieces
  import opened Ordering
  import PathGrammar
  import PathParser

  /** Prefix and name of an element name: cut at the first ":". */
  function PrefixElem(pe: string): (string, string) {
    var i := IndexOf(pe, ':');
    if i == |pe| then ("", pe) else (pe[..i], pe[i + 1..])
  }

  /** The names after the loop of the source, started with `parent`. */
  function Collapse(names: seq<string>, parent: string): seq<string> {
    if names == [] then []
    else
      var (cur, name) := PrefixElem(names[0]);
      if parent == "" || parent != cur then [names[0]] + Collapse(names[1..], cur)
      else [name] + Collapse(names[1..], parent)
  }

  /** Prefix inheritance (RFC 7951, section 4): a bare name takes the last
      prefix seen. */
  function Inherit(names: seq<string>, last: string): seq<string> {
    if names == [] then []
    else
      var (cur, name) := PrefixElem(names[0]);
      if ':' in names[0] then [names[0]] + Inherit(names[1..], cur)
      else if last == "" then [names[0]] + Inherit(names[1..], last)
      else [last + ":" + name] + Inherit(names[1..], last)
  }

  /** prefix ":" name with exactly one colon and both parts non-empty. */
  predicate Prefixed(n: string) {
    var (prefix, name) := PrefixElem(n);
    prefix != "" && name != "" && ':' !in name
  }

  predicate AtMostOneColon(n: string) { ':' !in PrefixElem(n).1 }

  lemma PrefixElemJoin(n: string)
    ensures ':' in n ==> n == PrefixElem(n).0 + ":" + PrefixElem(n).1
    ensures ':' !in n ==> PrefixElem(n) == ("", n)
    ensures PrefixElem(n).0 != "" ==> ':' in n
    ensures ':' !in PrefixElem(n).0
  {
    var i := IndexOf(n, ':');
    if i == |n| {
      assert n[..i] == n;
    } else {
      assert n == n[..i] + ":" + n[i + 1..];
    }
  }

  /** Name by name: a name drops its prefix exactly when it is that of the name
      before. */
  lemma {:induction false} CollapseAt(names: seq<string>, parent: string, i: nat)
    requires i < |names|
    ensures var before := if i == 0 then parent else PrefixElem(names[i - 1]).0;
      && |Collapse(names, parent)| == |names|
      && Collapse(names, parent)[i] ==
           if before != "" && before == PrefixElem(names[i]).0 then PrefixElem(names[i]).1 else names[i]
  {
    var (cur, name) := PrefixElem(names[0]);
    if i == 0 {
      CollapseLength(names, parent);
    } else {
      CollapseAt(names[1..], cur, i - 1);
    }
  }

  lemma {:induction false} CollapseLength(names: seq<string>, parent: string)
    ensures |Collapse(names, parent)| == |names|
  {
    if names != [] {
      var (cur, name) := PrefixElem(names[0]);
      CollapseLength(names[1..], cur);
    }
  }

  /** Collapsing loses nothing: inheritance restores every name. */
  lemma {:induction false} CollapseLossless(names: seq<string>, parent: string)
    requires forall n | n in names :: Prefixed(n)
    ensures Inherit(Collapse(names, parent), parent) == names
  {
    if names != [] {
      var n, rest := names[0], names[1..];
      var (cur, name) := PrefixElem(n);
      assert names == [n] + rest;
      assert Prefixed(n);
      PrefixElemJoin(n);
      PrefixElemJoin(name);
      CollapseLossless(rest, cur);
      var out := Collapse(names, parent);
      assert out[1..] == Collapse(rest, cur);
      assert out[0] == if parent == "" || parent != cur then n else name;
    }
  }

  /** Collapsing twice is collapsing once, also when the second pass has lost
      sight of the parent (`seen` is "") because it met a bare name. */
  lemma {:induction false} CollapseIdempotent(names: seq<string>, parent: string, seen: string)
    requires forall n | n in names :: AtMostOneColon(n)
    requires seen == parent || seen == ""
    ensures Collapse(Collapse(names, parent), seen) == Collapse(names, parent)
  {
    if names != [] {
      var n, rest := names[0], names[1..];
      var (cur, name) := PrefixElem(n);
      var out := Collapse(names, parent);
      assert n in names;
      if parent == "" || parent != cur {
        CollapseIdempotent(rest, cur, cur);
        assert out[1..] == Collapse(rest, cur);
      } else {
        PrefixElemJoin(name);
        CollapseIdempotent(rest, parent, "");
        assert out[1..] == Collapse(rest, parent);
      }
    }
  }

  // ---------------------------------------------------------------------
  // On path text
  // ---------------------------------------------------------------------

  function Names(elems: seq<PathElem>): (names: seq<string>)
    ensures |names| == |elems|
    ensures forall i | 0 <= i < |elems| :: names[i] == elems[i].name
  {
    if elems == [] then [] else [elems[0].name] + Names(elems[1..])
  }

  /** The element and the parent prefix after one round of the loop. */
  function Next(pe: PathElem, parent: string): (PathElem, string) {
    var (cur, name) := PrefixElem(pe.name);
    if parent == "" || parent != cur then (pe, cur) else (PathElem(name, pe.key), parent)
  }

  function Renamed(elems: seq<PathElem>, parent: string): (r: seq<PathElem>)
    ensures |r| == |elems|
    ensures forall i | 0 <= i < |elems| :: r[i].key == elems[i].key
  {
    if elems == [] then []
    else
      var (pe, parent') := Next(elems[0], parent);
      [pe] + Renamed(elems[1..], parent')
  }

  lemma {:induction false} RenamedNames(elems: seq<PathElem>, parent: string)
    ensures Names(Renamed(elems, parent)) == Collapse(Names(elems), parent)
  {
    if elems != [] {
      var (cur, name) := PrefixElem(elems[0].name);
      var rest := elems[1..];
      RenamedNames(rest, cur);
      RenamedNames(rest, parent);
      assert Names(elems) == [elems[0].name] + Names(rest);
      assert Names(elems)[1..] == Names(rest);
      var r := Renamed(elems, parent);
      assert Names(r) == [r[0].name] + Names(r[1..]);
    }
  }

  /** The text the source returns; text it cannot parse comes back unchanged. */
  ghost function CollapseText(s: string): string {
    match Parse(s)
    case Err(_) => s
    case Ok(p) => "/" + Print(Path(p.origin, Renamed(p.elem, "")), false)
  }

  method CollapsePrefixes(p: string) returns (out: string)
    ensures out == CollapseText(p)
  {
    var parsed := PathParser.ParsePath(p);
    if parsed.Err? { return p; }
    var gp := parsed.value;
    var elems := RenameLoop(gp.elem);
    var text := PathParser.GnmiPathToXPath(Path(gp.origin, elems), false);
    out := "/" + text;
  }

  method RenameLoop(pes: seq<PathElem>) returns (elems: seq<PathElem>)
    ensures elems == Renamed(pes, "")
  {
    elems := pes;
    var parentPrefix := "";
    ghost var goal := Renamed(pes, "");
    assert pes[0..] == pes && goal[0..] == goal;
    for i := 0 to |elems|
      invariant |elems| == |pes|
      invariant forall j | 0 <= j < |pes| :: elems[j] == if j < i then goal[j] else pes[j]
      invariant Renamed(pes[i..], parentPrefix) == goal[i..]
    {
      var (currentPrefix, name) := PrefixElem(elems[i].name);
      RenameStep(pes, i, parentPrefix);
      assert goal[i..][1..] == goal[i + 1..];
      if parentPrefix == "" || parentPrefix != currentPrefix {
        parentPrefix := currentPrefix;
      } else if currentPrefix == parentPrefix {
        elems := elems[i := PathElem(name, elems[i].key)];
      }
    }
  }

  lemma RenameStep(pes: seq<PathElem>, i: nat, parent: string)
    requires i < |pes|
    ensures var (pe, parent') := Next(pes[i], parent);
      && Renamed(pes[i..], parent)[0] == pe
      && Renamed(pes[i..], parent)[1..] == Renamed(pes[i + 1..], parent')
  {
    assert pes[i..][0] == pes[i] && pes[i..][1..] == pes[i + 1..];
  }

  lemma NamePartSound(n: string, hasKeys: bool)
    requires GoodName(n, hasKeys) && ':' in n
    ensures PrefixElem(n).1 == "" || GoodName(PrefixElem(n).1, hasKeys)
  {
    var (prefix, name) := PrefixElem(n);
    PrefixElemJoin(n);
    PathGrammar.EscapedAppend(prefix + ":", name, '/');
    assert n == (prefix + ":") + name;
  }

  /** What the loop leaves of sound elements. */
  lemma {:induction false} RenamedSound(elems: seq<PathElem>, parent: string)
    requires forall pe | pe in elems :: SoundElem(pe)
    ensures forall pe | pe in Renamed(elems, parent) :: pe.name == "" || SoundElem(pe)
    ensures forall pe | pe in Renamed(elems, parent) :: forall k | k in pe.key :: SoundKey(k, pe.key[k])
  {
    if elems != [] {
      var pe := elems[0];
      assert SoundElem(pe);
      var (cur, name) := PrefixElem(pe.name);
      PrefixElemJoin(pe.name);
      if ':' in pe.name { NamePartSound(pe.name, pe.key != map[]); }
      var (next, parent') := Next(pe, parent);
      assert next.name == "" || SoundElem(next);
      RenamedSound(elems[1..], parent');
    }
  }

  lemma RenamedLoose(s: string, p: Path)
    requires Parse(s) == Ok(p) && PlainKeys(p)
    ensures forall pe | pe in Renamed(p.elem, "") :: Loose(pe)
  {
    ParseSound(s, p);
    RenamedSound(p.elem, "");
    var r := Renamed(p.elem, "");
    forall pe | pe in r ensures Loose(pe) {
      var i :| 0 <= i < |r| && r[i] == pe;
      assert p.elem[i] in p.elem;
    }
  }

  lemma RenamedIdempotent(elems: seq<PathElem>, parent: string, seen: string)
    requires forall pe | pe in elems :: AtMostOneColon(pe.name)
    requires seen == parent || seen == ""
    ensures Renamed(Renamed(elems, parent), seen) == Renamed(elems, parent)
  {
    var once := Renamed(elems, parent);
    RenamedNames(elems, parent);
    RenamedNames(once, seen);
    assert forall n | n in Names(elems) :: AtMostOneColon(n);
    CollapseIdempotent(Names(elems), parent, seen);
    var twice := Renamed(once, seen);
    assert Names(twice) == Names(once);
    forall i | 0 <= i < |once| ensures twice[i] == once[i] {
      assert Names(twice)[i] == Names(once)[i];
    }
  }

  // ---------------------------------------------------------------------
  // Reading the collapsed text
  // ---------------------------------------------------------------------

  /** What the collapsed text has of the origin, behind the "/" it starts with. */
  function OriginText(origin: string): string { if origin == "" then "" else "/" + origin + ":" }

  /** The origin can be read back, as one element or, with NUL in it, several. */
  predicate Readable(origin: string) { origin == "" || Parse("/" + origin + ":").Ok? }

  ghost function OriginElems(origin: string): seq<PathElem>
    requires Readable(origin)
  {
    if origin == "" then [] else Parse("/" + origin + ":").value.elem
  }

  /** The origin read back as an element. */
  function Lead(origin: string): seq<PathElem> {
    if origin == "" then [] else [PathElem(origin + ":", map[])]
  }

  lemma CollapsedText(s: string, p: Path)
    requires Parse(s) == Ok(p)
    ensures CollapseText(s) == OriginText(p.origin) + "/" + Join(Renamed(p.elem, ""), false, false)
  {
    hide Join, Renamed, Parse;
    var text := Join(Renamed(p.elem, ""), false, false);
    if p.origin == "" {
      assert "/" + ("" + text) == "" + "/" + text;
    } else {
      assert "/" + (p.origin + ":/" + text) == "/" + p.origin + ":" + "/" + text;
    }
  }

  /** Reading the collapsed text: it fails exactly when the origin cannot be read
      or keys have lost their name, and skips elements of which nothing is left. */
  lemma CollapsedRead(s: string, p: Path)
    requires Parse(s) == Ok(p) && PlainKeys(p)
    ensures var t, r := CollapseText(s), Renamed(p.elem, "");
      && t != "" && t[0] == '/'
      && (Parse(t).Ok? <==> Readable(p.origin) && forall pe | pe in r :: !Nameless(pe))
      && (Parse(t).Ok? ==> Parse(t).value == Path("", OriginElems(p.origin) + Visible(r)))
  {
    hide Parse, Renamed, Cook, Outcome, Join, Visible, Nameless, Loose;
    var t, r, x := CollapseText(s), Renamed(p.elem, ""), OriginText(p.origin);
    RenamedLoose(s, p);
    CollapsedText(s, p);
    ThenJoin(x, r);
    assert t[0] == '/';
    AbsoluteOutcome(t);
    NoPiece();
    if p.origin != "" { AbsoluteOutcome(x); }
  }

  /** An origin without NUL is read back as one element, if at all. */
  lemma OriginAlone(origin: string)
    requires Readable(origin) && ':' !in origin && '/' !in origin && NUL !in origin
    ensures OriginElems(origin) == Lead(origin)
  {
    if origin != "" {
      var name := origin + ":";
      assert "/" + origin + ":" == "/" + name;
      AbsoluteOutcome("/" + name);
      NameAlone(name);
    }
  }

  lemma {:induction false} AllVisible(elems: seq<PathElem>)
    requires forall pe | pe in elems :: pe.name != ""
    ensures Visible(elems) == elems
  {
    if elems != [] {
      assert elems == [elems[0]] + elems[1..];
      AllVisible(elems[1..]);
    }
  }
}
