/** Parsing text that is put together from pieces: what a body means, or which
    part of it makes it fail, in terms of its parts. */
module PathPieces {
  import opened Basics
  import opened PathSyntax
  import opened PathGrammar
  import opened PathPrint
  import opened PathRoundTrip
  import opened Ordering

  // ---------------------------------------------------------------------
  // Two bodies with a "/" between them
  // ---------------------------------------------------------------------

  function Elems(r: Result<seq<PathElem>>): Option<seq<PathElem>> {
    if r.Ok? then Some(r.value) else None
  }

  /** The elements of a body after the first pass; None for any error. */
  ghost function Outcome(c: Cooked): Option<seq<PathElem>> {
    match c
    case Bad => None
    case Good(text, inKey) => if inKey then None else Elems(ParsePieces(Split(text, NUL)))
  }

  ghost function Both(a: Option<seq<PathElem>>, b: Option<seq<PathElem>>): Option<seq<PathElem>> {
    if a.Some? && b.Some? then Some(a.value + b.value) else None
  }

  lemma SplitFirst(a: string, b: string, sep: char)
    requires sep !in a
    ensures Split(a + [sep] + b, sep) == [a] + Split(b, sep)
  {
    hide IndexOf;
    IndexOfAppend(a, sep, b);
    var s := a + [sep] + b;
    assert s[..|a|] == a && s[|a| + 1..] == b;
  }

  lemma SplitParts(a: string, sep: char) returns (i: nat)
    ensures i <= |a| && sep !in a[..i]
    ensures i == |a| ==> a[..i] == a && Split(a, sep) == [a]
    ensures i < |a| ==> a == a[..i] + [sep] + a[i + 1..] && Split(a, sep) == [a[..i]] + Split(a[i + 1..], sep)
  {
    i := IndexOf(a, sep);
  }

  lemma {:induction false} SplitAppend(a: string, b: string, sep: char)
    ensures Split(a + [sep] + b, sep) == Split(a, sep) + Split(b, sep)
    decreases |a|
  {
    hide Split, IndexOf;
    var i := SplitParts(a, sep);
    if i == |a| {
      SplitFirst(a, b, sep);
    } else {
      var first, tail := a[..i], a[i + 1..];
      SplitFirst(first, tail + [sep] + b, sep);
      assert a + [sep] + b == first + [sep] + (tail + [sep] + b);
      SplitAppend(tail, b, sep);
      assert [first] + (Split(tail, sep) + Split(b, sep)) == ([first] + Split(tail, sep)) + Split(b, sep);
    }
  }

  lemma {:induction false} PiecesAppend(a: seq<string>, b: seq<string>)
    ensures Elems(ParsePieces(a + b)) == Both(Elems(ParsePieces(a)), Elems(ParsePieces(b)))
    decreases |a|
  {
    if a == [] {
      assert a + b == b;
      assert ParsePieces(b).Ok? ==> [] + ParsePieces(b).value == ParsePieces(b).value;
    } else {
      var rest := a[1..];
      assert a == [a[0]] + rest && a + b == [a[0]] + (rest + b);
      PiecesHead(a[0], rest);
      PiecesHead(a[0], rest + b);
      PiecesAppend(rest, b);
      hide ParsePieces, ParseElem;
      if ParseElem(a[0]).Ok? && ParsePieces(rest).Ok? && ParsePieces(b).Ok? {
        assert [ParseElem(a[0]).value] + (ParsePieces(rest).value + ParsePieces(b).value)
            == ([ParseElem(a[0]).value] + ParsePieces(rest).value) + ParsePieces(b).value;
      }
    }
  }

  lemma NoPiece()
    ensures Split("", NUL) == [""] && ParsePieces([""]) == Ok([])
    ensures forall prev :: Outcome(Cook("", false, prev)) == Some([])
    ensures forall prev :: Cook("", false, prev) == Good("", false)
  {
    ParsePiecesEnd();
  }

  lemma SlashCooked(inKey: bool, prev: char)
    ensures Cook("/", inKey, prev) == Good([if inKey then '/' else NUL], inKey)
  {
    assert "/"[1..] == "";
  }

  /** A "/" behind text that closes its keys. */
  lemma SlashBetween(x: string, y: string, prev: char)
    requires Cook(x, false, prev).Good? && !Cook(x, false, prev).inKey
    ensures Outcome(Cook(x + "/" + y, false, prev)) == Both(Outcome(Cook(x, false, prev)), Outcome(Cook(y, false, '/')))
  {
    var m := Cook(x, false, prev).text;
    var rest := Cook(y, false, '/');
    assert x + "/" + y == x + ("/" + y);
    CookAppend(x, "/" + y, false, prev);
    CookAppend("/", y, false, LastOr(x, prev));
    SlashCooked(false, LastOr(x, prev));
    if rest.Good? {
      assert Cook(x + "/" + y, false, prev) == Good(m + ([NUL] + rest.text), rest.inKey);
      assert m + ([NUL] + rest.text) == m + [NUL] + rest.text;
      SplitAppend(m, rest.text, NUL);
      PiecesAppend(Split(m, NUL), Split(rest.text, NUL));
    } else {
      assert Cook(x + "/" + y, false, prev) == Bad;
    }
  }

  /** A last "/" makes no difference. */
  lemma SlashBehind(x: string, prev: char)
    ensures Outcome(Cook(x + "/", false, prev)) == Outcome(Cook(x, false, prev))
  {
    var c := Cook(x, false, prev);
    NoPiece();
    if c.Good? && !c.inKey {
      SlashBetween(x, "", prev);
      assert x + "/" + "" == x + "/";
      hide Outcome;
      assert Outcome(c).Some? ==> Outcome(c).value + [] == Outcome(c).value;
    } else {
      CookAppend(x, "/", false, prev);
      SlashCooked(true, LastOr(x, prev));
    }
  }

  /** Parsing an absolute path, or any other without a ":". */
  lemma AbsoluteOutcome(t: string)
    requires t != "" && t[0] == '/'
    ensures Outcome(Cook(t, false, NUL)) == if Parse(t).Ok? then Some(Parse(t).value.elem) else None
    ensures Parse(t).Ok? ==> Parse(t).value.origin == ""
  {
    SlashNoOrigin(t);
    SlashBehind(t, NUL);
    assert Outcome(Cook(WithSlash(t), false, NUL)) == Elems(ParseElems(t));
  }

  // ---------------------------------------------------------------------
  // Printed elements, with empty names among them
  // ---------------------------------------------------------------------

  /** A sound element whose keys hold no bracket, or what is left of one when its
      name is dropped. */
  ghost predicate Loose(pe: PathElem) {
    && (pe.name == "" || GoodName(pe.name, pe.key != map[]))
    && (forall k | k in pe.key :: SoundKey(k, pe.key[k])) && PlainMap(pe.key)
  }

  /** The elements that the parser gets to see: one without name and keys leaves
      an empty piece. */
  ghost function Visible(elems: seq<PathElem>): seq<PathElem> {
    if elems == [] then []
    else (if elems[0].name == "" && elems[0].key == map[] then [] else [elems[0]]) + Visible(elems[1..])
  }

  /** Keys without a name in front of them. */
  ghost predicate Nameless(pe: PathElem) { pe.name == "" && pe.key != map[] }

  ghost function LooseKeys(pe: PathElem): seq<(string, string)> {
    EscapedKeys(SortedKeys(pe.key.Keys), pe.key)
  }

  lemma LooseText(pe: PathElem)
    requires Loose(pe)
    ensures ElemText(pe, false, false) == pe.name + RenderKeys(LooseKeys(pe))
    ensures LooseKeys(pe) == [] <==> pe.key == map[]
    ensures forall kv | kv in LooseKeys(pe) :: GoodKey(kv)
    ensures KeyMap(LooseKeys(pe), map[]) == pe.key
  {
    var order := SortedKeys(pe.key.Keys);
    EscapedKeysGood(order, pe.key);
    EscapedKeysMeaning(order, pe.key, map[]);
    KeysTextPlain(order, pe.key);
    NoKeys(order, pe.key);
  }

  lemma OnePiece(text: string, prev: char)
    requires NUL !in text && Cook(text, false, prev) == Good(text, false)
    ensures Outcome(Cook(text, false, prev)) ==
      if text == "" then Some([]) else if ParseElem(text).Ok? then Some([ParseElem(text).value]) else None
  {
    assert forall j | 0 <= j < |text| :: text[j] != NUL;
    assert Split(text, NUL) == [text];
    assert [text][1..] == [];
    assert ParsePieces([]) == Ok([]);
    hide Cook, Split, ParseElem;
    if text != "" && ParseElem(text).Ok? { assert [ParseElem(text).value] + [] == [ParseElem(text).value]; }
  }

  lemma ElemOutcome(pe: PathElem)
    requires Loose(pe)
    ensures var c := Cook(ElemText(pe, false, false), false, '/');
      && c == Good(ElemText(pe, false, false), false)
      && Outcome(c) == if Nameless(pe) then None else Some(Visible([pe]))
  {
    var keys, text := LooseKeys(pe), ElemText(pe, false, false);
    LooseText(pe);
    RenderKeysNoNul(keys);
    assert [pe][1..] == [];
    assert Visible([pe]) == if pe.name == "" && pe.key == map[] then [] else [pe];
    hide Cook, Visible, ElemText, LooseKeys, Outcome;
    if pe.name == "" {
      CookKeys(keys, '/');
      assert text == RenderKeys(keys);
      OnePiece(text, '/');
      if keys != [] { assert text[0] == '['; }
    } else {
      var e := RawElem(pe.name, keys);
      assert GoodElem(e);
      hide ParseElem;
      CookElem(e, '/');
      ParseElemRender(e);
      assert text == RenderElem(e);
      OnePiece(text, '/');
    }
  }

  lemma BareText(name: string)
    ensures ElemText(PathElem(name, map[]), false, false) == name
  {
    var none: map<string, string> := map[];
    assert none.Keys == {} && SortedKeys(none.Keys) == [];
    assert KeysText([], none, false) == "";
    assert name + "" == name;
  }

  lemma JoinFirst(pe: PathElem, rest: seq<PathElem>)
    ensures Join([pe] + rest, false, false)
      == ElemText(pe, false, false) + if rest == [] then "" else "/" + Join(rest, false, false)
  {
    hide ElemText;
    var all := [pe] + rest;
    assert all[0] == pe && all[1..] == rest;
    var t := ElemText(pe, false, false);
    if rest == [] {
      assert t + "" == t;
    } else {
      assert t + "/" + Join(rest, false, false) == t + ("/" + Join(rest, false, false));
    }
  }

  lemma JoinNone()
    ensures Join([], false, false) == ""
  {
  }

  lemma VisibleFirst(pe: PathElem, rest: seq<PathElem>)
    ensures Visible([pe] + rest) == Visible([pe]) + Visible(rest)
    ensures Visible([]) == []
  {
    assert ([pe] + rest)[1..] == rest && [pe][1..] == [];
  }

  /** What the printed elements are read back as. */
  lemma {:induction false} JoinOutcome(elems: seq<PathElem>)
    requires forall pe | pe in elems :: Loose(pe)
    ensures Outcome(Cook(Join(elems, false, false), false, '/')) ==
      if exists pe :: pe in elems && Nameless(pe) then None else Some(Visible(elems))
  {
    hide Cook, Outcome, Visible, ElemText, Join, Loose, Nameless;
    if elems == [] {
      NoPiece();
      JoinNone();
      VisibleFirst(PathElem("", map[]), []);
    } else {
      var pe, rest := elems[0], elems[1..];
      assert elems == [pe] + rest;
      ElemOutcome(pe);
      VisibleFirst(pe, rest);
      JoinFirst(pe, rest);
      var text, y := ElemText(pe, false, false), Join(rest, false, false);
      if rest == [] {
        assert text + "" == text && Visible([pe]) + [] == Visible([pe]);
      } else {
        JoinOutcome(rest);
        SlashBetween(text, y, '/');
        assert text + ("/" + y) == text + "/" + y;
      }
    }
  }

  // ---------------------------------------------------------------------
  // Text that opens a key and does not close it
  // ---------------------------------------------------------------------

  ghost predicate Stuck(c: Cooked) { c.Bad? || c.inKey }

  lemma StuckAppend(a: string, b: string, prev: char)
    requires Stuck(Cook(a, true, prev)) && Stuck(Cook(b, true, LastOr(a, prev)))
    ensures Stuck(Cook(a + b, true, prev))
  {
    CookAppend(a, b, true, prev);
  }

  lemma StuckElem(pe: PathElem)
    requires Loose(pe)
    ensures Stuck(Cook(ElemText(pe, false, false), true, '/'))
  {
    var text := RenderKeys(LooseKeys(pe));
    LooseText(pe);
    CookEscaped(pe.name, true, '/');
    var last := LastOr(pe.name, '/');
    assert Stuck(Cook(text, true, last)) by {
      if text != "" {
        assert text[0] == '[' && last != '\\';
        CookHead(text, true, last);
      }
    }
    StuckAppend(pe.name, text, '/');
  }

  lemma {:induction false} StuckJoin(elems: seq<PathElem>)
    requires forall pe | pe in elems :: Loose(pe)
    ensures Stuck(Cook(Join(elems, false, false), true, '/'))
  {
    hide Cook, Stuck, ElemText, Join, Loose;
    if elems == [] {
      JoinNone();
      StuckNone();
    } else {
      var pe, rest := elems[0], elems[1..];
      assert elems == [pe] + rest;
      JoinFirst(pe, rest);
      StuckElem(pe);
      var text, y := ElemText(pe, false, false), Join(rest, false, false);
      if rest == [] {
        assert text + "" == text;
      } else {
        StuckJoin(rest);
        StuckSlash(y, LastOr(text, '/'));
        StuckAppend(text, "/" + y, '/');
      }
    }
  }

  lemma StuckNone()
    ensures Stuck(Cook("", true, '/'))
  {
  }

  lemma StuckSlash(b: string, prev: char)
    requires Stuck(Cook(b, true, '/'))
    ensures Stuck(Cook("/" + b, true, prev))
  {
    SlashCooked(true, prev);
    StuckAppend("/", b, prev);
  }

  /** Any text, a "/", and printed elements. */
  lemma ThenJoin(x: string, elems: seq<PathElem>)
    requires forall pe | pe in elems :: Loose(pe)
    ensures Outcome(Cook(x + "/" + Join(elems, false, false), false, NUL)) ==
      if exists pe :: pe in elems && Nameless(pe) then None
      else Both(Outcome(Cook(x, false, NUL)), Some(Visible(elems)))
  {
    var c, y := Cook(x, false, NUL), Join(elems, false, false);
    hide Loose, Join, Visible, Nameless;
    if c.Good? && !c.inKey {
      JoinOutcome(elems);
      SlashBetween(x, y, NUL);
    } else {
      assert x + "/" + y == x + ("/" + y);
      CookAppend(x, "/" + y, false, NUL);
      StuckJoin(elems);
      StuckSlash(y, LastOr(x, NUL));
    }
  }

  // ---------------------------------------------------------------------
  // An origin read as an element
  // ---------------------------------------------------------------------

  /** Keys end in "]". */
  lemma {:induction false} RawKeysEnd(s: string, inKey: bool, cur: string, prev: char)
    requires s != "" && RawKeys(s, inKey, cur, prev).Some? && (prev == '\\' ==> inKey)
    ensures s[|s| - 1] == ']'
  {
    var c := s[0];
    var inKey', cur' :=
      if IsBracket(c) && prev == '\\' then inKey else if c == '[' then true else if c == ']' then false else inKey,
      if (IsBracket(c) && prev == '\\') || (c != '[' && c != ']') then cur + [c] else "";
    assert RawKeys(s[1..], inKey', cur', c).Some?;
    if s[1..] != "" { RawKeysEnd(s[1..], inKey', cur', c); }
  }

  /** An accepted element that does not end in "]" has no keys. */
  lemma NoKeysAtEnd(s: string)
    requires s != "" && s[|s| - 1] != ']' && ParseElem(s).Ok?
    ensures ParseElem(s).value == PathElem(s, map[])
  {
    var i := OpenBracket(s, NUL);
    if i < |s| { RawKeysEnd(s[i..], false, "", NUL); }
  }

  /** One name behind a "/" is read, if at all, as that name. */
  lemma NameAlone(name: string)
    requires name != "" && '/' !in name && NUL !in name && name[|name| - 1] != ']'
    requires Outcome(Cook("/" + name, false, NUL)).Some?
    ensures Outcome(Cook("/" + name, false, NUL)) == Some([PathElem(name, map[])])
  {
    hide Cook, Outcome, ParseElem;
    NoPiece();
    SlashBetween("", name, NUL);
    assert "" + "/" + name == "/" + name;
    NameCooked(name);
    OnePiece(name, '/');
    NoKeysAtEnd(name);
    assert [] + [PathElem(name, map[])] == [PathElem(name, map[])];
  }

  lemma NameCooked(name: string)
    requires '/' !in name && NUL !in name && Outcome(Cook(name, false, '/')).Some?
    ensures Cook(name, false, '/') == Good(name, false)
  {
    hide Cook;
    CookShape(name, false, '/');
    var text := Cook(name, false, '/').text;
    forall i | 0 <= i < |name| ensures text[i] == name[i] { assert name[i] in name; }
  }

  // ---------------------------------------------------------------------
  // Printing without keys
  // ---------------------------------------------------------------------

  /** The path without its keys. */
  function Stripped(elems: seq<PathElem>): (r: seq<PathElem>)
    ensures |r| == |elems| && forall i | 0 <= i < |r| :: r[i] == PathElem(elems[i].name, map[])
  {
    if elems == [] then [] else [PathElem(elems[0].name, map[])] + Stripped(elems[1..])
  }

  /** Printing without keys prints what is left of the path without them. */
  lemma {:induction false} JoinStripped(elems: seq<PathElem>)
    ensures Join(elems, true, false) == Join(Stripped(elems), false, false)
  {
    if elems != [] {
      var rest := elems[1..];
      JoinStripped(rest);
      BareText(elems[0].name);
      assert elems[0].name + "" == elems[0].name;
      assert Stripped(elems)[1..] == Stripped(rest);
      if rest == [] { assert |elems| == 1; }
    }
  }

  function ElemNames(elems: seq<PathElem>): (names: seq<string>)
    ensures |names| == |elems| && forall i | 0 <= i < |names| :: names[i] == elems[i].name
  {
    if elems == [] then [] else [elems[0].name] + ElemNames(elems[1..])
  }

  /** The pieces of a print without keys are the names. */
  lemma {:induction false} NamesSplit(elems: seq<PathElem>)
    requires forall pe | pe in elems :: '/' !in pe.name
    ensures Split(Join(elems, true, false), '/') == if elems == [] then [""] else ElemNames(elems)
  {
    if elems == [] {
      assert IndexOf("", '/') == 0;
    } else {
      var pe, rest := elems[0], elems[1..];
      assert pe in elems && pe.name + "" == pe.name;
      if rest == [] {
        assert ElemNames(elems) == [pe.name];
        assert forall i | 0 <= i < |pe.name| :: pe.name[i] != '/';
        assert Split(pe.name, '/') == [pe.name];
      } else {
        NamesSplit(rest);
        SplitFirst(pe.name, Join(rest, true, false), '/');
        assert Join(elems, true, false) == pe.name + ['/'] + Join(rest, true, false);
        assert ElemNames(elems) == [pe.name] + ElemNames(rest);
      }
    }
  }

  // ---------------------------------------------------------------------
  // Printed text is never longer than what was read
  // ---------------------------------------------------------------------

  lemma PrintShrinks(t: string, elems: seq<PathElem>)
    requires t != "" && t[0] == '/' && Parse(t) == Ok(Path("", elems))
    ensures Weight(elems) <= |t|
  {
    var p := Path("", elems);
    ParseIffDenotes(t, p);
    var rest, items :| OriginSplit(t, p.origin, rest) && GoodItems(items)
      && RenderItems(items) == WithSlash(rest) && Meaning(items) == p.elem;
    OriginSplitIff(t, "", rest);
    SlashNoOrigin(t);
    FirstItemText(items);
    MeaningWeight(items[1..]);
    assert [] + Meaning(items[1..]) == Meaning(items[1..]);
    assert |RenderItems(items)| == 1 + |RenderItems(items[1..])|;
  }

  /** Sound elements print without NUL. */
  lemma {:induction false} JoinNoNul(elems: seq<PathElem>)
    requires forall pe | pe in elems :: SoundElem(pe)
    ensures NUL !in Join(elems, false, false)
  {
    if elems != [] {
      var order := SortedKeys(elems[0].key.Keys);
      assert SoundElem(elems[0]);
      KeysNoNul(order, elems[0].key);
      JoinNoNul(elems[1..]);
    }
  }

  lemma {:induction false} KeysNoNul(order: seq<string>, m: map<string, string>)
    requires forall k | k in order :: k in m && SoundKey(k, m[k])
    ensures NUL !in KeysText(order, m, false)
  {
    if order != [] {
      assert SoundKey(order[0], m[order[0]]);
      KeysNoNul(order[1..], m);
    }
  }
}
