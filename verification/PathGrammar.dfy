/** The parser accepts exactly the strings of the grammar and gives them
    exactly the grammar's meaning. */
module PathGrammar {
  import opened Basics
  import opened PathSyntax

  // ---------------------------------------------------------------------
  // Escaped text
  // ---------------------------------------------------------------------

  lemma {:induction false} EscapedAppend(a: string, b: string, prev: char)
    ensures Escaped(a + b, prev) <==> Escaped(a, prev) && Escaped(b, LastOr(a, prev))
  {
    if a == "" {
      assert a + b == b;
    } else {
      assert (a + b)[1..] == a[1..] + b;
      EscapedAppend(a[1..], b, a[0]);
    }
  }

  // ---------------------------------------------------------------------
  // The bracket automaton on concatenations
  // ---------------------------------------------------------------------

  ghost function AndThen(a: Cooked, b: string, prev: char): Cooked {
    match a
    case Bad => Bad
    case Good(m, k) =>
      match Cook(b, k, prev)
      case Bad => Bad
      case Good(m', k') => Good(m + m', k')
  }

  /** A step of the first pass in front of what follows. */
  ghost function Before(c: char, more: Cooked): Cooked {
    if more.Bad? then Bad else Good([c] + more.text, more.inKey)
  }

  lemma CookHead(s: string, inKey: bool, prev: char)
    requires s != ""
    ensures Cook(s, inKey, prev) ==
      if Step(inKey, prev, s[0]).None? then Bad
      else Before(if s[0] == '/' && !inKey then NUL else s[0], Cook(s[1..], Step(inKey, prev, s[0]).value, s[0]))
  {
    hide Step;
  }

  lemma BeforeAppend(c: char, a: Cooked, b: string, prev: char)
    ensures Before(c, AndThen(a, b, prev)) == AndThen(Before(c, a), b, prev)
  {
    hide Cook;
    if a.Good? && Cook(b, a.inKey, prev).Good? {
      var m' := Cook(b, a.inKey, prev).text;
      assert [c] + (a.text + m') == ([c] + a.text) + m';
    }
  }

  lemma {:induction false} CookAppend(a: string, b: string, inKey: bool, prev: char)
    ensures Cook(a + b, inKey, prev) == AndThen(Cook(a, inKey, prev), b, LastOr(a, prev))
  {
    if a == "" {
      assert a + b == b;
      assert Cook(b, inKey, prev).Good? ==> "" + Cook(b, inKey, prev).text == Cook(b, inKey, prev).text;
    } else {
      hide Cook, Step, AndThen, Before;
      assert (a + b)[1..] == a[1..] + b;
      CookHead(a, inKey, prev);
      CookHead(a + b, inKey, prev);
      var k := Step(inKey, prev, a[0]);
      if k.None? {
        BadStays(b, LastOr(a, prev));
      } else {
        var c := if a[0] == '/' && !inKey then NUL else a[0];
        CookAppend(a[1..], b, k.value, a[0]);
        assert LastOr(a, prev) == LastOr(a[1..], a[0]);
        BeforeAppend(c, Cook(a[1..], k.value, a[0]), b, LastOr(a, prev));
      }
    }
  }

  lemma BadStays(b: string, prev: char)
    ensures AndThen(Bad, b, prev) == Bad
  {
  }

  /** Marking keeps the length and, before the first NUL, the text. */
  lemma {:induction false} CookShape(s: string, inKey: bool, prev: char)
    requires Cook(s, inKey, prev).Good?
    ensures |Cook(s, inKey, prev).text| == |s|
    ensures forall i | 0 <= i < |s| ::
              var c := Cook(s, inKey, prev).text[i];
              if c == NUL then s[i] == '/' || s[i] == NUL else s[i] == c
  {
    if s != "" { CookShape(s[1..], Step(inKey, prev, s[0]).value, s[0]); }
  }

  lemma {:induction false} CookQuiet(s: string, inKey: bool, prev: char)
    requires Cook(s, inKey, prev).Good? && NUL !in Cook(s, inKey, prev).text
    ensures Cook(s, inKey, prev).text == s
  {
    CookShape(s, inKey, prev);
  }

  /** Text whose brackets are all escaped leaves the automaton where it was. */
  lemma {:induction false} CookEscaped(t: string, inKey: bool, prev: char)
    requires Escaped(t, prev)
    requires inKey || '/' !in t
    ensures Cook(t, inKey, prev) == Good(t, inKey)
  {
    if t != "" {
      assert t == [t[0]] + t[1..];
      assert t[0] in t;
      CookEscaped(t[1..], inKey, t[0]);
    }
  }

  lemma {:induction false} CookBracket(text: string, prev: char)
    requires text != "" && Escaped(text, '[') && text[|text| - 1] != '\\' && prev != '\\'
    ensures Cook(BracketText(text), false, prev) == Good(BracketText(text), false)
  {
    CookEscaped(text, true, '[');
    assert "]"[1..] == "" && "["[1..] == "";
    assert Cook("]", true, text[|text| - 1]) == Good("]", false);
    assert Cook("[", false, prev) == Good("[", true);
    CookAppend(text, "]", true, '[');
    CookAppend("[", text + "]", false, prev);
    assert BracketText(text) == "[" + (text + "]");
  }

  lemma {:induction false} CookKeys(keys: seq<(string, string)>, prev: char)
    requires forall kv | kv in keys :: GoodKey(kv)
    requires keys != [] ==> prev != '\\'
    ensures Cook(RenderKeys(keys), false, prev) == Good(RenderKeys(keys), false)
  {
    if keys != [] {
      assert GoodKey(keys[0]);
      var one := BracketText(KeyText(keys[0]));
      CookBracket(KeyText(keys[0]), prev);
      CookKeys(keys[1..], ']');
      CookAppend(one, RenderKeys(keys[1..]), false, prev);
      assert LastOr(one, prev) == ']';
    }
  }

  lemma {:induction false} CookElem(e: RawElem, prev: char)
    requires GoodElem(e) && prev != '\\'
    ensures Cook(RenderElem(e), false, prev) == Good(RenderElem(e), false)
  {
    CookEscaped(e.name, false, prev);
    CookAppend(e.name, RenderKeys(e.keys), false, prev);
    CookKeys(e.keys, e.name[|e.name| - 1]);
  }

  // ---------------------------------------------------------------------
  // Text to parse: a rendered element parses to its meaning
  // ---------------------------------------------------------------------

  lemma {:induction false} IndexOfAppend(a: string, c: char, b: string)
    requires c !in a
    ensures IndexOf(a + [c] + b, c) == |a|
  {
    var s := a + [c] + b;
    if a != "" {
      assert s[0] == a[0] && a[0] in a;
      assert s[1..] == a[1..] + [c] + b;
      IndexOfAppend(a[1..], c, b);
    }
  }

  lemma {:induction false} SplitKeyText(k: string, v: string)
    requires k != "" && v != "" && '=' !in k
    ensures SplitKey(KeyText((k, v))) == Some((k, v))
  {
    IndexOfAppend(k, '=', v);
    var text := KeyText((k, v));
    assert text[..|k|] == k && text[|k| + 1..] == v;
  }

  /** Inside a bracket, escaped text is collected up to the closing bracket. */
  lemma {:induction false} RawKeysText(t: string, rest: string, cur: string, prev: char)
    requires Escaped(t, prev) && LastOr(t, prev) != '\\'
    requires SplitKey(cur + t).Some?
    ensures RawKeys(t + "]" + rest, true, cur, prev)
         == match RawKeys(rest, false, "", ']')
            case None => None
            case Some(more) => Some([SplitKey(cur + t).value] + more)
  {
    var s := t + "]" + rest;
    if t == "" {
      assert s == "]" + rest && s[1..] == rest && cur + t == cur;
    } else {
      assert s[0] == t[0] && s[1..] == t[1..] + "]" + rest;
      assert LastOr(t, prev) == LastOr(t[1..], t[0]);
      assert cur + t == (cur + [t[0]]) + t[1..];
      RawKeysText(t[1..], rest, cur + [t[0]], t[0]);
    }
  }

  lemma RawKeysOne(kv: (string, string), rest: string, prev: char)
    requires GoodKey(kv) && prev != '\\'
    ensures RawKeys(BracketText(KeyText(kv)) + rest, false, "", prev)
         == match RawKeys(rest, false, "", ']')
            case None => None
            case Some(more) => Some([kv] + more)
  {
    var text := KeyText(kv);
    SplitKeyText(kv.0, kv.1);
    BracketHead(text, rest);
    assert "" + text == text;
    assert LastOr(text, '[') == kv.1[|kv.1| - 1];
    RawKeysText(text, rest, "", '[');
  }

  lemma {:induction false} RawKeysRender(keys: seq<(string, string)>, prev: char)
    requires forall kv | kv in keys :: GoodKey(kv)
    requires prev != '\\'
    ensures RawKeys(RenderKeys(keys), false, "", prev) == Some(keys)
  {
    if keys != [] {
      RawKeysOne(keys[0], RenderKeys(keys[1..]), prev);
      RawKeysRender(keys[1..], ']');
      assert [keys[0]] + keys[1..] == keys;
    }
  }

  lemma BracketHead(text: string, rest: string)
    ensures (BracketText(text) + rest)[0] == '['
    ensures (BracketText(text) + rest)[1..] == text + "]" + rest
  {
  }

  lemma {:induction false} OpenBracketName(name: string, rest: string, prev: char)
    requires Escaped(name, prev)
    requires rest == "" || (rest[0] == '[' && LastOr(name, prev) != '\\')
    ensures OpenBracket(name + rest, prev) == |name|
  {
    if name == "" {
      assert name + rest == rest;
    } else {
      assert (name + rest)[1..] == name[1..] + rest;
      assert LastOr(name, prev) == LastOr(name[1..], name[0]);
      OpenBracketName(name[1..], rest, name[0]);
    }
  }

  lemma ParseElemRender(e: RawElem)
    requires GoodElem(e)
    ensures ParseElem(RenderElem(e)) == Ok(ElemMeaning(e))
  {
    var rest := RenderKeys(e.keys);
    if e.keys != [] { BracketHead(KeyText(e.keys[0]), RenderKeys(e.keys[1..])); }
    OpenBracketName(e.name, rest, NUL);
    var s := RenderElem(e);
    assert s[..|e.name|] == e.name && s[|e.name|..] == rest;
    if e.keys == [] {
      assert s == e.name;
    } else {
      RawKeysRender(e.keys, NUL);
    }
  }

  /** What the separators of a body become after the first pass. */
  ghost function Pieces(items: seq<Item>): seq<string> {
    if items == [] then [""]
    else [if items[0].elem.Some? then RenderElem(items[0].elem.value) else ""] + Pieces(items[1..])
  }

  ghost function Marked(items: seq<Item>): string {
    if items == [] then ""
    else (if items[0].elem.Some? then RenderElem(items[0].elem.value) else "") + [NUL] + Marked(items[1..])
  }

  lemma {:induction false} CookItems(items: seq<Item>, prev: char)
    requires forall it | it in items :: GoodItem(it)
    requires prev != '\\'
    ensures Cook(RenderItems(items), false, prev) == Good(Marked(items), false)
  {
    if items != [] {
      var it := items[0];
      assert GoodItem(it);
      var text := if it.elem.Some? then RenderElem(it.elem.value) else "";
      if it.elem.Some? { CookElem(it.elem.value, prev); }
      CookSep(text, it.sep, prev);
      CookItems(items[1..], it.sep);
      CookAppend(text + [it.sep], RenderItems(items[1..]), false, prev);
    }
  }

  lemma CookSep(text: string, sep: char, prev: char)
    requires Cook(text, false, prev) == Good(text, false)
    requires sep == '/' || sep == NUL
    ensures Cook(text + [sep], false, prev) == Good(text + [NUL], false)
  {
    CookAppend(text, [sep], false, prev);
    assert [sep][1..] == "";
    assert Cook([sep], false, LastOr(text, prev)) == Good([NUL], false);
  }

  lemma {:induction false} RenderKeysNoNul(keys: seq<(string, string)>)
    requires forall kv | kv in keys :: GoodKey(kv)
    ensures NUL !in RenderKeys(keys)
  {
    if keys != [] {
      assert GoodKey(keys[0]);
      RenderKeysNoNul(keys[1..]);
    }
  }

  lemma {:induction false} SplitMarked(items: seq<Item>)
    requires forall it | it in items :: GoodItem(it)
    ensures Split(Marked(items), NUL) == Pieces(items)
  {
    if items == [] {
      assert IndexOf("", NUL) == 0;
    } else {
      assert GoodItem(items[0]);
      var text := if items[0].elem.Some? then RenderElem(items[0].elem.value) else "";
      if items[0].elem.Some? { RenderKeysNoNul(items[0].elem.value.keys); }
      IndexOfAppend(text, NUL, Marked(items[1..]));
      var m := text + [NUL] + Marked(items[1..]);
      assert m[..|text|] == text && m[|text| + 1..] == Marked(items[1..]);
      SplitMarked(items[1..]);
    }
  }

  lemma {:induction false} ParsePiecesOf(items: seq<Item>)
    requires forall it | it in items :: GoodItem(it)
    ensures ParsePieces(Pieces(items)) == Ok(Meaning(items))
  {
    var pieces := Pieces(items);
    if items == [] {
      assert pieces[1..] == [];
    } else {
      assert GoodItem(items[0]);
      assert pieces[1..] == Pieces(items[1..]);
      ParsePiecesOf(items[1..]);
      assert [] + Meaning(items[1..]) == Meaning(items[1..]);
      if items[0].elem.Some? {
        ParseElemRender(items[0].elem.value);
        assert pieces[0] == RenderElem(items[0].elem.value) != "";
      }
    }
  }

  lemma ParseElemsRender(rest: string, items: seq<Item>)
    requires GoodItems(items) && RenderItems(items) == WithSlash(rest)
    ensures ParseElems(rest) == Ok(Meaning(items))
  {
    CookItems(items, NUL);
    SplitMarked(items);
    ParsePiecesOf(items);
  }

  // ---------------------------------------------------------------------
  // Parse to text: an accepted string has a derivation
  // ---------------------------------------------------------------------

  /** A collected key list spells out the text it was read from. */
  lemma {:induction false} RawKeysInv(s: string, inKey: bool, cur: string, prev: char)
    requires RawKeys(s, inKey, cur, prev).Some?
    requires NUL !in s && NUL !in cur
    requires if inKey then Escaped(cur, '[') && prev == LastOr(cur, '[') else prev != '\\' && cur == ""
    ensures forall kv | kv in RawKeys(s, inKey, cur, prev).value :: GoodKey(kv)
    ensures inKey ==> RawKeys(s, inKey, cur, prev).value != []
    ensures (if inKey then "[" else "") + cur + s == RenderKeys(RawKeys(s, inKey, cur, prev).value)
    decreases |s|
  {
    var keys := RawKeys(s, inKey, cur, prev).value;
    if s != "" {
      var c := s[0];
      if (IsBracket(c) && prev == '\\') || (!IsBracket(c) && inKey) {
        EscapedAppend(cur, [c], '[');
        assert [c][1..] == "";
        RawKeysInv(s[1..], true, cur + [c], c);
        assert "[" + cur + s == "[" + (cur + [c]) + s[1..];
      } else if c == '[' {
        RawKeysInv(s[1..], true, "", c);
        assert s == "[" + "" + s[1..];
      } else {
        assert c == ']' && inKey && SplitKey(cur).Some?;
        RawKeysInv(s[1..], false, "", c);
        var (k, v) := SplitKey(cur).value;
        assert cur == KeyText((k, v));
        assert keys == [(k, v)] + keys[1..];
        assert v[|v| - 1] == cur[|cur| - 1];
        assert GoodKey((k, v));
        assert "[" + cur + s == BracketText(cur) + s[1..];
        assert "" + "" + s[1..] == s[1..];
      }
    }
  }

  /** Every opening bracket of t follows a backslash. */
  ghost predicate NoOpen(t: string, prev: char) {
    t != "" ==> (t[0] == '[' ==> prev == '\\') && NoOpen(t[1..], t[0])
  }

  /** Before the first opening bracket an accepted text is a proper name. */
  lemma {:induction false} CookNameInv(n: string, prev: char)
    requires Cook(n, false, prev).Good? && Cook(n, false, prev).text == n
    requires NoOpen(n, prev) && NUL !in n
    ensures Escaped(n, prev) && '/' !in n && !Cook(n, false, prev).inKey
  {
    if n != "" {
      assert Step(false, prev, n[0]) == Some(false);
      assert Cook(n, false, prev).text[1..] == Cook(n[1..], false, n[0]).text;
      assert Cook(n, false, prev).text[0] == n[0] && n[0] in n;
      assert n == [n[0]] + n[1..];
      CookNameInv(n[1..], n[0]);
    }
  }

  lemma {:induction false} OpenBracketInv(s: string, prev: char)
    ensures var i := OpenBracket(s, prev);
      NoOpen(s[..i], prev) && (i < |s| ==> s[i] == '[' && LastOr(s[..i], prev) != '\\')
  {
    if s != "" && !(s[0] == '[' && prev != '\\') {
      OpenBracketInv(s[1..], s[0]);
      var i := OpenBracket(s, prev);
      assert s[..i][1..] == s[1..][..i - 1];
    }
  }

  /** Of a repeated key the last value stays; no other key is there. */
  lemma {:induction false} KeyMapLast(raw: seq<(string, string)>, base: map<string, string>, k: string)
    ensures k in KeyMap(raw, base) <==> k in base || exists kv :: kv in raw && Unescape(kv.0) == k
    ensures (forall kv | kv in raw :: Unescape(kv.0) != k) && k in base ==> KeyMap(raw, base)[k] == base[k]
    ensures forall i | 0 <= i < |raw| && Unescape(raw[i].0) == k && (forall kv | kv in raw[i + 1..] :: Unescape(kv.0) != k) ::
              KeyMap(raw, base)[k] == Unescape(raw[i].1)
    decreases |raw|
  {
    if raw != [] {
      var first, rest := raw[0], raw[1..];
      var base' := base[Unescape(first.0) := Unescape(first.1)];
      assert forall kv :: kv in raw <==> kv == first || kv in rest;
      KeyMapLast(rest, base', k);
      forall i | 0 <= i < |raw| && Unescape(raw[i].0) == k && (forall kv | kv in raw[i + 1..] :: Unescape(kv.0) != k)
        ensures KeyMap(raw, base)[k] == Unescape(raw[i].1)
      {
        if i > 0 { assert rest[i - 1] == raw[i] && rest[i - 1 + 1..] == raw[i + 1..]; }
      }
    }
  }

  /** The derivation of one accepted piece. */
  lemma {:induction false} PieceInv(s: string, prev: char) returns (e: RawElem)
    requires s != "" && NUL !in s && prev != '\\'
    requires Cook(s, false, prev).Good? && Cook(s, false, prev).text == s
    requires ParseElem(s).Ok?
    ensures GoodElem(e) && RenderElem(e) == s && ElemMeaning(e) == ParseElem(s).value
    ensures !Cook(s, false, prev).inKey
  {
    var i := OpenBracket(s, NUL);
    OpenBracketInv(s, NUL);
    var name, rest := s[..i], s[i..];
    assert s == name + rest;
    assert s[0] == '[' ==> i == 0;
    CookAppend(name, rest, false, prev);
    var cooked := Cook(name, false, prev);
    CookShape(name, false, prev);
    assert Cook(s, false, prev).text[..i] == cooked.text;
    assert cooked.text == name;
    CookNameInv(name, prev);
    assert Escaped(name, '/');
    var keys := [];
    if i < |s| {
      keys := RawKeys(rest, false, "", NUL).value;
      RawKeysInv(rest, false, "", NUL);
      assert "" + "" + rest == rest;
    }
    e := RawElem(name, keys);
    CookElem(e, prev);
  }

  /** The first separator of an accepted body, wherever it stands. */
  lemma FirstPiece(s: string, prev: char) returns (j: nat)
    requires s != "" && s[|s| - 1] == '/'
    requires Cook(s, false, prev).Good? && !Cook(s, false, prev).inKey
    ensures j == IndexOf(Cook(s, false, prev).text, NUL) < |s| == |Cook(s, false, prev).text|
    ensures s == s[..j] + s[j..]
    ensures NUL !in s[..j] && s[..j] == Cook(s, false, prev).text[..j]
    ensures Cook(s[..j], false, prev).Good? && Cook(s[..j], false, prev).text == s[..j]
  {
    var m := Cook(s, false, prev).text;
    j := IndexOf(m, NUL);
    LastSlash(s, prev);
    assert m[..|m|] == m && m[|s| - 1] in m;
    var piece := s[..j];
    assert s == piece + s[j..];
    CookAppend(piece, s[j..], false, prev);
    CookShape(piece, false, prev);
    assert Cook(piece, false, prev).text == m[..j];
    CookQuiet(piece, false, prev);
  }

  /** What is left of an accepted body after its first piece. */
  lemma RestOfBody(s: string, prev: char, j: nat)
    requires s != "" && s[|s| - 1] == '/' && Cook(s, false, prev).Good? && !Cook(s, false, prev).inKey
    requires j == IndexOf(Cook(s, false, prev).text, NUL) < |s| == |Cook(s, false, prev).text|
    requires s[..j] == Cook(s, false, prev).text[..j]
    requires Cook(s[..j], false, prev) == Good(s[..j], false)
    ensures s[j] == '/' || s[j] == NUL
    ensures Cook(s[j + 1..], false, s[j]) == Good(Cook(s, false, prev).text[j + 1..], false)
  {
    hide Cook;
    var m := Cook(s, false, prev).text;
    var piece, tail := s[..j], s[j..];
    assert s == piece + tail;
    CookAppend(piece, tail, false, prev);
    var last := LastOr(piece, prev);
    var text := Cook(tail, false, last).text;
    assert m == piece + text;
    assert m[j..] == text;
    SepHead(tail, last);
    assert tail[1..] == s[j + 1..] && m[j..][1..] == m[j + 1..];
  }

  lemma ItemRender(it: Item, text: string, more: seq<Item>, s: string, j: nat)
    requires j < |s| && it.sep == s[j] && text == s[..j]
    requires if it.elem.Some? then RenderElem(it.elem.value) == text else text == ""
    requires RenderItems(more) == s[j + 1..]
    ensures RenderItems([it] + more) == s
  {
    assert ([it] + more)[1..] == more;
    assert RenderItem(it) == text + [s[j]];
    assert s == (s[..j] + [s[j]]) + s[j + 1..];
  }

  lemma CookNone(prev: char)
    ensures Cook("", false, prev) == Good("", false)
  {
  }

  lemma RenderNone()
    ensures RenderItems([]) == "" && Meaning([]) == []
  {
  }

  lemma ItemGood(it: Item, more: seq<Item>)
    requires it.sep == '/' || it.sep == NUL
    requires it.elem.Some? ==> GoodElem(it.elem.value)
    requires (more == [] && it.sep == '/') || GoodItems(more)
    ensures GoodItems([it] + more)
  {
    hide GoodElem;
    assert more != [] ==> ([it] + more)[|more|] == more[|more| - 1];
  }

  /** The derivation of an accepted body. */
  lemma {:induction false} BodyInv(s: string, prev: char) returns (items: seq<Item>)
    requires s != "" && s[|s| - 1] == '/' && prev != '\\'
    requires Cook(s, false, prev).Good? && !Cook(s, false, prev).inKey
    requires ParsePieces(Split(Cook(s, false, prev).text, NUL)).Ok?
    ensures GoodItems(items) && RenderItems(items) == s
    ensures Meaning(items) == ParsePieces(Split(Cook(s, false, prev).text, NUL)).value
    decreases |s|
  {
    hide Cook, ParseElem, IndexOf, Split, ParsePieces;
    hide GoodItem, GoodElem, GoodItems, RenderElem, RenderItem, RenderItems, Meaning, ElemMeaning;
    var m := Cook(s, false, prev).text;
    var j := FirstPiece(s, prev);
    var piece, rest := s[..j], s[j + 1..];
    PiecesStep(m, j);
    var elem := None;
    if piece != "" {
      var e := PieceInv(piece, prev);
      elem := Some(e);
    } else {
      CookNone(prev);
    }
    RestOfBody(s, prev, j);
    assert rest == "" ==> j == |s| - 1;
    assert rest != "" ==> rest[|rest| - 1] == '/';
    var it := Item(elem, s[j]);
    var more := [];
    if rest == "" {
      assert m[j + 1..] == "";
      ParsePiecesEnd();
      RenderNone();
    } else {
      more := BodyInv(rest, s[j]);
    }
    ItemRender(it, piece, more, s, j);
    ItemGood(it, more);
    MeaningStep(it, more);
    assert [] + Meaning(more) == Meaning(more);
    items := [it] + more;
  }

  lemma PiecesStep(m: string, j: nat)
    requires j == IndexOf(m, NUL) < |m|
    ensures var more := ParsePieces(Split(m[j + 1..], NUL));
      ParsePieces(Split(m, NUL)) ==
        if m[..j] == "" then more
        else if ParseElem(m[..j]).Err? then Err(ParseElem(m[..j]).error)
        else if more.Err? then more
        else Ok([ParseElem(m[..j]).value] + more.value)
  {
    hide ParsePieces, ParseElem, IndexOf;
    var more := Split(m[j + 1..], NUL);
    assert Split(m, NUL) == [m[..j]] + more;
    PiecesHead(m[..j], more);
  }

  lemma PiecesHead(piece: string, more: seq<string>)
    ensures ParsePieces([piece] + more) ==
      if piece == "" then ParsePieces(more)
      else if ParseElem(piece).Err? then Err(ParseElem(piece).error)
      else if ParsePieces(more).Err? then ParsePieces(more)
      else Ok([ParseElem(piece).value] + ParsePieces(more).value)
  {
    hide ParseElem;
    assert ([piece] + more)[1..] == more;
  }

  lemma MeaningStep(it: Item, more: seq<Item>)
    ensures Meaning([it] + more) == (if it.elem.Some? then [ElemMeaning(it.elem.value)] else []) + Meaning(more)
  {
    assert ([it] + more)[1..] == more;
  }

  lemma SepHead(tail: string, last: char)
    requires Cook(tail, false, last).Good? && tail != ""
    requires Cook(tail, false, last).text != "" && Cook(tail, false, last).text[0] == NUL
    ensures tail[0] == '/' || tail[0] == NUL
    ensures Cook(tail[1..], false, tail[0]).Good?
    ensures Cook(tail[1..], false, tail[0]).text == Cook(tail, false, last).text[1..]
    ensures Cook(tail[1..], false, tail[0]).inKey == Cook(tail, false, last).inKey
  {
  }

  lemma ParsePiecesEnd()
    ensures Split("", NUL) == [""] && ParsePieces([""]) == Ok([])
  {
    assert [""][1..] == [];
  }

  /** A body that closes all its keys ends in a separator. */
  lemma {:induction false} LastSlash(s: string, prev: char)
    requires s != "" && s[|s| - 1] == '/'
    requires Cook(s, false, prev).Good? && !Cook(s, false, prev).inKey
    ensures |Cook(s, false, prev).text| == |s| && Cook(s, false, prev).text[|s| - 1] == NUL
  {
    var a := s[..|s| - 1];
    assert s == a + "/";
    CookAppend(a, "/", false, prev);
    var k := Cook(a, false, prev).inKey;
    assert "/"[1..] == "";
    assert Step(k, LastOr(a, prev), '/') == Some(k);
    assert Cook("/", k, LastOr(a, prev)) == Good([if k then '/' else NUL], k);
    CookShape(s, false, prev);
  }

  // ---------------------------------------------------------------------
  // Origins, and the theorem
  // ---------------------------------------------------------------------

  lemma AsOriginIff(s: string, o: string, r: string)
    ensures AsOrigin(s, o, r)
       <==> HasOrigin(s) && o == s[..IndexOf(s, ':')] && r == s[IndexOf(s, ':') + 1..]
  {
    var i := IndexOf(s, ':');
    if AsOrigin(s, o, r) {
      IndexOfAppend(o, ':', r);
      assert s[..i] == o && s[i + 1..] == r;
      assert r != "" ==> s[i + 1] == r[0];
    }
    if HasOrigin(s) {
      assert s == s[..i] + ":" + s[i + 1..];
      assert s[i + 1..] != "" ==> s[i + 1..][0] == s[i + 1];
    }
  }

  lemma OriginSplitIff(s: string, o: string, r: string)
    ensures OriginSplit(s, o, r)
       <==> if HasOrigin(s) then o == s[..IndexOf(s, ':')] && r == s[IndexOf(s, ':') + 1..]
            else o == "" && r == s
  {
    forall o', r'
      ensures AsOrigin(s, o', r')
         <==> HasOrigin(s) && o' == s[..IndexOf(s, ':')] && r' == s[IndexOf(s, ':') + 1..]
    {
      AsOriginIff(s, o', r');
    }
    if HasOrigin(s) { AsOriginIff(s, s[..IndexOf(s, ':')], s[IndexOf(s, ':') + 1..]); }
  }

  lemma DenotesBy(s: string, p: Path, rest: string, items: seq<Item>)
    requires OriginSplit(s, p.origin, rest) && GoodItems(items)
    requires RenderItems(items) == WithSlash(rest) && Meaning(items) == p.elem
    ensures Denotes(s, p)
  {
  }

  /** The origin of a string, and the rest of it. */
  ghost function OriginOf(s: string): string { if HasOrigin(s) then s[..IndexOf(s, ':')] else "" }

  ghost function RestOf(s: string): string { if HasOrigin(s) then s[IndexOf(s, ':') + 1..] else s }

  lemma ParseParts(s: string, p: Path)
    ensures Parse(s) == Ok(p) <==> ParseElems(RestOf(s)) == Ok(p.elem) && p.origin == OriginOf(s)
    ensures forall o, r :: OriginSplit(s, o, r) <==> o == OriginOf(s) && r == RestOf(s)
  {
    hide OriginSplit, ParseElems;
    forall o, r ensures OriginSplit(s, o, r) <==> o == OriginOf(s) && r == RestOf(s) {
      OriginSplitIff(s, o, r);
    }
  }

  lemma ParsedDenotes(s: string, p: Path)
    requires Parse(s) == Ok(p)
    ensures Denotes(s, p)
  {
    hide OriginSplit, GoodItems, RenderItems, Meaning, Denotes, Cook, Split, ParsePieces, Parse, OriginOf, RestOf;
    ParseParts(s, p);
    var items := BodyInv(WithSlash(RestOf(s)), NUL);
    DenotesBy(s, p, RestOf(s), items);
  }

  lemma DenotedParses(s: string, p: Path)
    requires Denotes(s, p)
    ensures Parse(s) == Ok(p)
  {
    hide OriginSplit, GoodItems, RenderItems, Meaning, ParseElems, Parse, OriginOf, RestOf;
    var r, items :| OriginSplit(s, p.origin, r) && GoodItems(items)
      && RenderItems(items) == WithSlash(r) && Meaning(items) == p.elem;
    ParseParts(s, p);
    ParseElemsRender(r, items);
  }

  /** The parser and the grammar agree on every string and every path. */
  lemma ParseIffDenotes(s: string, p: Path)
    ensures Parse(s) == Ok(p) <==> Denotes(s, p)
  {
    hide Parse, Denotes;
    if Parse(s) == Ok(p) { ParsedDenotes(s, p); }
    if Denotes(s, p) { DenotedParses(s, p); }
  }

  // ---------------------------------------------------------------------
  // Errors
  // ---------------------------------------------------------------------

  function CharBefore(s: string, prev: char, k: nat): char
    requires k <= |s|
  {
    if k == 0 then prev else s[k - 1]
  }

  /** Places before i of an unescaped bracket c; `prev` stands before s. */
  ghost function Unescaped(s: string, prev: char, c: char, i: nat): set<int>
    requires i <= |s|
  {
    set k | 0 <= k < i && s[k] == c && CharBefore(s, prev, k) != '\\'
  }

  /** Brackets open and close in turn. */
  ghost predicate InTurn(s: string, prev: char, inKey: bool) {
    forall i | 0 <= i <= |s| :: 0 <= Depth(s, prev, inKey, i) <= 1
  }

  ghost function Depth(s: string, prev: char, inKey: bool, i: nat): int
    requires i <= |s|
  {
    (if inKey then 1 else 0) + |Unescaped(s, prev, '[', i)| - |Unescaped(s, prev, ']', i)|
  }

  lemma DepthSnoc(s: string, prev: char, inKey: bool, i: nat)
    requires i < |s|
    ensures var e := CharBefore(s, prev, i) == '\\';
      Depth(s, prev, inKey, i + 1) == Depth(s, prev, inKey, i) + if e then 0 else if s[i] == '[' then 1 else if s[i] == ']' then -1 else 0
  {
    var e := CharBefore(s, prev, i) == '\\';
    assert Unescaped(s, prev, '[', i + 1) == Unescaped(s, prev, '[', i) + if !e && s[i] == '[' then {i} else {};
    assert Unescaped(s, prev, ']', i + 1) == Unescaped(s, prev, ']', i) + if !e && s[i] == ']' then {i} else {};
  }

  lemma DepthStart(s: string, prev: char, inKey: bool)
    ensures Depth(s, prev, inKey, 0) == if inKey then 1 else 0
  {
    assert Unescaped(s, prev, '[', 0) == {} && Unescaped(s, prev, ']', 0) == {};
  }

  /** Up to i the automaton has not failed exactly when brackets are in turn. */
  lemma {:induction false} CookDepth(s: string, prev: char, inKey: bool, i: nat)
    requires i <= |s|
    ensures Cook(s[..i], inKey, prev).Good? <==> forall j | 0 <= j <= i :: 0 <= Depth(s, prev, inKey, j) <= 1
    ensures Cook(s[..i], inKey, prev).Good? ==> (Cook(s[..i], inKey, prev).inKey <==> Depth(s, prev, inKey, i) == 1)
    decreases i
  {
    if i == 0 {
      DepthStart(s, prev, inKey);
      assert s[..0] == "";
    } else {
      CookDepth(s, prev, inKey, i - 1);
      DepthSnoc(s, prev, inKey, i - 1);
      hide Depth;
      var before, c := s[..i - 1], s[i - 1];
      assert s[..i] == before + [c];
      CookAppend(before, [c], inKey, prev);
      assert LastOr(before, prev) == if i == 1 then prev else s[i - 2];
      if Cook(before, inKey, prev).Good? { CookOne(c, Cook(before, inKey, prev).inKey, LastOr(before, prev)); }
    }
  }

  lemma CookOne(c: char, inKey: bool, prev: char)
    ensures Cook([c], inKey, prev).Good? <==> Step(inKey, prev, c).Some?
    ensures Cook([c], inKey, prev).Good? ==> Cook([c], inKey, prev).inKey == Step(inKey, prev, c).value
  {
    assert [c][1..] == "";
  }

  /** A path is malformed exactly when its unescaped brackets do not open and close
      in turn, or the last one is not closed. */
  lemma MalformedIff(s: string)
    ensures var body := WithSlash(RestOf(s));
      Parse(s) == Err(MalformedXPath) <==> !InTurn(body, NUL, false) || Depth(body, NUL, false, |body|) != 0
  {
    var body := WithSlash(RestOf(s));
    CookDepth(body, NUL, false, |body|);
    assert body[..|body|] == body;
    hide Depth, Cook;
    if Cook(body, false, NUL).Good? { PiecesErrors(Split(Cook(body, false, NUL).text, NUL)); }
  }

  /** The other errors are those of the first element that cannot be parsed: it has
      no name, or its keys are malformed. */
  lemma {:induction false} PiecesErrors(pieces: seq<string>)
    ensures ParsePieces(pieces).Err? ==>
              exists i :: (FirstBad(pieces, i) && pieces[i] != "" &&
                           ParsePieces(pieces).error == if pieces[i][0] == '[' then EmptyPathElemName else MalformedXPathKey)
    decreases |pieces|
  {
    if pieces != [] {
      var first, rest := pieces[0], pieces[1..];
      assert pieces == [first] + rest;
      PiecesHead(first, rest);
      PiecesErrors(rest);
      if first != "" { ElemErrors(first); }
      hide ParsePieces, ParseElem;
      if ParsePieces(pieces).Err? {
        if first != "" && ParseElem(first).Err? {
          assert FirstBad(pieces, 0);
        } else {
          var i :| FirstBad(rest, i) && rest[i] != "" &&
            ParsePieces(rest).error == if rest[i][0] == '[' then EmptyPathElemName else MalformedXPathKey;
          assert pieces[i + 1] == rest[i];
          assert forall j | 0 < j < i + 1 :: pieces[j] == rest[j - 1];
          assert FirstBad(pieces, i + 1);
        }
      }
    }
  }

  ghost predicate FirstBad(pieces: seq<string>, i: int) {
    0 <= i < |pieces| && ParseElem(pieces[i]).Err? && forall j | 0 <= j < i :: pieces[j] == "" || ParseElem(pieces[j]).Ok?
  }

  lemma ElemErrors(s: string)
    requires s != ""
    ensures ParseElem(s).Err? ==> ParseElem(s).error == if s[0] == '[' then EmptyPathElemName else MalformedXPathKey
    ensures s[0] == '[' ==> ParseElem(s).Err?
  {
  }
}
