/** Round trips between path text and path values, with their exact conditions. */
module PathRoundTrip {
  import opened Basics
  import opened PathSyntax
  import opened PathGrammar
  import opened Ordering
  import opened PathPrint

  // ---------------------------------------------------------------------
  // Escaping
  // ---------------------------------------------------------------------

  lemma {:induction false} UnescapeEscape(s: string)
    ensures Unescape(Escape(s)) == s
    ensures Escape(s) != "" ==> s != "" && (IsBracket(s[0]) <==> Escape(s)[0] == '\\' && |Escape(s)| > 1 && IsBracket(Escape(s)[1]))
  {
    if s != "" {
      var t := Escape(s);
      UnescapeEscape(s[1..]);
      assert s == [s[0]] + s[1..];
      if IsBracket(s[0]) {
        assert t[2..] == Escape(s[1..]);
      } else {
        assert t[1..] == Escape(s[1..]);
        if |t| > 1 { assert t[1] == Escape(s[1..])[0]; EscapeHead(s[1..]); }
      }
    }
  }

  lemma EscapeHead(s: string)
    requires Escape(s) != ""
    ensures !IsBracket(Escape(s)[0])
  {
  }

  /** Escaped text has only escaped brackets, and the same other characters. */
  lemma {:induction false} EscapeGood(s: string, prev: char)
    ensures Escaped(Escape(s), prev)
    ensures forall c | c != '\\' :: c in Escape(s) <==> c in s
    ensures s != "" ==> Escape(s) != "" && Escape(s)[|Escape(s)| - 1] == s[|s| - 1]
  {
    if s != "" {
      EscapeGood(s[1..], s[0]);
      assert s == [s[0]] + s[1..];
      var t := Escape(s);
      if IsBracket(s[0]) {
        assert t[1..] == [s[0]] + Escape(s[1..]);
        assert t[1..][1..] == Escape(s[1..]);
      } else {
        assert t[1..] == Escape(s[1..]);
      }
      if s[1..] == "" { assert Escape(s[1..]) == ""; }
    }
  }

  lemma {:induction false} EscapePlain(s: string)
    requires NoBracket(s)
    ensures Escape(s) == s
  {
    if s != "" {
      assert s == [s[0]] + s[1..] && s[0] in s;
      EscapePlain(s[1..]);
    }
  }

  lemma EscapedKeyGood(k: string, v: string)
    requires SoundKey(k, v)
    ensures GoodKey((Escape(k), Escape(v)))
  {
    EscapeGood(k, '[');
    EscapeGood(v, '=');
    var t := Escape(k) + "=";
    EscapedAppend(Escape(k), "=", '[');
    assert "="[1..] == "";
    EscapedAppend(t, Escape(v), '[');
    assert KeyText((Escape(k), Escape(v))) == t + Escape(v);
  }

  // ---------------------------------------------------------------------
  // Escaped printing is a right inverse of the parser
  // ---------------------------------------------------------------------

  ghost function EscapedKeys(order: seq<string>, m: map<string, string>): seq<(string, string)>
    requires forall k | k in order :: k in m
  {
    if order == [] then [] else [(Escape(order[0]), Escape(m[order[0]]))] + EscapedKeys(order[1..], m)
  }

  lemma {:induction false} EscapedKeysGood(order: seq<string>, m: map<string, string>)
    requires forall k | k in order :: k in m && SoundKey(k, m[k])
    ensures forall kv | kv in EscapedKeys(order, m) :: GoodKey(kv)
    ensures RenderKeys(EscapedKeys(order, m)) == KeysText(order, m, true)
  {
    if order != [] {
      EscapedKeyGood(order[0], m[order[0]]);
      EscapedKeysGood(order[1..], m);
      assert EscapedKeys(order, m)[1..] == EscapedKeys(order[1..], m);
    }
  }

  lemma {:induction false} EscapedKeysMeaning(order: seq<string>, m: map<string, string>, base: map<string, string>)
    requires forall k | k in order :: k in m
    ensures var r := KeyMap(EscapedKeys(order, m), base);
      && (forall k :: k in r <==> k in base || k in order)
      && (forall k | k in r :: r[k] == if k in order then m[k] else base[k])
  {
    if order != [] {
      var k, rest := order[0], order[1..];
      UnescapeEscape(k);
      UnescapeEscape(m[k]);
      assert EscapedKeys(order, m)[1..] == EscapedKeys(rest, m);
      EscapedKeysMeaning(rest, m, base[k := m[k]]);
      assert forall x :: x in order <==> x == k || x in rest;
    }
  }

  lemma NoKeys(order: seq<string>, m: map<string, string>)
    requires forall k :: k in order <==> k in m
    ensures order == [] <==> m == map[]
  {
    if order == [] {
      assert m.Keys == {};
      assert m == map[];
    } else {
      assert order[0] in m;
    }
  }

  ghost function RawOf(pe: PathElem): RawElem {
    RawElem(pe.name, EscapedKeys(SortedKeys(pe.key.Keys), pe.key))
  }

  lemma RawOfElem(pe: PathElem)
    requires SoundElem(pe)
    ensures GoodElem(RawOf(pe)) && ElemMeaning(RawOf(pe)) == pe
    ensures RenderElem(RawOf(pe)) == ElemText(pe, false, true)
  {
    var order := SortedKeys(pe.key.Keys);
    EscapedKeysGood(order, pe.key);
    EscapedKeysMeaning(order, pe.key, map[]);
    assert KeyMap(EscapedKeys(order, pe.key), map[]) == pe.key;
    NoKeys(order, pe.key);
  }

  ghost function ItemsOf(elems: seq<PathElem>): seq<Item> {
    if elems == [] then [] else [Item(Some(RawOf(elems[0])), '/')] + ItemsOf(elems[1..])
  }

  lemma {:induction false} ItemsOfGood(elems: seq<PathElem>)
    requires forall pe | pe in elems :: SoundElem(pe)
    ensures forall it | it in ItemsOf(elems) :: GoodItem(it) && it.sep == '/'
    ensures Meaning(ItemsOf(elems)) == elems
  {
    if elems != [] {
      RawOfElem(elems[0]);
      ItemsOfGood(elems[1..]);
      assert ItemsOf(elems)[1..] == ItemsOf(elems[1..]);
      assert [elems[0]] + elems[1..] == elems;
    }
  }

  lemma {:induction false} ItemsOfText(elems: seq<PathElem>)
    requires elems != [] && forall pe | pe in elems :: SoundElem(pe)
    ensures RenderItems(ItemsOf(elems)) == Join(elems, false, true) + "/"
  {
    var text, rest := ElemText(elems[0], false, true), ItemsOf(elems[1..]);
    RawOfElem(elems[0]);
    assert ItemsOf(elems)[1..] == rest;
    assert RenderItem(ItemsOf(elems)[0]) == text + "/";
    if |elems| == 1 {
      assert elems[1..] == [];
    } else {
      ItemsOfText(elems[1..]);
      assert (text + "/") + (Join(elems[1..], false, true) + "/") == Join(elems, false, true) + "/";
    }
  }

  lemma {:induction false} JoinEnd(elems: seq<PathElem>, esc: bool)
    requires elems != [] && forall pe | pe in elems :: SoundElem(pe)
    ensures var t := Join(elems, false, esc); t != "" && t[|t| - 1] != '/'
  {
    assert SoundElem(elems[0]);
    ElemTextEnd(elems[0], esc);
    if |elems| > 1 { JoinEnd(elems[1..], esc); }
  }

  /** A printed element is not empty and does not end in "/". */
  lemma ElemTextEnd(pe: PathElem, esc: bool)
    requires GoodName(pe.name, pe.key != map[])
    ensures var t := ElemText(pe, false, esc); t != "" && t[|t| - 1] != '/'
  {
    KeysTextEnd(SortedKeys(pe.key.Keys), pe.key, esc);
    assert pe.name[|pe.name| - 1] in pe.name;
  }

  lemma {:induction false} KeysTextEnd(order: seq<string>, m: map<string, string>, esc: bool)
    requires forall k | k in order :: k in m
    ensures var t := KeysText(order, m, esc); t != "" ==> t[|t| - 1] == ']'
  {
    if order != [] { KeysTextEnd(order[1..], m, esc); }
  }

  lemma SlashNoOrigin(s: string)
    requires s != "" && s[0] == '/'
    ensures !HasOrigin(s)
  {
    if IndexOf(s, ':') > 0 { assert s[..IndexOf(s, ':')][0] == '/'; }
  }

  /** How a printed absolute path splits into origin and body. */
  lemma AbsoluteSplit(p: Path, esc: bool)
    requires ':' !in p.origin && '/' !in p.origin
    ensures OriginSplit(Absolute(p, esc), p.origin, "/" + Join(p.elem, false, esc))
  {
    var s := Absolute(p, esc);
    var body := "/" + Join(p.elem, false, esc);
    if p.origin == "" {
      assert s == body;
      SlashNoOrigin(s);
      OriginSplitIff(s, "", body);
    } else {
      assert s == p.origin + ":" + body;
      assert AsOrigin(s, p.origin, body);
    }
  }

  lemma ParseEscaped(p: Path)
    requires SoundPath(p)
    ensures Parse(Absolute(p, true)) == Ok(p)
  {
    var rest := "/" + Join(p.elem, false, true);
    var items := [Item(None, '/')] + ItemsOf(p.elem);
    AbsoluteSplit(p, true);
    ItemsOfGood(p.elem);
    BodyText(p.elem);
    assert items[1..] == ItemsOf(p.elem);
    assert [] + Meaning(items[1..]) == Meaning(items[1..]);
    DenotesBy(Absolute(p, true), p, rest, items);
    ParseIffDenotes(Absolute(p, true), p);
  }

  lemma BodyText(elems: seq<PathElem>)
    requires forall pe | pe in elems :: SoundElem(pe)
    ensures RenderItems([Item(None, '/')] + ItemsOf(elems)) == WithSlash("/" + Join(elems, false, true))
  {
    var items := [Item(None, '/')] + ItemsOf(elems);
    assert items[1..] == ItemsOf(elems);
    assert RenderItem(items[0]) == "/";
    if elems == [] {
      assert RenderItems(items[1..]) == "";
    } else {
      ItemsOfText(elems);
      JoinEnd(elems, true);
      assert "/" + (Join(elems, false, true) + "/") == ("/" + Join(elems, false, true)) + "/";
    }
  }

  // ---------------------------------------------------------------------
  // Soundness: every parsed path is sound
  // ---------------------------------------------------------------------

  lemma {:induction false} UnescapeFacts(s: string)
    ensures forall c | c in Unescape(s) :: c in s
    ensures |Unescape(s)| <= |s|
    ensures s != "" ==> Unescape(s) != "" && Unescape(s)[|Unescape(s)| - 1] == s[|s| - 1]
  {
    if |s| >= 2 && s[0] == '\\' && IsBracket(s[1]) {
      UnescapeFacts(s[2..]);
      assert s == [s[0], s[1]] + s[2..];
    } else if s != "" {
      UnescapeFacts(s[1..]);
      assert s == [s[0]] + s[1..];
      if s[1..] == "" { assert Unescape(s[1..]) == ""; }
    }
  }

  lemma {:induction false} KeyMapSound(raw: seq<(string, string)>, base: map<string, string>)
    requires forall kv | kv in raw :: GoodKey(kv)
    requires forall k | k in base :: SoundKey(k, base[k])
    ensures forall k | k in KeyMap(raw, base) :: SoundKey(k, KeyMap(raw, base)[k])
    ensures base.Keys <= KeyMap(raw, base).Keys
    ensures raw != [] ==> KeyMap(raw, base) != map[]
    decreases |raw|
  {
    if raw != [] {
      var (k, v) := raw[0];
      assert GoodKey(raw[0]);
      UnescapeFacts(k);
      UnescapeFacts(v);
      var base' := base[Unescape(k) := Unescape(v)];
      KeyMapSound(raw[1..], base');
      assert Unescape(k) in base';
    }
  }

  lemma {:induction false} MeaningSound(items: seq<Item>)
    requires forall it | it in items :: GoodItem(it)
    ensures forall pe | pe in Meaning(items) :: SoundElem(pe)
  {
    if items != [] {
      assert GoodItem(items[0]);
      MeaningSound(items[1..]);
      if items[0].elem.Some? {
        var e := items[0].elem.value;
        KeyMapSound(e.keys, map[]);
        assert SoundElem(ElemMeaning(e));
      }
    }
  }

  /** A parsed path has non-empty names without "/" and NUL whose brackets are
      escaped, and non-empty keys and values; "/" may stand inside keys. */
  lemma ParseSound(s: string, p: Path)
    requires Parse(s) == Ok(p)
    ensures SoundPath(p)
  {
    ParseIffDenotes(s, p);
    var rest, items :| OriginSplit(s, p.origin, rest) && GoodItems(items)
      && RenderItems(items) == WithSlash(rest) && Meaning(items) == p.elem;
    MeaningSound(items);
  }

  /** The parser recovers exactly the sound paths from their escaped print. */
  lemma EscapedRoundTrip(p: Path)
    ensures Parse(Absolute(p, true)) == Ok(p) <==> SoundPath(p)
  {
    if SoundPath(p) { ParseEscaped(p); }
    if Parse(Absolute(p, true)) == Ok(p) { ParseSound(Absolute(p, true), p); }
  }

  // ---------------------------------------------------------------------
  // Unescaped printing: exactly when it can be read back
  // ---------------------------------------------------------------------

  lemma {:induction false} KeysTextPlain(order: seq<string>, m: map<string, string>)
    requires forall k | k in order :: k in m
    requires PlainMap(m)
    ensures KeysText(order, m, true) == KeysText(order, m, false)
  {
    if order != [] {
      EscapePlain(order[0]);
      EscapePlain(m[order[0]]);
      KeysTextPlain(order[1..], m);
    }
  }

  lemma {:induction false} JoinPlain(elems: seq<PathElem>)
    requires forall pe | pe in elems :: PlainMap(pe.key)
    ensures Join(elems, false, true) == Join(elems, false, false)
  {
    if elems != [] {
      KeysTextPlain(SortedKeys(elems[0].key.Keys), elems[0].key);
      JoinPlain(elems[1..]);
    }
  }

  /** Length of the printed keys of a map, in any order. */
  ghost function KeysWeight(m: map<string, string>): nat
    decreases m.Keys
  {
    if m == map[] then 0
    else var k :| k in m; |k| + |m[k]| + 3 + KeysWeight(m - {k})
  }

  lemma {:induction false} KeysWeightOf(m: map<string, string>, k: string)
    requires k in m
    ensures KeysWeight(m) == |k| + |m[k]| + 3 + KeysWeight(m - {k})
    decreases m.Keys
  {
    var k' :| k' in m && KeysWeight(m) == |k'| + |m[k']| + 3 + KeysWeight(m - {k'});
    if k' != k {
      KeysWeightOf(m - {k'}, k);
      KeysWeightOf(m - {k}, k');
      assert m - {k'} - {k} == m - {k} - {k'};
    }
  }

  lemma {:induction false} KeysTextWeight(order: seq<string>, m: map<string, string>)
    requires Distinct(order) && forall k :: k in order <==> k in m
    ensures |KeysText(order, m, false)| == KeysWeight(m)
    decreases order
  {
    if order == [] {
      NoKeys(order, m);
    } else {
      var k := order[0];
      var rest := order[1..];
      assert order == [k] + rest;
      KeysWeightOf(m, k);
      forall x ensures x in rest <==> x in m - {k} {
        if x in rest { var i :| 0 <= i < |rest| && rest[i] == x; assert order[i + 1] == x; }
      }
      assert forall i, j | 0 <= i < j < |rest| :: rest[i] == order[i + 1] && rest[j] == order[j + 1];
      KeysTextWeight(rest, m - {k});
      KeysTextSub(rest, m, m - {k});
    }
  }

  lemma {:induction false} KeysTextSub(order: seq<string>, m: map<string, string>, m': map<string, string>)
    requires forall k | k in order :: k in m && k in m' && m[k] == m'[k]
    ensures KeysText(order, m, false) == KeysText(order, m', false)
  {
    if order != [] { KeysTextSub(order[1..], m, m'); }
  }

  /** Reading an escaped bracket makes the text shorter. */
  lemma {:induction false} UnescapeShrinks(s: string, prev: char)
    requires Escaped(s, prev)
    requires prev == '\\' ==> s == "" || !IsBracket(s[0])
    requires !NoBracket(Unescape(s))
    ensures |Unescape(s)| < |s|
  {
    if |s| >= 2 && s[0] == '\\' && IsBracket(s[1]) {
      UnescapeFacts(s[2..]);
    } else if s != "" {
      assert Unescape(s) == [s[0]] + Unescape(s[1..]);
      UnescapeShrinks(s[1..], s[0]);
    }
  }

  lemma {:induction false} KeyMapWeight(raw: seq<(string, string)>, base: map<string, string>)
    requires forall kv | kv in raw :: GoodKey(kv)
    ensures KeysWeight(KeyMap(raw, base)) <= KeysWeight(base) + |RenderKeys(raw)|
    ensures PlainMap(base) && !PlainMap(KeyMap(raw, base))
        ==> KeysWeight(KeyMap(raw, base)) < KeysWeight(base) + |RenderKeys(raw)|
    decreases |raw|
  {
    if raw != [] {
      var (k, v) := raw[0];
      assert GoodKey(raw[0]);
      var k', v' := Unescape(k), Unescape(v);
      UnescapeFacts(k);
      UnescapeFacts(v);
      var t := k + "=";
      assert KeyText(raw[0]) == t + v;
      EscapedAppend(t, v, '[');
      EscapedAppend(k, "=", '[');
      if !NoBracket(k') { UnescapeShrinks(k, '['); }
      if !NoBracket(v') { UnescapeShrinks(v, '='); }
      var base' := base[k' := v'];
      KeysWeightOf(base', k');
      assert base' - {k'} == base - {k'};
      if k' in base { KeysWeightOf(base, k'); } else { assert base - {k'} == base; }
      KeyMapWeight(raw[1..], base');
      assert |BracketText(KeyText(raw[0]))| == |k| + |v| + 3;
    }
  }

  ghost function Weight(elems: seq<PathElem>): nat {
    if elems == [] then 0 else |ElemText(elems[0], false, false)| + 1 + Weight(elems[1..])
  }

  lemma {:induction false} JoinWeight(elems: seq<PathElem>)
    ensures elems != [] ==> |Join(elems, false, false)| + 1 == Weight(elems)
  {
    if elems != [] {
      JoinWeight(elems[1..]);
      if |elems| == 1 { assert elems[1..] == []; }
    }
  }

  lemma {:induction false} MeaningWeight(items: seq<Item>)
    requires forall it | it in items :: GoodItem(it)
    ensures Weight(Meaning(items)) <= |RenderItems(items)|
    ensures (exists pe :: pe in Meaning(items) && !PlainMap(pe.key)) ==> Weight(Meaning(items)) < |RenderItems(items)|
  {
    if items != [] {
      assert GoodItem(items[0]);
      MeaningWeight(items[1..]);
      if items[0].elem.Some? {
        var e := items[0].elem.value;
        var pe := ElemMeaning(e);
        KeyMapWeight(e.keys, map[]);
        SortedKeysDistinct(pe.key.Keys);
        KeysTextWeight(SortedKeys(pe.key.Keys), pe.key);
        assert Meaning(items) == [pe] + Meaning(items[1..]);
        assert Meaning(items)[1..] == Meaning(items[1..]);
      } else {
        assert Meaning(items) == Meaning(items[1..]);
      }
    }
  }

  /** A body that starts with an element does not start with "/". */
  lemma FirstItemText(items: seq<Item>)
    requires GoodItems(items)
    ensures items[0].elem.Some? ==> RenderItems(items)[0] != '/'
  {
    assert GoodItem(items[0]);
    if items[0].elem.Some? {
      var name := items[0].elem.value.name;
      assert RenderItems(items)[0] == name[0] && name[0] in name;
    }
  }

  lemma PrintedPlain(p: Path)
    requires SoundPath(p) && Parse(Absolute(p, false)) == Ok(p)
    ensures PlainKeys(p)
  {
    var s := Absolute(p, false);
    ParseIffDenotes(s, p);
    var rest, items :| OriginSplit(s, p.origin, rest) && GoodItems(items)
      && RenderItems(items) == WithSlash(rest) && Meaning(items) == p.elem;
    AbsoluteSplit(p, false);
    OriginSplitIff(s, p.origin, rest);
    OriginSplitIff(s, p.origin, "/" + Join(p.elem, false, false));
    assert rest == "/" + Join(p.elem, false, false);
    FirstItemText(items);
    MeaningWeight(items[1..]);
    assert [] + Meaning(items[1..]) == Meaning(items[1..]);
    JoinWeight(p.elem);
    assert |RenderItems(items)| == 1 + |RenderItems(items[1..])|;
  }

  /** Printing a path and parsing the text gives the path back exactly when the
      path is sound and no key name or value holds a bracket. */
  lemma PrintRoundTrip(p: Path)
    ensures Parse(Absolute(p, false)) == Ok(p) <==> SoundPath(p) && PlainKeys(p)
  {
    if SoundPath(p) && PlainKeys(p) {
      JoinPlain(p.elem);
      ParseEscaped(p);
    }
    if Parse(Absolute(p, false)) == Ok(p) {
      ParseSound(Absolute(p, false), p);
      PrintedPlain(p);
    }
  }

  // ---------------------------------------------------------------------
  // Accepted text
  // ---------------------------------------------------------------------

  /** The canonical form of an accepted string reads back to the same path
      exactly when no key name or value of the path holds a bracket. */
  lemma CanonicalRoundTrip(s: string, p: Path)
    requires Parse(s) == Ok(p)
    ensures Parse(Absolute(p, false)) == Ok(p) <==> PlainKeys(p)
  {
    ParseSound(s, p);
    PrintRoundTrip(p);
  }

  lemma {:induction false} EscapedNoBackslash(t: string, prev: char)
    requires Escaped(t, prev) && prev != '\\' && '\\' !in t
    ensures NoBracket(t)
  {
    if t != "" {
      assert t == [t[0]] + t[1..] && t[0] in t;
      EscapedNoBackslash(t[1..], t[0]);
    }
  }

  lemma {:induction false} KeyMapNoBackslash(raw: seq<(string, string)>, base: map<string, string>)
    requires forall kv | kv in raw :: GoodKey(kv)
    requires '\\' !in RenderKeys(raw) && PlainMap(base)
    ensures PlainMap(KeyMap(raw, base))
    decreases |raw|
  {
    if raw != [] {
      var (k, v) := raw[0];
      assert GoodKey(raw[0]);
      EscapedNoBackslash(KeyText(raw[0]), '[');
      UnescapeFacts(k);
      UnescapeFacts(v);
      KeyMapNoBackslash(raw[1..], base[Unescape(k) := Unescape(v)]);
    }
  }

  lemma {:induction false} MeaningNoBackslash(items: seq<Item>)
    requires forall it | it in items :: GoodItem(it)
    requires '\\' !in RenderItems(items)
    ensures forall pe | pe in Meaning(items) :: PlainMap(pe.key)
  {
    if items != [] {
      assert GoodItem(items[0]);
      MeaningNoBackslash(items[1..]);
      if items[0].elem.Some? { KeyMapNoBackslash(items[0].elem.value.keys, map[]); }
    }
  }

  /** Text without a backslash always survives the round trip. */
  lemma NoBackslashRoundTrip(s: string, p: Path)
    requires Parse(s) == Ok(p) && '\\' !in s
    ensures Parse(Absolute(p, false)) == Ok(p)
  {
    ParseIffDenotes(s, p);
    var rest, items :| OriginSplit(s, p.origin, rest) && GoodItems(items)
      && RenderItems(items) == WithSlash(rest) && Meaning(items) == p.elem;
    OriginSplitIff(s, p.origin, rest);
    MeaningNoBackslash(items);
    CanonicalRoundTrip(s, p);
  }

  lemma BracketPath(p: Path, m: map<string, string>)
    requires m == map["k" := "a]"] && p == Path("", [PathElem("e", m)])
    ensures SoundPath(p) && !PlainKeys(p)
  {
    assert "e"[1..] == "";
    assert SoundKey("k", "a]");
    assert SoundElem(p.elem[0]);
    assert m["k"][1] == ']';
    assert !PlainMap(p.elem[0].key);
  }

  /** The path e[k=a\]] is one the printed form cannot carry: the printer leaves
      the bracket of the value bare. */
  lemma EscapedBracketLost(p: Path, m: map<string, string>)
    requires m == map["k" := "a]"] && p == Path("", [PathElem("e", m)])
    ensures Parse(Absolute(p, true)) == Ok(p) && Parse(Absolute(p, false)) != Ok(p)
  {
    BracketPath(p, m);
    EscapedRoundTrip(p);
    PrintRoundTrip(p);
  }
}
