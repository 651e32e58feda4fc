/** The parser and printer as the source runs them: loops over one string. */
module PathParser {
  import opened Basics
  import opened PathSyntax
  import opened Ordering
  import opened PathPrint

  /** What is still to be added to the keys collected so far. */
  ghost function Finish(more: Option<seq<(string, string)>>, kvs: map<string, string>): Result<map<string, string>> {
    match more
    case None => Err(MalformedXPathKey)
    case Some(raw) => Ok(KeyMap(raw, kvs))
  }

  method ParseXPathKeys(s: string) returns (r: Result<map<string, string>>)
    ensures r == ParseKeys(s)
  {
    hide Unescape, KeyMap, IndexOf;
    FinishNone(map[]);
    if |s| == 0 { return Ok(map[]); }
    var kvs: map<string, string> := map[];
    var inKey, start, prevRune := false, 0, NUL;
    for i := 0 to |s|
      invariant start <= i
      invariant prevRune == '\\' ==> inKey
      invariant Finish(RawKeys(s[i..], inKey, if inKey then s[start..i] else "", prevRune), kvs) == ParseKeys(s)
    {
      var c := s[i];
      assert s[i..][1..] == s[i + 1..];
      assert inKey ==> s[start..i] + [c] == s[start..i + 1];
      if c == '[' {
        if prevRune == '\\' {
          prevRune := c;
          continue;
        }
        if inKey { return Err(MalformedXPathKey); }
        inKey := true;
        start := i + 1;
        assert s[start..i + 1] == "";
      } else if c == ']' {
        if prevRune == '\\' {
          prevRune := c;
          continue;
        }
        if !inKey { return Err(MalformedXPathKey); }
        var text := s[start..i];
        var eq := IndexOf(text, '=');
        if eq == |text| { return Err(MalformedXPathKey); }
        var k, v := text[..eq], text[eq + 1..];
        if |k| == 0 || |v| == 0 { return Err(MalformedXPathKey); }
        AddOne((k, v), s[i + 1..], kvs);
        kvs := kvs[Unescape(k) := Unescape(v)];
        inKey := false;
      } else {
        if !inKey { return Err(MalformedXPathKey); }
      }
      prevRune := c;
    }
    if inKey { return Err(MalformedXPathKey); }
    FinishNone(kvs);
    return Ok(kvs);
  }

  lemma FinishNone(kvs: map<string, string>)
    ensures Finish(Some([]), kvs) == Ok(kvs)
  {
  }

  lemma AddOne(kv: (string, string), rest: string, kvs: map<string, string>)
    ensures var more := RawKeys(rest, false, "", ']');
      Finish(if more.None? then None else Some([kv] + more.value), kvs)
      == Finish(more, kvs[Unescape(kv.0) := Unescape(kv.1)])
  {
    var more := RawKeys(rest, false, "", ']');
    if more.Some? { assert ([kv] + more.value)[1..] == more.value; }
  }

  method ToPathElem(s: string) returns (r: Result<PathElem>)
    ensures r == ParseElem(s)
  {
    var idx, prevC := -1, NUL;
    var i := 0;
    while i < |s|
      invariant i <= |s|
      invariant idx == -1
      invariant i + OpenBracket(s[i..], prevC) == OpenBracket(s, NUL)
    {
      if s[i] == '[' && prevC != '\\' {
        idx := i;
        break;
      }
      assert s[i..][1..] == s[i + 1..];
      prevC := s[i];
      i := i + 1;
    }
    var name, kvs := s, map[];
    if idx > 0 {
      var keys := ParseXPathKeys(s[idx..]);
      if keys.Err? { return Err(keys.error); }
      kvs := keys.value;
      name := s[..idx];
    } else if idx == 0 {
      return Err(EmptyPathElemName);
    }
    if name == "" { return Err(EmptyPathElemName); }
    return Ok(PathElem(name, kvs));
  }

  ghost function Extend(buffer: string, more: Cooked): Cooked {
    match more
    case Bad => Bad
    case Good(text, inKey) => Good(buffer + text, inKey)
  }

  ghost function Appended(elems: seq<PathElem>, more: Result<seq<PathElem>>): Result<seq<PathElem>> {
    match more
    case Err(e) => Err(e)
    case Ok(rest) => Ok(elems + rest)
  }

  method ToPathElems(path: string) returns (r: Result<seq<PathElem>>)
    ensures r == ParseElems(path)
  {
    hide Split, ParsePieces;
    var p := path;
    if p == "" || p[|p| - 1] != '/' { p := p + "/"; }
    var buffer, prevC, inKey := "", NUL, false;
    for i := 0 to |p|
      invariant Extend(buffer, Cook(p[i..], inKey, prevC)) == Cook(p, false, NUL)
    {
      var c := p[i];
      assert p[i..][1..] == p[i + 1..];
      var out := c;
      if c == '[' {
        if inKey && prevC != '\\' { return Err(MalformedXPath); }
        if prevC != '\\' { inKey := true; }
      } else if c == ']' {
        if !inKey && prevC != '\\' { return Err(MalformedXPath); }
        if prevC != '\\' { inKey := false; }
      } else if c == '/' && !inKey {
        out := NUL;
      }
      ExtendOne(buffer, out, Cook(p[i + 1..], inKey, c));
      buffer := buffer + [out];
      prevC := c;
    }
    assert buffer + "" == buffer;
    if inKey { return Err(MalformedXPath); }
    r := ToPathElemList(Split(buffer, NUL));
  }

  method ToPathElemList(stringElems: seq<string>) returns (r: Result<seq<PathElem>>)
    ensures r == ParsePieces(stringElems)
  {
    var pElems := [];
    AppendNone(ParsePieces(stringElems));
    assert stringElems[0..] == stringElems;
    for i := 0 to |stringElems|
      invariant Appended(pElems, ParsePieces(stringElems[i..])) == ParsePieces(stringElems)
    {
      assert stringElems[i..][1..] == stringElems[i + 1..];
      if stringElems[i] == "" { continue; }
      var pe := ToPathElem(stringElems[i]);
      if pe.Err? { return Err(pe.error); }
      AppendOne(pElems, pe.value, ParsePieces(stringElems[i + 1..]));
      pElems := pElems + [pe.value];
    }
    assert pElems + [] == pElems;
    return Ok(pElems);
  }

  lemma ExtendOne(buffer: string, c: char, more: Cooked)
    ensures Extend(buffer + [c], more) == Extend(buffer, Extend([c], more))
  {
    if more.Good? { assert (buffer + [c]) + more.text == buffer + ([c] + more.text); }
  }

  lemma AppendNone(more: Result<seq<PathElem>>)
    ensures Appended([], more) == more
  {
    if more.Ok? { assert [] + more.value == more.value; }
  }

  lemma AppendOne(elems: seq<PathElem>, pe: PathElem, more: Result<seq<PathElem>>)
    ensures Appended(elems + [pe], more) == Appended(elems, Appended([pe], more))
  {
    if more.Ok? { assert (elems + [pe]) + more.value == elems + ([pe] + more.value); }
  }

  lemma ParseEmpty()
    ensures Parse("") == Ok(Path("", []))
  {
    assert "/"[1..] == "" && [NUL][1..] == "";
    assert Cook("/", false, NUL) == Good([NUL], false);
    assert Split([NUL], NUL) == ["", ""];
    assert ["", ""][1..] == [""] && [""][1..] == [];
  }

  method ParsePath(path: string) returns (r: Result<Path>)
    ensures r == Parse(path)
  {
    var p := path;
    if |p| == 0 {
      ParseEmpty();
      return Ok(Path("", []));
    }
    var origin := "";
    var idx := IndexOf(p, ':');
    if idx < |p| && p[0] != '/' && '/' !in p[..idx]
       && ((idx + 1 < |p| && p[idx + 1] == '/') || |p| == idx + 1) {
      origin := p[..idx];
      p := p[idx + 1..];
    }
    assert path[0] == '/' && idx < |path| ==> idx > 0 && path[..idx][0] == '/';
    var pes := ToPathElems(p);
    if pes.Err? { return Err(pes.error); }
    return Ok(Path(origin, pes.value));
  }

  function WriteKey(sb: string, k: string, v: string): string { sb + "[" + k + "=" + v + "]" }

  /** The keys of one element, in sorted order. */
  method WriteKeys(sb: string, m: map<string, string>) returns (out: string)
    ensures out == sb + KeysText(SortedKeys(m.Keys), m, false)
  {
    var keys := SortStrings(m.Keys);
    out := sb;
    for j := 0 to |keys|
      invariant out + KeysText(keys[j..], m, false) == sb + KeysText(keys, m, false)
    {
      assert keys[j..][1..] == keys[j + 1..];
      WriteOne(out, keys[j], m[keys[j]], KeysText(keys[j + 1..], m, false));
      out := WriteKey(out, keys[j], m[keys[j]]);
    }
    assert out + "" == out;
  }

  method GnmiPathToXPath(p: Path, noKeys: bool) returns (sb: string)
    ensures sb == Print(p, noKeys)
  {
    sb := if p.origin != "" then p.origin + ":/" else "";
    ghost var head := sb;
    var numElems := |p.elem|;
    assert p.elem[0..] == p.elem;
    for i := 0 to numElems
      invariant sb + Join(p.elem[i..], noKeys, false) == head + Join(p.elem, noKeys, false)
    {
      var pe := p.elem[i];
      ghost var before := sb;
      JoinStep(before, p.elem[i..], noKeys);
      assert p.elem[i..][1..] == p.elem[i + 1..];
      sb := sb + pe.name;
      if !noKeys {
        sb := WriteKeys(sb, pe.key);
      }
      ElemWritten(before, pe, noKeys, sb);
      if i + 1 != numElems { sb := sb + "/"; }
    }
    assert sb + "" == sb;
  }

  lemma WriteOne(sb: string, k: string, v: string, rest: string)
    ensures WriteKey(sb, k, v) + rest == sb + (BracketText(KeyText(Written(false, (k, v)))) + rest)
  {
    assert WriteKey(sb, k, v) == sb + BracketText(KeyText((k, v)));
  }

  lemma ElemWritten(before: string, pe: PathElem, noKeys: bool, sb: string)
    requires noKeys ==> sb == before + pe.name
    requires !noKeys ==> sb == (before + pe.name) + KeysText(SortedKeys(pe.key.Keys), pe.key, false)
    ensures sb == before + ElemText(pe, noKeys, false)
  {
    var keys := if noKeys then "" else KeysText(SortedKeys(pe.key.Keys), pe.key, false);
    assert (before + pe.name) + keys == before + (pe.name + keys);
  }

  /** One round of the printer's loop. */
  lemma JoinStep(before: string, elems: seq<PathElem>, noKeys: bool)
    requires elems != []
    ensures var sb := before + ElemText(elems[0], noKeys, false);
      before + Join(elems, noKeys, false)
      == (if |elems| == 1 then sb else sb + "/") + Join(elems[1..], noKeys, false)
  {
    Regroup(before, ElemText(elems[0], noKeys, false), Join(elems[1..], noKeys, false));
    if |elems| == 1 { assert elems[1..] == []; }
  }

  lemma Regroup(a: string, b: string, c: string)
    ensures a + (b + "/" + c) == (a + b + "/") + c
    ensures a + b == (a + b) + ""
  {
  }
}
