/** Names of event paths (pkg/formatters/event.go) as paths: the name of a path is
    its text without keys, and prefix and path are joined as paths are. */
module EventPaths {
  import opened Basics
  import opened PathSyntax
  import opened PathPrint
  import opened PathRoundTrip
  import opened PathPieces
  import opened EventTags

  lemma {:induction false} JoinSnoc(elems: seq<PathElem>, pe: PathElem)
    ensures Join(elems + [pe], true, false) == (if elems == [] then "" else Join(elems, true, false) + "/") + pe.name
  {
    assert pe.name + "" == pe.name;
    if elems == [] {
      assert elems + [pe] == [pe];
    } else {
      var first, rest := elems[0], elems[1..];
      var all := elems + [pe];
      assert first.name + "" == first.name;
      assert all[1..] == rest + [pe];
      JoinSnoc(rest, pe);
      if rest == [] {
        assert elems == [first];
      } else {
        var x := Join(rest, true, false);
        assert first.name + "/" + (x + "/" + pe.name) == (first.name + "/" + x) + "/" + pe.name;
      }
    }
  }

  /** Behind a "/", the name is the print without keys. */
  lemma {:induction false} ElemsNameIs(elems: seq<PathElem>)
    requires Named(elems)
    ensures ElemsName(elems) == if elems == [] then "" else "/" + Join(elems, true, false)
  {
    if elems != [] {
      var before, pe := elems[..|elems| - 1], elems[|elems| - 1];
      assert elems == before + [pe] && pe in elems;
      assert Named(before) by { assert forall x | x in before :: x in elems; }
      ElemsNameIs(before);
      JoinSnoc(before, pe);
      var x := Join(before, true, false);
      assert before != [] ==> ("/" + x) + ("/" + pe.name) == "/" + ((x + "/") + pe.name);
    }
  }

  lemma StrippedSound(p: Path)
    requires SoundPath(p)
    ensures SoundPath(Path(p.origin, Stripped(p.elem))) && PlainKeys(Path(p.origin, Stripped(p.elem)))
    ensures Named(p.elem)
  {
    var r := Stripped(p.elem);
    forall pe | pe in r ensures SoundElem(pe) && PlainMap(pe.key) {
      var i :| 0 <= i < |r| && r[i] == pe;
      assert p.elem[i] in p.elem && SoundElem(p.elem[i]);
    }
    forall pe | pe in p.elem ensures pe.name != "" && '/' !in pe.name { assert SoundElem(pe); }
  }

  lemma NameIsText(p: Path)
    requires Named(p.elem) && p.elem != []
    ensures PathName(p) == Absolute(Path(p.origin, Stripped(p.elem)), false)
  {
    ElemsNameIs(p.elem);
    JoinStripped(p.elem);
    hide Join, ElemsName, Stripped;
    var text := Join(Stripped(p.elem), false, false);
    if p.origin == "" {
      assert "" + ("/" + text) == "/" + ("" + text);
    } else {
      assert p.origin + ":" + ("/" + text) == "" + (p.origin + ":/" + text);
    }
  }

  /** The name of a path, parsed, gives its origin and its elements without their
      keys. */
  lemma PathNameParses(p: Path)
    requires SoundPath(p) && p.elem != []
    ensures Parse(PathName(p)) == Ok(Path(p.origin, Stripped(p.elem)))
  {
    StrippedSound(p);
    hide *;
    NameIsText(p);
    PrintRoundTrip(Path(p.origin, Stripped(p.elem)));
  }

  lemma {:induction false} ElemsNameAppend(a: seq<PathElem>, b: seq<PathElem>)
    ensures ElemsName(a + b) == ElemsName(a) + ElemsName(b)
  {
    if b == [] {
      assert a + b == a && ElemsName(a) + "" == ElemsName(a);
    } else {
      var c, last := b[..|b| - 1], b[|b| - 1];
      assert (a + b)[..|a + b| - 1] == a + c;
      ElemsNameAppend(a, c);
      var t := if last.name != "" then "/" + last.name else "";
      assert (ElemsName(a) + ElemsName(c)) + t == ElemsName(a) + (ElemsName(c) + t);
    }
  }

  /** The path of an event is the name of prefix and path as one path. */
  lemma EventPathIs(prefix: Path, p: Path)
    requires Named(prefix.elem) && Named(p.elem) && p.elem != [] && p.origin == ""
    ensures EventPath(PathName(prefix), PathName(p)) == PathName(Path(prefix.origin, prefix.elem + p.elem))
  {
    hide *;
    var a, b, c := PathName(prefix), Join(p.elem, true, false), ElemsName(prefix.elem);
    var o := if prefix.origin != "" then prefix.origin + ":" else "";
    ElemsNameAppend(prefix.elem, p.elem);
    ElemsNameIs(p.elem);
    FirstNotSlash(p.elem);
    LastNotSlash(prefix);
    NameParts(prefix.origin, prefix.elem);
    NameParts("", p.elem);
    NameParts(prefix.origin, prefix.elem + p.elem);
    Joined(a, b);
    assert p == Path("", p.elem) && prefix == Path(prefix.origin, prefix.elem);
    assert "" + ("/" + b) == "/" + b;
    assert (o + c) + ("/" + b) == o + (c + ("/" + b));
  }

  lemma NameParts(origin: string, elems: seq<PathElem>)
    ensures PathName(Path(origin, elems)) == (if origin != "" then origin + ":" else "") + ElemsName(elems)
  {
  }

  lemma Joined(a: string, b: string)
    requires b != "" && b[0] != '/' && (a == "" || a[|a| - 1] != '/')
    ensures EventPath(a, "/" + b) == a + ("/" + b)
  {
    assert ("/" + b)[1..] == b && TrimLeft(b) == b && TrimLeft("/" + b) == b;
    assert TrimRight(a) == a;
    assert a + "/" + b == a + ("/" + b);
  }

  lemma FirstNotSlash(elems: seq<PathElem>)
    requires Named(elems) && elems != []
    ensures Join(elems, true, false) != "" && Join(elems, true, false)[0] != '/'
  {
    var pe := elems[0];
    assert pe in elems && pe.name[0] in pe.name;
    assert pe.name + "" == pe.name;
  }

  lemma LastNotSlash(p: Path)
    requires Named(p.elem)
    ensures PathName(p) == "" || PathName(p)[|PathName(p)| - 1] != '/'
  {
    if p.elem != [] {
      var pe := p.elem[|p.elem| - 1];
      assert pe in p.elem && pe.name[|pe.name| - 1] in pe.name;
    }
  }
}
