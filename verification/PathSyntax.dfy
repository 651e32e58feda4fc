/** gNMI paths in their text form (pkg/api/path/path.go).

    The module gives the values the parser produces, the parser written as
    functions (one per scanner of the source), and an independent grammar that
    says which strings denote which paths. */
module PathSyntax {
  import opened Basics

  datatype PathElem = PathElem(name: string, key: map<string, string>)

  datatype Path = Path(origin: string, elem: seq<PathElem>)

  datatype Error = MalformedXPath | MalformedXPathKey | EmptyPathElemName

  datatype Result<+T> = Ok(value: T) | Err(error: Error)

  const NUL: char := '\0'

  predicate IsBracket(c: char) { c == '[' || c == ']' }

  /** The character before position |s| when `prev` stood before s. */
  function LastOr(s: string, prev: char): char {
    if s == "" then prev else s[|s| - 1]
  }

  // ---------------------------------------------------------------------
  // The scanners of the source
  // ---------------------------------------------------------------------

  /** One step of the bracket automaton: the new "inside a key" flag, or None
      on an unescaped bracket that does not fit. */
  function Step(inKey: bool, prev: char, c: char): Option<bool> {
    if prev == '\\' then Some(inKey)
    else if c == '[' then (if inKey then None else Some(true))
    else if c == ']' then (if inKey then Some(false) else None)
    else Some(inKey)
  }

  datatype Cooked = Bad | Good(text: string, inKey: bool)

  /** The first pass: separators outside keys become NUL. */
  function Cook(s: string, inKey: bool, prev: char): Cooked {
    if s == "" then Good("", inKey)
    else
      match Step(inKey, prev, s[0])
      case None => Bad
      case Some(k) =>
        match Cook(s[1..], k, s[0])
        case Bad => Bad
        case Good(rest, k') => Good([if s[0] == '/' && !inKey then NUL else s[0]] + rest, k')
  }

  /** strings.Index for one character; |s| stands for "not found". */
  function IndexOf(s: string, c: char): (i: nat)
    ensures i <= |s|
    ensures c !in s[..i]
    ensures i < |s| ==> s[i] == c
  {
    if s == "" || s[0] == c then 0
    else
      var i := 1 + IndexOf(s[1..], c);
      assert s[..i] == [s[0]] + s[1..][..i - 1];
      i
  }

  /** strings.Split for a one-character separator. */
  function Split(s: string, sep: char): (pieces: seq<string>)
    ensures |pieces| > 0
    decreases |s|
  {
    var i := IndexOf(s, sep);
    if i == |s| then [s] else [s[..i]] + Split(s[i + 1..], sep)
  }

  /** Index of the first '[' not preceded by a backslash; |s| if there is none. */
  function OpenBracket(s: string, prev: char): (i: nat)
    ensures i <= |s|
  {
    if s == "" || (s[0] == '[' && prev != '\\') then 0
    else 1 + OpenBracket(s[1..], s[0])
  }

  /** The key/value text of one bracket, cut at its first "=". */
  function SplitKey(text: string): Option<(string, string)> {
    var eq := IndexOf(text, '=');
    if eq == |text| || eq == 0 || eq + 1 == |text| then None
    else Some((text[..eq], text[eq + 1..]))
  }

  /** The bracketed keys of an element, still escaped, in text order. `cur` is
      the text since the last opening bracket. */
  function RawKeys(s: string, inKey: bool, cur: string, prev: char): Option<seq<(string, string)>> {
    if s == "" then (if inKey then None else Some([]))
    else
      var c := s[0];
      if IsBracket(c) && prev == '\\' then RawKeys(s[1..], inKey, cur + [c], c)
      else if c == '[' then (if inKey then None else RawKeys(s[1..], true, "", c))
      else if c == ']' then
        if !inKey then None
        else
          match SplitKey(cur)
          case None => None
          case Some(kv) =>
            match RawKeys(s[1..], false, "", c)
            case None => None
            case Some(rest) => Some([kv] + rest)
      else if !inKey then None
      else RawKeys(s[1..], inKey, cur + [c], c)
  }

  /** The replacer of the source: a backslash before a bracket is dropped. */
  function Unescape(s: string): string {
    if |s| >= 2 && s[0] == '\\' && IsBracket(s[1]) then [s[1]] + Unescape(s[2..])
    else if s == "" then ""
    else [s[0]] + Unescape(s[1..])
  }

  /** Key map of a raw key list; a repeated key keeps its last value. */
  function KeyMap(raw: seq<(string, string)>, base: map<string, string>): map<string, string>
    decreases |raw|
  {
    if raw == [] then base
    else KeyMap(raw[1..], base[Unescape(raw[0].0) := Unescape(raw[0].1)])
  }

  function ParseKeys(s: string): Result<map<string, string>> {
    match RawKeys(s, false, "", NUL)
    case None => Err(MalformedXPathKey)
    case Some(raw) => Ok(KeyMap(raw, map[]))
  }

  function ParseElem(s: string): Result<PathElem> {
    var i := OpenBracket(s, NUL);
    if i == 0 then Err(EmptyPathElemName)
    else if i == |s| then Ok(PathElem(s, map[]))
    else
      match ParseKeys(s[i..])
      case Err(e) => Err(e)
      case Ok(kvs) => Ok(PathElem(s[..i], kvs))
  }

  /** Empty pieces are skipped; the first failing piece decides the error. */
  function ParsePieces(pieces: seq<string>): Result<seq<PathElem>>
    decreases |pieces|
  {
    if pieces == [] then Ok([])
    else if pieces[0] == "" then ParsePieces(pieces[1..])
    else
      match ParseElem(pieces[0])
      case Err(e) => Err(e)
      case Ok(pe) =>
        match ParsePieces(pieces[1..])
        case Err(e) => Err(e)
        case Ok(rest) => Ok([pe] + rest)
  }

  function WithSlash(s: string): string {
    if s != "" && s[|s| - 1] == '/' then s else s + "/"
  }

  function ParseElems(s: string): Result<seq<PathElem>> {
    match Cook(WithSlash(s), false, NUL)
    case Bad => Err(MalformedXPath)
    case Good(text, inKey) =>
      if inKey then Err(MalformedXPath) else ParsePieces(Split(text, NUL))
  }

  /** An origin is a prefix up to the first ":" that holds no "/" and is
      followed by "/" or by nothing. */
  predicate HasOrigin(s: string) {
    var i := IndexOf(s, ':');
    i < |s| && '/' !in s[..i] && (i + 1 == |s| || s[i + 1] == '/')
  }

  function Parse(s: string): Result<Path> {
    var i := IndexOf(s, ':');
    var origin := if HasOrigin(s) then s[..i] else "";
    match ParseElems(if HasOrigin(s) then s[i + 1..] else s)
    case Err(e) => Err(e)
    case Ok(elems) => Ok(Path(origin, elems))
  }

  // ---------------------------------------------------------------------
  // The grammar: which strings denote which paths
  // ---------------------------------------------------------------------

  /** An element as written: a name and bracketed keys, escapes included. */
  datatype RawElem = RawElem(name: string, keys: seq<(string, string)>)

  /** A possibly empty element followed by the separator that ends it. */
  datatype Item = Item(elem: Option<RawElem>, sep: char)

  /** Every bracket of t follows a backslash; `prev` stands before t. */
  ghost predicate Escaped(t: string, prev: char) {
    t != "" ==> (IsBracket(t[0]) ==> prev == '\\') && Escaped(t[1..], t[0])
  }

  ghost predicate GoodKey(kv: (string, string)) {
    && kv.0 != "" && kv.1 != "" && '=' !in kv.0
    && NUL !in kv.0 && NUL !in kv.1
    && Escaped(KeyText(kv), '[')
    && kv.1[|kv.1| - 1] != '\\'
  }

  ghost predicate GoodName(name: string, hasKeys: bool) {
    && name != "" && '/' !in name && NUL !in name
    && Escaped(name, '/')
    && (hasKeys ==> name[|name| - 1] != '\\')
  }

  ghost predicate GoodElem(e: RawElem) {
    GoodName(e.name, e.keys != []) && forall kv | kv in e.keys :: GoodKey(kv)
  }

  ghost predicate GoodItem(it: Item) {
    (it.sep == '/' || it.sep == NUL) && (it.elem.Some? ==> GoodElem(it.elem.value))
  }

  /** The text of a path body: it ends in "/". */
  ghost predicate GoodItems(items: seq<Item>) {
    && items != [] && items[|items| - 1].sep == '/'
    && forall it | it in items :: GoodItem(it)
  }

  function KeyText(kv: (string, string)): string { kv.0 + "=" + kv.1 }

  function BracketText(text: string): string { "[" + text + "]" }

  ghost function RenderKeys(keys: seq<(string, string)>): string {
    if keys == [] then "" else BracketText(KeyText(keys[0])) + RenderKeys(keys[1..])
  }

  ghost function RenderElem(e: RawElem): string { e.name + RenderKeys(e.keys) }

  ghost function RenderItem(it: Item): string {
    (if it.elem.Some? then RenderElem(it.elem.value) else "") + [it.sep]
  }

  ghost function RenderItems(items: seq<Item>): string {
    if items == [] then "" else RenderItem(items[0]) + RenderItems(items[1..])
  }

  ghost function ElemMeaning(e: RawElem): PathElem { PathElem(e.name, KeyMap(e.keys, map[])) }

  ghost function Meaning(items: seq<Item>): seq<PathElem> {
    if items == [] then []
    else (if items[0].elem.Some? then [ElemMeaning(items[0].elem.value)] else []) + Meaning(items[1..])
  }

  /** s is written origin ":" rest. */
  ghost predicate AsOrigin(s: string, origin: string, rest: string) {
    s == origin + ":" + rest && ':' !in origin && '/' !in origin && (rest == "" || rest[0] == '/')
  }

  /** s is written with an origin, or cannot be and is the rest itself. */
  ghost predicate OriginSplit(s: string, origin: string, rest: string) {
    AsOrigin(s, origin, rest) || (s == rest && origin == "" && forall o, r :: !AsOrigin(s, o, r))
  }

  /** The string s denotes the path p. */
  ghost predicate Denotes(s: string, p: Path) {
    exists rest, items {:trigger OriginSplit(s, p.origin, rest), RenderItems(items)} ::
      && OriginSplit(s, p.origin, rest)
      && GoodItems(items)
      && RenderItems(items) == WithSlash(rest)
      && Meaning(items) == p.elem
  }
}
