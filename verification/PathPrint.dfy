/** Printing gNMI paths, and how printing and parsing undo each other. */
module PathPrint {
  import opened Basics
  import opened PathSyntax
  import opened Ordering

  // ---------------------------------------------------------------------
  // The printed text
  // ---------------------------------------------------------------------

  /** A backslash in front of every bracket. The source's printer does not do
      this; its parser expects it. */
  function Escape(s: string): string {
    if s == "" then ""
    else if IsBracket(s[0]) then ['\\', s[0]] + Escape(s[1..])
    else [s[0]] + Escape(s[1..])
  }

  function Written(esc: bool, kv: (string, string)): (string, string) {
    if esc then (Escape(kv.0), Escape(kv.1)) else kv
  }

  ghost function KeysText(order: seq<string>, m: map<string, string>, esc: bool): string
    requires forall k | k in order :: k in m
  {
    if order == [] then ""
    else BracketText(KeyText(Written(esc, (order[0], m[order[0]])))) + KeysText(order[1..], m, esc)
  }

  ghost function ElemText(pe: PathElem, noKeys: bool, esc: bool): string {
    pe.name + if noKeys then "" else KeysText(SortedKeys(pe.key.Keys), pe.key, esc)
  }

  ghost function Join(elems: seq<PathElem>, noKeys: bool, esc: bool): string {
    if elems == [] then ""
    else if |elems| == 1 then ElemText(elems[0], noKeys, esc)
    else ElemText(elems[0], noKeys, esc) + "/" + Join(elems[1..], noKeys, esc)
  }

  ghost function PrintWith(p: Path, noKeys: bool, esc: bool): string {
    (if p.origin != "" then p.origin + ":/" else "") + Join(p.elem, noKeys, esc)
  }

  /** GnmiPathToXPath of the source. */
  ghost function Print(p: Path, noKeys: bool): string { PrintWith(p, noKeys, false) }

  /** The printed path as an absolute path: a path without origin gets a
      leading "/". */
  ghost function Absolute(p: Path, esc: bool): string {
    (if p.origin == "" then "/" else "") + PrintWith(p, false, esc)
  }

  // ---------------------------------------------------------------------
  // Which paths the parser produces
  // ---------------------------------------------------------------------

  ghost predicate SoundKey(k: string, v: string) {
    k != "" && v != "" && '=' !in k && NUL !in k && NUL !in v && v[|v| - 1] != '\\'
  }

  ghost predicate SoundElem(pe: PathElem) {
    GoodName(pe.name, pe.key != map[]) && forall k | k in pe.key :: SoundKey(k, pe.key[k])
  }

  ghost predicate SoundPath(p: Path) {
    ':' !in p.origin && '/' !in p.origin && forall pe | pe in p.elem :: SoundElem(pe)
  }

  predicate NoBracket(s: string) { '[' !in s && ']' !in s }

  /** No key name or key value of the path holds a bracket. */
  predicate PlainKeys(p: Path) {
    forall pe | pe in p.elem :: PlainMap(pe.key)
  }

  predicate PlainMap(m: map<string, string>) {
    forall k | k in m :: NoBracket(k) && NoBracket(m[k])
  }
}
