/** Small types and notions shared by the other modules. */
module Basics {

  datatype Option<+T> = None | Some(value: T)

  predicate Distinct(s: seq<string>) {
    forall i, j | 0 <= i < j < |s| :: s[i] != s[j]
  }

  ghost function SetOf(s: seq<string>): set<string> { set n | n in s }

  lemma SetOfSnoc(s: seq<string>, i: nat)
    requires i < |s|
    ensures SetOf(s[..i + 1]) == SetOf(s[..i]) + {s[i]}
  {
    var t := s[..i + 1];
    assert t == s[..i] + [s[i]];
    assert forall n :: n in t <==> n in s[..i] || n == s[i];
  }
}
