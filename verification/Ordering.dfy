/** Ascending order of strings, as sort.Strings of Go's library gives it. */
module Ordering {
  import opened Basics

  /** Strict string order, character by character. */
  predicate Less(a: string, b: string) {
    b != "" && (a == "" || a[0] < b[0] || (a[0] == b[0] && Less(a[1..], b[1..])))
  }

  lemma {:induction false} LessTotal(a: string, b: string)
    ensures a == b || Less(a, b) || Less(b, a)
    ensures !(Less(a, b) && Less(b, a)) && !Less(a, a)
  {
    if a != "" && b != "" {
      LessTotal(a[1..], b[1..]);
      LessTotal(a[1..], a[1..]);
      assert a == [a[0]] + a[1..] && b == [b[0]] + b[1..];
    } else if a != "" {
      LessTotal(a[1..], a[1..]);
    }
  }

  lemma {:induction false} LessTransitive(a: string, b: string, c: string)
    requires Less(a, b) && Less(b, c)
    ensures Less(a, c)
  {
    if a != "" && a[0] == b[0] && b[0] == c[0] { LessTransitive(a[1..], b[1..], c[1..]); }
  }

  /** The order compares the first characters in which two strings differ; a proper
      prefix comes first. */
  lemma {:induction false} LessIff(a: string, b: string)
    ensures Less(a, b) <==> exists n: nat :: n <= |a| && n < |b| && a[..n] == b[..n] && (n == |a| || a[n] < b[n])
  {
    if a != "" && b != "" {
      LessIff(a[1..], b[1..]);
      if a[0] == b[0] && Less(a[1..], b[1..]) {
        var m: nat :| m <= |a| - 1 && m < |b| - 1 && a[1..][..m] == b[1..][..m] && (m == |a| - 1 || a[1..][m] < b[1..][m]);
        assert a[..m + 1] == [a[0]] + a[1..][..m] && b[..m + 1] == [b[0]] + b[1..][..m];
      }
      if n: nat :| n <= |a| && n < |b| && a[..n] == b[..n] && (n == |a| || a[n] < b[n]) {
        if n > 0 {
          assert a[..n][0] == a[0] && b[..n][0] == b[0];
          assert a[1..][..n - 1] == a[..n][1..] && b[1..][..n - 1] == b[..n][1..];
        }
      } else {
        assert a[..0] == b[..0];
      }
    } else if b != "" {
      assert a[..0] == b[..0];
    }
  }

  predicate IsLeast(k: string, ks: set<string>) {
    k in ks && forall k' | k' in ks && k' != k :: Less(k, k')
  }

  lemma {:induction false} LeastExists(ks: set<string>)
    requires ks != {}
    ensures exists k :: IsLeast(k, ks)
    decreases ks
  {
    var k :| k in ks;
    var rest := ks - {k};
    if rest == {} {
      assert ks == {k};
      assert IsLeast(k, ks);
    } else {
      LeastExists(rest);
      var r :| IsLeast(r, rest);
      LessTotal(k, r);
      if Less(r, k) {
        assert IsLeast(r, ks);
      } else {
        forall k' | k' in ks && k' != k ensures Less(k, k') { if k' != r { LessTransitive(k, r, k'); } }
        assert IsLeast(k, ks);
      }
    }
  }

  /** The keys in ascending order. */
  ghost function SortedKeys(ks: set<string>): (order: seq<string>)
    ensures forall k :: k in order <==> k in ks
    ensures |order| == |ks|
    decreases ks
  {
    if ks == {} then []
    else
      LeastExists(ks);
      var k :| IsLeast(k, ks);
      [k] + SortedKeys(ks - {k})
  }

  lemma {:induction false} SortedKeysOf(ks: set<string>, k: string)
    requires IsLeast(k, ks)
    ensures SortedKeys(ks) == [k] + SortedKeys(ks - {k})
  {
    forall k' | IsLeast(k', ks) ensures k' == k { LessTotal(k, k'); }
  }

  ghost predicate Ascending(order: seq<string>) {
    forall i, j | 0 <= i < j < |order| :: Less(order[i], order[j])
  }

  lemma {:induction false} SortedKeysAscending(ks: set<string>)
    ensures Ascending(SortedKeys(ks))
    decreases ks
  {
    if ks != {} {
      LeastExists(ks);
      var k :| IsLeast(k, ks);
      SortedKeysOf(ks, k);
      SortedKeysAscending(ks - {k});
      var rest := SortedKeys(ks - {k});
      assert forall x | x in rest :: x in ks - {k};
      hide SortedKeys;
      AscendingCons(k, rest);
    }
  }

  lemma AscendingCons(k: string, rest: seq<string>)
    requires Ascending(rest) && forall x | x in rest :: Less(k, x)
    ensures Ascending([k] + rest)
  {
    hide Less;
    var all := [k] + rest;
    forall i, j | 0 <= i < j < |all| ensures Less(all[i], all[j]) {
      assert all[j] == rest[j - 1] && rest[j - 1] in rest;
      assert i > 0 ==> all[i] == rest[i - 1];
    }
  }

  lemma SortedKeysDistinct(ks: set<string>)
    ensures Distinct(SortedKeys(ks))
  {
    SortedKeysAscending(ks);
    var order := SortedKeys(ks);
    forall i, j | 0 <= i < j < |order| ensures order[i] != order[j] {
      LessTotal(order[i], order[j]);
    }
  }

  lemma NoKeysSorted()
    ensures SortedKeys({}) == []
  {
  }

  /** sort.Strings on distinct strings. */
  method SortStrings(keys: set<string>) returns (order: seq<string>)
    ensures order == SortedKeys(keys)
  {
    hide SortedKeys;
    order := [];
    var todo := keys;
    assert [] + SortedKeys(todo) == SortedKeys(keys);
    while todo != {}
      invariant order + SortedKeys(todo) == SortedKeys(keys)
    {
      LeastExists(todo);
      var k :| IsLeast(k, todo);
      SortedKeysOf(todo, k);
      assert order + ([k] + SortedKeys(todo - {k})) == (order + [k]) + SortedKeys(todo - {k});
      order := order + [k];
      todo := todo - {k};
    }
    NoKeysSorted();
    assert order + [] == order;
  }
}
