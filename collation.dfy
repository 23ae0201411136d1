/** The ordering of category labels: strings compared character by character
    on code points, a proper prefix first, as Python compares `str` values.
    One-hot encoding lists the categories of a column in this order. */
module Collation {

  predicate Less(a: string, b: string)
    decreases |a|
  {
    if |a| == 0 then |b| > 0
    else if |b| == 0 then false
    else if a[0] == b[0] then Less(a[1..], b[1..])
    else a[0] < b[0]
  }

  lemma {:induction false} LessIrreflexive(a: string)
    ensures !Less(a, a)
    decreases |a|
  {
    if |a| > 0 {
      LessIrreflexive(a[1..]);
    }
  }

  lemma {:induction false} LessTransitive(a: string, b: string, c: string)
    requires Less(a, b) && Less(b, c)
    ensures Less(a, c)
    decreases |a|
  {
    if |a| > 0 && a[0] == b[0] && b[0] == c[0] {
      LessTransitive(a[1..], b[1..], c[1..]);
    }
  }

  /** Two different strings are always ordered one way or the other. */
  lemma {:induction false} LessTotal(a: string, b: string)
    requires a != b
    ensures Less(a, b) || Less(b, a)
    decreases |a|
  {
    if |a| > 0 && |b| > 0 && a[0] == b[0] {
      assert a == [a[0]] + a[1..] && b == [b[0]] + b[1..];
      LessTotal(a[1..], b[1..]);
    }
  }

  lemma {:induction false} LessAsymmetric(a: string, b: string)
    requires Less(a, b)
    ensures !Less(b, a)
  {
    if Less(b, a) {
      LessTransitive(a, b, a);
      LessIrreflexive(a);
    }
  }

  predicate StrictlySorted(s: seq<string>) {
    forall a, b | 0 <= a < b < |s| :: Less(s[a], s[b])
  }

  /** `x` added to a sorted list of distinct labels unless already present. */
  function InsertUnique(x: string, s: seq<string>): (r: seq<string>)
    requires StrictlySorted(s)
    ensures StrictlySorted(r)
    ensures forall y :: y in r <==> y == x || y in s
    decreases |s|
  {
    if |s| == 0 then [x]
    else if x == s[0] then s
    else if Less(x, s[0]) then
      assert forall b | 0 < b < |s| :: Less(x, s[b]) by {
        forall b | 0 < b < |s| ensures Less(x, s[b]) { LessTransitive(x, s[0], s[b]); }
      }
      [x] + s
    else
      LessTotal(x, s[0]);
      var rest := InsertUnique(x, s[1..]);
      assert forall k | 0 <= k < |rest| :: Less(s[0], rest[k]) by {
        forall k | 0 <= k < |rest| ensures Less(s[0], rest[k]) {
          assert rest[k] in rest;
          if rest[k] != x {
            var b :| 0 <= b < |s[1..]| && s[1..][b] == rest[k];
            assert s[b + 1] == rest[k];
          }
        }
      }
      [s[0]] + rest
  }

  /** The distinct labels of `s`, sorted: a category list. */
  function SortUnique(s: seq<string>): (r: seq<string>)
    ensures StrictlySorted(r)
    ensures forall y :: y in r <==> y in s
    decreases |s|
  {
    if |s| == 0 then []
    else
      var n := |s| - 1;
      assert s == s[..n] + [s[n]];
      InsertUnique(s[n], SortUnique(s[..n]))
  }

  /** A strictly sorted list names each label once. */
  lemma SortedIsDistinct(s: seq<string>, a: nat, b: nat)
    requires StrictlySorted(s)
    requires a < |s| && b < |s| && a != b
    ensures s[a] != s[b]
  {
    if a < b {
      LessIrreflexive(s[a]);
    } else {
      LessIrreflexive(s[b]);
    }
  }

  /** In a strictly sorted list the head comes before every other member. */
  lemma SortedHeadIsLeast(s: seq<string>, y: string)
    requires StrictlySorted(s) && y in s && y != s[0]
    ensures Less(s[0], y)
  {
    var k :| 0 <= k < |s| && s[k] == y;
  }

  lemma SameMembersNonEmpty(a: seq<string>, b: seq<string>)
    requires |a| > 0 && forall y :: y in a <==> y in b
    ensures |b| > 0
  {
    assert a[0] in b;
  }

  /** A category list is determined by its members: two strictly sorted lists
      with the same members are equal, so `SortUnique` has only one answer. */
  lemma {:induction false} SortedUnique(a: seq<string>, b: seq<string>)
    requires StrictlySorted(a) && StrictlySorted(b)
    requires forall y :: y in a <==> y in b
    ensures a == b
    decreases |a|
  {
    if |a| > 0 {
      SameMembersNonEmpty(a, b);
    }
    if |b| > 0 {
      SameMembersNonEmpty(b, a);
    }
    if |a| > 0 {
      if a[0] != b[0] {
        SortedHeadIsLeast(b, a[0]);
        LessAsymmetric(b[0], a[0]);
        SortedHeadIsLeast(a, b[0]);
      }
      assert a == [a[0]] + a[1..] && b == [b[0]] + b[1..];
      forall y ensures y in a[1..] <==> y in b[1..] {
        if y in a[1..] {
          var k :| 0 <= k < |a[1..]| && a[1..][k] == y;
          SortedIsDistinct(a, 0, k + 1);
          assert a[k + 1] == y && y in a && y in b;
          var m :| 0 <= m < |b| && b[m] == y;
          assert b[1..][m - 1] == y;
        }
        if y in b[1..] {
          var k :| 0 <= k < |b[1..]| && b[1..][k] == y;
          SortedIsDistinct(b, 0, k + 1);
          assert b[k + 1] == y && y in b && y in a;
          var m :| 0 <= m < |a| && a[m] == y;
          assert a[1..][m - 1] == y;
        }
      }
      SortedUnique(a[1..], b[1..]);
    }
  }
}
