/** Order-preserving selection, keep-first deduplication and concatenation of
    blocks: the sequence operations that the table transformations are built from. */
module Seqs {

  predicate StrictlyIncreasing(idx: seq<nat>) {
    forall a, b | 0 <= a < b < |idx| :: idx[a] < idx[b]
  }

  predicate Distinct<T(==)>(s: seq<T>) {
    forall a, b | 0 <= a < b < |s| :: s[a] != s[b]
  }

  /** The positions `i` with `p(s[i])`, in increasing order. */
  function KeptIndices<T>(s: seq<T>, p: T -> bool): (r: seq<nat>)
    ensures StrictlyIncreasing(r)
    ensures forall k | 0 <= k < |r| :: r[k] < |s| && p(s[r[k]])
    ensures forall i | 0 <= i < |s| && p(s[i]) :: i in r
    decreases |s|
  {
    if |s| == 0 then []
    else
      var n := |s| - 1;
      var prev := KeptIndices(s[..n], p);
      assert forall k | 0 <= k < |prev| :: prev[k] < n && s[..n][prev[k]] == s[prev[k]];
      prev + (if p(s[n]) then [n] else [])
  }

  /** The elements at the given positions, in the order of the positions. */
  function Select<T>(s: seq<T>, idx: seq<nat>): (r: seq<T>)
    requires forall k | 0 <= k < |idx| :: idx[k] < |s|
    ensures |r| == |idx|
  {
    seq(|idx|, k requires 0 <= k < |idx| => s[idx[k]])
  }

  /** The elements of `s` that satisfy `p`, in their original order. */
  function Filter<T>(s: seq<T>, p: T -> bool): (r: seq<T>)
    ensures |r| <= |s|
    ensures forall k | 0 <= k < |r| :: p(r[k]) && r[k] in s
    decreases |s|
  {
    if |s| == 0 then []
    else
      var n := |s| - 1;
      Filter(s[..n], p) + (if p(s[n]) then [s[n]] else [])
  }

  lemma FilterSnoc<T>(s: seq<T>, x: T, p: T -> bool)
    ensures Filter(s + [x], p) == Filter(s, p) + (if p(x) then [x] else [])
  {
    assert (s + [x])[..|s|] == s;
  }

  /** Filtering keeps exactly the satisfying elements, unmodified and in order. */
  lemma {:induction false} FilterIsSelection<T>(s: seq<T>, p: T -> bool)
    ensures |Filter(s, p)| == |KeptIndices(s, p)|
    ensures Filter(s, p) == Select(s, KeptIndices(s, p))
    decreases |s|
  {
    if |s| > 0 {
      var n := |s| - 1;
      FilterIsSelection(s[..n], p);
      var f, idx := Filter(s[..n], p), KeptIndices(s[..n], p);
      var r, ridx := Filter(s, p), KeptIndices(s, p);
      assert |f| == |idx|;
      assert |r| == |ridx|;
      forall k | 0 <= k < |r| ensures r[k] == s[ridx[k]] {
        if k < |f| {
          assert r[k] == f[k] == s[..n][idx[k]];
        }
      }
    }
  }

  /** Filtering drops at least one element whenever some element fails `p`. */
  lemma {:induction false} FilterShrinks<T>(s: seq<T>, p: T -> bool, i: nat)
    requires i < |s| && !p(s[i])
    ensures |Filter(s, p)| < |s|
    decreases |s|
  {
    var n := |s| - 1;
    if i < n {
      FilterShrinks(s[..n], p, i);
    }
  }

  /** Filtering with a predicate every element satisfies changes nothing. */
  lemma {:induction false} FilterAll<T>(s: seq<T>, p: T -> bool)
    requires forall i | 0 <= i < |s| :: p(s[i])
    ensures Filter(s, p) == s
    decreases |s|
  {
    if |s| > 0 {
      var n := |s| - 1;
      FilterAll(s[..n], p);
      assert s[..n] + [s[n]] == s;
    }
  }

  /** When every element satisfies `p`, every position is kept. */
  lemma {:induction false} KeptAll<T>(s: seq<T>, p: T -> bool)
    requires forall i | 0 <= i < |s| :: p(s[i])
    ensures KeptIndices(s, p) == seq(|s|, i => i)
    decreases |s|
  {
    if |s| > 0 {
      var n := |s| - 1;
      KeptAll(s[..n], p);
      assert seq(n, i => i) + [n] == seq(|s|, i => i);
    }
  }

  /** When no element satisfies `p`, no position is kept. */
  lemma {:induction false} KeptNone<T>(s: seq<T>, p: T -> bool)
    requires forall i | 0 <= i < |s| :: !p(s[i])
    ensures KeptIndices(s, p) == []
    decreases |s|
  {
    if |s| > 0 {
      KeptNone(s[..|s| - 1], p);
    }
  }

  /** Whether `s[i]` equals some earlier element. */
  predicate RepeatAt<T(==)>(s: seq<T>, i: nat)
    requires i < |s|
  {
    s[i] in s[..i]
  }

  /** The number of positions holding a repeat of an earlier element. */
  function RepeatCount<T(==)>(s: seq<T>): (r: nat)
    ensures r <= |s|
    decreases |s|
  {
    if |s| == 0 then 0
    else
      var n := |s| - 1;
      RepeatCount(s[..n]) + (if s[n] in s[..n] then 1 else 0)
  }

  /** The first occurrence of every element, in order of first appearance. */
  function KeepFirst<T(==)>(s: seq<T>): (r: seq<T>)
    ensures |r| <= |s|
    ensures forall x <- r :: x in s
    ensures forall x <- s :: x in r
    ensures Distinct(r)
    decreases |s|
  {
    if |s| == 0 then []
    else
      var n := |s| - 1;
      var prev := KeepFirst(s[..n]);
      assert s == s[..n] + [s[n]];
      prev + (if s[n] in s[..n] then [] else [s[n]])
  }

  /** The positions that hold no repeat of an earlier element, increasing. */
  function FirstIndices<T(==)>(s: seq<T>): (r: seq<nat>)
    ensures StrictlyIncreasing(r)
    ensures forall k | 0 <= k < |r| :: r[k] < |s|
    ensures forall i: nat :: i in r <==> i < |s| && !RepeatAt(s, i)
    decreases |s|
  {
    if |s| == 0 then []
    else
      var n := |s| - 1;
      var prev := FirstIndices(s[..n]);
      assert forall i | 0 <= i < n :: s[..n][..i] == s[..i] && s[..n][i] == s[i];
      prev + (if s[n] in s[..n] then [] else [n])
  }

  /** Keep-first keeps exactly the first occurrences, unmodified and in order. */
  lemma {:induction false} KeepFirstIsSelection<T>(s: seq<T>)
    ensures |KeepFirst(s)| == |FirstIndices(s)|
    ensures KeepFirst(s) == Select(s, FirstIndices(s))
    decreases |s|
  {
    if |s| > 0 {
      var n := |s| - 1;
      KeepFirstIsSelection(s[..n]);
      var idx := FirstIndices(s[..n]);
      SelectExtend(s, idx);
      if s[n] in s[..n] {
        assert KeepFirst(s) == KeepFirst(s[..n]) && FirstIndices(s) == idx;
      } else {
        assert KeepFirst(s) == KeepFirst(s[..n]) + [s[n]] && FirstIndices(s) == idx + [n];
      }
    }
  }

  /** Selecting positions before the last element reads the same from the
      sequence and from its prefix; selecting the last position too appends it. */
  lemma SelectExtend<T>(s: seq<T>, idx: seq<nat>)
    requires |s| > 0 && forall k | 0 <= k < |idx| :: idx[k] < |s| - 1
    ensures Select(s[..|s| - 1], idx) == Select(s, idx)
    ensures Select(s, idx + [|s| - 1]) == Select(s, idx) + [s[|s| - 1]]
  {
  }

  /** Every repeat removed shortens the sequence by one: nothing else is lost. */
  lemma {:induction false} KeepFirstLength<T>(s: seq<T>)
    ensures |KeepFirst(s)| + RepeatCount(s) == |s|
    decreases |s|
  {
    if |s| > 0 {
      KeepFirstLength(s[..|s| - 1]);
    }
  }

  /** A sequence has no repeats exactly when its elements are pairwise distinct. */
  lemma {:induction false} RepeatCountZero<T>(s: seq<T>)
    ensures RepeatCount(s) == 0 <==> Distinct(s)
    decreases |s|
  {
    if |s| > 0 {
      var n := |s| - 1;
      RepeatCountZero(s[..n]);
      if Distinct(s) {
        assert Distinct(s[..n]);
        assert forall a | 0 <= a < n :: s[..n][a] == s[a] != s[n];
      }
      if RepeatCount(s) == 0 {
        forall a, b | 0 <= a < b < |s| ensures s[a] != s[b] {
          if b < n {
            assert s[..n][a] != s[..n][b];
          } else {
            assert s[..n][a] == s[a];
          }
        }
      }
    }
  }

  /** On a sequence without repeats keep-first is the identity. */
  lemma {:induction false} KeepFirstOfDistinct<T>(s: seq<T>)
    requires Distinct(s)
    ensures KeepFirst(s) == s
    decreases |s|
  {
    if |s| > 0 {
      var n := |s| - 1;
      DistinctInit(s);
      KeepFirstOfDistinct(s[..n]);
      assert s[..n] + [s[n]] == s;
    }
  }

  /** Dropping the last element of a sequence without repeats leaves one
      without repeats that does not contain that element. */
  lemma DistinctInit<T>(s: seq<T>)
    requires Distinct(s) && |s| > 0
    ensures Distinct(s[..|s| - 1]) && s[|s| - 1] !in s[..|s| - 1]
  {
    var n := |s| - 1;
    forall a | 0 <= a < n ensures s[..n][a] != s[n] {
      assert s[..n][a] == s[a];
    }
  }

  /** Keep-first deduplication is idempotent and leaves no repeat behind. */
  lemma KeepFirstIdempotent<T>(s: seq<T>)
    ensures KeepFirst(KeepFirst(s)) == KeepFirst(s)
    ensures RepeatCount(KeepFirst(s)) == 0
  {
    KeepFirstOfDistinct(KeepFirst(s));
    RepeatCountZero(KeepFirst(s));
  }

  /** The blocks of `ss` laid end to end. */
  function Concat<T>(ss: seq<seq<T>>): (r: seq<T>)
    decreases |ss|
  {
    if |ss| == 0 then []
    else
      var n := |ss| - 1;
      Concat(ss[..n]) + ss[n]
  }

  /** Element `k` of block `m` sits right after the blocks before `m`. */
  lemma {:induction false} ConcatIndex<T>(ss: seq<seq<T>>, m: nat, k: nat)
    requires m < |ss| && k < |ss[m]|
    ensures |Concat(ss[..m])| + k < |Concat(ss)|
    ensures Concat(ss)[|Concat(ss[..m])| + k] == ss[m][k]
    decreases |ss|
  {
    var n := |ss| - 1;
    if m < n {
      ConcatIndex(ss[..n], m, k);
      assert ss[..n][..m] == ss[..m];
    } else {
      assert ss[..n] == ss[..m];
    }
  }

  /** Element `k` of block `m` of `ss`, behind a prefix `front`. */
  lemma AppendConcatIndex<T>(front: seq<T>, ss: seq<seq<T>>, m: nat, k: nat)
    requires m < |ss| && k < |ss[m]|
    ensures |front| + |Concat(ss[..m])| + k < |front + Concat(ss)|
    ensures (front + Concat(ss))[|front| + |Concat(ss[..m])| + k] == ss[m][k]
  {
    ConcatIndex(ss, m, k);
  }

  /** Two block lists of matching block lengths concatenate to equal lengths. */
  lemma {:induction false} ConcatSameShape<T, U>(ss: seq<seq<T>>, tt: seq<seq<U>>)
    requires |ss| == |tt|
    requires forall m | 0 <= m < |ss| :: |ss[m]| == |tt[m]|
    ensures |Concat(ss)| == |Concat(tt)|
    decreases |ss|
  {
    if |ss| > 0 {
      var n := |ss| - 1;
      ConcatSameShape(ss[..n], tt[..n]);
    }
  }

  /** A property every block element has holds of every concatenated element. */
  lemma {:induction false} ConcatAll<T>(ss: seq<seq<T>>, p: T -> bool)
    requires forall m, k | 0 <= m < |ss| && 0 <= k < |ss[m]| :: p(ss[m][k])
    ensures forall q | 0 <= q < |Concat(ss)| :: p(Concat(ss)[q])
    decreases |ss|
  {
    if |ss| > 0 {
      var n := |ss| - 1;
      ConcatAll(ss[..n], p);
      var prev := Concat(ss[..n]);
      assert forall q | |prev| <= q < |Concat(ss)| :: Concat(ss)[q] == ss[n][q - |prev|];
    }
  }

  /** Selecting every position in order gives the sequence back. */
  lemma SelectAll<T>(s: seq<T>)
    ensures Select(s, seq(|s|, i => i)) == s
  {
  }

  /** A sequence of distinct elements has as many elements as its set. */
  lemma {:induction false} DistinctCard<T>(s: seq<T>)
    requires Distinct(s)
    ensures |set k | 0 <= k < |s| :: s[k]| == |s|
    decreases |s|
  {
    if |s| > 0 {
      var n := |s| - 1;
      assert Distinct(s[..n]);
      DistinctCard(s[..n]);
      var before := set k | 0 <= k < n :: s[..n][k];
      var after := set k | 0 <= k < |s| :: s[k];
      assert after == before + {s[n]};
      assert s[n] !in before;
    }
  }
}
