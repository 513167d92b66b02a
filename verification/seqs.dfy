/** Order-preserving selection over sequences (the `Array.prototype.filter`
    the storefront uses), with the laws the rest of the model relies on. */
module Seqs {

  /** The elements of `s` that `keep` accepts, in their original order. */
  function Filter<T(!new)>(s: seq<T>, keep: T -> bool): (r: seq<T>)
    ensures |r| <= |s|
    ensures forall x :: x in r <==> x in s && keep(x)
    ensures forall i :: 0 <= i < |r| ==> keep(r[i])
  {
    if |s| == 0 then []
    else (if keep(s[0]) then [s[0]] else []) + Filter(s[1..], keep)
  }

  /** `idx` enumerates positions of `s` in strictly increasing order, and
      `r` is what `s` holds at those positions. */
  ghost predicate PicksAt<T(!new)>(r: seq<T>, s: seq<T>, idx: seq<nat>)
  {
    && |idx| == |r|
    && (forall k :: 0 <= k < |idx| ==> idx[k] < |s| && r[k] == s[idx[k]])
    && (forall k, l :: 0 <= k < l < |idx| ==> idx[k] < idx[l])
  }

  /** Every position of `idx` moved one place to the right. */
  function Shift(idx: seq<nat>): (r: seq<nat>)
    ensures |r| == |idx|
    ensures forall k :: 0 <= k < |r| ==> r[k] == idx[k] + 1
  {
    seq(|idx|, k requires 0 <= k < |idx| => idx[k] + 1)
  }

  /** Positions picked in `s[1..]` are the shifted positions picked in `s`,
      optionally preceded by position 0. */
  lemma ShiftPicks<T(!new)>(r: seq<T>, s: seq<T>, idx: seq<nat>, head: bool)
    requires |s| > 0
    requires PicksAt(r, s[1..], idx)
    ensures head ==> PicksAt([s[0]] + r, s, [0] + Shift(idx))
    ensures !head ==> PicksAt(r, s, Shift(idx))
  {
    var sh := Shift(idx);
    assert forall k :: 0 <= k < |sh| ==> sh[k] < |s| && r[k] == s[sh[k]] by {
      forall k | 0 <= k < |sh| ensures sh[k] < |s| && r[k] == s[sh[k]] {
        assert r[k] == s[1..][idx[k]];
      }
    }
  }

  /** Membership in the shifted positions is membership of the predecessor. */
  lemma ShiftMembers(idx: seq<nat>, i: int)
    requires i >= 1
    ensures i in Shift(idx) <==> i - 1 in idx
    ensures 0 !in Shift(idx)
  {
    var sh := Shift(idx);
    if i in sh {
      var k :| 0 <= k < |sh| && sh[k] == i;
      assert idx[k] == i - 1;
    }
    if i - 1 in idx {
      var k :| 0 <= k < |idx| && idx[k] == i - 1;
      assert sh[k] == i;
    }
  }

  /** Positions picked from `s[1..]`, moved to `s`, with position 0 in front
      when the head is kept. */
  function ConsPositions(head: bool, rest: seq<nat>): seq<nat>
  {
    if head then [0] + Shift(rest) else Shift(rest)
  }

  /** The positions accepted in `s` are those accepted in `s[1..]`, shifted
      by one, plus position 0 when the first element is accepted. */
  lemma KeptPositionsConsMembers<T(!new)>(s: seq<T>, keep: T -> bool, rest: seq<nat>)
    requires |s| > 0
    requires forall i :: 0 <= i < |s[1..]| ==> (keep(s[1..][i]) <==> i in rest)
    ensures forall i :: 0 <= i < |s| ==> (keep(s[i]) <==> i in ConsPositions(keep(s[0]), rest))
  {
    var idx := ConsPositions(keep(s[0]), rest);
    forall i | 0 <= i < |s|
      ensures keep(s[i]) <==> i in idx
    {
      ShiftMembers(rest, i + 1);
      if i > 0 {
        ShiftMembers(rest, i);
        assert s[i] == s[1..][i - 1];
      }
    }
  }

  /** The positions of `s` whose element `keep` accepts, in increasing
      order; the filter reads `s` at exactly these positions. */
  function KeptPositions<T(!new)>(s: seq<T>, keep: T -> bool): (idx: seq<nat>)
    ensures PicksAt(Filter(s, keep), s, idx)
    ensures forall i :: 0 <= i < |s| ==> (keep(s[i]) <==> i in idx)
  {
    if |s| == 0 then []
    else
      var rest := KeptPositions(s[1..], keep);
      ShiftPicks(Filter(s[1..], keep), s, rest, keep(s[0]));
      KeptPositionsConsMembers(s, keep, rest);
      ConsPositions(keep(s[0]), rest)
  }

  /** No element occurs twice. */
  predicate Distinct<T(==)>(s: seq<T>) {
    forall i, j :: 0 <= i < j < |s| ==> s[i] != s[j]
  }

  /** Filtering distributes over concatenation. */
  lemma {:induction false} FilterAppend<T(!new)>(a: seq<T>, b: seq<T>, keep: T -> bool)
    ensures Filter(a + b, keep) == Filter(a, keep) + Filter(b, keep)
  {
    if |a| == 0 {
      assert a + b == b;
    } else {
      assert (a + b)[1..] == a[1..] + b;
      FilterAppend(a[1..], b, keep);
    }
  }

  /** A filter that accepts every element returns its input unchanged. */
  lemma {:induction false} FilterKeepsAll<T(!new)>(s: seq<T>, keep: T -> bool)
    requires forall i :: 0 <= i < |s| ==> keep(s[i])
    ensures Filter(s, keep) == s
  {
    if |s| > 0 {
      assert forall i :: 0 <= i < |s[1..]| ==> keep(s[1..][i]) by {
        forall i | 0 <= i < |s[1..]| ensures keep(s[1..][i]) {
          assert s[1..][i] == s[i + 1];
        }
      }
      FilterKeepsAll(s[1..], keep);
    }
  }

  /** The filter returns its input unchanged exactly when it accepts every element. */
  lemma FilterIdentity<T(!new)>(s: seq<T>, keep: T -> bool)
    ensures Filter(s, keep) == s <==> forall i :: 0 <= i < |s| ==> keep(s[i])
  {
    if forall i :: 0 <= i < |s| ==> keep(s[i]) {
      FilterKeepsAll(s, keep);
    }
  }

  /** Two filters applied one after the other commute. */
  lemma {:induction false} FilterCommute<T(!new)>(s: seq<T>, p: T -> bool, q: T -> bool)
    ensures Filter(Filter(s, p), q) == Filter(Filter(s, q), p)
  {
    if |s| == 0 {
    } else {
      FilterCommute(s[1..], p, q);
      var x := s[0];
      var hp := if p(x) then [x] else [];
      var hq := if q(x) then [x] else [];
      FilterAppend(hp, Filter(s[1..], p), q);
      FilterAppend(hq, Filter(s[1..], q), p);
    }
  }

  /** How many times the filter keeps each value: all of its copies when
      `keep` accepts it, none otherwise. */
  lemma {:induction false} FilterMultiset<T(!new)>(s: seq<T>, keep: T -> bool)
    ensures forall x :: multiset(Filter(s, keep))[x] == (if keep(x) then multiset(s)[x] else 0)
  {
    if |s| == 0 {
    } else {
      FilterMultiset(s[1..], keep);
      assert s == [s[0]] + s[1..];
      assert multiset(s) == multiset{s[0]} + multiset(s[1..]);
    }
  }

  /** Filtering respects permutation: equal multisets filter to equal multisets. */
  lemma FilterPermutation<T(!new)>(s: seq<T>, t: seq<T>, keep: T -> bool)
    requires multiset(s) == multiset(t)
    ensures multiset(Filter(s, keep)) == multiset(Filter(t, keep))
  {
    FilterMultiset(s, keep);
    FilterMultiset(t, keep);
    assert forall x :: multiset(Filter(s, keep))[x] == multiset(Filter(t, keep))[x];
  }

  /** Filtering one more element of a prefix appends it when accepted. */
  lemma FilterStep<T(!new)>(s: seq<T>, k: nat, keep: T -> bool)
    requires k < |s|
    ensures Filter(s[..k + 1], keep)
         == Filter(s[..k], keep) + (if keep(s[k]) then [s[k]] else [])
  {
    assert s[..k + 1] == s[..k] + [s[k]];
    FilterAppend(s[..k], [s[k]], keep);
    assert [s[k]][1..] == [];
  }

  /** A filtered duplicate-free list is duplicate-free. */
  lemma {:induction false} FilterDistinct<T(!new)>(s: seq<T>, keep: T -> bool)
    requires Distinct(s)
    ensures Distinct(Filter(s, keep))
  {
    if |s| > 0 {
      var rest := s[1..];
      assert Distinct(rest) by {
        forall i, j | 0 <= i < j < |rest| ensures rest[i] != rest[j] {
          assert rest[i] == s[i + 1] && rest[j] == s[j + 1];
        }
      }
      FilterDistinct(rest, keep);
      assert s[0] !in rest by {
        forall j | 0 <= j < |rest| ensures rest[j] != s[0] {
          assert rest[j] == s[j + 1];
        }
      }
    }
  }
}
