/** Filtering a table. A database table is modelled as a sequence whose
    positions are the rows' primary keys; a queryset filter is `Where`. */
module Seqs {

  /** The primary keys of the rows of `s` that satisfy `p`, in key order. */
  function Where<T>(s: seq<T>, p: T -> bool): (r: seq<nat>)
    ensures forall k :: k in r <==> 0 <= k < |s| && p(s[k])
    ensures forall i :: 0 <= i < |r| ==> r[i] < |s|
    ensures forall i, j :: 0 <= i < j < |r| ==> r[i] < r[j]
  {
    if |s| == 0 then []
    else
      var r := Where(s[..|s| - 1], p);
      if p(s[|s| - 1]) then r + [|s| - 1] else r
  }

  /** A filter that returns a single row returns the only row that matches:
      the situation in which Django's `get` succeeds. */
  lemma WhereSingle<T>(s: seq<T>, p: T -> bool, k: nat)
    requires |Where(s, p)| == 1
    requires k < |s| && p(s[k])
    ensures Where(s, p) == [k]
  {
    var r := Where(s, p);
    assert k in r;
  }

  /** Two tables that agree on the filtered property give the same keys. */
  lemma {:induction false} WhereCongruent<T, U>(s: seq<T>, p: T -> bool, t: seq<U>, q: U -> bool)
    requires |s| == |t|
    requires forall k :: 0 <= k < |s| ==> p(s[k]) == q(t[k])
    ensures Where(s, p) == Where(t, q)
  {
    if |s| != 0 {
      WhereCongruent(s[..|s| - 1], p, t[..|t| - 1], q);
    }
  }

  /** Narrowing a filter never adds rows, and drops at least the rows it excludes. */
  lemma {:induction false} WhereNarrows<T>(s: seq<T>, p: T -> bool, q: T -> bool, k: nat)
    requires forall i :: 0 <= i < |s| && p(s[i]) ==> q(s[i])
    requires k < |s| && q(s[k]) && !p(s[k])
    ensures |Where(s, p)| < |Where(s, q)|
  {
    var n := |s| - 1;
    if k == n {
      WhereNarrowsWeakly(s[..n], p, q);
    } else {
      WhereNarrows(s[..n], p, q, k);
    }
  }

  lemma {:induction false} WhereNarrowsWeakly<T>(s: seq<T>, p: T -> bool, q: T -> bool)
    requires forall i :: 0 <= i < |s| && p(s[i]) ==> q(s[i])
    ensures |Where(s, p)| <= |Where(s, q)|
  {
    if |s| != 0 {
      WhereNarrowsWeakly(s[..|s| - 1], p, q);
    }
  }

  /** Two distinct matching rows make the filter return more than one row: the
      situation in which Django's `get` raises `MultipleObjectsReturned`. */
  lemma WhereTwo<T>(s: seq<T>, p: T -> bool, k1: nat, k2: nat)
    requires k1 < |s| && k2 < |s| && k1 != k2
    requires p(s[k1]) && p(s[k2])
    ensures |Where(s, p)| > 1
  {
    var r := Where(s, p);
    assert k1 in r && k2 in r;
  }

  /** A filter that no row passes is empty. */
  lemma {:induction false} WhereNone<T>(s: seq<T>, p: T -> bool)
    requires forall k :: 0 <= k < |s| ==> !p(s[k])
    ensures Where(s, p) == []
  {
    if |s| != 0 {
      var front := s[..|s| - 1];
      assert forall k :: 0 <= k < |front| ==> front[k] == s[k];
      WhereNone(front, p);
    }
  }

  /** A filter that exactly row `k` passes is `[k]`. */
  lemma {:induction false} WhereOnly<T>(s: seq<T>, p: T -> bool, k: nat)
    requires k < |s| && p(s[k])
    requires forall j :: 0 <= j < |s| && j != k ==> !p(s[j])
    ensures Where(s, p) == [k]
  {
    var front := s[..|s| - 1];
    assert forall j :: 0 <= j < |front| ==> front[j] == s[j];
    if k == |s| - 1 {
      WhereNone(front, p);
    } else {
      WhereOnly(front, p, k);
    }
  }

  /** A filter that at most one row can pass returns at most one row: the
      situation in which Django's `get` cannot raise `MultipleObjectsReturned`. */
  lemma {:induction false} WhereAtMostOne<T>(s: seq<T>, p: T -> bool)
    requires forall i, j :: 0 <= i < |s| && 0 <= j < |s| && p(s[i]) && p(s[j]) ==> i == j
    ensures |Where(s, p)| <= 1
  {
    if |s| != 0 {
      var n := |s| - 1;
      var front := s[..n];
      assert forall k :: 0 <= k < n ==> front[k] == s[k];
      if p(s[n]) {
        WhereNone(front, p);
      } else {
        WhereAtMostOne(front, p);
      }
    }
  }
}
