/** `collections.Counter` over a list of tags (helper/models.py line 89): the
    distinct tags in order of first occurrence, each with its frequency. */
module Counting {
  import opened Wrappers

  datatype Entry = Entry(tag: string, count: nat)

  function Tags(t: seq<Entry>): (r: seq<string>) {
    seq(|t|, i requires 0 <= i < |t| => t[i].tag)
  }

  predicate Unique(s: seq<string>) {
    forall i, j :: 0 <= i < j < |s| ==> s[i] != s[j]
  }

  /** Reference definition: the distinct elements of `s` in order of first occurrence. */
  function Distinct(s: seq<string>): (d: seq<string>)
    ensures forall x :: x in d <==> x in s
    ensures Unique(d)
  {
    if |s| == 0 then []
    else
      var d := Distinct(s[..|s| - 1]);
      if s[|s| - 1] in s[..|s| - 1] then d else d + [s[|s| - 1]]
  }

  /** One step of the counter's construction loop: count one more `x`. */
  function Bump(t: seq<Entry>, x: string): (u: seq<Entry>)
    ensures Tags(u) == if x in Tags(t) then Tags(t) else Tags(t) + [x]
    ensures |u| >= |t|
    ensures forall i :: 0 <= i < |t| ==> u[i].count == t[i].count + (if t[i].tag == x then 1 else 0)
    ensures x !in Tags(t) ==> u[|t|].count == 1
  {
    if x in Tags(t) then
      var u := seq(|t|, i requires 0 <= i < |t| => if t[i].tag == x then t[i].(count := t[i].count + 1) else t[i]);
      assert Tags(u) == Tags(t);
      u
    else
      var u := t + [Entry(x, 1)];
      assert forall i :: 0 <= i < |t| ==> u[i] == t[i] && t[i].tag == Tags(t)[i];
      assert Tags(u) == Tags(t) + [x];
      u
  }

  /** `Counter(tags)`: its keys are the distinct tags in first-occurrence order
      and each count is the tag's multiplicity. */
  function Tally(tags: seq<string>): (t: seq<Entry>)
    ensures Tags(t) == Distinct(tags)
    ensures forall i :: 0 <= i < |t| ==> t[i].count == multiset(tags)[t[i].tag]
  {
    if |tags| == 0 then []
    else
      var prefix := tags[..|tags| - 1];
      var x := tags[|tags| - 1];
      assert tags == prefix + [x];
      TallyStep(Tally(prefix), prefix, x);
      Bump(Tally(prefix), x)
  }

  lemma TallyStep(t: seq<Entry>, prefix: seq<string>, x: string)
    requires Tags(t) == Distinct(prefix)
    requires forall i :: 0 <= i < |t| ==> t[i].count == multiset(prefix)[t[i].tag]
    ensures Tags(Bump(t, x)) == Distinct(prefix + [x])
    ensures forall i :: 0 <= i < |Bump(t, x)| ==> Bump(t, x)[i].count == multiset(prefix + [x])[Bump(t, x)[i].tag]
  {
    var s := prefix + [x];
    assert s[..|s| - 1] == prefix;
    var u := Bump(t, x);
    forall i | 0 <= i < |u|
      ensures u[i].count == multiset(s)[u[i].tag]
    {
      assert u[i].tag == Tags(u)[i];
      if i < |t| {
        assert t[i].tag == Tags(t)[i] == u[i].tag;
      } else {
        assert x !in prefix;
      }
    }
  }

  /** The first element of `s` satisfying `p`. */
  function First(s: seq<string>, p: string -> bool): (r: Option<string>)
    ensures r.None? <==> forall i :: 0 <= i < |s| ==> !p(s[i])
    ensures r.Some? ==> r.value in s && p(r.value)
  {
    if |s| == 0 then None
    else if p(s[0]) then Some(s[0])
    else First(s[1..], p)
  }

  lemma {:induction false} FirstAppend(s: seq<string>, x: string, p: string -> bool)
    ensures First(s + [x], p) == if First(s, p).Some? then First(s, p) else if p(x) then Some(x) else None
  {
    if |s| == 0 {
      assert s + [x] == [x];
    } else {
      assert (s + [x])[1..] == s[1..] + [x];
      FirstAppend(s[1..], x, p);
    }
  }

  /** Scanning the distinct tags finds the same first match as scanning all tags. */
  lemma {:induction false} FirstOfDistinct(s: seq<string>, p: string -> bool)
    ensures First(Distinct(s), p) == First(s, p)
  {
    if |s| != 0 {
      var prefix := s[..|s| - 1];
      var x := s[|s| - 1];
      assert s == prefix + [x];
      FirstOfDistinct(prefix, p);
      FirstAppend(prefix, x, p);
      if x !in prefix {
        FirstAppend(Distinct(prefix), x, p);
      } else if p(x) {
        assert First(prefix, p).Some?;
      }
    }
  }
}
