/** Positions after inserting into, or removing from, a sequence. */
module Seqs {
  function InsertAt<T>(s: seq<T>, k: nat, x: T): seq<T>
    requires k <= |s|
  {
    s[..k] + [x] + s[k..]
  }

  function RemoveAt<T>(s: seq<T>, k: nat): seq<T>
    requires k < |s|
  {
    s[..k] + s[k + 1..]
  }

  lemma InsertAtElements<T>(s: seq<T>, k: nat, x: T)
    requires k <= |s|
    ensures forall y :: y in InsertAt(s, k, x) <==> y == x || y in s
  {
    var out := InsertAt(s, k, x);
    forall y ensures y in out <==> y == x || y in s {
      if y in s {
        var j :| 0 <= j < |s| && s[j] == y;
        assert out[if j < k then j else j + 1] == y;
      }
      if y == x { assert out[k] == y; }
      if y in out {
        var j :| 0 <= j < |out| && out[j] == y;
        assert j == k || y == s[if j < k then j else j - 1];
      }
    }
  }

  lemma RemoveAtElements<T>(s: seq<T>, k: nat)
    requires k < |s|
    ensures forall y :: y in s <==> y == s[k] || y in RemoveAt(s, k)
  {
    var out := RemoveAt(s, k);
    forall y ensures y in s <==> y == s[k] || y in out {
      if y in s && y != s[k] {
        var j :| 0 <= j < |s| && s[j] == y;
        assert out[if j < k then j else j - 1] == y;
      }
      if y in out {
        var j :| 0 <= j < |out| && out[j] == y;
        assert y == s[if j < k then j else j + 1];
      }
    }
  }

  /** As bags, an insertion adds the element and a removal takes one. */
  lemma InsertAtBag<T>(s: seq<T>, k: nat, x: T)
    requires k <= |s|
    ensures multiset(InsertAt(s, k, x)) == multiset(s) + multiset{x}
  {
    assert s == s[..k] + s[k..];
  }

  lemma RemoveAtBag<T>(s: seq<T>, k: nat)
    requires k < |s|
    ensures multiset(s) == multiset(RemoveAt(s, k)) + multiset{s[k]}
  {
    assert s == s[..k] + [s[k]] + s[k + 1..];
  }

  lemma PrefixElements<T>(s: seq<T>, x: T)
    ensures forall y :: y in s + [x] <==> y in s || y == x
  {
    forall y ensures y in s + [x] <==> y in s || y == x {
      if y == x { assert (s + [x])[|s|] == x; }
    }
  }

  lemma HasFirst<T>(s: seq<T>)
    ensures s == [] || s[0] in s
  {
  }

  lemma SomeElement<T>(s: set<T>) returns (x: T)
    requires s != {}
    ensures x in s
  {
    x :| x in s;
  }

  predicate NoDuplicates<T(==)>(s: seq<T>) {
    forall i, j | 0 <= i < j < |s| :: s[i] != s[j]
  }

  /** The elements that satisfy `keep`, in order. */
  function Filter<T>(s: seq<T>, keep: T -> bool): seq<T> {
    if s == [] then []
    else Filter(s[..|s| - 1], keep) + if keep(s[|s| - 1]) then [s[|s| - 1]] else []
  }

  lemma {:induction false} FilterElements<T>(s: seq<T>, keep: T -> bool)
    ensures forall x :: x in Filter(s, keep) <==> x in s && keep(x)
    decreases |s|
  {
    if s != [] {
      var init, last := s[..|s| - 1], s[|s| - 1];
      FilterElements(init, keep);
      assert s == init + [last];
      PrefixElements(init, last);
      PrefixElements(Filter(init, keep), last);
    }
  }

  /** Two conditions that agree on the elements keep the same. */
  lemma {:induction false} FilterSame<T>(s: seq<T>, keep: T -> bool, keep': T -> bool)
    requires forall x | x in s :: keep(x) == keep'(x)
    ensures Filter(s, keep) == Filter(s, keep')
    decreases |s|
  {
    if s != [] {
      var init, last := s[..|s| - 1], s[|s| - 1];
      assert last in s && forall x | x in init :: x in s;
      FilterSame(init, keep, keep');
    }
  }

  lemma {:induction false} FilterNoDuplicates<T>(s: seq<T>, keep: T -> bool)
    requires NoDuplicates(s)
    ensures NoDuplicates(Filter(s, keep))
    decreases |s|
  {
    if s != [] {
      var init, last := s[..|s| - 1], s[|s| - 1];
      FilterNoDuplicates(init, keep);
      FilterElements(init, keep);
      if keep(last) { AddNoDuplicates(Filter(init, keep), last); }
    }
  }

  lemma AddNoDuplicates<T>(s: seq<T>, x: T)
    requires NoDuplicates(s) && x !in s
    ensures NoDuplicates(s + [x])
  {
    var out := s + [x];
    forall i, j | 0 <= i < j < |out| ensures out[i] != out[j] {
      assert out[i] == s[i];
      assert j < |s| ==> out[j] == s[j];
    }
  }
}
