/** Element sets and duplicate-freedom of sequences, as the pack tools use them. */
module Collections {

  /** `set(s)`. */
  function Elems<T>(s: seq<T>): set<T> {
    set x | x in s
  }

  /** No two positions hold the same value. */
  predicate Distinct<T(==)>(s: seq<T>) {
    forall i, j :: 0 <= i < j < |s| ==> s[i] != s[j]
  }

  /** No two positions hold values with the same key. */
  predicate DistinctBy<T>(s: seq<T>, key: T -> string) {
    forall i, j :: 0 <= i < j < |s| ==> key(s[i]) != key(s[j])
  }

  lemma ElemsCons<T>(x: T, t: seq<T>)
    ensures Elems([x] + t) == {x} + Elems(t)
  {
  }

  lemma {:induction false} ElemsCardinality<T>(s: seq<T>)
    ensures |Elems(s)| <= |s|
    ensures |Elems(s)| == |s| <==> Distinct(s)
  {
    if s != [] {
      var t := s[1..];
      ElemsCardinality(t);
      assert Elems(s) == {s[0]} + Elems(t) by {
        assert s == [s[0]] + t;
      }
      if s[0] in t {
        var k :| 0 <= k < |t| && t[k] == s[0];
        assert s[0] == s[k + 1];
      } else {
        DistinctTail(s);
      }
    }
  }

  /** A sequence whose head does not recur is duplicate-free exactly when its tail is. */
  lemma DistinctTail<T>(s: seq<T>)
    requires s != [] && s[0] !in s[1..]
    ensures Distinct(s) <==> Distinct(s[1..])
  {
    var t := s[1..];
    if Distinct(t) {
      forall i, j | 0 <= i < j < |s| ensures s[i] != s[j] {
        if i > 0 { assert s[i] == t[i - 1] && s[j] == t[j - 1]; }
        else { assert s[j] == t[j - 1]; }
      }
    } else {
      var i, j :| 0 <= i < j < |t| && t[i] == t[j];
      assert s[i + 1] == s[j + 1];
    }
  }

  lemma RepeatedMultiplicity<T>(s: seq<T>, i: int, j: int)
    requires 0 <= i < j < |s| && s[i] == s[j]
    ensures multiset(s)[s[i]] >= 2
  {
    assert s == s[..j] + [s[j]] + s[j + 1..];
    assert s[i] == s[..j][i];
    assert multiset(s[..j])[s[i]] >= 1;
  }

  lemma {:induction false} MultiplicityRepeated<T>(s: seq<T>, x: T)
    requires multiset(s)[x] >= 2
    ensures exists i, j :: 0 <= i < j < |s| && s[i] == x && s[j] == x
  {
    assert s == [s[0]] + s[1..];
    var t := s[1..];
    if s[0] == x {
      assert multiset(t)[x] >= 1;
      var k :| 0 <= k < |t| && t[k] == x;
      assert s[0] == x && s[k + 1] == x;
    } else {
      MultiplicityRepeated(t, x);
      var i, j :| 0 <= i < j < |t| && t[i] == x && t[j] == x;
      assert s[i + 1] == x && s[j + 1] == x;
    }
  }

  /** A value occurs at least twice exactly when two different positions hold it. */
  lemma RepeatedIff<T>(s: seq<T>)
    ensures forall x :: multiset(s)[x] >= 2 <==> exists i, j :: 0 <= i < j < |s| && s[i] == x && s[j] == x
  {
    forall x ensures multiset(s)[x] >= 2 <==> exists i, j :: 0 <= i < j < |s| && s[i] == x && s[j] == x {
      if multiset(s)[x] >= 2 {
        MultiplicityRepeated(s, x);
      }
      if exists i, j :: 0 <= i < j < |s| && s[i] == x && s[j] == x {
        var i, j :| 0 <= i < j < |s| && s[i] == x && s[j] == x;
        RepeatedMultiplicity(s, i, j);
      }
    }
  }

  /** Rearranging a sequence keeps its keys pairwise different. */
  lemma PermutationKeepsDistinctBy<T>(a: seq<T>, b: seq<T>, key: T -> string)
    requires multiset(a) == multiset(b) && DistinctBy(a, key)
    ensures DistinctBy(b, key)
  {
    forall i, j | 0 <= i < j < |b| ensures key(b[i]) != key(b[j]) {
      assert b[i] in multiset(a) && b[j] in multiset(a);
      var k :| 0 <= k < |a| && a[k] == b[i];
      var l :| 0 <= l < |a| && a[l] == b[j];
      if b[i] == b[j] {
        RepeatedMultiplicity(b, i, j);
        MultiplicityRepeated(a, b[i]);
      }
    }
  }
}
