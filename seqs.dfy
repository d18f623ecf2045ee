/** Facts about sequences shared by the retrieval merge and the report parser. */
module Seqs {

  ghost predicate Distinct<T>(s: seq<T>)
  {
    forall p, q :: 0 <= p < q < |s| ==> s[p] != s[q]
  }

  lemma DistinctSnoc<T>(s: seq<T>, x: T)
    requires Distinct(s) && x !in s
    ensures Distinct(s + [x])
  {
    var t := s + [x];
    assert forall q :: 0 <= q < |s| ==> t[q] == s[q];
  }

  /** Position of the first occurrence of x in s. */
  function FirstIndex<T(==)>(s: seq<T>, x: T): (i: nat)
    requires x in s
    ensures i < |s| && s[i] == x
    ensures forall j :: 0 <= j < i ==> s[j] != x
  {
    if s[0] == x then 0 else 1 + FirstIndex(s[1..], x)
  }

  /**
   * The elements of s with every repetition after the first one dropped:
   * what a loop produces that appends an element only when it is "not in" the list yet.
   */
  function Dedup<T(==)>(s: seq<T>): seq<T>
    decreases |s|
  {
    if |s| == 0 then []
    else
      var d := Dedup(s[..|s| - 1]);
      if s[|s| - 1] in d then d else d + [s[|s| - 1]]
  }

  /** One more element is appended to Dedup exactly when it is new. */
  lemma DedupSnoc<T>(s: seq<T>, x: T)
    ensures Dedup(s + [x]) == if x in Dedup(s) then Dedup(s) else Dedup(s) + [x]
  {
    assert (s + [x])[..|s|] == s;
  }

  /** Dedup keeps exactly the elements of s. */
  lemma {:induction false} DedupMembers<T>(s: seq<T>)
    ensures forall x :: x in Dedup(s) <==> x in s
    decreases |s|
  {
    if |s| > 0 {
      var init := s[..|s| - 1];
      DedupMembers(init);
      assert s == init + [s[|s| - 1]];
    }
  }

  lemma {:induction false} DedupDistinct<T>(s: seq<T>)
    ensures Distinct(Dedup(s))
    decreases |s|
  {
    if |s| > 0 {
      var init := s[..|s| - 1];
      DedupDistinct(init);
      var d := Dedup(init);
      if s[|s| - 1] !in d {
        DistinctSnoc(d, s[|s| - 1]);
      }
    }
  }

  /** Dedup lists every element of s, and each only once. */
  lemma DedupFacts<T>(s: seq<T>)
    ensures Distinct(Dedup(s))
    ensures forall i :: 0 <= i < |Dedup(s)| ==> Dedup(s)[i] in s
    ensures forall i :: 0 <= i < |s| ==> s[i] in Dedup(s)
  {
    DedupDistinct(s);
    DedupMembers(s);
  }

  /** Dropping repetitions never lengthens a sequence. */
  lemma {:induction false} DedupLength<T>(s: seq<T>)
    ensures |Dedup(s)| <= |s|
    decreases |s|
  {
    if |s| > 0 {
      DedupLength(s[..|s| - 1]);
    }
  }

  lemma {:induction false} FirstIndexInPrefix<T>(s: seq<T>, m: nat, x: T)
    requires m <= |s| && x in s[..m]
    ensures x in s && FirstIndex(s, x) == FirstIndex(s[..m], x)
  {
    assert s[..m][0] == s[0];
    if s[0] != x {
      assert s[..m][1..] == s[1..][..m - 1];
      FirstIndexInPrefix(s[1..], m - 1, x);
    }
  }

  /** Dedup keeps the elements in the order of their first occurrence in s. */
  lemma {:induction false} DedupFirstOccurrenceOrder<T>(s: seq<T>)
    ensures forall i :: 0 <= i < |Dedup(s)| ==> Dedup(s)[i] in s
    ensures forall p, q :: 0 <= p < q < |Dedup(s)| ==>
              FirstIndex(s, Dedup(s)[p]) < FirstIndex(s, Dedup(s)[q])
  {
    DedupFacts(s);
    if |s| > 0 {
      var init := s[..|s| - 1];
      var last := s[|s| - 1];
      var d := Dedup(init);
      DedupFirstOccurrenceOrder(init);
      DedupFacts(init);
      forall x | x in d
        ensures FirstIndex(s, x) == FirstIndex(init, x) < |init|
      {
        var i :| 0 <= i < |d| && d[i] == x;
        assert x in init;
        FirstIndexInPrefix(s, |init|, x);
      }
      if last !in d {
        assert last !in init;
        assert FirstIndex(s, last) == |init|;
        forall p, q | 0 <= p < q < |Dedup(s)|
          ensures FirstIndex(s, Dedup(s)[p]) < FirstIndex(s, Dedup(s)[q])
        {
          assert Dedup(s) == d + [last];
          if q < |d| {
            assert Dedup(s)[p] == d[p] && Dedup(s)[q] == d[q];
            assert d[p] in d && d[q] in d;
          } else {
            assert Dedup(s)[p] == d[p] && d[p] in d;
          }
        }
      } else {
        forall p, q | 0 <= p < q < |Dedup(s)|
          ensures FirstIndex(s, Dedup(s)[p]) < FirstIndex(s, Dedup(s)[q])
        {
          assert Dedup(s)[p] in d && Dedup(s)[q] in d;
        }
      }
    }
  }
}
