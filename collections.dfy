/** Sequence operations shared by the server and the client: first-match
    search (`findOne`, `Array.prototype.find`), duplicate-free lists,
    `[...new Set(xs)]` and filtering out one value. */
module Collections {
  import opened Wrappers

  /** The index of the first element satisfying `p`, as a query that returns
      the first matching document in natural order. */
  function IndexWhere<T>(s: seq<T>, p: T -> bool): (k: Option<nat>)
    ensures k.Some? ==> k.value < |s| && p(s[k.value])
    ensures k.Some? ==> forall i :: 0 <= i < k.value ==> !p(s[i])
    ensures k.None? ==> forall i :: 0 <= i < |s| ==> !p(s[i])
  {
    if s == [] then None
    else if p(s[0]) then Some(0)
    else match IndexWhere(s[1..], p)
      case None => None
      case Some(j) => Some(j + 1)
  }

  /** Two searches agree when their predicates agree position by position;
      used when a record changes in fields the predicate does not read. */
  lemma {:induction false} IndexWhereCongruent<T, U>(s: seq<T>, p: T -> bool, t: seq<U>, q: U -> bool)
    requires |s| == |t|
    requires forall i :: 0 <= i < |s| ==> p(s[i]) == q(t[i])
    ensures IndexWhere(s, p) == IndexWhere(t, q)
  {
    if s != [] {
      IndexWhereCongruent(s[1..], p, t[1..], q);
    }
  }

  /** Appending a record does not change a search that already succeeds. */
  lemma {:induction false} IndexWhereAppend<T>(s: seq<T>, x: T, p: T -> bool)
    requires IndexWhere(s, p).Some?
    ensures IndexWhere(s + [x], p) == IndexWhere(s, p)
  {
    if !p(s[0]) {
      assert (s + [x])[1..] == s[1..] + [x];
      IndexWhereAppend(s[1..], x, p);
    }
  }

  /** A search that fails on `s` finds the appended record if it matches. */
  lemma {:induction false} IndexWhereAppendNew<T>(s: seq<T>, x: T, p: T -> bool)
    requires IndexWhere(s, p).None?
    ensures IndexWhere(s + [x], p) == if p(x) then Some(|s|) else None
  {
    if s == [] {
      assert [] + [x] == [x];
    } else {
      assert (s + [x])[1..] == s[1..] + [x];
      IndexWhereAppendNew(s[1..], x, p);
    }
  }

  predicate NoDuplicates<T(==)>(s: seq<T>) {
    forall i, j :: 0 <= i < j < |s| ==> s[i] != s[j]
  }

  /** `[...new Set(s)]`: every element once, at its first occurrence. */
  function Dedup<T(==,!new)>(s: seq<T>): (r: seq<T>)
    ensures NoDuplicates(r)
    ensures forall x :: x in r <==> x in s
    ensures |r| <= |s|
  {
    if s == [] then []
    else
      var init, last := s[..|s| - 1], s[|s| - 1];
      var d := Dedup(init);
      assert forall x :: x in s <==> x in init || x == last;
      if last in init then d else d + [last]
  }

  /** The position of the first occurrence of `x` in `s`. */
  function FirstIndex<T(==)>(s: seq<T>, x: T): (k: nat)
    requires x in s
    ensures k < |s| && s[k] == x
    ensures forall i :: 0 <= i < k ==> s[i] != x
  {
    if s[0] == x then 0 else 1 + FirstIndex(s[1..], x)
  }

  /** Appending an element does not move an earlier first occurrence. */
  lemma FirstIndexAppend<T>(s: seq<T>, y: T, x: T)
    requires x in s
    ensures x in s + [y] && FirstIndex(s + [y], x) == FirstIndex(s, x)
  {
    var k := FirstIndex(s, x);
    assert (s + [y])[k] == x;
  }

  /** `new Set` keeps elements in the order of their first occurrences. */
  lemma {:induction false} DedupFirstOccurrenceOrder<T(!new)>(s: seq<T>)
    ensures forall i, j :: 0 <= i < j < |Dedup(s)| ==> FirstIndex(s, Dedup(s)[i]) < FirstIndex(s, Dedup(s)[j])
  {
    if s != [] {
      var init, last := s[..|s| - 1], s[|s| - 1];
      assert s == init + [last];
      var d := Dedup(init);
      DedupFirstOccurrenceOrder(init);
      forall x | x in init ensures FirstIndex(s, x) == FirstIndex(init, x) {
        FirstIndexAppend(init, last, x);
      }
      if last !in init {
        assert FirstIndex(s, last) == |init|;
        assert Dedup(s) == d + [last];
        forall i, j | 0 <= i < j < |Dedup(s)| ensures FirstIndex(s, Dedup(s)[i]) < FirstIndex(s, Dedup(s)[j]) {
          assert d[i] in init;
          if j < |d| {
            assert d[j] in init;
          }
        }
      }
    }
  }

  /** A list without repetitions comes out of `new Set` unchanged. */
  lemma {:induction false} DedupOfDistinct<T(!new)>(s: seq<T>)
    requires NoDuplicates(s)
    ensures Dedup(s) == s
  {
    if s != [] {
      var init := s[..|s| - 1];
      DedupOfDistinct(init);
      assert s[|s| - 1] !in init by {
        forall i | 0 <= i < |init| ensures init[i] != s[|s| - 1] {
          assert s[i] == init[i];
        }
      }
      assert init + [s[|s| - 1]] == s;
    }
  }

  /** A list with a repetition loses length in `new Set`. */
  lemma {:induction false} DedupOfRepeating<T(!new)>(s: seq<T>)
    requires !NoDuplicates(s)
    ensures |Dedup(s)| < |s|
  {
    var init, last := s[..|s| - 1], s[|s| - 1];
    if last !in init {
      assert !NoDuplicates(init) by {
        var i, j :| 0 <= i < j < |s| && s[i] == s[j];
        assert init[i] == s[i];
        assert j < |s| - 1;
        assert init[i] == init[j];
      }
      DedupOfRepeating(init);
    }
  }

  /** The size check the group controller performs: `new Set` keeps the
      length exactly when there was nothing to remove. */
  lemma DedupKeepsLengthIff<T(!new)>(s: seq<T>)
    ensures |Dedup(s)| == |s| <==> NoDuplicates(s)
  {
    if NoDuplicates(s) {
      DedupOfDistinct(s);
    } else {
      DedupOfRepeating(s);
    }
  }

  /** `s.filter(y => y !== x)`. */
  function RemoveAll<T(==,!new)>(s: seq<T>, x: T): (r: seq<T>)
    ensures x !in r
    ensures forall y :: y != x ==> (y in r <==> y in s)
    ensures |r| <= |s|
  {
    if s == [] then []
    else if s[0] == x then RemoveAll(s[1..], x)
    else [s[0]] + RemoveAll(s[1..], x)
  }

  /** Filtering works piecewise, so the kept elements stay in their order. */
  lemma {:induction false} RemoveAllConcat<T(!new)>(a: seq<T>, b: seq<T>, x: T)
    ensures RemoveAll(a + b, x) == RemoveAll(a, x) + RemoveAll(b, x)
  {
    if a != [] {
      assert (a + b)[0] == a[0] && (a + b)[1..] == a[1..] + b;
      RemoveAllConcat(a[1..], b, x);
      var ra, rb := RemoveAll(a[1..], x), RemoveAll(b, x);
      assert [a[0]] + (ra + rb) == ([a[0]] + ra) + rb;
    } else {
      assert a + b == b;
    }
  }

  /** Filtering out a value that is not there changes nothing. */
  lemma {:induction false} RemoveAllAbsent<T(!new)>(s: seq<T>, x: T)
    requires x !in s
    ensures RemoveAll(s, x) == s
  {
    if s != [] {
      RemoveAllAbsent(s[1..], x);
    }
  }

  /** Filtering keeps a list duplicate-free. */
  lemma {:induction false} RemoveAllDistinct<T(!new)>(s: seq<T>, x: T)
    requires NoDuplicates(s)
    ensures NoDuplicates(RemoveAll(s, x))
  {
    if s != [] {
      RemoveAllDistinct(s[1..], x);
      if s[0] != x {
        assert s[0] !in s[1..];
      }
    }
  }
}
