/** De-duplication in first-occurrence order.

    The translator collects lane ids as the keys of a Python dict (each id
    assigned `= 0`); re-assigning a key keeps its original position, so the
    key list is the input with every repeated element dropped. */
module Distinct {

  predicate NoDup<T(==,!new)>(s: seq<T>) {
    forall i, j :: 0 <= i < j < |s| ==> s[i] != s[j]
  }

  /** Inserts the elements of `s`, in order, into the key list `acc`. */
  function DedupOnto<T(==,!new)>(acc: seq<T>, s: seq<T>): seq<T>
    decreases |s|
  {
    if |s| == 0 then acc
    else DedupOnto(if s[0] in acc then acc else acc + [s[0]], s[1..])
  }

  /** Inserting keeps the existing keys in place, adds exactly the new
      elements, and never repeats a key. */
  lemma {:induction false} DedupOntoSpec<T(!new)>(acc: seq<T>, s: seq<T>)
    ensures var r := DedupOnto(acc, s);
            && (NoDup(acc) ==> NoDup(r))
            && (forall x :: x in r <==> x in acc || x in s)
            && acc <= r
    decreases |s|
  {
    if |s| > 0 {
      var acc' := if s[0] in acc then acc else acc + [s[0]];
      DedupOntoSpec(acc', s[1..]);
      assert s == [s[0]] + s[1..];
    }
  }

  /** The key list of a dict filled from `s`. */
  function Dedup<T(==,!new)>(s: seq<T>): (r: seq<T>)
    ensures NoDup(r)
    ensures forall x :: x in r <==> x in s
  {
    DedupOntoSpec([], s);
    DedupOnto([], s)
  }

  /** Reference definition: keep `s[i]` exactly when it does not occur
      earlier in `s`. */
  function FirstOccurrences<T(==,!new)>(s: seq<T>): seq<T>
    decreases |s|
  {
    if |s| == 0 then []
    else
      var init := s[..|s| - 1];
      FirstOccurrences(init) + (if s[|s| - 1] in init then [] else [s[|s| - 1]])
  }

  /** Filling a dict from `a + b` is filling it from `a`, then from `b`. */
  lemma {:induction false} DedupOntoConcat<T(!new)>(acc: seq<T>, a: seq<T>, b: seq<T>)
    ensures DedupOnto(acc, a + b) == DedupOnto(DedupOnto(acc, a), b)
    decreases |a|
  {
    if |a| == 0 {
      assert a + b == b;
    } else {
      assert (a + b)[0] == a[0];
      assert (a + b)[1..] == a[1..] + b;
      DedupOntoConcat(if a[0] in acc then acc else acc + [a[0]], a[1..], b);
    }
  }

  /** `Dedup` keeps exactly the first occurrence of every element, in order. */
  lemma {:induction false} DedupIsFirstOccurrences<T(!new)>(s: seq<T>)
    ensures Dedup(s) == FirstOccurrences(s)
    decreases |s|
  {
    if |s| > 0 {
      var init, x := s[..|s| - 1], s[|s| - 1];
      assert s == init + [x];
      DedupOntoConcat([], init, [x]);
      DedupIsFirstOccurrences(init);
      assert [x][1..] == [];
    }
  }

  /** A list without repetitions is its own key list; in particular `Dedup`
      is idempotent. */
  lemma {:induction false} DedupOfNoDup<T(!new)>(s: seq<T>)
    requires NoDup(s)
    ensures Dedup(s) == s
    decreases |s|
  {
    if |s| > 0 {
      var init := s[..|s| - 1];
      assert s == init + [s[|s| - 1]];
      DedupOfNoDup(init);
      DedupIsFirstOccurrences(s);
      DedupIsFirstOccurrences(init);
    }
  }
}
