/** The host-side sort of the (Morton code, element index) pairs read back
    from the key stage. The library sort's algorithm is unspecified; the
    model sorts by insertion, and proves that the order it produces is the
    only sorted permutation there is, so any correct sort agrees with it. */
module MortonSort {
  import opened Records

  /** The comparator handed to the sort: by code, ties broken by element index. */
  predicate Before(a: MortonCodeElement, b: MortonCodeElement) {
    if a.mortonCode == b.mortonCode then a.elementIdx < b.elementIdx else a.mortonCode < b.mortonCode
  }

  /** The comparator is a strict weak order the sort may rely on, and total:
      two pairs it cannot order are the same pair. */
  lemma BeforeIsStrictTotalOrder(a: MortonCodeElement, b: MortonCodeElement, c: MortonCodeElement)
    ensures !Before(a, a)
    ensures Before(a, b) ==> !Before(b, a)
    ensures Before(a, b) && Before(b, c) ==> Before(a, c)
    ensures a == b || Before(a, b) || Before(b, a)
  {
  }

  /** No later pair comes before an earlier one. */
  predicate Sorted(s: seq<MortonCodeElement>) {
    forall i, j :: 0 <= i < j < |s| ==> !Before(s[j], s[i])
  }

  /** Sorted means ordered lexicographically by (code, element index). */
  lemma SortedIsLexicographic(s: seq<MortonCodeElement>, i: int, j: int)
    requires Sorted(s) && 0 <= i < j < |s|
    ensures s[i].mortonCode <= s[j].mortonCode
    ensures s[i].mortonCode == s[j].mortonCode ==> s[i].elementIdx <= s[j].elementIdx
  {
    assert !Before(s[j], s[i]);
  }

  /** `x` placed just before the first element it comes before. */
  function Insert(x: MortonCodeElement, s: seq<MortonCodeElement>): seq<MortonCodeElement>
    decreases |s|
  {
    if |s| == 0 then [x]
    else if Before(x, s[0]) then [x] + s
    else [s[0]] + Insert(x, s[1..])
  }

  /** Sorting by inserting each element, first to last, into the sorted prefix. */
  function SortCodes(s: seq<MortonCodeElement>): seq<MortonCodeElement>
    decreases |s|
  {
    if |s| == 0 then [] else Insert(s[|s| - 1], SortCodes(s[..|s| - 1]))
  }

  lemma {:induction false} InsertPermutes(x: MortonCodeElement, s: seq<MortonCodeElement>)
    ensures multiset(Insert(x, s)) == multiset(s) + multiset{x}
    decreases |s|
  {
    if |s| > 0 && !Before(x, s[0]) {
      InsertPermutes(x, s[1..]);
      assert s == [s[0]] + s[1..];
    }
  }

  lemma {:induction false} InsertSorted(x: MortonCodeElement, s: seq<MortonCodeElement>)
    requires Sorted(s)
    ensures Sorted(Insert(x, s))
    decreases |s|
  {
    if |s| > 0 && !Before(x, s[0]) {
      InsertSorted(x, s[1..]);
      InsertPermutes(x, s[1..]);
      var r := Insert(x, s[1..]);
      forall k | 0 <= k < |r|
        ensures !Before(r[k], s[0])
      {
        assert r[k] in multiset(s[1..]) + multiset{x};
        if r[k] != x {
          var m :| 0 <= m < |s[1..]| && s[1..][m] == r[k];
          assert s[m + 1] == r[k];
        }
        BeforeIsStrictTotalOrder(r[k], s[0], x);
      }
    }
  }

  /** The insertion sort yields a sorted permutation of its input. */
  lemma {:induction false} SortCodesSortedPermutation(s: seq<MortonCodeElement>)
    ensures Sorted(SortCodes(s))
    ensures multiset(SortCodes(s)) == multiset(s)
    decreases |s|
  {
    if |s| > 0 {
      var init := s[..|s| - 1];
      SortCodesSortedPermutation(init);
      InsertSorted(s[|s| - 1], SortCodes(init));
      InsertPermutes(s[|s| - 1], SortCodes(init));
      assert s == init + [s[|s| - 1]];
    }
  }

  /** The first element of a sorted sequence comes before no other, so two
      sorted sequences with the same elements start alike. */
  lemma SortedHeadsAgree(a: seq<MortonCodeElement>, b: seq<MortonCodeElement>)
    requires Sorted(a) && Sorted(b) && |a| > 0
    requires multiset(a) == multiset(b)
    ensures |b| > 0 && a[0] == b[0]
  {
    assert a[0] in multiset(b);
    assert b[0] in multiset(a);
    var i :| 0 <= i < |a| && a[i] == b[0];
    var j :| 0 <= j < |b| && b[j] == a[0];
    BeforeIsStrictTotalOrder(a[0], b[0], a[0]);
  }

  /** There is only one sorted permutation: whatever sort the host library
      uses, its result is `SortCodes` of the input. */
  lemma {:induction false} SortedPermutationUnique(a: seq<MortonCodeElement>, b: seq<MortonCodeElement>)
    requires Sorted(a) && Sorted(b)
    requires multiset(a) == multiset(b)
    ensures a == b
    decreases |a|
  {
    if |a| == 0 {
      assert |b| == |multiset(b)| == 0;
    } else {
      SortedHeadsAgree(a, b);
      assert multiset(a[1..]) == multiset(b[1..]) by {
        assert a == [a[0]] + a[1..] && b == [b[0]] + b[1..];
        assert multiset(a[1..]) == multiset(a) - multiset{a[0]};
        assert multiset(b[1..]) == multiset(b) - multiset{b[0]};
      }
      SortedPermutationUnique(a[1..], b[1..]);
      assert a == [a[0]] + a[1..] && b == [b[0]] + b[1..];
    }
  }

  /** Any sorted permutation of the pairs is the insertion sort's result. */
  lemma AnySortAgrees(s: seq<MortonCodeElement>, r: seq<MortonCodeElement>)
    requires Sorted(r) && multiset(r) == multiset(s)
    ensures r == SortCodes(s)
  {
    SortCodesSortedPermutation(s);
    SortedPermutationUnique(r, SortCodes(s));
  }

  /** With `x` after the first `k` elements of a sorted `s` and before the
      rest, inserting `x` puts it at position `k`. */
  lemma {:induction false} InsertAt(x: MortonCodeElement, s: seq<MortonCodeElement>, k: nat)
    requires Sorted(s) && k <= |s|
    requires k == 0 || !Before(x, s[k - 1])
    requires forall m :: k <= m < |s| ==> Before(x, s[m])
    ensures Insert(x, s) == s[..k] + [x] + s[k..]
    decreases |s|
  {
    if k > 0 {
      if Before(x, s[0]) {
        assert !Before(s[k - 1], s[0]);
        BeforeIsStrictTotalOrder(x, s[0], s[k - 1]);
        BeforeIsStrictTotalOrder(s[0], s[k - 1], x);
      }
      InsertAt(x, s[1..], k - 1);
      assert s[1..][..k - 1] == s[1..k];
      assert s[1..][k - 1..] == s[k..];
      assert s[..k] == [s[0]] + s[1..k];
    }
  }

  /** The state of one insertion round over the sorted prefix `s`: the
      first `j` slots still hold `s[..j]`, the rest of the prefix has moved
      up one slot, `key` comes before every moved entry, and the slots
      after the prefix hold `tail`. */
  ghost predicate Shifted(t: seq<MortonCodeElement>, s: seq<MortonCodeElement>, key: MortonCodeElement,
                          tail: seq<MortonCodeElement>, j: nat)
  {
    && j <= |s| < |t|
    && t[..j] == s[..j]
    && t[j + 1..|s| + 1] == s[j..]
    && t[|s| + 1..] == tail
    && forall m :: j <= m < |s| ==> Before(key, s[m])
  }

  /** Moving the entry before the gap up one slot moves the gap down. */
  lemma ShiftStep(t: seq<MortonCodeElement>, s: seq<MortonCodeElement>, key: MortonCodeElement,
                  tail: seq<MortonCodeElement>, j: nat)
    requires Shifted(t, s, key, tail, j) && j > 0 && Before(key, t[j - 1])
    ensures Shifted(t[j := t[j - 1]], s, key, tail, j - 1)
  {
    var t' := t[j := t[j - 1]];
    assert t[j - 1] == s[j - 1] by { assert t[..j][j - 1] == s[..j][j - 1]; }
    assert t'[j..|s| + 1] == [s[j - 1]] + t[j + 1..|s| + 1];
    assert s[j - 1..] == [s[j - 1]] + s[j..];
    assert t'[|s| + 1..] == t[|s| + 1..];
  }

  /** Dropping the key into the gap where it stops yields the insertion. */
  lemma ShiftDone(t: seq<MortonCodeElement>, s: seq<MortonCodeElement>, key: MortonCodeElement,
                  tail: seq<MortonCodeElement>, j: nat)
    requires Sorted(s) && Shifted(t, s, key, tail, j)
    requires j == 0 || !Before(key, t[j - 1])
    ensures t[j := key][..|s| + 1] == Insert(key, s)
    ensures t[j := key][|s| + 1..] == tail
  {
    if j > 0 {
      assert t[j - 1] == s[j - 1] by { assert t[..j][j - 1] == s[..j][j - 1]; }
    }
    InsertAt(key, s, j);
    var t' := t[j := key];
    assert t'[..|s| + 1] == t[..j] + [key] + t[j + 1..|s| + 1];
  }

  /** One round of insertion sort: element `i` moves left past every element
      of the sorted prefix that it comes before. */
  method InsertNext(a: array<MortonCodeElement>, i: nat)
    requires i < a.Length && Sorted(a[..i])
    modifies a
    ensures a[..i + 1] == Insert(old(a[i]), old(a[..i]))
    ensures a[i + 1..] == old(a[i + 1..])
  {
    ghost var s := a[..i];
    ghost var tail := a[i + 1..];
    var key := a[i];
    var j := i;
    while j > 0 && Before(key, a[j - 1])
      invariant Shifted(a[..], s, key, tail, j)
    {
      ShiftStep(a[..], s, key, tail, j);
      a[j] := a[j - 1];
      j := j - 1;
    }
    ShiftDone(a[..], s, key, tail, j);
    a[j] := key;
  }

  /** The host sort, in place: afterwards the array holds the sorted
      permutation of what it held before. */
  method SortMortonCodes(a: array<MortonCodeElement>)
    modifies a
    ensures a[..] == SortCodes(old(a[..]))
    ensures Sorted(a[..]) && multiset(a[..]) == multiset(old(a[..]))
  {
    ghost var input := a[..];
    var i := 0;
    while i < a.Length
      invariant 0 <= i <= a.Length
      invariant a[..i] == SortCodes(input[..i])
      invariant a[i..] == input[i..]
    {
      SortCodesSortedPermutation(input[..i]);
      assert a[i] == input[i] && a[i + 1..] == input[i + 1..];
      InsertNext(a, i);
      assert input[..i + 1][..i] == input[..i];
      i := i + 1;
    }
    assert a[..] == a[..a.Length] && input == input[..a.Length];
    SortCodesSortedPermutation(input);
  }
}
