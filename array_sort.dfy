/**
 * `Array.prototype.sort()` with no comparator on an array of strings: the
 * array is rearranged in place into ascending code-unit order.
 */
module ArraySort {
  import opened JsString

  /** No element is below the one before it (the comparator's order). */
  predicate Sorted(s: seq<JsStr>) {
    forall k :: 0 < k < |s| ==> !Less(s[k], s[k - 1])
  }

  /**
   * Sorts `a` in place. The engine's own algorithm is not specified by the
   * language; SortedPermutationsEqual shows that every algorithm meeting this
   * contract leaves the same array.
   */
  method SortInPlace(a: array<JsStr>)
    modifies a
    ensures Sorted(a[..])
    ensures multiset(a[..]) == multiset(old(a[..]))
  {
    var i := 0;
    while i < a.Length
      invariant 0 <= i <= a.Length
      invariant forall k :: 0 < k < i ==> !Less(a[k], a[k - 1])
      invariant multiset(a[..]) == multiset(old(a[..]))
    {
      var j := i;
      while j > 0 && Less(a[j], a[j - 1])
        invariant 0 <= j <= i
        invariant forall k :: 0 < k <= i && k != j ==> !Less(a[k], a[k - 1])
        invariant 0 < j < i ==> !Less(a[j + 1], a[j - 1])
        invariant multiset(a[..]) == multiset(old(a[..]))
      {
        LessAsymmetric(a[j], a[j - 1]);
        SwapAdjacent(a, j);
        j := j - 1;
      }
      i := i + 1;
    }
  }

  /** Exchanges `a[j - 1]` and `a[j]`. */
  method SwapAdjacent(a: array<JsStr>, j: int)
    requires 0 < j < a.Length
    modifies a
    ensures a[j - 1] == old(a[j]) && a[j] == old(a[j - 1])
    ensures forall k :: 0 <= k < a.Length && k != j - 1 && k != j ==> a[k] == old(a[k])
    ensures multiset(a[..]) == multiset(old(a[..]))
  {
    a[j - 1], a[j] := a[j], a[j - 1];
  }

  /** The last element of a sorted sequence is above none of the others: it is the greatest. */
  lemma {:induction false} SortedLastIsGreatest(s: seq<JsStr>)
    requires Sorted(s) && s != []
    ensures forall x | x in s :: !Less(s[|s| - 1], x)
  {
    var n := |s|;
    if n > 1 {
      var init := s[..n - 1];
      assert Sorted(init);
      SortedLastIsGreatest(init);
      forall x | x in s
        ensures !Less(s[n - 1], x)
      {
        if x == s[n - 1] {
          LessIrreflexive(x);
        } else {
          assert x in init;
          NotLessTransitive(x, init[n - 2], s[n - 1]);
        }
      }
    } else {
      LessIrreflexive(s[0]);
    }
  }

  /** Any two sorted arrangements of the same strings are the same sequence. */
  lemma {:induction false} SortedPermutationsEqual(s: seq<JsStr>, t: seq<JsStr>)
    requires Sorted(s) && Sorted(t)
    requires multiset(s) == multiset(t)
    ensures s == t
  {
    assert |s| == |multiset(s)| == |multiset(t)| == |t|;
    if s != [] {
      var n := |s|;
      var last := s[n - 1];
      assert last in multiset(t) && t[n - 1] in multiset(s);
      assert last in t && t[n - 1] in s;
      SortedLastIsGreatest(s);
      SortedLastIsGreatest(t);
      LessTotal(last, t[n - 1]);
      assert s == s[..n - 1] + [last];
      assert t == t[..n - 1] + [last];
      assert multiset(s) == multiset(s[..n - 1]) + multiset([last]);
      assert multiset(t) == multiset(t[..n - 1]) + multiset([last]);
      assert multiset(s[..n - 1]) == multiset(s) - multiset([last]);
      assert multiset(t[..n - 1]) == multiset(t) - multiset([last]);
      SortedPermutationsEqual(s[..n - 1], t[..n - 1]);
    }
  }
}
