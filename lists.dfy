/** The `List<T>` operations the repository uses: `FindIndex`, `RemoveAt`, `Where`. */
module Lists {
  /** `List.FindIndex(p)`: the index of the first element satisfying `p`, or -1. */
  function FirstIndex<T>(s: seq<T>, p: T -> bool): (k: int)
    ensures -1 <= k < |s|
    ensures k >= 0 ==> p(s[k])
    ensures forall i :: 0 <= i < |s| && (k < 0 || i < k) ==> !p(s[i])
  {
    if s == [] then -1
    else if p(s[0]) then 0
    else
      var k := FirstIndex(s[1..], p);
      if k < 0 then -1 else k + 1
  }

  /** `FindIndex` finds something exactly when some element satisfies `p`. */
  lemma FirstIndexFound<T>(s: seq<T>, p: T -> bool)
    ensures FirstIndex(s, p) >= 0 <==> exists i :: 0 <= i < |s| && p(s[i])
  {
  }

  /** Appending an element leaves an earlier match where it was, and otherwise
      finds the new element if it matches. */
  lemma FirstIndexAppend<T>(s: seq<T>, x: T, p: T -> bool)
    ensures FirstIndex(s + [x], p) ==
              if FirstIndex(s, p) >= 0 then FirstIndex(s, p)
              else if p(x) then |s| else -1
  {
    var k := FirstIndex(s + [x], p);
    assert forall i :: 0 <= i < |s| ==> (s + [x])[i] == s[i];
    if FirstIndex(s, p) < 0 && p(x) {
      assert (s + [x])[|s|] == x;
    }
  }

  /** `List.RemoveAt(k)`: the elements before `k` stay, the ones after move down by one. */
  function RemoveAt<T>(s: seq<T>, k: nat): (r: seq<T>)
    requires k < |s|
    ensures |r| == |s| - 1
    ensures forall i :: 0 <= i < k ==> r[i] == s[i]
    ensures forall i :: k <= i < |r| ==> r[i] == s[i + 1]
  {
    s[..k] + s[k + 1..]
  }

  /** Every element left after `RemoveAt` was in the list before. */
  lemma RemoveAtSubset<T>(s: seq<T>, k: nat)
    requires k < |s|
    ensures forall x :: x in RemoveAt(s, k) ==> x in s
  {
    forall x | x in RemoveAt(s, k) ensures x in s {
      var i :| 0 <= i < |RemoveAt(s, k)| && RemoveAt(s, k)[i] == x;
      if i >= k { assert s[i + 1] == x; }
    }
  }

  /** `Where(p).ToList()`: the elements satisfying `p`, in list order. */
  function Filter<T>(s: seq<T>, p: T -> bool): (r: seq<T>)
    ensures |r| <= |s|
    ensures forall i :: 0 <= i < |r| ==> r[i] in s && p(r[i])
    ensures forall i :: 0 <= i < |s| && p(s[i]) ==> s[i] in r
  {
    if s == [] then []
    else (if p(s[0]) then [s[0]] else []) + Filter(s[1..], p)
  }

  /** Filtering a concatenation filters each part and keeps them in order. */
  lemma {:induction false} FilterAppend<T>(a: seq<T>, b: seq<T>, p: T -> bool)
    ensures Filter(a + b, p) == Filter(a, p) + Filter(b, p)
  {
    if a == [] {
      assert a + b == b;
    } else {
      assert (a + b)[1..] == a[1..] + b;
      FilterAppend(a[1..], b, p);
    }
  }
}
