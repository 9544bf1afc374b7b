/**
 * Order-preserving deduplication: `unique` in server.py and
 * `unique_preserve_order` in hyperschedule/scraper/portal.py and libportal.py
 * (the same loop in all three).
 */
module Lists {

  predicate NoDuplicates<T(==)>(s: seq<T>) {
    forall i, j :: 0 <= i < j < |s| ==> s[i] != s[j]
  }

  /** The index of the first occurrence of `x` in `s`. */
  function FirstIndex<T(==)>(s: seq<T>, x: T): (k: nat)
    requires x in s
    ensures k < |s| && s[k] == x && x !in s[..k]
  {
    if s[0] == x then 0 else 1 + FirstIndex(s[1..], x)
  }

  lemma FirstIndexAt<T>(s: seq<T>, i: nat)
    requires i < |s| && s[i] !in s[..i]
    ensures FirstIndex(s, s[i]) == i
  {
  }

  /**
   * `unique(lst)`: keeps each element at its first occurrence. The result has
   * no duplicates, the same elements as `lst`, and lists them in the order in
   * which they first occur in `lst`.
   */
  method Unique<T(==)>(lst: seq<T>) returns (r: seq<T>)
    ensures NoDuplicates(r)
    ensures forall x :: x in r <==> x in lst
    ensures forall a, b :: 0 <= a < b < |r| ==> FirstIndex(lst, r[a]) < FirstIndex(lst, r[b])
  {
    r := [];
    var i := 0;
    while i < |lst|
      invariant 0 <= i <= |lst|
      invariant NoDuplicates(r)
      invariant forall x :: x in r <==> x in lst[..i]
      invariant forall a :: 0 <= a < |r| ==> r[a] in lst && FirstIndex(lst, r[a]) < i
      invariant forall a, b :: 0 <= a < b < |r| ==> FirstIndex(lst, r[a]) < FirstIndex(lst, r[b])
    {
      var item := lst[i];
      assert lst[..i + 1] == lst[..i] + [item];
      if item !in r {
        FirstIndexAt(lst, i);
        r := r + [item];
      }
      i := i + 1;
    }
    assert lst[..i] == lst;
  }
}
