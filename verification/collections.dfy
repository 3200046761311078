/** `CollectionExtensions.Find`: the first element of an array that a
    selector accepts, or null. The selector is a total predicate here. */
module CollectionExtensions {
  import opened Results

  /** The index of the first element `test` accepts. */
  function FirstMatch<T>(items: seq<T>, test: T -> bool): (r: Option<nat>)
    ensures r.Some? ==> r.value < |items| && test(items[r.value])
    ensures r.Some? ==> forall j :: 0 <= j < r.value ==> !test(items[j])
    ensures r.None? <==> forall j :: 0 <= j < |items| ==> !test(items[j])
  {
    if items == [] then None
    else if test(items[0]) then Some(0)
    else
      var rest := FirstMatch(items[1..], test);
      if rest.Some? then Some(rest.value + 1) else None
  }

  /** The scan of `Find`: the first accepted element, or `None` (Java's
      null) when the selector accepts none. */
  method Find<T>(items: seq<T>, test: T -> bool) returns (r: Option<T>)
    ensures r.None? <==> forall j :: 0 <= j < |items| ==> !test(items[j])
    ensures r.Some? ==> test(r.value)
    ensures r.Some? ==> r.value == items[FirstMatch(items, test).value]
  {
    var i := 0;
    while i < |items|
      invariant i <= |items|
      invariant forall j :: 0 <= j < i ==> !test(items[j])
    {
      if test(items[i]) {
        FirstMatchAt(items, test, i);
        return Some(items[i]);
      }
      i := i + 1;
    }
    return None;
  }

  /** An accepted element with no accepted one before it is the first
      match. */
  lemma FirstMatchAt<T>(items: seq<T>, test: T -> bool, i: nat)
    requires i < |items| && test(items[i])
    requires forall j :: 0 <= j < i ==> !test(items[j])
    ensures FirstMatch(items, test) == Some(i)
  {
  }

  /** Searching a concatenation finds the first part's match if it has
      one, and otherwise the second part's, shifted past the first. */
  lemma FirstMatchConcat<T>(a: seq<T>, b: seq<T>, test: T -> bool)
    ensures FirstMatch(a + b, test) ==
              if FirstMatch(a, test).Some? then FirstMatch(a, test)
              else if FirstMatch(b, test).Some? then Some(|a| + FirstMatch(b, test).value)
              else None
  {
    if FirstMatch(a, test).Some? {
      MatchInFirst(a, b, test);
    } else if FirstMatch(b, test).Some? {
      MatchInSecond(a, b, test);
    } else {
      MatchInNeither(a, b, test);
    }
  }

  lemma MatchInFirst<T>(a: seq<T>, b: seq<T>, test: T -> bool)
    requires FirstMatch(a, test).Some?
    ensures FirstMatch(a + b, test) == FirstMatch(a, test)
  {
    var i := FirstMatch(a, test).value;
    assert (a + b)[i] == a[i];
    assert forall j :: 0 <= j < i ==> (a + b)[j] == a[j];
    FirstMatchAt(a + b, test, i);
  }

  lemma MatchInSecond<T>(a: seq<T>, b: seq<T>, test: T -> bool)
    requires FirstMatch(a, test).None? && FirstMatch(b, test).Some?
    ensures FirstMatch(a + b, test) == Some(|a| + FirstMatch(b, test).value)
  {
    var k := FirstMatch(b, test).value;
    RejectedPrefix(a, b, test, k);
    assert (a + b)[|a| + k] == b[k];
    FirstMatchAt(a + b, test, |a| + k);
  }

  lemma MatchInNeither<T>(a: seq<T>, b: seq<T>, test: T -> bool)
    requires FirstMatch(a, test).None? && FirstMatch(b, test).None?
    ensures FirstMatch(a + b, test).None?
  {
    RejectedPrefix(a, b, test, |b|);
  }

  /** Rejecting all of `a` and the first `k` of `b` rejects the first
      `|a| + k` of `a + b`. */
  lemma RejectedPrefix<T>(a: seq<T>, b: seq<T>, test: T -> bool, k: nat)
    requires k <= |b|
    requires forall j :: 0 <= j < |a| ==> !test(a[j])
    requires forall j :: 0 <= j < k ==> !test(b[j])
    ensures forall j :: 0 <= j < |a| + k ==> !test((a + b)[j])
  {
    forall j | 0 <= j < |a| + k
      ensures !test((a + b)[j])
    {
      if j < |a| {
        assert (a + b)[j] == a[j];
      } else {
        assert (a + b)[j] == b[j - |a|];
      }
    }
  }
}
