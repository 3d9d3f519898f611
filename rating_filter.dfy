/** The rating filter `filterByRating` of index.ts: a loop over the items that
    appends every item rated 4 or more to a fresh result list. */
module RatingFilter {

  /** A `{ title, rating }` record; `rating` is a JavaScript number, here a real. */
  datatype RatedItem = RatedItem(title: string, rating: real)

  /** The inclusive threshold an item's rating must reach. */
  const MinRating: real := 4.0

  predicate Qualifies(item: RatedItem) { item.rating >= MinRating }

  /** The items of `items` that qualify, in their original order. Defined from
      the last item backwards, as the loop sees the input grow by one item at
      a time. */
  function Filtered(items: seq<RatedItem>): (r: seq<RatedItem>)
    ensures |r| <= |items|
    ensures forall k :: 0 <= k < |r| ==> Qualifies(r[k])
  {
    if items == [] then []
    else
      var front, last := items[..|items| - 1], items[|items| - 1];
      assert items == front + [last];
      Filtered(front) + (if Qualifies(last) then [last] else [])
  }

  /** `filterByRating(items)`: reads the input without changing it (no
      `modifies`) and returns the qualifying items in order. */
  method FilterByRating(items: array<RatedItem>) returns (result: seq<RatedItem>)
    ensures result == Filtered(items[..])
  {
    result := [];
    for i := 0 to items.Length
      invariant result == Filtered(items[..i])
    {
      var item := items[i];
      assert items[..i + 1][..i] == items[..i];
      if Qualifies(item) {
        result := result + [item];
      }
    }
    assert items[..items.Length] == items[..];
  }

  /** The output is a subsequence of the input: the items at strictly
      increasing positions `idx`, which are exactly the positions of the
      qualifying items. */
  lemma {:induction false} FilteredIsSelection(items: seq<RatedItem>) returns (idx: seq<int>)
    ensures |idx| == |Filtered(items)|
    ensures forall k :: 0 <= k < |idx| ==> 0 <= idx[k] < |items| && Filtered(items)[k] == items[idx[k]]
    ensures forall k, l :: 0 <= k < l < |idx| ==> idx[k] < idx[l]
    ensures forall j :: 0 <= j < |items| ==> (Qualifies(items[j]) <==> j in idx)
    decreases |items|
  {
    if items == [] {
      idx := [];
    } else {
      var n := |items| - 1;
      var front, last := items[..n], items[n];
      var prev := FilteredIsSelection(front);
      assert items == front + [last];
      var tail := if Qualifies(last) then [last] else [];
      assert Filtered(items) == Filtered(front) + tail;
      idx := if Qualifies(last) then prev + [n] else prev;
      forall k | 0 <= k < |idx|
        ensures 0 <= idx[k] < |items| && Filtered(items)[k] == items[idx[k]]
      {
        if k < |prev| {
          assert items[prev[k]] == front[prev[k]];
        }
      }
      forall j | 0 <= j < |items|
        ensures Qualifies(items[j]) <==> j in idx
      {
        assert n !in prev;
        assert j in idx <==> j in prev || (Qualifies(last) && j == n);
        if j < n {
          assert items[j] == front[j];
          assert Qualifies(front[j]) <==> j in prev;
        }
      }
    }
  }

  /** An item is in the output exactly when it is in the input and qualifies. */
  lemma {:induction false} FilteredMembership(items: seq<RatedItem>, x: RatedItem)
    ensures x in Filtered(items) <==> x in items && Qualifies(x)
    decreases |items|
  {
    if items != [] {
      var n := |items| - 1;
      FilteredMembership(items[..n], x);
      assert items == items[..n] + [items[n]];
    }
  }

  /** Filtering a concatenation filters each part. */
  lemma {:induction false} FilteredAppend(a: seq<RatedItem>, b: seq<RatedItem>)
    ensures Filtered(a + b) == Filtered(a) + Filtered(b)
    decreases |b|
  {
    if b == [] {
      assert a + b == a;
    } else {
      var n := |b| - 1;
      assert (a + b)[..|a + b| - 1] == a + b[..n];
      FilteredAppend(a, b[..n]);
    }
  }

  /** Every item qualifies exactly when the filter keeps the whole input. */
  lemma {:induction false} FilteredKeepsAllIff(items: seq<RatedItem>)
    ensures Filtered(items) == items <==> forall k :: 0 <= k < |items| ==> Qualifies(items[k])
    decreases |items|
  {
    if items != [] {
      var n := |items| - 1;
      FilteredKeepsAllIff(items[..n]);
      assert items == items[..n] + [items[n]];
    }
  }

  /** No item qualifies exactly when the filter returns nothing. */
  lemma FilteredEmptyIff(items: seq<RatedItem>)
    ensures Filtered(items) == [] <==> forall k :: 0 <= k < |items| ==> !Qualifies(items[k])
  {
    if Filtered(items) == [] {
      forall k | 0 <= k < |items| ensures !Qualifies(items[k]) {
        FilteredMembership(items, items[k]);
      }
    }
  }

  /** Filtering an already filtered list changes nothing. */
  lemma FilteredIdempotent(items: seq<RatedItem>)
    ensures Filtered(Filtered(items)) == Filtered(items)
  {
    FilteredKeepsAllIff(Filtered(items));
  }

  lemma FilteredExamples()
    ensures Filtered([RatedItem("A", 5.0), RatedItem("B", 3.0)]) == [RatedItem("A", 5.0)]
    ensures Filtered([RatedItem("C", 4.0), RatedItem("D", 3.9)]) == [RatedItem("C", 4.0)]
    ensures Filtered([]) == []
  {
    var s := [RatedItem("A", 5.0), RatedItem("B", 3.0)];
    assert s[..1] == [RatedItem("A", 5.0)];
    assert s[..1][..0] == [];
    var t := [RatedItem("C", 4.0), RatedItem("D", 3.9)];
    assert t[..1] == [RatedItem("C", 4.0)];
    assert t[..1][..0] == [];
  }
}
