/** Deleting a value from the stored history, as the browser does when the
    user removes the selected entry. Reading and rewriting the file around
    the filter are the environment's. */
module Deletion {
  import opened History

  /** `h` with every entry holding `item` left out, defined on the last
      entry so that it follows the loop that builds it. */
  function Without(h: seq<Entry>, item: string): (r: seq<Entry>)
    ensures |r| <= |h|
    ensures forall e :: e in r <==> e in h && e.value != item
    decreases |h|
  {
    if h == [] then []
    else
      var last := h[|h| - 1];
      assert h == h[..|h| - 1] + [last];
      Without(h[..|h| - 1], item) + (if last.value != item then [last] else [])
  }

  /** The filter keeps order: filtering a concatenation filters each part. */
  lemma {:induction false} WithoutAppend(a: seq<Entry>, b: seq<Entry>, item: string)
    ensures Without(a + b, item) == Without(a, item) + Without(b, item)
    decreases |b|
  {
    if b == [] {
      assert a + b == a;
    } else {
      var b' := b[..|b| - 1];
      assert (a + b)[..|a + b| - 1] == a + b';
      assert (a + b)[|a + b| - 1] == b[|b| - 1];
      WithoutAppend(a, b', item);
    }
  }

  /** Deleting a value the history does not hold changes nothing. */
  lemma {:induction false} WithoutAbsent(h: seq<Entry>, item: string)
    requires !HasValue(h, item)
    ensures Without(h, item) == h
    decreases |h|
  {
    if h != [] {
      var h' := h[..|h| - 1];
      assert !HasValue(h', item) by {
        forall i | 0 <= i < |h'| ensures h'[i].value != item {
          assert h'[i] == h[i];
        }
      }
      assert h[|h| - 1].value != item;
      WithoutAbsent(h', item);
      assert h == h' + [h[|h| - 1]];
    }
  }

  /** In a history with unique values, deleting the value of entry `i`
      removes exactly that entry and keeps the rest in order. */
  lemma {:induction false} WithoutRemovesSelected(h: seq<Entry>, i: nat)
    requires DistinctValues(h) && i < |h|
    ensures Without(h, h[i].value) == h[..i] + h[i + 1..]
  {
    var v, x := h[i].value, h[i];
    var before, after := h[..i], h[i + 1..];
    OnlyAt(h, i);
    calc {
      Without(h, v);
      == { assert h == (before + [x]) + after; }
      Without((before + [x]) + after, v);
      == { WithoutAppend(before + [x], after, v); }
      Without(before + [x], v) + Without(after, v);
      == { WithoutAppend(before, [x], v); WithoutMatching(x, v); }
      Without(before, v) + Without(after, v);
      == { WithoutAbsent(before, v); WithoutAbsent(after, v); }
      before + after;
    }
  }

  /** With unique values, the value of entry `i` occurs neither before nor after it. */
  lemma OnlyAt(h: seq<Entry>, i: nat)
    requires DistinctValues(h) && i < |h|
    ensures !HasValue(h[..i], h[i].value) && !HasValue(h[i + 1..], h[i].value)
  {
  }

  /** A lone entry holding the deleted value goes. */
  lemma WithoutMatching(x: Entry, item: string)
    requires x.value == item
    ensures Without([x], item) == []
  {
  }

  /** Deleting keeps the store invariant. */
  lemma {:induction false} WithoutKeepsWellformed(h: seq<Entry>, item: string, cap: nat)
    requires Wellformed(h, cap)
    ensures Wellformed(Without(h, item), cap)
    decreases |h|
  {
    if h != [] {
      var h' := h[..|h| - 1];
      var last := h[|h| - 1];
      WithoutKeepsWellformed(h', item, cap);
      var w := Without(h', item);
      if last.value != item {
        var r := w + [last];
        forall i, j | 0 <= i < j < |r| ensures r[i].value != r[j].value {
          if j == |r| - 1 {
            assert r[i] in w;
            assert r[i] in h';
            var k :| 0 <= k < |h'| && h'[k] == r[i];
            assert h[k] == r[i];
          }
        }
      }
    }
  }

  /** The loop of `deleteJsonItem`: rebuild the history from the entries
      that do not hold `item`. */
  method DeleteEntries(history: seq<Entry>, item: string) returns (updated: seq<Entry>)
    ensures updated == Without(history, item)
  {
    updated := [];
    for i := 0 to |history|
      invariant updated == Without(history[..i], item)
    {
      var entry := history[i];
      assert history[..i + 1][..i] == history[..i];
      if entry.value != item {
        updated := updated + [entry];
      }
    }
    assert history[..|history|] == history;
  }
}
