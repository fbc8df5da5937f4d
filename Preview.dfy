/**
 * The Markdown preview: `bold_redacted_items` wraps every item's span of the
 * text in `**`, splicing the string once per item in list order. The items
 * are not sorted first, so a splice shifts every later offset that lies after
 * it by the four inserted characters. The lemmas below say what the loop can
 * promise: the output grows by four characters per in-bounds item, one splice
 * keeps what lies before and after its span, and items given right to left
 * without overlap come out each wrapped exactly once.
 */
module Preview {
  import opened PyStr
  import opened Records

  /** The Markdown emphasis marker put on both sides of a span. */
  const Marker: string := "**"

  /** One pass of the loop: `text[:start] + '**' + text[start:end] + '**' + text[end:]`. */
  function Splice(text: string, start: int, end: int): string
  {
    Take(text, start) + Marker + Slice(text, start, end) + Marker + Drop(text, end)
  }

  /** The string after the loop has processed `items` in list order, starting from `text`. */
  function BoldAll(text: string, items: seq<Item>): string
    decreases |items|
  {
    if items == [] then text
    else BoldAll(Splice(text, items[0].start, items[0].end), items[1..])
  }

  /** `bold_redacted_items(text, items)`: rebinds `text` once per item. */
  method BoldRedactedItems(text: string, items: seq<Item>) returns (marked: string)
    ensures marked == BoldAll(text, items)
    ensures items == [] ==> marked == text
  {
    marked := text;
    for i := 0 to |items|
      invariant BoldAll(marked, items[i..]) == BoldAll(text, items)
    {
      assert items[i..][1..] == items[i + 1..];
      marked := Splice(marked, items[i].start, items[i].end);
    }
    assert items[|items|..] == [];
  }

  /** Inside the string, Python's slices are Dafny's: the splice is the text
      before `start`, the span between markers, and the text after `end`. */
  lemma SpliceAsSlices(text: string, start: int, end: int)
    requires 0 <= start <= end <= |text|
    ensures Splice(text, start, end) == text[..start] + Marker + text[start..end] + Marker + text[end..]
  {
  }

  /** One splice inside the string: four characters longer, the part before
      `start` and the part after `end` kept, the span between wrapped. */
  lemma SpliceInBounds(text: string, start: int, end: int)
    requires 0 <= start <= end <= |text|
    ensures |Splice(text, start, end)| == |text| + 4
    ensures Splice(text, start, end)[..start] == text[..start]
    ensures Splice(text, start, end)[start..end + 4] == Marker + text[start..end] + Marker
    ensures Splice(text, start, end)[end + 4..] == text[end..]
  {
    SpliceAsSlices(text, start, end);
    var r := Splice(text, start, end);
    assert r == text[..start] + (Marker + text[start..end] + Marker) + text[end..];
  }

  /** Every item lies inside a string of length `n`. */
  predicate AllWithin(items: seq<Item>, n: int)
  {
    forall k :: 0 <= k < |items| ==> 0 <= items[k].start <= items[k].end <= n
  }

  /** When every item lies inside the original text, each splice is in bounds
      and the preview is exactly four characters longer per item. */
  lemma {:induction false} BoldLength(text: string, items: seq<Item>)
    requires AllWithin(items, |text|)
    ensures |BoldAll(text, items)| == |text| + 4 * |items|
    decreases |items|
  {
    if items != [] {
      var next := Splice(text, items[0].start, items[0].end);
      SpliceInBounds(text, items[0].start, items[0].end);
      assert AllWithin(items[1..], |next|) by {
        forall k | 0 <= k < |items[1..]|
          ensures 0 <= items[1..][k].start <= items[1..][k].end <= |next|
        {
          assert items[1..][k] == items[k + 1];
        }
      }
      BoldLength(next, items[1..]);
    }
  }

  /** Splicing inside a prefix leaves whatever follows it untouched. */
  lemma {:induction false} BoldFrame(prefix: string, rest: string, items: seq<Item>)
    requires AllWithin(items, |prefix|)
    ensures BoldAll(prefix + rest, items) == BoldAll(prefix, items) + rest
    decreases |items|
  {
    if items != [] {
      var s, e := items[0].start, items[0].end;
      var part := Splice(prefix, s, e);
      SpliceFrame(prefix, rest, s, e);
      assert BoldAll(prefix + rest, items) == BoldAll(part + rest, items[1..]);
      assert AllWithin(items[1..], |part|) by {
        SpliceInBounds(prefix, s, e);
        forall k | 0 <= k < |items[1..]|
          ensures 0 <= items[1..][k].start <= items[1..][k].end <= |part|
        {
          assert items[1..][k] == items[k + 1];
        }
      }
      BoldFrame(part, rest, items[1..]);
    }
  }

  /** A splice inside a prefix does not touch what follows the prefix. */
  lemma SpliceFrame(prefix: string, rest: string, s: int, e: int)
    requires 0 <= s <= e <= |prefix|
    ensures Splice(prefix + rest, s, e) == Splice(prefix, s, e) + rest
  {
    SpliceAsSlices(prefix, s, e);
    SpliceAsSlices(prefix + rest, s, e);
    assert (prefix + rest)[..s] == prefix[..s];
    assert (prefix + rest)[s..e] == prefix[s..e];
    assert (prefix + rest)[e..] == prefix[e..] + rest;
    RegroupTail(prefix[..s], Marker, prefix[s..e], prefix[e..], rest);
  }

  lemma RegroupTail<T>(x: seq<T>, m: seq<T>, y: seq<T>, z: seq<T>, r: seq<T>)
    ensures x + m + y + m + (z + r) == (x + m + y + m + z) + r
  {
  }

  /** Items listed right to left: the first lies inside a string of length
      `n`, and the rest lie before its start in the same sense. Spans may touch
      (one's end equal to the start of the item listed before it). */
  predicate Descending(items: seq<Item>, n: int)
    ensures Descending(items, n) ==> AllWithin(items, n)
    decreases |items|
  {
    items == [] ||
    (0 <= items[0].start <= items[0].end <= n && Descending(items[1..], items[0].start))
  }

  /** The same condition stated pairwise: every item inside the string, and
      every item ending at or before the start of each item listed before it. */
  ghost predicate PairwiseDescending(items: seq<Item>, n: int)
  {
    && AllWithin(items, n)
    && forall j, k :: 0 <= j < k < |items| ==> items[k].end <= items[j].start
  }

  lemma {:induction false} DescendingIsPairwise(items: seq<Item>, n: int)
    ensures Descending(items, n) <==> PairwiseDescending(items, n)
    decreases |items|
  {
    if items != [] {
      var s, e, tail := items[0].start, items[0].end, items[1..];
      DescendingIsPairwise(tail, s);
      if Descending(items, n) {
        forall k | 0 <= k < |items|
          ensures 0 <= items[k].start <= items[k].end <= n
        {
          if k > 0 { assert items[k] == tail[k - 1]; }
        }
        forall j, k | 0 <= j < k < |items|
          ensures items[k].end <= items[j].start
        {
          assert items[k] == tail[k - 1];
          if j > 0 { assert items[j] == tail[j - 1]; }
        }
      }
      if PairwiseDescending(items, n) {
        forall k | 0 <= k < |tail|
          ensures 0 <= tail[k].start <= tail[k].end <= s
        {
          assert tail[k] == items[k + 1];
        }
        forall j, k | 0 <= j < k < |tail|
          ensures tail[k].end <= tail[j].start
        {
          assert tail[k] == items[k + 1] && tail[j] == items[j + 1];
        }
        assert PairwiseDescending(tail, s);
      }
    }
  }

  /**
   * The intended preview, defined without positional editing: the text up to
   * the rightmost span, marked recursively, then that span between two
   * markers, then the rest of the text unchanged.
   */
  function Wrapped(text: string, items: seq<Item>): (r: string)
    requires Descending(items, |text|)
    ensures |r| == |text| + 4 * |items|
    decreases |items|
  {
    if items == [] then text
    else
      var s, e := items[0].start, items[0].end;
      Wrapped(text[..s], items[1..]) + Marker + text[s..e] + Marker + text[e..]
  }

  /** Processed right to left without overlap, the loop produces the intended preview. */
  lemma {:induction false} BoldDescendingIsWrapped(text: string, items: seq<Item>)
    requires Descending(items, |text|)
    ensures BoldAll(text, items) == Wrapped(text, items)
    decreases |items|
  {
    if items != [] {
      var s, e := items[0].start, items[0].end;
      var tail := items[1..];
      var prefix := text[..s];
      var rest := Marker + text[s..e] + Marker + text[e..];
      SpliceAsSlices(text, s, e);
      Regroup(prefix, Marker, text[s..e], text[e..]);
      assert Splice(text, s, e) == prefix + rest;
      assert BoldAll(text, items) == BoldAll(prefix + rest, tail);
      BoldFrame(prefix, rest, tail);
      BoldDescendingIsWrapped(prefix, tail);
      var marked := Wrapped(prefix, tail);
      assert Wrapped(text, items) == marked + Marker + text[s..e] + Marker + text[e..];
      Regroup(marked, Marker, text[s..e], text[e..]);
      assert BoldAll(text, items) == marked + rest;
    }
  }

  lemma Regroup<T>(w: seq<T>, m: seq<T>, a: seq<T>, b: seq<T>)
    ensures w + (m + a + m + b) == w + m + a + m + b
  {
  }

  /** In `marked`, the span `it` of `text` appears between two markers,
      shifted right by `shift` characters. */
  predicate WrappedAt(marked: string, text: string, it: Item, shift: int)
  {
    && 0 <= it.start <= it.end <= |text|
    && 0 <= shift
    && it.end + shift + 4 <= |marked|
    && marked[it.start + shift..it.end + shift + 4] == Marker + text[it.start..it.end] + Marker
  }

  /**
   * In the intended preview, the k-th span (counting in list order) appears
   * wrapped in markers, shifted right by four characters for each of the
   * `|items| - 1 - k` spans that lie to its left.
   */
  lemma {:induction false} WrappedSpanAt(text: string, items: seq<Item>, k: int)
    requires Descending(items, |text|)
    requires 0 <= k < |items|
    ensures WrappedAt(Wrapped(text, items), text, items[k], 4 * (|items| - 1 - k))
    decreases |items|
  {
    if k == 0 {
      WrappedFirstSpan(text, items);
    } else {
      var s, e, tail := items[0].start, items[0].end, items[1..];
      var left := Wrapped(text[..s], tail);
      assert Wrapped(text, items) == left + (Marker + text[s..e] + Marker) + text[e..];
      assert tail[k - 1] == items[k] && 4 * (|tail| - 1 - (k - 1)) == 4 * (|items| - 1 - k);
      WrappedSpanAt(text[..s], tail, k - 1);
      WrappedAtExtend(left, Marker + text[s..e] + Marker, text[e..], text, s, items[k], 4 * (|items| - 1 - k));
    }
  }

  /** The rightmost span, listed first, is wrapped after the marked prefix. */
  lemma WrappedFirstSpan(text: string, items: seq<Item>)
    requires Descending(items, |text|)
    requires items != []
    ensures WrappedAt(Wrapped(text, items), text, items[0], 4 * (|items| - 1))
  {
    var s, e := items[0].start, items[0].end;
    var left := Wrapped(text[..s], items[1..]);
    var span := Marker + text[s..e] + Marker;
    assert Wrapped(text, items) == left + span + text[e..];
    assert |left| == s + 4 * (|items| - 1);
    SliceOfMiddle(left, span, text[e..]);
  }

  /** A span wrapped in the preview of a prefix of the text stays wrapped, at
      the same place, once more text is appended to that preview. */
  lemma WrappedAtExtend(left: string, span: string, rest: string, text: string, s: int, it: Item, shift: int)
    requires 0 <= s <= |text|
    requires WrappedAt(left, text[..s], it, shift)
    ensures WrappedAt(left + span + rest, text, it, shift)
  {
    SliceOfLeft(left, span, rest, it.start + shift, it.end + shift + 4);
    SliceOfPrefix(text, s, it.start, it.end);
  }

  lemma SliceOfLeft<T>(a: seq<T>, m: seq<T>, b: seq<T>, i: int, j: int)
    requires 0 <= i <= j <= |a|
    ensures (a + m + b)[i..j] == a[i..j]
  {
    assert a + m + b == a + (m + b);
  }

  lemma SliceOfMiddle<T>(a: seq<T>, m: seq<T>, b: seq<T>)
    ensures (a + m + b)[|a|..|a| + |m|] == m
  {
    assert (a + m + b)[|a|..|a| + |m|] == (a + (m + b))[|a|..][..|m|];
  }

  lemma SliceOfPrefix<T>(t: seq<T>, s: int, i: int, j: int)
    requires 0 <= i <= j <= s <= |t|
    ensures t[..s][i..j] == t[i..j]
  {
  }

  /** Every original span ends up wrapped by the loop itself, at its shifted position. */
  lemma BoldWrapsEverySpan(text: string, items: seq<Item>, k: int)
    requires Descending(items, |text|)
    requires 0 <= k < |items|
    ensures WrappedAt(BoldAll(text, items), text, items[k], 4 * (|items| - 1 - k))
  {
    BoldDescendingIsWrapped(text, items);
    WrappedSpanAt(text, items, k);
  }

  /** Given left to right instead, the second splice lands on the markers the
      first one inserted: for "abcd" with spans [0, 1) and [2, 3), the letter
      "a" is emphasised twice over and "c" not at all. */
  lemma AscendingOrderMisplaces()
    ensures BoldAll("abcd", [Item(0, 1, "T", "a", "o"), Item(2, 3, "T", "c", "o")]) == "****a****bcd"
  {
    var items := [Item(0, 1, "T", "a", "o"), Item(2, 3, "T", "c", "o")];
    var first := Splice("abcd", 0, 1);
    SpliceInBounds("abcd", 0, 1);
    assert first == "**a**bcd";
    SpliceInBounds(first, 2, 3);
    assert Splice(first, 2, 3) == "****a****bcd";
    assert items[1..][1..] == [];
  }
}
