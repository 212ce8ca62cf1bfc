/** What the browser shows of each entry: a one-line title of at most 50
    bytes, the full value, and a description carrying the timestamp.
    Strings stand for Go strings, so lengths and slices count bytes. */
module Display {
  import opened History

  /** The longest title shown. */
  const MaxLen: nat := 50

  /** What a cut title ends with. */
  const Ellipsis: string := "..."

  /** What precedes the timestamp text in an item's description. */
  const DescriptionPrefix: string := "Copied to clipboard: "

  /** A newline is shown as a space; other bytes as themselves. */
  function Blank(c: char): char {
    if c == '\n' then ' ' else c
  }

  /** Every newline of `s` replaced by a space. */
  function ReplaceNewlines(s: string): (r: string)
    ensures |r| == |s|
    ensures forall i :: 0 <= i < |s| ==> r[i] == Blank(s[i])
  {
    if s == [] then [] else [Blank(s[0])] + ReplaceNewlines(s[1..])
  }

  /** The title shown for a value: the value on one line if it fits in 50
      bytes, else its first 47 bytes on one line followed by "...". */
  function Shorten(s: string): (r: string)
    ensures |r| <= MaxLen && '\n' !in r
    ensures |s| <= MaxLen ==> |r| == |s| && forall i :: 0 <= i < |s| ==> r[i] == Blank(s[i])
    ensures |s| > MaxLen ==>
      && |r| == MaxLen
      && r[MaxLen - 3..] == Ellipsis
      && forall i :: 0 <= i < MaxLen - 3 ==> r[i] == Blank(s[i])
  {
    var r := if |s| <= MaxLen then ReplaceNewlines(s) else ReplaceNewlines(s[..MaxLen - 3]) + Ellipsis;
    assert forall i :: 0 <= i < |r| ==> r[i] != '\n';
    r
  }

  /** A value that already fits on one line is shown as it is. */
  lemma ShortenKeepsShortLine(s: string)
    requires |s| <= MaxLen && '\n' !in s
    ensures Shorten(s) == s
  {
  }

  /** Shortening a title again changes nothing. */
  lemma ShortenIdempotent(s: string)
    ensures Shorten(Shorten(s)) == Shorten(s)
  {
  }

  /** One row of the browser's list. */
  datatype Item = Item(title: string, titleFull: string, description: string)

  /** The loop of `newModel`: one item per stored entry, in the same order. */
  method NewItems(clipboardItems: seq<Entry>) returns (entryItems: seq<Item>)
    ensures |entryItems| == |clipboardItems|
    ensures forall i :: 0 <= i < |clipboardItems| ==>
      && entryItems[i].title == Shorten(clipboardItems[i].value)
      && entryItems[i].titleFull == clipboardItems[i].value
      && entryItems[i].description == DescriptionPrefix + clipboardItems[i].recorded
  {
    entryItems := [];
    for k := 0 to |clipboardItems|
      invariant |entryItems| == k
      invariant forall i :: 0 <= i < k ==>
        && entryItems[i].title == Shorten(clipboardItems[i].value)
        && entryItems[i].titleFull == clipboardItems[i].value
        && entryItems[i].description == DescriptionPrefix + clipboardItems[i].recorded
    {
      var entry := clipboardItems[k];
      var shortenedVal := Shorten(entry.value);
      var item := Item(shortenedVal, entry.value, DescriptionPrefix + entry.recorded);
      entryItems := entryItems + [item];
    }
  }
}
