/** The clipboard history shared by the listener and the browser.

    One record type stands for both `ClipboardItem` (the listener's) and
    `ClipboardEntry` (the browser's): the two have the same two string
    fields. A history is held newest first. A Dafny `string` here stands
    for a Go string, that is a sequence of bytes: one `char` is one byte. */
module History {

  /** One recorded clipboard value and the timestamp text it was recorded with. */
  datatype Entry = Entry(value: string, recorded: string)

  /** Some entry of `h` holds the value `s`. */
  predicate HasValue(h: seq<Entry>, s: string) {
    exists i :: 0 <= i < |h| && h[i].value == s
  }

  /** No two entries of `h` hold the same value. */
  predicate DistinctValues(h: seq<Entry>) {
    forall i, j :: 0 <= i < j < |h| ==> h[i].value != h[j].value
  }

  /** The store invariant: values are unique and there are at most `cap` entries. */
  predicate Wellformed(h: seq<Entry>, cap: nat) {
    |h| <= cap && DistinctValues(h)
  }
}
