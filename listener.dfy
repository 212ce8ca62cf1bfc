/** The listener's side of the store: the membership test and the
    insert-with-eviction step that each poll of the clipboard performs.
    The clipboard read, the clock, the sleep between polls and the save to
    disk are the environment's; the step receives the text read and the
    timestamp text as arguments. */
module Listener {
  import opened History

  /** The number of entries the listener keeps. */
  const MaxEntries: nat := 50

  /** A linear search of the history for an entry holding `str`. */
  method Contains(slice: seq<Entry>, str: string) returns (found: bool)
    ensures found <==> HasValue(slice, str)
  {
    for i := 0 to |slice|
      invariant forall k :: 0 <= k < i ==> slice[k].value != str
    {
      if slice[i].value == str {
        return true;
      }
    }
    return false;
  }

  /** The history after one observation of `text` at time `now`, with at
      most `cap` entries kept: empty or already present text changes
      nothing; otherwise, when the history is at the cap or above it, its
      last (oldest) entry is dropped, and the new entry goes in front. */
  function Insert(h: seq<Entry>, text: string, now: string, cap: nat): seq<Entry>
    requires cap > 0
  {
    if text == "" || HasValue(h, text) then h
    else
      var kept := if |h| >= cap then h[..|h| - 1] else h;
      [Entry(text, now)] + kept
  }

  /** Empty text, or text the history already holds, is not recorded:
      nothing is reordered and no timestamp is renewed. */
  lemma InsertIgnoresEmptyOrPresent(h: seq<Entry>, text: string, now: string, cap: nat)
    requires cap > 0
    requires text == "" || HasValue(h, text)
    ensures Insert(h, text, now, cap) == h
  {
  }

  /** Below the cap a new value is prepended and nothing is dropped. */
  lemma InsertBelowCap(h: seq<Entry>, text: string, now: string, cap: nat)
    requires cap > 0 && |h| < cap
    requires text != "" && !HasValue(h, text)
    ensures Insert(h, text, now, cap) == [Entry(text, now)] + h
  {
  }

  /** A new value is recorded at index 0; the old entries follow in their
      original order, less at most the oldest one, which goes exactly when
      the history was at the cap or above it. */
  lemma InsertPutsNewestFirst(h: seq<Entry>, text: string, now: string, cap: nat)
    requires cap > 0
    requires text != "" && !HasValue(h, text)
    ensures var r := Insert(h, text, now, cap);
      && |r| == (if |h| >= cap then |h| else |h| + 1)
      && r[0] == Entry(text, now)
      && r[1..] <= h
  {
  }

  /** At exactly the cap, a new value evicts exactly the oldest entry: the
      length stays at the cap and the evicted value is no longer held. */
  lemma InsertEvictsOldest(h: seq<Entry>, text: string, now: string, cap: nat)
    requires cap > 0 && |h| == cap && DistinctValues(h)
    requires text != "" && !HasValue(h, text)
    ensures var r := Insert(h, text, now, cap);
      && r == [Entry(text, now)] + h[..cap - 1]
      && |r| == cap
      && !HasValue(r, h[cap - 1].value)
  {
  }

  /** One step keeps the store invariant. */
  lemma InsertKeepsWellformed(h: seq<Entry>, text: string, now: string, cap: nat)
    requires cap > 0 && Wellformed(h, cap)
    ensures Wellformed(Insert(h, text, now, cap), cap)
  {
  }

  /** One clipboard observation: the text read and the timestamp text. */
  datatype Observation = Observation(text: string, now: string)

  /** The history after the listener's steps over `obs`, in order. */
  function InsertAll(h: seq<Entry>, obs: seq<Observation>, cap: nat): seq<Entry>
    requires cap > 0
    decreases |obs|
  {
    if obs == [] then h
    else InsertAll(Insert(h, obs[0].text, obs[0].now, cap), obs[1..], cap)
  }

  /** Any run of steps from a well-formed history keeps the values unique
      and the length within the cap. */
  lemma {:induction false} InsertAllKeepsWellformed(h: seq<Entry>, obs: seq<Observation>, cap: nat)
    requires cap > 0 && Wellformed(h, cap)
    ensures Wellformed(InsertAll(h, obs, cap), cap)
    decreases |obs|
  {
    if obs != [] {
      InsertKeepsWellformed(h, obs[0].text, obs[0].now, cap);
      InsertAllKeepsWellformed(Insert(h, obs[0].text, obs[0].now, cap), obs[1..], cap);
    }
  }

  /** With a cap of two, recording "a", "b" and "c" leaves "c" then "b";
      recording "b" once more changes nothing. */
  lemma CapTwoExample()
    ensures var h := InsertAll([], [Observation("a", "t1"), Observation("b", "t2"), Observation("c", "t3")], 2);
      && h == [Entry("c", "t3"), Entry("b", "t2")]
      && InsertAll(h, [Observation("b", "t4")], 2) == h
  {
    var h1 := Insert([], "a", "t1", 2);
    assert h1 == [Entry("a", "t1")];
    assert !HasValue(h1, "b");
    var h2 := Insert(h1, "b", "t2", 2);
    assert h2 == [Entry("b", "t2"), Entry("a", "t1")];
    assert !HasValue(h2, "c");
    var h3 := Insert(h2, "c", "t3", 2);
    assert h3 == [Entry("c", "t3"), Entry("b", "t2")];
    assert HasValue(h3, "b") by { assert h3[1].value == "b"; }
  }

  /** The listener's in-memory store: the `Data` record whose history each
      poll updates in place. */
  class Data {
    var clipboardHistory: seq<Entry>

    /** The store as loaded from disk when the listener starts. */
    constructor (loaded: seq<Entry>)
      ensures clipboardHistory == loaded
    {
      clipboardHistory := loaded;
    }

    /** One poll of the clipboard that read `text` at time `now`. The
        result says whether the history changed, which is when the
        listener saves it. */
    method Record(text: string, now: string) returns (added: bool)
      modifies this
      ensures added <==> text != "" && !HasValue(old(clipboardHistory), text)
      ensures clipboardHistory == Insert(old(clipboardHistory), text, now, MaxEntries)
      ensures Wellformed(old(clipboardHistory), MaxEntries) ==> Wellformed(clipboardHistory, MaxEntries)
    {
      added := false;
      if text != "" {
        var present := Contains(clipboardHistory, text);
        added := !present;
      }
      if added {
        if |clipboardHistory| >= MaxEntries {
          var lastIndex := |clipboardHistory| - 1;
          clipboardHistory := clipboardHistory[..lastIndex];
        }
        var item := Entry(text, now);
        clipboardHistory := [item] + clipboardHistory;
      }
      if Wellformed(old(clipboardHistory), MaxEntries) {
        InsertKeepsWellformed(old(clipboardHistory), text, now, MaxEntries);
      }
    }
  }
}
