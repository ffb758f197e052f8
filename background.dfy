/** The background page's message listener: the persisted media history, its
    duplicate check on (url, pageUrl), the prepend of a new entry and the cap
    of 1000 entries. The storage `get` and `set` pair is one atomic
    read-modify-write here. */
module Background {
  import opened Media

  /** The cap applied by `slice(0, 1000)`. */
  const MaxEntries: nat := 1000

  /** Two entries with the same dedup key: the same `url` and `pageUrl`. */
  predicate SameKey(a: Entry, b: Entry) {
    a.url == b.url && a.pageUrl == b.pageUrl
  }

  /** `mediaHistory.some(...)`: some entry has the payload's dedup key. */
  predicate IsDuplicate(history: seq<Entry>, p: Entry) {
    exists i | 0 <= i < |history| :: SameKey(history[i], p)
  }

  /** No two entries share a dedup key. */
  predicate UniqueKeys(history: seq<Entry>) {
    forall i, j | 0 <= i < j < |history| :: !SameKey(history[i], history[j])
  }

  /** The invariant the stored history keeps: unique keys, at most the cap. */
  predicate ValidHistory(history: seq<Entry>) {
    UniqueKeys(history) && |history| <= MaxEntries
  }

  /** `mediaHistory.unshift(p)` followed by `mediaHistory.slice(0, 1000)`. */
  function Prepend(history: seq<Entry>, p: Entry): seq<Entry> {
    ([p] + history)[..Min(MaxEntries, |history| + 1)]
  }

  /** The stored history after the listener has handled `m`; `None` is the
      missing `mediaHistory` key. */
  function Handle(stored: Option<seq<Entry>>, m: Message): Option<seq<Entry>> {
    if m.msgType != MediaDetected then stored
    else
      var history := stored.GetOr([]);
      if IsDuplicate(history, m.payload) then stored
      else Some(Prepend(history, m.payload))
  }

  /** Messages handled one after another, each atomically. */
  function HandleAll(stored: Option<seq<Entry>>, ms: seq<Message>): Option<seq<Entry>>
    decreases |ms|
  {
    if ms == [] then stored else HandleAll(Handle(stored, ms[0]), ms[1..])
  }

  /** The extension's local storage slot for `mediaHistory`. */
  class MediaStore {
    var stored: Option<seq<Entry>>

    ghost predicate Valid()
      reads this
    {
      ValidHistory(stored.GetOr([]))
    }

    /** A fresh profile: the key has never been written. */
    constructor ()
      ensures stored == None && Valid()
    {
      stored := None;
    }

    /** What a reader of the slot sees: `result.mediaHistory || []`. */
    function History(): (h: seq<Entry>)
      reads this
      ensures stored.None? ==> h == []
      ensures stored.Some? ==> h == stored.value
    {
      stored.GetOr([])
    }

    /** The `onMessage` listener body. A non-`MEDIA_DETECTED` message and a
        duplicate key leave the slot untouched; otherwise the payload is
        prepended and the result capped. */
    method HandleMessage(m: Message)
      modifies this
      ensures m.msgType != MediaDetected ==> stored == old(stored)
      ensures m.msgType == MediaDetected && IsDuplicate(old(History()), m.payload) ==>
        stored == old(stored)
      ensures m.msgType == MediaDetected && !IsDuplicate(old(History()), m.payload) ==>
        stored == Some(Prepend(old(History()), m.payload))
      ensures stored == Handle(old(stored), m)
      ensures old(Valid()) ==> Valid()
    {
      if m.msgType == MediaDetected {
        var mediaHistory := if stored.Some? then stored.value else [];
        var isDuplicate := IsDuplicate(mediaHistory, m.payload);
        if !isDuplicate {
          PrependKeepsValid(mediaHistory, m.payload);
          mediaHistory := [m.payload] + mediaHistory;
          stored := Some(mediaHistory[..Min(MaxEntries, |mediaHistory|)]);
        }
      }
    }
  }

  // ---------------------------------------------------------------------
  // Lemmas

  /** Only `MEDIA_DETECTED` messages are handled. */
  lemma OtherMessagesIgnored(stored: Option<seq<Entry>>, m: Message)
    requires m.msgType != MediaDetected
    ensures Handle(stored, m) == stored
  {
  }

  /** A missing history behaves exactly like an empty one. */
  lemma MissingHistoryIsEmpty(m: Message)
    requires m.msgType == MediaDetected
    ensures Handle(None, m) == Handle(Some([]), m) == Some([m.payload])
  {
  }

  /** First seen wins: when the key is already present nothing is written,
      so the stored entry keeps its own timestamp and thumbnail. */
  lemma FirstSeenWins(history: seq<Entry>, m: Message, i: nat)
    requires i < |history| && SameKey(history[i], m.payload)
    ensures Handle(Some(history), m) == Some(history)
    ensures Handle(Some(history), m).value[i] == history[i]
  {
  }

  /** The payload becomes entry 0 and the old entries follow in their
      original order; only the oldest (tail) entries beyond the cap are
      dropped. */
  lemma PrependShape(history: seq<Entry>, p: Entry)
    ensures var r := Prepend(history, p);
      && r[0] == p
      && r[1..] == history[..|r| - 1]
      && history == r[1..] + history[|r| - 1..]
  {
  }

  /** Capacity: a history within the cap stays within it, and grows by
      exactly one while below it. */
  lemma PrependLength(history: seq<Entry>, p: Entry)
    ensures |history| < MaxEntries ==> |Prepend(history, p)| == |history| + 1
    ensures |history| <= MaxEntries ==> |Prepend(history, p)| <= MaxEntries
    ensures |history| >= MaxEntries ==> |Prepend(history, p)| == MaxEntries
  {
  }

  /** Prepending a payload whose key is new keeps keys unique and the
      length within the cap. */
  lemma PrependKeepsValid(history: seq<Entry>, p: Entry)
    requires !IsDuplicate(history, p)
    ensures UniqueKeys(history) ==> UniqueKeys(Prepend(history, p))
    ensures |history| <= MaxEntries ==> |Prepend(history, p)| <= MaxEntries
  {
    var r := Prepend(history, p);
    if UniqueKeys(history) {
      forall i, j | 0 <= i < j < |r|
        ensures !SameKey(r[i], r[j])
      {
        if i == 0 {
          assert r[j] == history[j - 1];
        } else {
          assert r[i] == history[i - 1] && r[j] == history[j - 1];
        }
      }
    }
  }

  /** Handling a message keeps the store's invariant. */
  lemma HandleKeepsValid(stored: Option<seq<Entry>>, m: Message)
    requires ValidHistory(stored.GetOr([]))
    ensures ValidHistory(Handle(stored, m).GetOr([]))
  {
    if m.msgType == MediaDetected && !IsDuplicate(stored.GetOr([]), m.payload) {
      PrependKeepsValid(stored.GetOr([]), m.payload);
    }
  }

  /** After handling a `MEDIA_DETECTED` message the payload's key is
      present. */
  lemma HandleRecordsKey(stored: Option<seq<Entry>>, m: Message)
    requires m.msgType == MediaDetected
    ensures Handle(stored, m).Some? && IsDuplicate(Handle(stored, m).value, m.payload)
  {
    var h := stored.GetOr([]);
    if IsDuplicate(h, m.payload) {
      assert stored.Some?;
    } else {
      assert SameKey(Prepend(h, m.payload)[0], m.payload);
    }
  }

  /** Handling the same message twice is the same as handling it once. */
  lemma HandleIdempotent(stored: Option<seq<Entry>>, m: Message)
    ensures Handle(Handle(stored, m), m) == Handle(stored, m)
  {
    if m.msgType == MediaDetected {
      HandleRecordsKey(stored, m);
    }
  }

  /** Any run of messages from a valid history ends in a valid history: no
      duplicate keys and never more than 1000 entries. */
  lemma {:induction false} HandleAllKeepsValid(stored: Option<seq<Entry>>, ms: seq<Message>)
    requires ValidHistory(stored.GetOr([]))
    ensures ValidHistory(HandleAll(stored, ms).GetOr([]))
    decreases |ms|
  {
    if ms != [] {
      HandleKeepsValid(stored, ms[0]);
      HandleAllKeepsValid(Handle(stored, ms[0]), ms[1..]);
    }
  }

  /** Interleaved listener calls, as the two asynchronous storage calls of
      each allow: call `i` handles `ms[i]` on what its own read returned,
      which is the initial slot when `from[i] < 0` and otherwise the value
      written by the earlier call `from[i]`, and writes `writes[i]`. A call
      that writes nothing (another message type, or a key already present)
      is taken to write back the value it read, so these sequences include
      every interleaving of the listener and some more; what holds of all
      of them holds of the listener. */
  predicate Interleaved(init: Option<seq<Entry>>, ms: seq<Message>,
                        from: seq<int>, writes: seq<Option<seq<Entry>>>)
  {
    && |ms| == |from| == |writes|
    && forall i | 0 <= i < |writes| ::
         from[i] < i && writes[i] == Handle(ReadBy(init, from[i], writes[..i]), ms[i])
  }

  /** The slot as call `i` read it: the initial slot, or an earlier write. */
  function ReadBy(init: Option<seq<Entry>>, j: int, earlier: seq<Option<seq<Entry>>>)
    : Option<seq<Entry>>
  {
    if 0 <= j < |earlier| then earlier[j] else init
  }

  /** Races can lose entries, one call overwriting another's write, but
      never store a duplicate key or more than 1000 entries: every value any
      interleaving writes keeps the invariant. */
  lemma {:induction false} RacesNeverDuplicate(init: Option<seq<Entry>>, ms: seq<Message>,
                                               from: seq<int>, writes: seq<Option<seq<Entry>>>, i: nat)
    requires ValidHistory(init.GetOr([]))
    requires Interleaved(init, ms, from, writes)
    requires i < |writes|
    ensures ValidHistory(writes[i].GetOr([]))
    decreases i
  {
    var read := ReadBy(init, from[i], writes[..i]);
    if 0 <= from[i] {
      RacesNeverDuplicate(init, ms, from, writes, from[i]);
      assert read == writes[from[i]];
    }
    HandleKeepsValid(read, ms[i]);
  }

  /** An entry can be lost: two detections with different keys that both
      read the missing slot before either writes. Each writes a one-entry
      history, and the later write has no entry with the first key. */
  lemma RaceLosesEntry(a: Entry, b: Entry)
    requires !SameKey(b, a)
    ensures Interleaved(None, [Message(MediaDetected, a), Message(MediaDetected, b)],
                        [-1, -1], [Some([a]), Some([b])])
    ensures !IsDuplicate([b], a)
  {
    var writes := [Some([a]), Some([b])];
    assert ReadBy(None, -1, writes[..0]) == None;
    assert ReadBy(None, -1, writes[..1]) == None;
    assert !IsDuplicate([], a) && !IsDuplicate([], b);
  }

  /** Detecting the same (url, pageUrl) twice, at T1 and then at T2, leaves
      one entry, the one stamped T1. */
  lemma SecondDetectionKeepsFirst(first: Entry, second: Entry)
    requires SameKey(first, second)
    ensures HandleAll(None, [Message(MediaDetected, first), Message(MediaDetected, second)])
      == Some([first])
  {
    var ms := [Message(MediaDetected, first), Message(MediaDetected, second)];
    assert Handle(None, ms[0]) == Some([first]);
    assert IsDuplicate([first], second) by { assert SameKey([first][0], second); }
    assert Handle(Some([first]), ms[1]) == Some([first]);
    assert HandleAll(Some([first]), ms[1..][1..]) == Some([first]);
    assert HandleAll(Some([first]), ms[1..]) == Some([first]);
  }
}
