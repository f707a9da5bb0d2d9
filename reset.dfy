/**
 * src/reset.js: put every document's visit bookkeeping back to its seeded
 * state, then drop the sorted set of visited documents.
 */
module Reset {
  import opened Text
  import opened Store
  import opened Scan
  import opened RedisHelper

  /** The fields `resetDocuments` writes; the numbers 0 are stored in their
      decimal form. */
  const ResetFields: Hash := map["visited" := "0", "updatedAt" := "", "updateIdent" := "0"]

  /** The key `reset.js` deletes once the documents are reset. */
  const VisitedKey: string := "fts:chinese:visited"

  /** The records after resetting `keys` in visit order. */
  function ResetAll(h: map<string, Hash>, keys: seq<string>): map<string, Hash>
    decreases |keys|
  {
    if keys == [] then h
    else HSetOf(ResetAll(h, keys[..|keys| - 1]), keys[|keys| - 1], ResetFields)
  }

  /** A visited key ends with its old fields overlaid by the reset fields
      (a missing record is created with just those); every other key is left
      as it was. */
  lemma {:induction false} ResetAllAt(h: map<string, Hash>, keys: seq<string>, key: string)
    ensures key in ResetAll(h, keys) <==> key in h || key in keys
    ensures key in keys ==> ResetAll(h, keys)[key] == (if key in h then h[key] else map[]) + ResetFields
    ensures key !in keys && key in h ==> ResetAll(h, keys)[key] == h[key]
    decreases |keys|
  {
    if keys != [] {
      var init := keys[..|keys| - 1];
      ResetAllAt(h, init, key);
      assert keys == init + [keys[|keys| - 1]];
      if key == keys[|keys| - 1] && key in init {
        ResetTwice(if key in h then h[key] else map[]);
      }
    }
  }

  /** The reset fields written over themselves change nothing. */
  lemma ResetTwice(rec: Hash)
    ensures (rec + ResetFields) + ResetFields == rec + ResetFields
  {
  }

  /** Resetting twice is resetting once. */
  lemma ResetAllIdempotent(h: map<string, Hash>, keys: seq<string>)
    ensures ResetAll(ResetAll(h, keys), keys) == ResetAll(h, keys)
  {
    var once := ResetAll(h, keys);
    forall key | key in ResetAll(once, keys) || key in once
      ensures key in ResetAll(once, keys) && key in once && ResetAll(once, keys)[key] == once[key]
    {
      ResetAllAt(h, keys, key);
      ResetAllAt(once, keys, key);
      if key in keys {
        ResetTwice(if key in h then h[key] else map[]);
      }
    }
  }

  /** Resetting consecutive runs of keys is resetting their concatenation. */
  lemma {:induction false} ResetAllAppend(h: map<string, Hash>, a: seq<string>, b: seq<string>)
    ensures ResetAll(h, a + b) == ResetAll(ResetAll(h, a), b)
    decreases |b|
  {
    if b == [] {
      assert a + b == a;
    } else {
      ResetAllAppend(h, a, b[..|b| - 1]);
      assert (a + b)[..|a + b| - 1] == a + b[..|b| - 1];
    }
  }

  /** After a reset both counters of a document start at 0, so from then on
      `visited` and `updateIdent` each equal the number of times the
      document has been returned by a search. */
  lemma ResetThenTouch(h: map<string, Hash>, keys: seq<string>, docs: seq<Hash>, now: nat -> string, key: string)
    requires key in keys
    ensures var r := TouchAll(ResetAll(h, keys), docs, now);
      && key in r && "visited" in r[key] && "updateIdent" in r[key]
      && r[key]["visited"] == NatToDec(TouchCount(docs, key))
      && r[key]["updateIdent"] == NatToDec(TouchCount(docs, key))
  {
    ResetAllAt(h, keys, key);
    assert NatToDec(0) == "0";
    TouchAllCounts(ResetAll(h, keys), docs, now, key, 0, 0);
  }

  /** The body of the scan loop for one batch. */
  method ResetBatch(store: Store, keys: seq<string>)
    modifies store
    ensures store.hashes == ResetAll(old(store.hashes), keys)
    ensures store.sortedSets == old(store.sortedSets) && store.incrLog == old(store.incrLog)
  {
    var j := 0;
    while j < |keys|
      invariant 0 <= j <= |keys|
      invariant store.hashes == ResetAll(old(store.hashes), keys[..j])
      invariant store.sortedSets == old(store.sortedSets) && store.incrLog == old(store.incrLog)
    {
      assert keys[..j + 1][..j] == keys[..j];
      store.HSet(keys[j], ResetFields);
      j := j + 1;
    }
    assert keys[..j] == keys;
  }

  /** `resetDocuments()`: reset every scanned key and count them; `sent`
      lists the cursors of the calls made. */
  method ResetDocuments(store: Store, replies: seq<ScanReply>) returns (counter: nat, sent: seq<string>)
    requires Completes(replies)
    modifies store
    ensures store.hashes == ResetAll(old(store.hashes), Scanned(replies))
    ensures store.sortedSets == old(store.sortedSets) && store.incrLog == old(store.incrLog)
    ensures counter == |Scanned(replies)|
    ensures sent == CursorsSent(replies, Rounds(replies)) && NeverRestarts(sent)
  {
    counter := 0;
    var cursor := "0";
    sent := [];
    var r := 0;
    var done := false;
    while !done
      invariant 0 <= r <= Rounds(replies)
      invariant done <==> r == Rounds(replies)
      invariant cursor == (if r == 0 then "0" else replies[r - 1].cursor)
      invariant r >= 1 ==> sent == CursorsSent(replies, r)
      invariant r == 0 ==> sent == []
      invariant store.hashes == ResetAll(old(store.hashes), KeysOf(replies[..r]))
      invariant store.sortedSets == old(store.sortedSets) && store.incrLog == old(store.incrLog)
      invariant counter == |KeysOf(replies[..r])|
      decreases Rounds(replies) - r
    {
      CursorsSentNext(replies, r, sent);
      sent := sent + [cursor];
      var result := replies[r];
      cursor := result.cursor;
      var keys := result.keys;
      KeysOfSnoc(replies, r);
      ResetBatch(store, keys);
      ResetAllAppend(old(store.hashes), KeysOf(replies[..r]), keys);
      counter := counter + |keys|;
      r := r + 1;
      done := cursor == "0";
    }
    CursorsSentNeverRestart(replies);
  }

  /** The script: reset the documents, then delete the visited set. */
  method ResetScript(store: Store, replies: seq<ScanReply>) returns (counter: nat)
    requires Completes(replies)
    modifies store
    ensures store.hashes == ResetAll(old(store.hashes), Scanned(replies)) - {VisitedKey}
    ensures store.sortedSets == old(store.sortedSets) - {VisitedKey}
    ensures store.incrLog == old(store.incrLog)
    ensures counter == |Scanned(replies)|
  {
    var sent;
    counter, sent := ResetDocuments(store, replies);
    store.Del(VisitedKey);
  }
}
