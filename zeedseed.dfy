/**
 * src/zeedRedis.js: seed the store from a list of documents. Document i
 * (from 0) becomes record i + 1, and every token of its text (stop
 * characters removed) — each ideograph alone, each Latin letter or digit run
 * whole — is posted against it. Its local `spaceChineseChars` is the same
 * function as the shared one in src/util/stopWords.js.
 */
module ZeedSeed {
  import opened Text
  import opened Store
  import opened StopWords
  import opened RedisHelper

  /** The record written for document `id` with text `doc`. */
  function DocRecord(id: nat, doc: string, createdAt: string): Hash {
    map["id" := NatToDec(id), "textChi" := doc, "visited" := "0",
        "createdAt" := createdAt, "updatedAt" := "", "updateIdent" := "0"]
  }

  /** The tokens posted for a document: the non-empty pieces of its spaced,
      stop-character-free form. They are exactly the tokens of that text, so
      together they spell out every ideograph, letter and digit in it, in
      order, and nothing else. */
  function DocTokens(doc: string): (ts: seq<string>)
    ensures ts == Tokens(RemoveStopWord(doc))
    ensures Concat(ts) == WordChars(RemoveStopWord(doc))
  {
    NonEmptyPiecesAreTokens(RemoveStopWord(doc));
    TokensCover(RemoveStopWord(doc));
    NonEmptyPieces(Split(SpaceChineseChars(RemoveStopWord(doc)), ' '))
  }

  /** This indexer posts a superset of what the Dong indexer posts for the
      same text: its retained tokens are the ideographs. */
  lemma ZeedPostsIdeographs(doc: string)
    ensures Filter(DocTokens(doc), IsRetained) == Ideographs(RemoveStopWord(doc))
  {
    RetainedTokensAreIdeographs(RemoveStopWord(doc));
  }

  /** The records after the documents, document k stamped with `now(k)`. */
  function SeedHashes(h: map<string, Hash>, docs: seq<string>, now: nat -> string): map<string, Hash>
    decreases |docs|
  {
    if docs == [] then h
    else
      var k := |docs| - 1;
      HSetOf(SeedHashes(h, docs[..k], now), DocumentKey(k + 1), DocRecord(k + 1, docs[k], now(k)))
  }

  /** The postings requests of the documents, in order. */
  function SeedLog(docs: seq<string>): seq<Incr>
    decreases |docs|
  {
    if docs == [] then []
    else
      var k := |docs| - 1;
      SeedLog(docs[..k]) + Postings(DocTokens(docs[k]), DocumentKey(k + 1))
  }

  /** One more document extends the records and the requests by its own. */
  lemma SeedSnoc(h: map<string, Hash>, docs: seq<string>, now: nat -> string, i: nat)
    requires i < |docs|
    ensures SeedHashes(h, docs[..i + 1], now)
      == HSetOf(SeedHashes(h, docs[..i], now), DocumentKey(i + 1), DocRecord(i + 1, docs[i], now(i)))
    ensures SeedLog(docs[..i + 1]) == SeedLog(docs[..i]) + Postings(DocTokens(docs[i]), DocumentKey(i + 1))
  {
    assert docs[..i + 1][..i] == docs[..i];
  }

  /** Document k's record is found at key k + 1, over whatever that key
      held: the ids run from 1 to the number of documents with no gap, and
      no later document overwrites an earlier one. */
  lemma {:induction false} SeedHashesAt(h: map<string, Hash>, docs: seq<string>, now: nat -> string, k: nat)
    requires k < |docs|
    ensures var r := SeedHashes(h, docs, now);
      var key := DocumentKey(k + 1);
      && key in r
      && r[key] == (if key in h then h[key] else map[]) + DocRecord(k + 1, docs[k], now(k))
    decreases |docs|
  {
    var n := |docs| - 1;
    if k < n {
      SeedHashesAt(h, docs[..n], now, k);
      SeedHashesEarlier(h, docs, now, k);
    } else {
      SeedHashesLast(h, docs, now);
    }
  }

  /** The last document's record. */
  lemma SeedHashesLast(h: map<string, Hash>, docs: seq<string>, now: nat -> string)
    requires docs != []
    ensures var n := |docs| - 1;
      var r := SeedHashes(h, docs, now);
      var key := DocumentKey(n + 1);
      && key in r
      && r[key] == (if key in h then h[key] else map[]) + DocRecord(n + 1, docs[n], now(n))
  {
    var n := |docs| - 1;
    var init := docs[..n];
    var key := DocumentKey(n + 1);
    forall j | 1 <= j <= |init|
      ensures DocumentKey(j) != key
    {
      DocumentKeyInjective(j, n + 1);
    }
    SeedHashesUntouched(h, init, now, key);
  }

  /** The last document leaves the records of the earlier ones alone. */
  lemma SeedHashesEarlier(h: map<string, Hash>, docs: seq<string>, now: nat -> string, k: nat)
    requires k < |docs| - 1
    ensures var n := |docs| - 1;
      var key := DocumentKey(k + 1);
      && (key in SeedHashes(h, docs, now) <==> key in SeedHashes(h, docs[..n], now))
      && (key in SeedHashes(h, docs, now) ==> SeedHashes(h, docs, now)[key] == SeedHashes(h, docs[..n], now)[key])
  {
    DocumentKeyInjective(|docs|, k + 1);
  }

  /** A key that numbers none of the documents is left as it was. */
  lemma {:induction false} SeedHashesUntouched(h: map<string, Hash>, docs: seq<string>, now: nat -> string, key: string)
    requires forall j :: 1 <= j <= |docs| ==> DocumentKey(j) != key
    ensures key in SeedHashes(h, docs, now) <==> key in h
    ensures key in h ==> SeedHashes(h, docs, now)[key] == h[key]
    decreases |docs|
  {
    if docs != [] {
      SeedHashesUntouched(h, docs[..|docs| - 1], now, key);
    }
  }

  /** The body of the loop for document i. */
  method SeedDocument(store: Store, doc: string, i: nat, isoDate: string)
    modifies store
    ensures store.hashes == HSetOf(old(store.hashes), DocumentKey(i + 1), DocRecord(i + 1, doc, isoDate))
    ensures store.incrLog == old(store.incrLog) + Postings(DocTokens(doc), DocumentKey(i + 1))
    ensures store.sortedSets == old(store.sortedSets)
  {
    store.HSet(DocumentKeyName(NatToDec(i + 1)), DocRecord(i + 1, doc, isoDate));
    var textChiSpc := SpaceChineseChars(RemoveStopWord(doc));
    store.PostEach(Split(textChiSpc, ' '), IsNonEmpty, DocumentKeyName(NatToDec(i + 1)));
  }

  /** The script's loop over the documents. */
  method SeedDocuments(store: Store, documents: seq<string>, now: nat -> string)
    modifies store
    ensures store.hashes == SeedHashes(old(store.hashes), documents, now)
    ensures store.incrLog == old(store.incrLog) + SeedLog(documents)
    ensures store.sortedSets == old(store.sortedSets)
  {
    var i := 0;
    while i < |documents|
      invariant 0 <= i <= |documents|
      invariant store.hashes == SeedHashes(old(store.hashes), documents[..i], now)
      invariant store.incrLog == old(store.incrLog) + SeedLog(documents[..i])
      invariant store.sortedSets == old(store.sortedSets)
    {
      var isoDate := now(i);
      SeedDocument(store, documents[i], i, isoDate);
      SeedSnoc(old(store.hashes), documents, now, i);
      AppendAssoc(old(store.incrLog), SeedLog(documents[..i]), Postings(DocTokens(documents[i]), DocumentKey(i + 1)));
      i := i + 1;
    }
    assert documents[..i] == documents;
  }
}
