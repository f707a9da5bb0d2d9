/**
 * src/search1.js: a brute-force search that scans every document key and
 * keeps the documents whose `textChi` contains the pattern as a substring,
 * without the search index.
 */
module Search1 {
  import opened Text
  import opened Store
  import opened Scan

  /** One hit: the document key and its text. */
  datatype Match = Match(key: string, textChi: string)

  /** `text && text.includes(pattern)`: the document exists, has a
      non-empty `textChi`, and the text contains the pattern. A missing key
      or field reads as null and an empty text as false. */
  predicate Hit(h: map<string, Hash>, key: string, pattern: string) {
    key in h && "textChi" in h[key] && h[key]["textChi"] != [] && Contains(h[key]["textChi"], pattern)
  }

  /** The hits among `keys`, in visit order. */
  function MatchesOf(h: map<string, Hash>, keys: seq<string>, pattern: string): (r: seq<Match>)
    ensures |r| <= |keys|
    ensures forall i :: 0 <= i < |r| ==> Hit(h, r[i].key, pattern) && r[i].textChi == h[r[i].key]["textChi"]
    decreases |keys|
  {
    if keys == [] then []
    else
      var k := keys[|keys| - 1];
      MatchesOf(h, keys[..|keys| - 1], pattern) + (if Hit(h, k, pattern) then [Match(k, h[k]["textChi"])] else [])
  }

  /** A document is reported exactly when it was visited and is a hit, and
      it is reported with its stored text. */
  lemma {:induction false} MatchesOfExactly(h: map<string, Hash>, keys: seq<string>, pattern: string, m: Match)
    ensures m in MatchesOf(h, keys, pattern) <==>
      m.key in keys && Hit(h, m.key, pattern) && m.textChi == h[m.key]["textChi"]
    decreases |keys|
  {
    if keys != [] {
      var init := keys[..|keys| - 1];
      MatchesOfExactly(h, init, pattern, m);
      assert keys == init + [keys[|keys| - 1]];
    }
  }

  /** The empty pattern is contained in every text, so it reports every
      visited document that has a non-empty text. */
  lemma EmptyPatternHitsAll(h: map<string, Hash>, key: string)
    requires key in h && "textChi" in h[key] && h[key]["textChi"] != []
    ensures Hit(h, key, [])
  {
    ContainsAt(h[key]["textChi"], [], 0);
  }

  /** Hits of consecutive runs of keys are the hits of each run, in order. */
  lemma {:induction false} MatchesOfAppend(h: map<string, Hash>, a: seq<string>, b: seq<string>, pattern: string)
    ensures MatchesOf(h, a + b, pattern) == MatchesOf(h, a, pattern) + MatchesOf(h, b, pattern)
    decreases |b|
  {
    if b == [] {
      assert a + b == a;
    } else {
      var init := b[..|b| - 1];
      var k := b[|b| - 1];
      var tail := if Hit(h, k, pattern) then [Match(k, h[k]["textChi"])] else [];
      MatchesOfAppend(h, a, init, pattern);
      assert (a + b)[..|a + b| - 1] == a + init;
      assert (a + b)[|a + b| - 1] == k;
      assert MatchesOf(h, a + b, pattern) == MatchesOf(h, a + init, pattern) + tail;
      assert MatchesOf(h, b, pattern) == MatchesOf(h, init, pattern) + tail;
    }
  }

  /** The body of the scan loop for one batch: fetch each key's text, keep
      the hits, count every key. */
  method VisitBatch(store: Store, keys: seq<string>, pattern: string, matched: seq<Match>, counter: nat)
    returns (matched': seq<Match>, counter': nat)
    ensures matched' == matched + MatchesOf(store.hashes, keys, pattern)
    ensures counter' == counter + |keys|
  {
    matched', counter' := matched, counter;
    var j := 0;
    while j < |keys|
      invariant 0 <= j <= |keys|
      invariant matched' == matched + MatchesOf(store.hashes, keys[..j], pattern)
      invariant counter' == counter + j
    {
      var key := keys[j];
      assert keys[..j + 1][..j] == keys[..j];
      if key in store.hashes && "textChi" in store.hashes[key] {
        var text := store.hashes[key]["textChi"];
        if text != [] && Contains(text, pattern) {
          matched' := matched' + [Match(key, text)];
        }
      }
      counter' := counter' + 1;
      j := j + 1;
    }
    assert keys[..j] == keys;
  }

  /** `scanTextChi(pattern)`: visit every key of the scan, fetch its
      `textChi`, and collect the hits; `counter` counts every visited key.
      `sent` lists the cursors of the calls made. */
  method ScanTextChi(store: Store, replies: seq<ScanReply>, pattern: string)
    returns (matched: seq<Match>, counter: nat, sent: seq<string>)
    requires Completes(replies)
    ensures matched == MatchesOf(store.hashes, Scanned(replies), pattern)
    ensures counter == |Scanned(replies)|
    ensures sent == CursorsSent(replies, Rounds(replies)) && NeverRestarts(sent)
  {
    counter := 0;
    var cursor := "0";
    matched := [];
    sent := [];
    var r := 0;
    var done := false;
    while !done
      invariant 0 <= r <= Rounds(replies)
      invariant done <==> r == Rounds(replies)
      invariant cursor == (if r == 0 then "0" else replies[r - 1].cursor)
      invariant r >= 1 ==> sent == CursorsSent(replies, r)
      invariant r == 0 ==> sent == []
      invariant matched == MatchesOf(store.hashes, KeysOf(replies[..r]), pattern)
      invariant counter == |KeysOf(replies[..r])|
      decreases Rounds(replies) - r
    {
      CursorsSentNext(replies, r, sent);
      sent := sent + [cursor];
      var result := replies[r];
      cursor := result.cursor;
      var keys := result.keys;
      matched, counter := VisitBatch(store, keys, pattern, matched, counter);
      MatchesOfAppend(store.hashes, KeysOf(replies[..r]), keys, pattern);
      assert replies[..r + 1][..r] == replies[..r];
      r := r + 1;
      done := cursor == "0";
    }
    CursorsSentNeverRestart(replies);
  }
}
