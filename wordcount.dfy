/**
 * src/wc.js: the word count. For every postings set
 * `fts:chinese:tokens:<token>` it stores, in the sorted set
 * `fts:chinese:wc`, the token with the sum of its postings' scores.
 */
module WordCount {
  import opened Text
  import opened Store
  import opened Scan

  const TokenPrefix: string := "fts:chinese:tokens:"
  const WordCountKey: string := "fts:chinese:wc"

  /** The keys the word count visits: all in the postings namespace. */
  predicate AllTokenKeys(keys: seq<string>) {
    forall i :: 0 <= i < |keys| ==> TokenPrefix <= keys[i]
  }

  lemma AllTokenKeysAppend(a: seq<string>, b: seq<string>)
    requires AllTokenKeys(a) && AllTokenKeys(b)
    ensures AllTokenKeys(a + b)
  {
    forall i | 0 <= i < |a + b|
      ensures TokenPrefix <= (a + b)[i]
    {
      if i >= |a| {
        assert (a + b)[i] == b[i - |a|];
      }
    }
  }

  /** A key in the postings namespace splits into the three namespace
      pieces followed by the pieces of the rest of the key. */
  lemma PrefixSplit(key: string)
    requires TokenPrefix <= key
    ensures |Split(key, ':')| == |Split(key[|TokenPrefix|..], ':')| + 3
    ensures Split(key, ':')[3..] == Split(key[|TokenPrefix|..], ':')
  {
    var rest := key[|TokenPrefix|..];
    var s3 := "tokens" + [':'] + rest;
    var s2 := "chinese" + [':'] + s3;
    var s1 := "fts" + [':'] + s2;
    assert TokenPrefix == "fts" + [':'] + "chinese" + [':'] + "tokens" + [':'];
    assert key == TokenPrefix + rest;
    assert key == s1;
    var tail := Split(rest, ':');
    SplitAroundSeparator("tokens", ':', rest);
    SplitAroundSeparator("chinese", ':', s3);
    SplitAroundSeparator("fts", ':', s2);
    assert Split(s1, ':')[1..] == Split(s2, ':');
    assert Split(s2, ':')[1..] == Split(s3, ':');
    assert Split(s3, ':')[1..] == tail;
    assert Split(s1, ':')[3..] == Split(s1, ':')[1..][1..][1..];
  }

  /** `key.split(':')[3]`: the fourth colon-separated piece of the key. */
  function MemberOf(key: string): (m: string)
    requires TokenPrefix <= key
    ensures ':' !in m
  {
    PrefixSplit(key);
    Split(key, ':')[3]
  }

  /** The member is the part of the token before its first colon, which is
      the token itself when it has no colon. */
  lemma MemberOfToken(token: string)
    ensures TokenPrefix <= TokenPrefix + token
    ensures MemberOf(TokenPrefix + token) == Split(token, ':')[0]
    ensures ':' !in token ==> MemberOf(TokenPrefix + token) == token
  {
    var key := TokenPrefix + token;
    assert key[|TokenPrefix|..] == token;
    PrefixSplit(key);
    assert Split(key, ':')[3] == Split(key, ':')[3..][0];
    if ':' !in token {
      SplitNoSeparator(token, ':');
    }
  }

  /** The sorted sets after `zAdd('fts:chinese:wc', {score, value})` for
      every key in visit order; `sumScore` is the score total of a
      postings set. */
  function CountAll(z: map<string, map<string, int>>, keys: seq<string>, sumScore: string -> int)
    : map<string, map<string, int>>
    requires AllTokenKeys(keys)
    decreases |keys|
  {
    if keys == [] then z
    else
      var k := keys[|keys| - 1];
      ZAddOf(CountAll(z, keys[..|keys| - 1], sumScore), WordCountKey, MemberOf(k), sumScore(k))
  }

  /** Only the word-count set changes; it gains the member of every visited
      key, and a member's score is the total of the last visited key that
      gives that member. Members already present and not visited keep their
      scores. */
  lemma {:induction false} CountAllAt(z: map<string, map<string, int>>, keys: seq<string>, sumScore: string -> int, j: nat)
    requires AllTokenKeys(keys)
    requires j < |keys|
    requires forall j' :: j < j' < |keys| ==> MemberOf(keys[j']) != MemberOf(keys[j])
    ensures WordCountKey in CountAll(z, keys, sumScore)
    ensures MemberOf(keys[j]) in CountAll(z, keys, sumScore)[WordCountKey]
    ensures CountAll(z, keys, sumScore)[WordCountKey][MemberOf(keys[j])] == sumScore(keys[j])
    decreases |keys|
  {
    var init := keys[..|keys| - 1];
    if j < |keys| - 1 {
      CountAllAt(z, init, sumScore, j);
    }
  }

  /** Every set other than the word count is untouched, and so is every
      member of the word count that no visited key gives. */
  lemma {:induction false} CountAllOthers(z: map<string, map<string, int>>, keys: seq<string>, sumScore: string -> int,
                                          key: string, member: string)
    requires AllTokenKeys(keys)
    ensures key != WordCountKey ==> (key in CountAll(z, keys, sumScore) <==> key in z)
    ensures key != WordCountKey && key in z ==> CountAll(z, keys, sumScore)[key] == z[key]
    ensures (forall i :: 0 <= i < |keys| ==> MemberOf(keys[i]) != member) && WordCountKey in z && member in z[WordCountKey] ==>
      WordCountKey in CountAll(z, keys, sumScore) && member in CountAll(z, keys, sumScore)[WordCountKey] &&
      CountAll(z, keys, sumScore)[WordCountKey][member] == z[WordCountKey][member]
    decreases |keys|
  {
    if keys != [] {
      var init := keys[..|keys| - 1];
      CountAllOthers(z, init, sumScore, key, member);
    }
  }

  /** Counting consecutive runs of keys is counting their concatenation. */
  lemma {:induction false} CountAllAppend(z: map<string, map<string, int>>, a: seq<string>, b: seq<string>, sumScore: string -> int)
    requires AllTokenKeys(a + b)
    ensures AllTokenKeys(a) && AllTokenKeys(b)
    ensures CountAll(z, a + b, sumScore) == CountAll(CountAll(z, a, sumScore), b, sumScore)
    decreases |b|
  {
    AllTokenKeysParts(a, b);
    if b == [] {
      assert a + b == a;
    } else {
      var init := b[..|b| - 1];
      var k := b[|b| - 1];
      assert b == init + [k];
      AllTokenKeysParts(init, [k]);
      AllTokenKeysAppend(a, init);
      assert a + b == (a + init) + [k];
      CountAllAppend(z, a, init, sumScore);
      CountAllSnoc(z, a + init, k, sumScore);
      CountAllSnoc(CountAll(z, a, sumScore), init, k, sumScore);
    }
  }

  /** One more key adds its member to the word count. */
  lemma CountAllSnoc(z: map<string, map<string, int>>, keys: seq<string>, k: string, sumScore: string -> int)
    requires AllTokenKeys(keys + [k])
    ensures AllTokenKeys(keys) && TokenPrefix <= k
    ensures CountAll(z, keys + [k], sumScore) == ZAddOf(CountAll(z, keys, sumScore), WordCountKey, MemberOf(k), sumScore(k))
  {
    AllTokenKeysParts(keys, [k]);
    assert (keys + [k])[..|keys|] == keys;
    assert (keys + [k])[|keys|] == k;
  }

  lemma AllTokenKeysParts(a: seq<string>, b: seq<string>)
    requires AllTokenKeys(a + b)
    ensures AllTokenKeys(a) && AllTokenKeys(b)
  {
    forall i | 0 <= i < |a|
      ensures TokenPrefix <= a[i]
    {
      assert a[i] == (a + b)[i];
    }
    forall i | 0 <= i < |b|
      ensures TokenPrefix <= b[i]
    {
      assert b[i] == (a + b)[|a| + i];
    }
  }

  /** The body of the scan loop for one batch. */
  method CountBatch(store: Store, keys: seq<string>, sumScore: string -> int)
    requires AllTokenKeys(keys)
    modifies store
    ensures store.sortedSets == CountAll(old(store.sortedSets), keys, sumScore)
    ensures store.hashes == old(store.hashes) && store.incrLog == old(store.incrLog)
  {
    var j := 0;
    while j < |keys|
      invariant 0 <= j <= |keys|
      invariant store.sortedSets == CountAll(old(store.sortedSets), keys[..j], sumScore)
      invariant store.hashes == old(store.hashes) && store.incrLog == old(store.incrLog)
    {
      assert keys[..j + 1][..j] == keys[..j];
      var key := keys[j];
      store.ZAdd(WordCountKey, MemberOf(key), sumScore(key));
      j := j + 1;
    }
    assert keys[..j] == keys;
  }

  /** `wc()`: add one word-count entry per scanned postings set and count
      them. The scan pattern `fts:chinese:tokens:*` restricts the keys the
      server returns to that namespace. */
  method Wc(store: Store, replies: seq<ScanReply>, sumScore: string -> int) returns (counter: nat, sent: seq<string>)
    requires Completes(replies)
    requires forall r :: 0 <= r < |replies| ==> AllTokenKeys(replies[r].keys)
    modifies store
    ensures AllTokenKeys(Scanned(replies))
    ensures store.sortedSets == CountAll(old(store.sortedSets), Scanned(replies), sumScore)
    ensures store.hashes == old(store.hashes) && store.incrLog == old(store.incrLog)
    ensures counter == |Scanned(replies)|
    ensures sent == CursorsSent(replies, Rounds(replies)) && NeverRestarts(sent)
  {
    counter := 0;
    var cursor := "0";
    sent := [];
    var r := 0;
    var done := false;
    while !done
      invariant 0 <= r <= Rounds(replies)
      invariant done <==> r == Rounds(replies)
      invariant cursor == (if r == 0 then "0" else replies[r - 1].cursor)
      invariant r >= 1 ==> sent == CursorsSent(replies, r)
      invariant r == 0 ==> sent == []
      invariant AllTokenKeys(KeysOf(replies[..r]))
      invariant store.sortedSets == CountAll(old(store.sortedSets), KeysOf(replies[..r]), sumScore)
      invariant store.hashes == old(store.hashes) && store.incrLog == old(store.incrLog)
      invariant counter == |KeysOf(replies[..r])|
      decreases Rounds(replies) - r
    {
      CursorsSentNext(replies, r, sent);
      sent := sent + [cursor];
      var result := replies[r];
      cursor := result.cursor;
      var keys := result.keys;
      KeysOfSnoc(replies, r);
      AllTokenKeysAppend(KeysOf(replies[..r]), keys);
      CountBatch(store, keys, sumScore);
      CountAllAppend(old(store.sortedSets), KeysOf(replies[..r]), keys, sumScore);
      counter := counter + |keys|;
      r := r + 1;
      done := cursor == "0";
    }
    CursorsSentNeverRestart(replies);
  }
}
