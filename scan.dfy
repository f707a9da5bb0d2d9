/**
 * The cursor protocol of the store's SCAN command, as the maintenance
 * scripts drive it: the first call sends cursor "0", every later call sends
 * the cursor of the previous reply, and the iteration ends after the first
 * reply whose cursor is "0". The server's replies are an input here; which
 * keys it returns for a pattern is its business, not the scripts'.
 */
module Scan {
  /** One reply: the cursor for the next call and a batch of keys. */
  datatype ScanReply = ScanReply(cursor: string, keys: seq<string>)

  /** The server eventually reports the end of the iteration. */
  predicate Completes(replies: seq<ScanReply>) {
    exists r :: 0 <= r < |replies| && replies[r].cursor == "0"
  }

  /** How many calls the do-while loop makes: up to and including the first
      reply that carries cursor "0". */
  function Rounds(replies: seq<ScanReply>): (n: nat)
    requires Completes(replies)
    ensures 1 <= n <= |replies|
    ensures replies[n - 1].cursor == "0"
    ensures forall r :: 0 <= r < n - 1 ==> replies[r].cursor != "0"
  {
    if replies[0].cursor == "0" then 1
    else
      assert Completes(replies[1..]) by {
        var r :| 0 <= r < |replies| && replies[r].cursor == "0";
        assert replies[1..][r - 1].cursor == "0";
      }
      1 + Rounds(replies[1..])
  }

  /** The keys of a run of replies, batch after batch. */
  function KeysOf(replies: seq<ScanReply>): seq<string>
    decreases |replies|
  {
    if replies == [] then []
    else KeysOf(replies[..|replies| - 1]) + replies[|replies| - 1].keys
  }

  /** One more reply adds its batch after the keys before it. */
  lemma KeysOfSnoc(replies: seq<ScanReply>, r: nat)
    requires r < |replies|
    ensures KeysOf(replies[..r + 1]) == KeysOf(replies[..r]) + replies[r].keys
  {
    assert replies[..r + 1][..r] == replies[..r];
  }

  /** Every key the loop visits, in the order it visits them. */
  function Scanned(replies: seq<ScanReply>): seq<string>
    requires Completes(replies)
  {
    KeysOf(replies[..Rounds(replies)])
  }

  /** The cursors the first `n` calls send: "0", then the cursor of each
      reply before the n-th. */
  function CursorsSent(replies: seq<ScanReply>, n: nat): (sent: seq<string>)
    requires 1 <= n <= |replies| + 1
    ensures |sent| == n
  {
    seq(n, i requires 0 <= i < n => if i == 0 then "0" else replies[i - 1].cursor)
  }

  /** The call after the first `r` sends the cursor of the r-th reply (the
      initial "0" for the first call). */
  lemma CursorsSentNext(replies: seq<ScanReply>, r: nat, sent: seq<string>)
    requires r < |replies|
    requires r == 0 ==> sent == []
    requires r >= 1 ==> sent == CursorsSent(replies, r)
    ensures sent + [if r == 0 then "0" else replies[r - 1].cursor] == CursorsSent(replies, r + 1)
  {
    var next := sent + [if r == 0 then "0" else replies[r - 1].cursor];
    forall i | 0 <= i < r + 1
      ensures next[i] == CursorsSent(replies, r + 1)[i]
    {
      if i < r {
        assert next[i] == CursorsSent(replies, r)[i];
      }
    }
  }

  /** A whole iteration never restarts the scan. */
  lemma CursorsSentNeverRestart(replies: seq<ScanReply>)
    requires Completes(replies)
    ensures NeverRestarts(CursorsSent(replies, Rounds(replies)))
  {
    var sent := CursorsSent(replies, Rounds(replies));
    forall i | 0 < i < |sent|
      ensures sent[i] != "0"
    {
      assert sent[i] == replies[i - 1].cursor;
    }
  }

  /** Over a whole iteration only the first call sends cursor "0": the loop
      never restarts the scan. */
  predicate NeverRestarts(sent: seq<string>) {
    |sent| >= 1 && sent[0] == "0" && forall i :: 0 < i < |sent| ==> sent[i] != "0"
  }

  /** Each batch's keys appear in the visit order at the position its batch
      comes in. */
  lemma {:induction false} KeysOfBatch(replies: seq<ScanReply>, r: nat, j: nat)
    requires r < |replies| && j < |replies[r].keys|
    ensures replies[r].keys[j] in KeysOf(replies)
    decreases |replies|
  {
    var init := replies[..|replies| - 1];
    if r < |replies| - 1 {
      assert init[r] == replies[r];
      KeysOfBatch(init, r, j);
    } else {
      assert KeysOf(replies)[|KeysOf(init)| + j] == replies[r].keys[j];
    }
  }

  /** A key is visited only if some consumed batch holds it. */
  lemma {:induction false} KeysOfFrom(replies: seq<ScanReply>, key: string)
    requires key in KeysOf(replies)
    ensures exists r, j :: 0 <= r < |replies| && 0 <= j < |replies[r].keys| && replies[r].keys[j] == key
    decreases |replies|
  {
    var init := replies[..|replies| - 1];
    var last := replies[|replies| - 1];
    if key in KeysOf(init) {
      KeysOfFrom(init, key);
      var r, j :| 0 <= r < |init| && 0 <= j < |init[r].keys| && init[r].keys[j] == key;
      assert replies[r] == init[r];
    } else {
      assert key in last.keys;
      var j :| 0 <= j < |last.keys| && last.keys[j] == key;
      assert replies[|replies| - 1].keys[j] == key;
    }
  }
}
