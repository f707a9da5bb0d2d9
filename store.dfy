/**
 * The backing key-value store as the indexer scripts use it: hashes (one
 * per document), sorted sets (the word-count and visited sets), and the log
 * of postings increments. The increment is a server-side script whose source
 * is not part of this model, so each request is recorded rather than
 * interpreted.
 */
module Store {
  import opened Text

  /** A hash: field name to string value. The store keeps every value as a
      string; integers are written in decimal. */
  type Hash = map<string, string>

  /** One `zAddIncr(tokenKey(token), member)` request: add 1 to `member`'s
      score in the postings of `token`. */
  datatype Incr = Incr(token: string, member: string)

  /** One posting increment per token, in order, all against `member`. */
  function Postings(tokens: seq<string>, member: string): (r: seq<Incr>)
    ensures |r| == |tokens|
    ensures forall i :: 0 <= i < |r| ==> r[i] == Incr(tokens[i], member)
  {
    seq(|tokens|, i requires 0 <= i < |tokens| => Incr(tokens[i], member))
  }

  lemma PostingsSnoc(tokens: seq<string>, token: string, member: string)
    ensures Postings(tokens + [token], member) == Postings(tokens, member) + [Incr(token, member)]
  {
  }

  /** HSET: the given fields are written into the hash at `key`, which is
      created if absent; its other fields stay. */
  function HSetOf(h: map<string, Hash>, key: string, fields: Hash): (r: map<string, Hash>)
    ensures r.Keys == h.Keys + {key}
    ensures forall k :: k in h && k != key ==> r[k] == h[k]
    ensures r[key].Keys == fields.Keys + (if key in h then h[key].Keys else {})
    ensures forall f :: f in fields ==> r[key][f] == fields[f]
    ensures forall f :: key in h && f in h[key] && f !in fields ==> r[key][f] == h[key][f]
  {
    h[key := (if key in h then h[key] else map[]) + fields]
  }

  /** HINCRBY field 1: an absent field counts as 0; a field holding a decimal
      integer is replaced by its successor; any other value makes the command
      fail, which leaves the hash as it was. */
  function Incremented(rec: Hash, field: string): (r: Hash)
    ensures r.Keys == rec.Keys + {field}
    ensures forall f :: f in rec && f != field ==> r[f] == rec[f]
    ensures field !in rec ==> r[field] == NatToDec(1)
    ensures field in rec && ParseDec(rec[field]).Some? ==> r[field] == NatToDec(ParseDec(rec[field]).value + 1)
  {
    if field !in rec then rec[field := "1"]
    else match ParseDec(rec[field])
      case Some(n) => rec[field := NatToDec(n + 1)]
      case None => rec
  }

  /** ZADD key score member on a sorted set (created if absent): the member's
      score is set, replacing any earlier one. */
  function ZAddOf(z: map<string, map<string, int>>, key: string, member: string, score: int)
    : (r: map<string, map<string, int>>)
    ensures r.Keys == z.Keys + {key}
    ensures forall k :: k in z && k != key ==> r[k] == z[k]
    ensures member in r[key] && r[key][member] == score
    ensures forall m :: key in z && m in z[key] && m != member ==> m in r[key] && r[key][m] == z[key][m]
    ensures forall m :: m in r[key] ==> m == member || (key in z && m in z[key])
  {
    z[key := (if key in z then z[key] else map[])[member := score]]
  }

  class Store {
    var hashes: map<string, Hash>
    var sortedSets: map<string, map<string, int>>
    var incrLog: seq<Incr>

    constructor (hashes: map<string, Hash>, sortedSets: map<string, map<string, int>>)
      ensures this.hashes == hashes && this.sortedSets == sortedSets && incrLog == []
    {
      this.hashes := hashes;
      this.sortedSets := sortedSets;
      incrLog := [];
    }

    method HSet(key: string, fields: Hash)
      modifies this
      ensures hashes == HSetOf(old(hashes), key, fields)
      ensures sortedSets == old(sortedSets) && incrLog == old(incrLog)
    {
      hashes := HSetOf(hashes, key, fields);
    }

    /** A postings increment, logged. */
    method ZAddIncr(token: string, member: string)
      modifies this
      ensures incrLog == old(incrLog) + [Incr(token, member)]
      ensures hashes == old(hashes) && sortedSets == old(sortedSets)
    {
      incrLog := incrLog + [Incr(token, member)];
    }

    /** The posting loop of the seeding scripts: one increment against
        `member` for each piece that `keep` accepts, in order. */
    method PostEach(pieces: seq<string>, keep: string -> bool, member: string)
      modifies this
      ensures incrLog == old(incrLog) + Postings(Filter(pieces, keep), member)
      ensures hashes == old(hashes) && sortedSets == old(sortedSets)
    {
      var j := 0;
      while j < |pieces|
        invariant 0 <= j <= |pieces|
        invariant incrLog == old(incrLog) + Postings(Filter(pieces[..j], keep), member)
        invariant hashes == old(hashes) && sortedSets == old(sortedSets)
      {
        var token := pieces[j];
        FilterSnoc(pieces[..j], token, keep);
        assert pieces[..j + 1] == pieces[..j] + [token];
        PostingsSnoc(Filter(pieces[..j], keep), token, member);
        if keep(token) {
          AppendAssoc(old(incrLog), Postings(Filter(pieces[..j], keep), member), [Incr(token, member)]);
          ZAddIncr(token, member);
        }
        j := j + 1;
      }
      assert pieces[..j] == pieces;
    }

    method ZAdd(key: string, member: string, score: int)
      modifies this
      ensures sortedSets == ZAddOf(old(sortedSets), key, member, score)
      ensures hashes == old(hashes) && incrLog == old(incrLog)
    {
      sortedSets := ZAddOf(sortedSets, key, member, score);
    }

    /** DEL: the key disappears, whatever it holds. */
    method Del(key: string)
      modifies this
      ensures hashes == old(hashes) - {key} && sortedSets == old(sortedSets) - {key}
      ensures incrLog == old(incrLog)
    {
      hashes := hashes - {key};
      sortedSets := sortedSets - {key};
    }

    /** MULTI / HINCRBY visited 1 / HSET updatedAt / HINCRBY updateIdent 1 /
        EXEC: one transaction, applied as one indivisible update of the hash
        (created if absent). */
    method VisitTouch(key: string, timestamp: string)
      modifies this
      ensures hashes == old(hashes)[key := Touched(if key in old(hashes) then old(hashes)[key] else map[], timestamp)]
      ensures sortedSets == old(sortedSets) && incrLog == old(incrLog)
    {
      var rec := if key in hashes then hashes[key] else map[];
      hashes := hashes[key := Touched(rec, timestamp)];
    }
  }

  /** The visit touch on one record: visited + 1, updatedAt := the timestamp,
      updateIdent + 1. */
  function Touched(rec: Hash, timestamp: string): (r: Hash)
    ensures r.Keys == rec.Keys + {"visited", "updatedAt", "updateIdent"}
    ensures r["updatedAt"] == timestamp
    ensures forall f :: f in rec && f != "visited" && f != "updatedAt" && f != "updateIdent" ==> r[f] == rec[f]
  {
    Incremented(Incremented(rec, "visited")["updatedAt" := timestamp], "updateIdent")
  }

  /** A record whose `visited` and `updateIdent` fields hold the decimal
      forms of the given counts. */
  predicate Counters(rec: Hash, visited: nat, updateIdent: nat) {
    && "visited" in rec && rec["visited"] == NatToDec(visited)
    && "updateIdent" in rec && rec["updateIdent"] == NatToDec(updateIdent)
  }

  /** A visit adds exactly one to both counters, so counters that agree
      before a touch agree after it. */
  lemma TouchedCounts(rec: Hash, timestamp: string, visited: nat, updateIdent: nat)
    requires Counters(rec, visited, updateIdent)
    ensures Counters(Touched(rec, timestamp), visited + 1, updateIdent + 1)
  {
    ParseNatToDec(visited);
    ParseNatToDec(updateIdent);
    var once := Incremented(rec, "visited");
    assert once["visited"] == NatToDec(visited + 1);
    var stamped := once["updatedAt" := timestamp];
    assert stamped["visited"] == NatToDec(visited + 1);
    assert stamped["updateIdent"] == NatToDec(updateIdent);
  }

  /** A record that has never been visited by the engine: both counters
      absent count as 0, so the first touch sets them both to 1. */
  lemma TouchedFresh(timestamp: string)
    ensures Counters(Touched(map[], timestamp), 1, 1)
  {
  }
}
