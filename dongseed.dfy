/**
 * src/dongSeedRedis.js: seed the store from a dictionary dump, one
 * `HSET DONGDICT:<entry> <field> "<definition>"` command per line. Every
 * accepted line becomes a document record, and every ideograph of its text
 * (stop characters removed) is posted against the document. The line counter
 * advances on every line, accepted or not, and numbers the documents.
 */
module DongSeed {
  import opened Text
  import opened Store
  import opened StopWords
  import opened RedisHelper

  /** The namespace of the dump's keys, dropped from the entry name. */
  const DictPrefix: string := "DONGDICT:"

  /** A line read as a command: trimmed, then split on single spaces. */
  function LineParts(line: string): seq<string> {
    Split(Trim(line), ' ')
  }

  /** `.replace(/^"|"$/g, '')`: one quote is removed from the start and one
      from the end, each if present; a lone quote is removed once. */
  function StripQuotes(s: string): (r: string)
    ensures |s| - 2 <= |r| <= |s|
    ensures forall i :: 0 <= i < |r| ==> r[i] in s
    ensures s != [] && s[0] == '"' ==> |r| < |s| && r == s[1..1 + |r|]
    ensures !(s != [] && s[0] == '"') ==> r == s[..|r|]
  {
    var a := if s != [] && s[0] == '"' then s[1..] else s;
    if a != [] && a[|a| - 1] == '"' then a[..|a| - 1] else a
  }

  /** A definition wrapped in quotes comes out unwrapped, whatever quotes it
      holds inside. */
  lemma StripQuotesOfQuoted(v: string)
    ensures StripQuotes("\"" + v + "\"") == v
  {
    var s := "\"" + v + "\"";
    assert s[1..] == v + "\"";
    assert (v + "\"")[..|v|] == v;
  }

  /** A quote at the start alone is removed: `"v` gives `v`. */
  lemma StripQuotesLeading(v: string)
    requires v == [] || v[|v| - 1] != '"'
    ensures StripQuotes("\"" + v) == v
  {
    assert ("\"" + v)[1..] == v;
  }

  /** A quote at the end alone is removed: `v"` gives `v`. */
  lemma StripQuotesTrailing(v: string)
    requires v == [] || v[0] != '"'
    ensures StripQuotes(v + "\"") == v
  {
    assert (v + "\"")[..|v|] == v;
  }

  /** Text with no quote at either end is left alone, and a lone quote
      disappears. */
  lemma StripQuotesPlain(v: string)
    requires v != [] ==> v[0] != '"' && v[|v| - 1] != '"'
    ensures StripQuotes(v) == v
    ensures StripQuotes("\"") == []
  {
  }

  /** An accepted line, as the loop reads it. */
  datatype Entry = Entry(key: string, value: string)

  /** The guard `parts.length >= 4 && parts[0] === 'HSET'`, then the key with
      its first `DONGDICT:` removed and the value (every part after the
      field, rejoined) with its edge quotes removed. */
  function ParseLine(line: string): (r: Option<Entry>)
    ensures r.Some? <==> |LineParts(line)| >= 4 && LineParts(line)[0] == "HSET"
    ensures r.Some? ==> "HSET " <= Trim(line)
  {
    var parts := LineParts(line);
    assert |parts| >= 2 && parts[0] == "HSET" ==> "HSET " <= Trim(line) by {
      if |parts| >= 2 && parts[0] == "HSET" {
        JoinSplit(Trim(line), ' ');
        assert parts == [parts[0]] + parts[1..];
        JoinCons(parts[0], parts[1..], ' ');
      }
    }
    if |parts| >= 4 && parts[0] == "HSET" then
      Some(Entry(RemoveFirst(parts[1], DictPrefix), StripQuotes(Join(parts[3..], ' '))))
    else None
  }

  /** The parts of a command line `HSET <key> <field> <rest>` whose key and
      field hold no space and whose last character is not white space. */
  lemma CommandParts(key: string, field: string, rest: string)
    requires ' ' !in key && ' ' !in field
    requires rest != [] && !IsJsSpace(rest[|rest| - 1])
    ensures var parts := LineParts("HSET" + [' '] + (key + [' '] + (field + [' '] + rest)));
      |parts| >= 4 && parts[0] == "HSET" && parts[1] == key && parts[3..] == Split(rest, ' ')
  {
    var s3 := field + [' '] + rest;
    var s2 := key + [' '] + s3;
    var line := "HSET" + [' '] + s2;
    assert line[0] == 'H' && line[|line| - 1] == rest[|rest| - 1];
    TrimNoEdges(line);
    SplitAroundSeparator("HSET", ' ', s2);
    SplitAroundSeparator(key, ' ', s3);
    SplitAroundSeparator(field, ' ', rest);
    var parts := LineParts(line);
    assert parts[1..] == Split(s2, ' ');
    assert parts[1..][1..] == Split(s3, ' ');
    assert parts[3..] == parts[1..][1..][1..];
  }

  /** A dump line built from an entry name without spaces, a field name
      without spaces and any definition is accepted, and reads back as that
      entry name and definition. */
  lemma ParseLineRoundTrip(name: string, field: string, definition: string)
    requires ' ' !in name && ' ' !in field
    ensures ParseLine("HSET " + DictPrefix + name + " " + field + " \"" + definition + "\"")
      == Some(Entry(name, definition))
  {
    var quoted := "\"" + definition + "\"";
    var key := DictPrefix + name;
    var line := "HSET" + [' '] + (key + [' '] + (field + [' '] + quoted));
    assert "HSET " + DictPrefix + name + " " + field + " \"" + definition + "\"" == line;
    assert ' ' !in key by {
      assert forall i :: 0 <= i < |DictPrefix| ==> key[i] == DictPrefix[i];
      assert forall i :: |DictPrefix| <= i < |key| ==> key[i] == name[i - |DictPrefix|];
    }
    CommandParts(key, field, quoted);
    JoinSplit(quoted, ' ');
    StripQuotesOfQuoted(definition);
    assert DictPrefix <= key;
    assert key[|DictPrefix|..] == name;
  }

  /** The document text: the entry name, the line-break tag, the definition. */
  function TextChiOf(e: Entry): string {
    e.key + LineBreakTag + e.value
  }

  /** The record written for the document numbered `id`. The numbers are
      stored in decimal. */
  function DictRecord(id: nat, e: Entry, createdAt: string): Hash {
    map["id" := NatToDec(id), "key" := e.key, "textChi" := TextChiOf(e), "visited" := "0",
        "createdAt" := createdAt, "updatedAt" := "", "updateIdent" := "0"]
  }

  /** The tokens posted for a document text: the pieces of its spaced,
      stop-character-free form that pass the filter. They are exactly the
      ideographs of the text after stop-character removal, in order. */
  function PostingTokens(textChi: string): (ts: seq<string>)
    ensures ts == Ideographs(RemoveStopWord(textChi))
  {
    RetainedPiecesAreIdeographs(RemoveStopWord(textChi));
    RetainedPieces(Split(SpaceChineseChars(RemoveStopWord(textChi)), ' '))
  }

  /** Every line of the dump, read. */
  function ParseLines(lines: seq<string>): (entries: seq<Option<Entry>>)
    ensures |entries| == |lines|
    ensures forall k :: 0 <= k < |lines| ==> entries[k] == ParseLine(lines[k])
  {
    seq(|lines|, k requires 0 <= k < |lines| => ParseLine(lines[k]))
  }

  /** The records after line k, read as `entry`: an accepted line writes
      document k + 1, stamped `createdAt`; a skipped line writes nothing. */
  function LineHashes(h: map<string, Hash>, entry: Option<Entry>, k: nat, createdAt: string): map<string, Hash> {
    match entry
    case Some(e) => HSetOf(h, DocumentKey(k + 1), DictRecord(k + 1, e, createdAt))
    case None => h
  }

  /** The postings requests of line k, read as `entry`. */
  function LinePostings(entry: Option<Entry>, k: nat): seq<Incr> {
    match entry
    case Some(e) => Postings(PostingTokens(TextChiOf(e)), DocumentKey(k + 1))
    case None => []
  }

  /** The document records after the read lines, the k-th line numbering
      document k + 1 and stamped with `now(k)`. */
  function SeedHashes(h: map<string, Hash>, entries: seq<Option<Entry>>, now: nat -> string): map<string, Hash>
    decreases |entries|
  {
    if entries == [] then h
    else
      var k := |entries| - 1;
      LineHashes(SeedHashes(h, entries[..k], now), entries[k], k, now(k))
  }

  /** The postings requests the read lines make, in order. */
  function SeedLog(entries: seq<Option<Entry>>): seq<Incr>
    decreases |entries|
  {
    if entries == [] then []
    else
      var k := |entries| - 1;
      SeedLog(entries[..k]) + LinePostings(entries[k], k)
  }

  /** Reading one more line extends the records and the requests by that
      line's. */
  lemma SeedSnoc(h: map<string, Hash>, entries: seq<Option<Entry>>, now: nat -> string, i: nat)
    requires i < |entries|
    ensures SeedHashes(h, entries[..i + 1], now) == LineHashes(SeedHashes(h, entries[..i], now), entries[i], i, now(i))
    ensures SeedLog(entries[..i + 1]) == SeedLog(entries[..i]) + LinePostings(entries[i], i)
  {
    assert entries[..i + 1][..i] == entries[..i];
  }

  /** The record of an accepted line k is found at document k + 1, written
      over whatever that key held; no later line touches it. */
  lemma {:induction false} SeedHashesAccepted(h: map<string, Hash>, entries: seq<Option<Entry>>, now: nat -> string, k: nat)
    requires k < |entries| && entries[k].Some?
    ensures var r := SeedHashes(h, entries, now);
      var key := DocumentKey(k + 1);
      && key in r
      && r[key] == (if key in h then h[key] else map[]) + DictRecord(k + 1, entries[k].value, now(k))
    decreases |entries|
  {
    var n := |entries| - 1;
    if k < n {
      SeedHashesAccepted(h, entries[..n], now, k);
      SeedHashesEarlier(h, entries, now, k);
    } else {
      SeedHashesLast(h, entries, now);
    }
  }

  /** The record of the last line, when it is accepted. */
  lemma SeedHashesLast(h: map<string, Hash>, entries: seq<Option<Entry>>, now: nat -> string)
    requires entries != [] && entries[|entries| - 1].Some?
    ensures var n := |entries| - 1;
      var r := SeedHashes(h, entries, now);
      var key := DocumentKey(n + 1);
      && key in r
      && r[key] == (if key in h then h[key] else map[]) + DictRecord(n + 1, entries[n].value, now(n))
  {
    var n := |entries| - 1;
    var init := entries[..n];
    var key := DocumentKey(n + 1);
    forall j | 0 <= j < |init| && init[j].Some?
      ensures DocumentKey(j + 1) != key
    {
      DocumentKeyInjective(j + 1, n + 1);
    }
    SeedHashesUntouched(h, init, now, key);
  }

  /** The last line leaves the records of the earlier ones alone. */
  lemma SeedHashesEarlier(h: map<string, Hash>, entries: seq<Option<Entry>>, now: nat -> string, k: nat)
    requires k < |entries| - 1
    ensures var n := |entries| - 1;
      var key := DocumentKey(k + 1);
      && (key in SeedHashes(h, entries, now) <==> key in SeedHashes(h, entries[..n], now))
      && (key in SeedHashes(h, entries, now) ==> SeedHashes(h, entries, now)[key] == SeedHashes(h, entries[..n], now)[key])
  {
    DocumentKeyInjective(|entries|, k + 1);
  }

  /** A key that no accepted line numbers is left as it was. */
  lemma {:induction false} SeedHashesUntouched(h: map<string, Hash>, entries: seq<Option<Entry>>, now: nat -> string, key: string)
    requires forall j :: 0 <= j < |entries| && entries[j].Some? ==> DocumentKey(j + 1) != key
    ensures key in SeedHashes(h, entries, now) <==> key in h
    ensures key in h ==> SeedHashes(h, entries, now)[key] == h[key]
    decreases |entries|
  {
    if entries != [] {
      SeedHashesUntouched(h, entries[..|entries| - 1], now, key);
    }
  }

  /** A skipped line leaves its document number unused: the ids of the
      seeded documents have a gap wherever the dump has a malformed line. */
  lemma SkippedLineLeavesGap(h: map<string, Hash>, entries: seq<Option<Entry>>, now: nat -> string, k: nat)
    requires k < |entries| && entries[k].None?
    requires DocumentKey(k + 1) !in h
    ensures DocumentKey(k + 1) !in SeedHashes(h, entries, now)
  {
    forall j | 0 <= j < |entries| && entries[j].Some?
      ensures DocumentKey(j + 1) != DocumentKey(k + 1)
    {
      DocumentKeyInjective(j + 1, k + 1);
    }
    SeedHashesUntouched(h, entries, now, DocumentKey(k + 1));
  }

  /** The body of the loop for an accepted line: write the record of
      document `id`, then post the tokens of its text. */
  method SeedEntry(store: Store, e: Entry, id: nat, isoDate: string)
    modifies store
    ensures store.hashes == HSetOf(old(store.hashes), DocumentKey(id), DictRecord(id, e, isoDate))
    ensures store.incrLog == old(store.incrLog) + Postings(PostingTokens(TextChiOf(e)), DocumentKey(id))
    ensures store.sortedSets == old(store.sortedSets)
  {
    var textChi := e.key + LineBreakTag + e.value;
    store.HSet(DocumentKeyName(NatToDec(id)), DictRecord(id, e, isoDate));
    var textChiSpc := SpaceChineseChars(RemoveStopWord(textChi));
    store.PostEach(Split(textChiSpc, ' '), IsRetained, DocumentKeyName(NatToDec(id)));
  }

  /** The body of the loop for line i. */
  method SeedLine(store: Store, entry: Option<Entry>, i: nat, isoDate: string)
    modifies store
    ensures store.hashes == LineHashes(old(store.hashes), entry, i, isoDate)
    ensures store.incrLog == old(store.incrLog) + LinePostings(entry, i)
    ensures store.sortedSets == old(store.sortedSets)
  {
    match entry {
      case Some(e) => SeedEntry(store, e, i + 1, isoDate);
      case None =>
    }
  }

  /** The loop of the script over the dump's lines: for each accepted line,
      write the record of document i + 1, then post its tokens; every line,
      accepted or not, advances i and the clock. */
  method SeedLines(store: Store, lines: seq<string>, now: nat -> string) returns (i: nat)
    modifies store
    ensures i == |lines|
    ensures store.hashes == SeedHashes(old(store.hashes), ParseLines(lines), now)
    ensures store.incrLog == old(store.incrLog) + SeedLog(ParseLines(lines))
    ensures store.sortedSets == old(store.sortedSets)
  {
    i := 0;
    ghost var entries := ParseLines(lines);
    while i < |lines|
      invariant 0 <= i <= |lines|
      invariant store.hashes == SeedHashes(old(store.hashes), entries[..i], now)
      invariant store.incrLog == old(store.incrLog) + SeedLog(entries[..i])
      invariant store.sortedSets == old(store.sortedSets)
    {
      var entry := ParseLine(lines[i]);
      assert entry == entries[i];
      var isoDate := now(i);
      SeedLine(store, entry, i, isoDate);
      SeedSnoc(old(store.hashes), entries, now, i);
      AppendAssoc(old(store.incrLog), SeedLog(entries[..i]), LinePostings(entries[i], i));
      i := i + 1;
    }
    assert entries[..i] == entries;
  }

}
