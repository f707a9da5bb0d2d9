/**
 * The store helpers of src/util/redisHelper.js that hold logic of their own:
 * document key naming, the decoders that turn the store's positional replies
 * into records, the `INFO SERVER` version parse, and the visit touch that
 * `findDocuments` applies to every document it returns. The search and scan
 * commands themselves run on the server; their replies are inputs here.
 */
module RedisHelper {
  import opened Text
  import opened Store

  // ---------------------------------------------------------------------------
  // key naming

  const DocumentPrefix: string := "fts:chinese:documents:"

  /** `getDocumentKeyName(id)`: the document namespace followed by the id as
      written. */
  function DocumentKeyName(id: string): (key: string)
    ensures DocumentPrefix <= key && key[|DocumentPrefix|..] == id
  {
    DocumentPrefix + id
  }

  /** The key of the document with a numeric id, as the indexers build it. */
  function DocumentKey(id: nat): string {
    DocumentKeyName(NatToDec(id))
  }

  /** With an empty id the key name is the bare prefix the search index is
      declared on, and every document key extends it. */
  lemma DocumentKeyNamePrefix(id: string)
    ensures DocumentKeyName("") == DocumentPrefix
    ensures DocumentKeyName("") <= DocumentKeyName(id)
  {
  }

  /** Distinct ids give distinct keys, so no two documents share a record. */
  lemma DocumentKeyInjective(m: nat, n: nat)
    ensures DocumentKey(m) == DocumentKey(n) <==> m == n
  {
    if DocumentKey(m) == DocumentKey(n) {
      var k := DocumentKey(m);
      assert NatToDec(m) == k[|DocumentPrefix|..] == NatToDec(n);
      NatToDecInjective(m, n);
    }
  }

  // ---------------------------------------------------------------------------
  // flat key/value arrays

  /** The names at the even positions of a flat key/value array. */
  function PairNames(kv: seq<string>): set<string> {
    set j | 0 <= j < |kv| && j % 2 == 0 :: kv[j]
  }

  /** The object the loop `obj[kv[j]] = kv[j + 1]` (j = 0, 2, 4, ...)
      builds: each name maps to the value after it, later pairs overwriting
      earlier ones. */
  function PairsObject(kv: seq<string>): Hash
    requires |kv| % 2 == 0
    decreases |kv|
  {
    if kv == [] then map[]
    else PairsObject(kv[..|kv| - 2])[kv[|kv| - 2] := kv[|kv| - 1]]
  }

  /** The object holds exactly the names of the array. */
  lemma {:induction false} PairsObjectKeys(kv: seq<string>)
    requires |kv| % 2 == 0
    ensures PairsObject(kv).Keys == PairNames(kv)
    decreases |kv|
  {
    if kv != [] {
      var init := kv[..|kv| - 2];
      PairsObjectKeys(init);
      assert forall j :: 0 <= j < |init| ==> init[j] == kv[j];
      assert PairNames(kv) == PairNames(init) + {kv[|kv| - 2]};
    }
  }

  /** A name maps to the value of its last pair: the value after position
      `j` when no later pair repeats the name. */
  lemma {:induction false} PairsObjectLastWins(kv: seq<string>, j: nat)
    requires |kv| % 2 == 0 && j < |kv| && j % 2 == 0
    requires forall j' :: j < j' < |kv| && j' % 2 == 0 ==> kv[j'] != kv[j]
    ensures kv[j] in PairsObject(kv) && PairsObject(kv)[kv[j]] == kv[j + 1]
    decreases |kv|
  {
    if j < |kv| - 2 {
      var init := kv[..|kv| - 2];
      PairsObjectLastWins(init, j);
    }
  }

  /** The inner loop shared by the search-result and scan decoders. */
  method ObjectFromPairs(kv: seq<string>) returns (obj: Hash)
    requires |kv| % 2 == 0
    ensures obj == PairsObject(kv)
  {
    obj := map[];
    var j := 0;
    while j < |kv|
      invariant 0 <= j <= |kv| && j % 2 == 0
      invariant obj == PairsObject(kv[..j])
    {
      assert kv[..j + 2][..j] == kv[..j];
      obj := obj[kv[j] := kv[j + 1]];
      j := j + 2;
    }
    assert kv[..j] == kv;
  }

  // ---------------------------------------------------------------------------
  // transformSearchResults

  /** An element of a search reply: the leading count, a document key or a
      score, or a document's flat field array. */
  datatype Item = Count(n: int) | Bulk(s: string) | Fields(items: seq<string>)

  /** What `FT.SEARCH ... WITHSCORES RETURN ...` replies: a count, then one
      (key, score, fields) triple per document. The decoder reads the field
      array of every triple it starts, so a trailing incomplete triple would
      make it throw. */
  predicate IsSearchReply(input: seq<Item>) {
    && (|input| == 0 || (|input| - 1) % 3 == 0)
    && forall t :: 0 <= t < |input| / 3 ==>
         && input[3 * t + 1].Bulk?
         && input[3 * t + 2].Bulk?
         && input[3 * t + 3].Fields?
         && |input[3 * t + 3].items| % 2 == 0
  }

  /** The document decoded from triple `t`: its fields, then `score` set to
      the triple's middle element. */
  function SearchHit(input: seq<Item>, t: nat): Hash
    requires IsSearchReply(input) && t < |input| / 3
  {
    PairsObject(input[3 * t + 3].items)["score" := input[3 * t + 2].s]
  }

  /** `transformSearchResults`: one object per triple, in reply order. */
  method TransformSearchResults(input: seq<Item>) returns (output: seq<Hash>)
    requires IsSearchReply(input)
    ensures |output| == |input| / 3
    ensures forall t :: 0 <= t < |output| ==> output[t] == SearchHit(input, t)
  {
    output := [];
    var i := 1;
    ghost var m := if |input| == 0 then 0 else (|input| - 1) / 3;
    assert |input| / 3 == m;
    while i < |input|
      invariant i == 3 * |output| + 1 && |output| <= m
      invariant forall t :: 0 <= t < |output| ==> output[t] == SearchHit(input, t)
    {
      ghost var t := |output|;
      assert t < m;
      var values := input[i + 2].items;
      var obj := ObjectFromPairs(values);
      obj := obj["score" := input[i + 1].s];
      output := output + [obj];
      i := i + 3;
    }
  }

  /** Every decoded document holds exactly its field names plus `score`; its
      score is the triple's middle element even when the fields carry a
      `score` of their own; the document key is not copied. */
  lemma SearchHitShape(input: seq<Item>, t: nat)
    requires IsSearchReply(input) && t < |input| / 3
    ensures SearchHit(input, t).Keys == PairNames(input[3 * t + 3].items) + {"score"}
    ensures SearchHit(input, t)["score"] == input[3 * t + 2].s
  {
    PairsObjectKeys(input[3 * t + 3].items);
  }

  /** A field other than `score` holds the value of its last occurrence in
      the triple's field array. */
  lemma SearchHitField(input: seq<Item>, t: nat, j: nat)
    requires IsSearchReply(input) && t < |input| / 3
    requires var kv := input[3 * t + 3].items;
      && j < |kv| && j % 2 == 0 && kv[j] != "score"
      && forall j' :: j < j' < |kv| && j' % 2 == 0 ==> kv[j'] != kv[j]
    ensures var kv := input[3 * t + 3].items;
      kv[j] in SearchHit(input, t) && SearchHit(input, t)[kv[j]] == kv[j + 1]
  {
    PairsObjectLastWins(input[3 * t + 3].items, j);
  }

  // ---------------------------------------------------------------------------
  // twistWithNames, twistWithoutNames, scanDocuments

  /** The property name `fieldNames[index]`; past the end of the list it is
      `undefined`, which becomes the property name "undefined". */
  function FieldName(fieldNames: seq<string>, index: nat): string {
    if index < |fieldNames| then fieldNames[index] else "undefined"
  }

  /** The `reduce` over one row: position j is stored under the j-th field
      name, later positions overwriting earlier ones with the same name. */
  function RowObject(fieldNames: seq<string>, row: seq<string>): Hash
    decreases |row|
  {
    if row == [] then map[]
    else RowObject(fieldNames, row[..|row| - 1])[FieldName(fieldNames, |row| - 1) := row[|row| - 1]]
  }

  /** `twistWithNames`: one object per row, in row order. */
  function TwistWithNames(fieldNames: seq<string>, rows: seq<seq<string>>): (r: seq<Hash>)
    ensures |r| == |rows|
  {
    seq(|rows|, k requires 0 <= k < |rows| => RowObject(fieldNames, rows[k]))
  }

  /** A row object holds `row[j]` under the j-th name when no later position
      of the row has the same name. */
  lemma {:induction false} RowObjectLastWins(fieldNames: seq<string>, row: seq<string>, j: nat)
    requires j < |row|
    requires forall j' :: j < j' < |row| ==> FieldName(fieldNames, j') != FieldName(fieldNames, j)
    ensures FieldName(fieldNames, j) in RowObject(fieldNames, row)
    ensures RowObject(fieldNames, row)[FieldName(fieldNames, j)] == row[j]
    decreases |row|
  {
    if j < |row| - 1 {
      RowObjectLastWins(fieldNames, row[..|row| - 1], j);
    }
  }

  /** The object's property names are the names of the row's positions. */
  lemma {:induction false} RowObjectKeys(fieldNames: seq<string>, row: seq<string>)
    ensures RowObject(fieldNames, row).Keys == set j | 0 <= j < |row| :: FieldName(fieldNames, j)
    decreases |row|
  {
    if row != [] {
      RowObjectKeys(fieldNames, row[..|row| - 1]);
    }
  }

  /** With distinct field names, row k of the result holds `rows[k][j]`
      under `fieldNames[j]` for every position the names cover. */
  lemma TwistWithNamesPositional(fieldNames: seq<string>, rows: seq<seq<string>>, k: nat, j: nat)
    requires forall a, b :: 0 <= a < b < |fieldNames| ==> fieldNames[a] != fieldNames[b]
    requires k < |rows| && j < |rows[k]| && |rows[k]| <= |fieldNames|
    ensures fieldNames[j] in TwistWithNames(fieldNames, rows)[k]
    ensures TwistWithNames(fieldNames, rows)[k][fieldNames[j]] == rows[k][j]
  {
    RowObjectLastWins(fieldNames, rows[k], j);
  }

  /** `twistWithoutNames`: each row read as alternating names and values,
      built by the inner loop; rows keep their order. */
  method TwistWithoutNames(rows: seq<seq<string>>) returns (r: seq<Hash>)
    requires forall k :: 0 <= k < |rows| ==> |rows[k]| % 2 == 0
    ensures |r| == |rows|
    ensures forall k :: 0 <= k < |rows| ==> r[k] == PairsObject(rows[k])
  {
    r := [];
    var k := 0;
    while k < |rows|
      invariant 0 <= k <= |rows| && |r| == k
      invariant forall k' :: 0 <= k' < k ==> r[k'] == PairsObject(rows[k'])
    {
      var obj := ObjectFromPairs(rows[k]);
      r := r + [obj];
      k := k + 1;
    }
  }

  /** The argument list `scanDocuments` passes to its script: the requested
      field names, or `["*"]` when none are given. */
  function ScanArguments(fieldNames: seq<string>): (args: seq<string>)
    ensures args != []
    ensures fieldNames != [] ==> args == fieldNames
  {
    if |fieldNames| != 0 then fieldNames else ["*"]
  }

  /** `scanDocuments`: run the scan script (`eval`, given) with the prefix,
      test field and contained value as keys, then decode positionally when
      field names were given and as name/value pairs otherwise. */
  method ScanDocuments(documentPrefix: string, testField: string, containedValue: string,
                       fieldNames: seq<string>,
                       eval: (seq<string>, seq<string>) -> seq<seq<string>>)
    returns (docs: seq<Hash>)
    requires fieldNames == [] ==>
      forall row :: row in eval([documentPrefix, testField, containedValue], ["*"]) ==> |row| % 2 == 0
    ensures var rows := eval([documentPrefix, testField, containedValue], ScanArguments(fieldNames));
      && |docs| == |rows|
      && (fieldNames != [] ==> docs == TwistWithNames(fieldNames, rows))
      && (fieldNames == [] ==> forall k :: 0 <= k < |rows| ==> docs[k] == PairsObject(rows[k]))
  {
    var result := eval([documentPrefix, testField, containedValue], ScanArguments(fieldNames));
    if |fieldNames| != 0 {
      docs := TwistWithNames(fieldNames, result);
    } else {
      docs := TwistWithoutNames(result);
    }
  }

  // ---------------------------------------------------------------------------
  // getVersion

  /** A line the version parse keeps: non-empty and not a `#` heading. */
  predicate IsInfoLine(line: string) {
    line != [] && line[0] != '#'
  }

  /** The lines `filter` keeps, in order: every non-empty line that does not
      start with `#`, and no other. */
  function InfoLines(lines: seq<string>): (r: seq<string>)
    ensures forall k :: 0 <= k < |r| ==> r[k] != [] && r[k][0] != '#'
    ensures forall l :: l in r <==> l in lines && l != [] && l[0] != '#'
    ensures |r| <= |lines|
  {
    var r := Filter(lines, IsInfoLine);
    assert forall l :: l in r <==> l in lines && IsInfoLine(l) by {
      forall l
        ensures l in r <==> l in lines && IsInfoLine(l)
      {
        FilterMember(lines, l, IsInfoLine);
      }
    }
    r
  }

  /** `line.split(':')` read as an entry: the text before the first colon,
      and the text between the first and second colon if there is a colon. */
  function InfoEntryName(line: string): string {
    Split(line, ':')[0]
  }

  function InfoEntryValue(line: string): Option<string> {
    var parts := Split(line, ':');
    if |parts| >= 2 then Some(parts[1]) else None
  }

  /** `Object.fromEntries`: later entries with the same name win. A line
      without a colon gives its name the value `undefined` (None). */
  function InfoObject(lines: seq<string>): map<string, Option<string>>
    decreases |lines|
  {
    if lines == [] then map[]
    else
      var last := lines[|lines| - 1];
      InfoObject(lines[..|lines| - 1])[InfoEntryName(last) := InfoEntryValue(last)]
  }

  /** `getVersion` on the text of `INFO SERVER`: "Redis " and the
      `redis_version` entry, or "Redis undefined" when there is none. */
  function GetVersion(serverInfo: string): (r: string)
    ensures "Redis " <= r
    ensures (forall l :: l in Split(serverInfo, '\n') ==> InfoEntryName(l) != "redis_version") ==> r == "Redis undefined"
  {
    var lines := InfoLines(Split(serverInfo, '\n'));
    var parsed := InfoObject(lines);
    InfoObjectUnnamed(lines, "redis_version");
    "Redis " + (if "redis_version" in parsed && parsed["redis_version"].Some?
                then parsed["redis_version"].value else "undefined")
  }

  /** A name no line carries is absent from the parsed object. */
  lemma {:induction false} InfoObjectUnnamed(lines: seq<string>, name: string)
    ensures (forall l :: l in lines ==> InfoEntryName(l) != name) ==> name !in InfoObject(lines)
    decreases |lines|
  {
    if lines != [] {
      var init := lines[..|lines| - 1];
      assert forall l :: l in init ==> l in lines;
      InfoObjectUnnamed(init, name);
    }
  }

  /** When every line that carries `name` carries the same value, the parsed
      object maps `name` to that value, wherever those lines are. */
  lemma {:induction false} InfoObjectUniform(lines: seq<string>, name: string, v: Option<string>, k: nat)
    requires k < |lines| && InfoEntryName(lines[k]) == name
    requires forall l :: l in lines && InfoEntryName(l) == name ==> InfoEntryValue(l) == v
    ensures name in InfoObject(lines) && InfoObject(lines)[name] == v
    decreases |lines|
  {
    var n := |lines| - 1;
    if InfoEntryName(lines[n]) != name {
      var init := lines[..n];
      assert init[k] == lines[k];
      assert forall l :: l in init ==> l in lines;
      InfoObjectUniform(init, name, v, k);
    }
  }

  /** A line `name:value` or `name:value:more` names `name` and carries
      `value`. */
  lemma InfoEntryOfLine(name: string, value: string, rest: string)
    requires ':' !in name && ':' !in value
    requires rest == [] || rest[0] == ':'
    ensures InfoEntryName(name + ":" + value + rest) == name
    ensures InfoEntryValue(name + ":" + value + rest) == Some(value)
  {
    var line := name + ":" + value + rest;
    assert line == name + [':'] + (value + rest);
    SplitAroundSeparator(name, ':', value + rest);
    if rest == [] {
      assert value + rest == value;
      SplitNoSeparator(value, ':');
    } else {
      assert value + rest == value + [':'] + rest[1..];
      SplitAroundSeparator(value, ':', rest[1..]);
    }
  }

  /** The entry of a kept line survives unless a later kept line has the same
      name. */
  lemma {:induction false} InfoObjectLastWins(lines: seq<string>, k: nat)
    requires k < |lines|
    requires forall k' :: k < k' < |lines| ==> InfoEntryName(lines[k']) != InfoEntryName(lines[k])
    ensures InfoEntryName(lines[k]) in InfoObject(lines)
    ensures InfoObject(lines)[InfoEntryName(lines[k])] == InfoEntryValue(lines[k])
    decreases |lines|
  {
    if k < |lines| - 1 {
      InfoObjectLastWins(lines[..|lines| - 1], k);
    }
  }

  /** The version is read from the last kept `redis_version:` line: with
      `redis_version:7.2.0` there, the result is "Redis 7.2.0". */
  lemma GetVersionFromLine(serverInfo: string, k: nat, version: string, rest: string)
    requires var lines := InfoLines(Split(serverInfo, '\n'));
      && k < |lines|
      && lines[k] == "redis_version:" + version + rest
      && ':' !in version && (rest == [] || rest[0] == ':')
      && forall k' :: k < k' < |lines| ==> InfoEntryName(lines[k']) != "redis_version"
    ensures GetVersion(serverInfo) == "Redis " + version
  {
    VersionOfLines(InfoLines(Split(serverInfo, '\n')), k, version, rest);
  }

  /** Read from the raw reply: when every `redis_version` line of the text
      says the same version, that is the version reported; headings, blank
      lines and the other entries do not matter. */
  lemma GetVersionOfText(serverInfo: string, version: string, rest: string)
    requires "redis_version:" + version + rest in Split(serverInfo, '\n')
    requires ':' !in version && (rest == [] || rest[0] == ':')
    requires forall l :: l in Split(serverInfo, '\n') && InfoEntryName(l) == "redis_version" ==> InfoEntryValue(l) == Some(version)
    ensures GetVersion(serverInfo) == "Redis " + version
  {
    var line := "redis_version:" + version + rest;
    VersionEntry(line, version, rest);
    var lines := InfoLines(Split(serverInfo, '\n'));
    assert line[0] == 'r';
    assert line in lines;
    var k :| 0 <= k < |lines| && lines[k] == line;
    InfoObjectUniform(lines, "redis_version", Some(version), k);
  }

  /** The parsed object maps `redis_version` to the value on its last
      line. */
  lemma VersionOfLines(lines: seq<string>, k: nat, version: string, rest: string)
    requires k < |lines|
    requires lines[k] == "redis_version:" + version + rest
    requires ':' !in version && (rest == [] || rest[0] == ':')
    requires forall k' :: k < k' < |lines| ==> InfoEntryName(lines[k']) != "redis_version"
    ensures "redis_version" in InfoObject(lines) && InfoObject(lines)["redis_version"] == Some(version)
  {
    VersionEntry(lines[k], version, rest);
    InfoObjectLastWins(lines, k);
  }

  /** The entry of a `redis_version:` line. */
  lemma VersionEntry(line: string, version: string, rest: string)
    requires line == "redis_version:" + version + rest
    requires ':' !in version && (rest == [] || rest[0] == ':')
    ensures InfoEntryName(line) == "redis_version" && InfoEntryValue(line) == Some(version)
  {
    var name := "redis_version";
    assert line == name + ":" + version + rest;
    InfoEntryOfLine(name, version, rest);
  }

  // ---------------------------------------------------------------------------
  // findDocuments: the visit touch

  /** The key `findDocuments` touches for a decoded document: the one named
      by its `id` field (`undefined` if it has none). */
  function TouchKey(doc: Hash): string {
    DocumentKeyName(if "id" in doc then doc["id"] else "undefined")
  }

  /** The document records after touching the keys of `docs` in order, the
      k-th touch stamped with `now(k)`. */
  function TouchAll(h: map<string, Hash>, docs: seq<Hash>, now: nat -> string): map<string, Hash>
    decreases |docs|
  {
    if docs == [] then h
    else
      var before := TouchAll(h, docs[..|docs| - 1], now);
      var key := TouchKey(docs[|docs| - 1]);
      before[key := Touched(if key in before then before[key] else map[], now(|docs| - 1))]
  }

  /** How many of the documents name `key`. */
  function TouchCount(docs: seq<Hash>, key: string): nat
    decreases |docs|
  {
    if docs == [] then 0
    else TouchCount(docs[..|docs| - 1], key) + (if TouchKey(docs[|docs| - 1]) == key then 1 else 0)
  }

  /** Touching is confined to the returned documents: every other record is
      left exactly as it was. */
  lemma {:induction false} TouchAllOthersUnchanged(h: map<string, Hash>, docs: seq<Hash>, now: nat -> string, key: string)
    requires TouchCount(docs, key) == 0
    ensures key in TouchAll(h, docs, now) <==> key in h
    ensures key in h ==> TouchAll(h, docs, now)[key] == h[key]
    decreases |docs|
  {
    if docs != [] {
      TouchAllOthersUnchanged(h, docs[..|docs| - 1], now, key);
    }
  }

  /** A touched record keeps every field other than the three the touch
      writes. */
  lemma {:induction false} TouchAllKeepsFields(h: map<string, Hash>, docs: seq<Hash>, now: nat -> string,
                                               key: string, f: string)
    requires key in h && f in h[key]
    requires f != "visited" && f != "updatedAt" && f != "updateIdent"
    ensures key in TouchAll(h, docs, now)
    ensures f in TouchAll(h, docs, now)[key] && TouchAll(h, docs, now)[key][f] == h[key][f]
    decreases |docs|
  {
    if docs != [] {
      TouchAllKeepsFields(h, docs[..|docs| - 1], now, key, f);
    }
  }

  /** One step of the fold. */
  lemma TouchAllLast(h: map<string, Hash>, docs: seq<Hash>, now: nat -> string)
    requires docs != []
    ensures var before := TouchAll(h, docs[..|docs| - 1], now);
      var key := TouchKey(docs[|docs| - 1]);
      TouchAll(h, docs, now) == before[key := Touched(if key in before then before[key] else map[], now(|docs| - 1))]
  {
  }

  lemma TouchCountLast(docs: seq<Hash>, key: string)
    requires docs != []
    ensures TouchCount(docs, key) ==
      TouchCount(docs[..|docs| - 1], key) + (if TouchKey(docs[|docs| - 1]) == key then 1 else 0)
  {
  }

  /** One touch of `touched` moves the counters of `key` by one when the two
      keys are the same and leaves them otherwise. */
  lemma TouchStepCounts(before: map<string, Hash>, key: string, touched: string, timestamp: string,
                        visited: nat, updateIdent: nat)
    requires key in before && Counters(before[key], visited, updateIdent)
    ensures var after := before[touched := Touched(if touched in before then before[touched] else map[], timestamp)];
      var d := if touched == key then 1 else 0;
      key in after && Counters(after[key], visited + d, updateIdent + d)
  {
    if touched == key {
      TouchedCounts(before[key], timestamp, visited, updateIdent);
    }
  }

  /** Each returned document's record gains one visit per occurrence in the
      result, on both counters alike: counters at `visited` and `updateIdent`
      end at `visited + c` and `updateIdent + c`, `c` being the number of
      returned documents that name the record. */
  lemma {:induction false} TouchAllCounts(h: map<string, Hash>, docs: seq<Hash>, now: nat -> string,
                                          key: string, visited: nat, updateIdent: nat)
    requires key in h && Counters(h[key], visited, updateIdent)
    ensures var c := TouchCount(docs, key);
      key in TouchAll(h, docs, now) && Counters(TouchAll(h, docs, now)[key], visited + c, updateIdent + c)
    decreases |docs|
  {
    if docs == [] {
      assert TouchAll(h, docs, now) == h && TouchCount(docs, key) == 0;
    } else {
      var init := docs[..|docs| - 1];
      var c := TouchCount(init, key);
      TouchAllCounts(h, init, now, key, visited, updateIdent);
      TouchCountLast(docs, key);
      TouchAllStep(h, docs, now, key, visited + c, updateIdent + c);
      var d := if TouchKey(docs[|docs| - 1]) == key then 1 else 0;
      assert TouchCount(docs, key) == c + d;
    }
  }

  /** The last touch of the fold, on the counters. */
  lemma TouchAllStep(h: map<string, Hash>, docs: seq<Hash>, now: nat -> string,
                     key: string, visited: nat, updateIdent: nat)
    requires docs != []
    requires var before := TouchAll(h, docs[..|docs| - 1], now);
      key in before && Counters(before[key], visited, updateIdent)
    ensures var d := if TouchKey(docs[|docs| - 1]) == key then 1 else 0;
      key in TouchAll(h, docs, now) && Counters(TouchAll(h, docs, now)[key], visited + d, updateIdent + d)
  {
    var n := |docs| - 1;
    TouchAllLast(h, docs, now);
    TouchStepCounts(TouchAll(h, docs[..n], now), key, TouchKey(docs[n]), now(n), visited, updateIdent);
  }

  /** `findDocuments` after the search reply arrives: decode it, touch every
      returned document (one transaction each), and return the decoded list
      unchanged. */
  method FindDocuments(store: Store, reply: seq<Item>, now: nat -> string) returns (docs: seq<Hash>)
    requires IsSearchReply(reply)
    modifies store
    ensures |docs| == |reply| / 3
    ensures forall t :: 0 <= t < |docs| ==> docs[t] == SearchHit(reply, t)
    ensures store.hashes == TouchAll(old(store.hashes), docs, now)
    ensures store.sortedSets == old(store.sortedSets) && store.incrLog == old(store.incrLog)
  {
    docs := TransformSearchResults(reply);
    var k := 0;
    while k < |docs|
      invariant 0 <= k <= |docs|
      invariant store.hashes == TouchAll(old(store.hashes), docs[..k], now)
      invariant store.sortedSets == old(store.sortedSets) && store.incrLog == old(store.incrLog)
    {
      assert docs[..k + 1][..k] == docs[..k];
      store.VisitTouch(TouchKey(docs[k]), now(k));
      k := k + 1;
    }
    assert docs[..k] == docs;
  }
}
