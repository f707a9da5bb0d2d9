# Chinese full-text indexing over a key-value store: a Dafny model

MoreOnQueryingChinese keeps Chinese documents as hashes in a Redis-style
store under `fts:chinese:documents:<id>` and indexes them by token. Each
token has a postings sorted set; a document is posted there once per
occurrence of the token in its normalised text. The normalisation has two
steps:

- a fixed list of particles, punctuation and the `<br />` tag is deleted;
- the text is cut into tokens: single CJK ideographs (U+4E00–U+9FFF) and
  whole ASCII letter/digit runs.

This project models in Dafny:

- **The normaliser and the token predicates** (`StopWords`): `removeStopWord`,
  `spaceChineseChars`, `isNumeric` (with JavaScript's string-to-number grammar),
  `isEnglishOrSymbol` and `trimEdgeQuotes`.
- **The store helpers** (`RedisHelper`): document key naming; the decoders of
  search and scan replies (`transformSearchResults`, `twistWithNames`,
  `twistWithoutNames`, the `scanDocuments` dispatch); the `INFO SERVER` parse
  of `getVersion`; and the visit touch that `findDocuments` applies to every
  document it returns.
- **The store** (`Store`), as a class. It has two maps:
  - hashes, for HSET, HINCRBY and the MULTI/EXEC visit touch;
  - sorted sets, for ZADD and DEL.

  It also has a log of postings increments.
- **The SCAN cursor protocol** (`Scan`), driven by a given sequence of
  server replies.
- **The scripts**, each as imperative Dafny with the loop of the original:
  - the dictionary seeder `dongSeedRedis.js` (`DongSeed`);
  - the document seeder `zeedRedis.js` (`ZeedSeed`);
  - the dump parser `parseRedisHSet.js` (`ParseHSet`);
  - the scanning search `search1.js` (`Search1`);
  - the visit reset `reset.js` (`Reset`);
  - the word count `wc.js` (`WordCount`).

  Each loop is proved against a function of its inputs, and the
  properties of that function are proved as lemmas.

The shared module `Text` gives JavaScript's `split`, `join`, `trim`,
`replace` with a literal pattern, and `filter`, together with decimal
rendering and parsing of integers.

Two behaviours of the code are worth noting:

- The dictionary seeder's counter advances on malformed lines too. The
  document ids therefore have a gap at every skipped line; they do not run
  without gaps (`DongSeed.SkippedLineLeavesGap`).
- The retention filter of the dictionary seeder (`token && !isNumeric &&
  !isEnglishOrSymbol`) keeps exactly the single ideographs, so no Latin word
  or digit run is indexed by it (`StopWords.RetainedPiecesAreIdeographs`).
  The document seeder indexes them too (`ZeedSeed.DocTokens`).

Strings are sequences of Unicode scalar values. JavaScript strings are UTF-16,
but every character the patterns name lies in the Basic Multilingual Plane,
where the two agree.

## Model

| member | source | states |
|---|---|---|
| StopWords.RemoveStopWord | src/util/stopWords.js:11-16 | the global replace of the stop list never lengthens the text |
| StopWords.RemoveStopWordNoStopChars | src/util/stopWords.js:18-43 | no single-character entry of the stop list survives removal |
| StopWords.RemoveStopWordIsSubsequence | src/util/stopWords.js:13-15 | removal only deletes: the result is a subsequence of the input, order kept |
| StopWords.RemoveStopWordKeeps | src/util/stopWords.js:13-15 | every character outside the stop list and the `<br />` tag occurs as often in the result as in the input |
| StopWords.RemoveStopWordKeepsHead | src/util/stopWords.js:13-15 | a leading character that starts no list entry is kept in front of the rest's result |
| StopWords.RemoveStopWordDropsHead | src/util/stopWords.js:18-43 | a leading stop character is deleted |
| StopWords.RemoveStopWordDropsTag | src/util/stopWords.js:44 | a leading `<br />` tag is deleted whole |
| StopWords.RemoveStopWordNotIdempotent | src/util/stopWords.js:44 | `"<br 的/>"` becomes `"<br />"` after one pass and `""` after two: a deletion can form a new tag, so the function is not idempotent |
| StopWords.FirstPassJoinsTag | src/util/stopWords.js:13-15 | deleting the stop character inside `<br 的/>` leaves exactly the tag |
| StopWords.SecondPassDropsTag | src/util/stopWords.js:44 | the tag alone is removed to the empty string |
| StopWords.Tokens | src/util/stopWords.js:65-66 | every match of `[一-鿿]` or `[a-zA-Z0-9]+` is a single ideograph or a non-empty ASCII letter/digit run |
| StopWords.SpaceChineseChars | src/util/stopWords.js:63-68 | the joined text has no leading, trailing or doubled space; it is empty exactly when nothing matches; otherwise splitting it at spaces gives back the matches |
| StopWords.TokenJoinFacts | src/util/stopWords.js:67 | a single-space join of tokens has no edge or double space, and a split undoes it |
| StopWords.WordChars | src/util/stopWords.js:65 | the characters the pattern can match, in input order |
| StopWords.TokensCover | src/util/stopWords.js:63-68 | the tokens, concatenated, are exactly the ideographs, letters and digits of the input, in order: each lands in one token and nothing else does |
| StopWords.TokensConsCjk | src/util/stopWords.js:65 | a leading ideograph is a token of its own |
| StopWords.TokensConsSeparator | src/util/stopWords.js:65 | a leading character the pattern does not match is dropped |
| StopWords.TokensRun | src/util/stopWords.js:65 | a maximal leading letter/digit run is one token |
| StopWords.TokensAppend | src/util/stopWords.js:65-66 | matching is local: cutting the input anywhere but inside a letter/digit run cuts the tokens at the same place |
| StopWords.AlnumRunIsOneToken | src/util/stopWords.js:65 | a letter/digit run is a single token |
| StopWords.IsNumeric | src/util/stopWords.js:80-83 | a string `isNumeric` accepts is, once trimmed, plain ASCII |
| StopWords.NumericLiteralIsAscii | src/util/stopWords.js:82 | every string `Number()` accepts as a numeric literal is plain ASCII |
| StopWords.BlankIsNotNumeric | src/util/stopWords.js:81-82 | `isNumeric` is false for the empty string and for white space |
| StopWords.DigitsAreNumeric | src/util/stopWords.js:80-83 | `isNumeric` is true for every non-empty ASCII digit run |
| StopWords.CjkIsNotNumeric | src/util/stopWords.js:80-83 | `isNumeric` is false for any string holding an ideograph |
| StopWords.EnglishOrSymbolExamples | src/util/stopWords.js:97-103 | `"hello!"` is English or symbol, `"測試"` is not, and a digit run is not |
| StopWords.IsEnglishOrSymbol | src/util/stopWords.js:97-103 | a token that is English or symbol holds at least one ASCII character |
| StopWords.NonAsciiIsNotSymbol | src/util/stopWords.js:102 | the character class of `isEnglishOrSymbol` holds only ASCII characters |
| StopWords.IsRetained | src/util/stopWords.js:80-103 | a kept token is not a digit run and holds no ASCII letter |
| StopWords.RetainedTokenIsIdeograph | src/util/stopWords.js:80-103 | on a token, `token && !isNumeric && !isEnglishOrSymbol` holds if and only if it is a single ideograph |
| StopWords.IdeographIsRetained | src/util/stopWords.js:80-103 | a single ideograph is neither numeric nor English or symbol |
| StopWords.Ideographs | src/dongSeedRedis.js:54-64 | each ideograph of the text as a one-character token, in order |
| StopWords.NonEmptyPiecesAreTokens | src/zeedRedis.js:30-32 | the non-empty pieces of `spaceChineseChars(x).split(' ')` are exactly the tokens of `x`; the only empty piece arises when there are no tokens |
| StopWords.RetainedTokensAreIdeographs | src/dongSeedRedis.js:56-58 | the retention filter over the token list keeps the ideographs and nothing else, in order |
| StopWords.RetainedPiecesAreIdeographs | src/dongSeedRedis.js:54-64 | the pieces of `spaceChineseChars(x).split(' ')` that pass the filter are exactly the ideographs of `x`, in order |
| StopWords.TrimEdgeQuotes | src/util/stopWords.js:118-120 | the result is the input or the input without its first and last character, and the latter only when both are `"`; a string holding a line terminator is unchanged |
| StopWords.TrimEdgeQuotesOfQuoted | src/util/stopWords.js:118-120 | quoting a single-line string and trimming gives it back, inner quotes untouched |
| StopWords.TrimEdgeQuotesUnquoted | src/util/stopWords.js:118-120 | a string that does not both begin and end with `"` is unchanged |
| Text.Split | src/dongSeedRedis.js:26 | JavaScript `split` on one character: at least one piece, none holding the separator |
| Text.SplitCount | src/util/redisHelper.js:214 | one piece more than there are separators |
| Text.SplitJoin | src/util/stopWords.js:67 | splitting a join recovers the parts when none holds the separator |
| Text.JoinSplit | src/dongSeedRedis.js:39-40 | joining the pieces of a split gives back the string |
| Text.JoinSpacing | src/util/stopWords.js:67 | a join of non-empty, separator-free parts has no edge or doubled separator |
| Text.Filter | src/parseRedisHSet.js:6 | JavaScript `filter`: the accepted elements, in order, never more than the input |
| Text.FilterMember | src/parseRedisHSet.js:6 | an element is kept exactly when it is present and accepted |
| Text.ContainsAt | src/search1.js:20 | `includes` holds exactly when some position starts with the pattern |
| Text.RemoveFirst | src/dongSeedRedis.js:41 | `replace` with a literal pattern cuts out its leftmost occurrence and changes nothing else; without an occurrence the text is unchanged |
| Text.Trim | src/dongSeedRedis.js:26 | `trim` removes white space at both ends only |
| Text.TrimEmpty | src/util/stopWords.js:82 | `trim` gives `''` exactly when every character is white space |
| Text.TrimKeeps | src/dongSeedRedis.js:26 | `trim` keeps every character that is not white space |
| Text.NatToDec | src/dongSeedRedis.js:45 | integers are written in decimal, no sign and no leading zero |
| Text.ParseNatToDec | src/util/redisHelper.js:133 | reading a written integer gives it back |
| Text.NatToDecParse | src/util/redisHelper.js:133 | writing a canonical numeral that was read gives it back |
| Text.NatToDecInjective | src/util/redisHelper.js:29-31 | different integers are written differently |
| RedisHelper.DocumentKeyName | src/util/redisHelper.js:29-31 | the key is the document namespace followed by the id as written |
| RedisHelper.DocumentKeyNamePrefix | src/util/redisHelper.js:90 | with an empty id the key is the bare prefix the index is declared on, and every document key extends it |
| RedisHelper.DocumentKeyInjective | src/util/redisHelper.js:29-31 | two numeric ids give the same key if and only if they are equal |
| RedisHelper.PairsObjectKeys | src/util/redisHelper.js:307-309 | the object built from a name/value array holds exactly its names |
| RedisHelper.PairsObjectLastWins | src/util/redisHelper.js:307-309 | a name holds the value of its last pair |
| RedisHelper.ObjectFromPairs | src/util/redisHelper.js:307-309 | the inner loop builds the name/value object of the array |
| RedisHelper.TransformSearchResults | src/util/redisHelper.js:301-317 | one decoded hit per (key, score, fields) triple after the count, in reply order: (n−1)/3 of them |
| RedisHelper.SearchHitShape | src/util/redisHelper.js:305-310 | a hit holds exactly its field names plus `score`, and `score` is the triple's middle element even if the fields carry one; the document key is not copied |
| RedisHelper.SearchHitField | src/util/redisHelper.js:307-309 | a field other than `score` holds the value of its last occurrence |
| RedisHelper.TwistWithNames | src/util/redisHelper.js:380-388 | one object per row, row count kept |
| RedisHelper.RowObjectLastWins | src/util/redisHelper.js:382-386 | a row's object holds `row[j]` under the j-th name unless a later position has the same name |
| RedisHelper.RowObjectKeys | src/util/redisHelper.js:382-386 | a row's object has exactly the names of its positions |
| RedisHelper.TwistWithNamesPositional | src/util/redisHelper.js:380-388 | with distinct names, row k's object holds `rows[k][j]` under `fieldNames[j]` |
| RedisHelper.TwistWithoutNames | src/util/redisHelper.js:441-451 | each row becomes its name/value object, later duplicates winning; row order kept |
| RedisHelper.ScanArguments | src/util/redisHelper.js:345 | the script arguments are the field names, or `["*"]` when there are none |
| RedisHelper.ScanDocuments | src/util/redisHelper.js:342-351 | with field names the rows are decoded positionally; without them, as name/value rows; row count kept |
| RedisHelper.InfoLines | src/util/redisHelper.js:215 | a line is kept if and only if it is non-empty and does not start with `#` |
| RedisHelper.InfoEntryOfLine | src/util/redisHelper.js:216 | a line `name:value[:more]` gives the entry `name` → `value` |
| RedisHelper.InfoObjectLastWins | src/util/redisHelper.js:212-217 | a kept line's entry survives unless a later kept line has the same name |
| RedisHelper.VersionOfLines | src/util/redisHelper.js:212-217 | the parsed object maps `redis_version` to the value of its last line |
| RedisHelper.InfoObjectUnnamed | src/util/redisHelper.js:212-217 | a name carried by no kept line is absent from the parsed object |
| RedisHelper.InfoObjectUniform | src/util/redisHelper.js:212-217 | a name whose lines all carry one value maps to that value |
| RedisHelper.GetVersion | src/util/redisHelper.js:209-220 | the result always starts with `Redis `, and is `Redis undefined` when no line names `redis_version` |
| RedisHelper.GetVersionOfText | src/util/redisHelper.js:209-220 | a server text whose `redis_version` lines all carry one version gives `Redis ` followed by that version |
| RedisHelper.GetVersionFromLine | src/util/redisHelper.js:209-220 | with `redis_version:7.2.0` as the last such kept line, the result is `Redis 7.2.0` |
| RedisHelper.TouchAllOthersUnchanged | src/util/redisHelper.js:125-138 | a document not in the returned list is left exactly as it was |
| RedisHelper.TouchAllKeepsFields | src/util/redisHelper.js:132-136 | a touched record keeps every field other than `visited`, `updatedAt` and `updateIdent` |
| RedisHelper.TouchStepCounts | src/util/redisHelper.js:132-136 | one transaction moves both counters of its own document by one and leaves every other document's counters alone |
| RedisHelper.TouchAllCounts | src/util/redisHelper.js:125-139 | each document's `visited` and `updateIdent` grow by its number of occurrences in the returned list |
| RedisHelper.TouchAllStep | src/util/redisHelper.js:131-137 | the last transaction of the fold moves the counters of its own document only |
| RedisHelper.FindDocuments | src/util/redisHelper.js:121-141 | returns the decoded reply unchanged, touches every returned document, writes nothing else |
| Store.Postings | src/dongSeedRedis.js:59-62 | one increment request per token, in order, all against the document |
| Store.PostingsSnoc | src/zeedRedis.js:41-44 | one more token adds its request at the end |
| Store.HSetOf | src/dongSeedRedis.js:44-52 | HSET writes the given fields, creates a missing hash, keeps the other fields and hashes |
| Store.Incremented | src/util/redisHelper.js:133 | HINCRBY by one: a missing field becomes 1, a decimal field its successor, every other field is kept |
| Store.ZAddOf | src/wc.js:20-25 | ZADD sets the member's score, creating the set if needed; other members and sets are kept |
| Store.Store.HSet | src/dongSeedRedis.js:44 | the store's hashes after HSET; nothing else changes |
| Store.Store.ZAddIncr | src/dongSeedRedis.js:59-62 | one increment request is logged; nothing else changes |
| Store.Store.PostEach | src/zeedRedis.js:31-46 | one request per accepted piece, in order; the hashes and sets are untouched |
| Store.Store.ZAdd | src/wc.js:20-25 | the sets after ZADD; nothing else changes |
| Store.Store.Del | src/reset.js:37 | the key is gone from both maps; nothing else changes |
| Store.Store.VisitTouch | src/util/redisHelper.js:132-136 | the transaction updates one hash as a unit, creating it if missing |
| Store.Touched | src/util/redisHelper.js:133-135 | the touch adds the three touched fields, sets `updatedAt` to the timestamp and keeps every other field |
| Store.TouchedCounts | src/util/redisHelper.js:133-135 | a touch adds exactly one to both counters |
| Store.TouchedFresh | src/util/redisHelper.js:133-135 | a record without counters has both at 1 after its first touch |
| Scan.Rounds | src/search1.js:9-25 | the do-while loop makes one call per reply up to and including the first with cursor `"0"` |
| Scan.KeysOfSnoc | src/search1.js:16-24 | one more reply appends its batch to the visited keys |
| Scan.CursorsSent | src/search1.js:5-13 | one cursor per call |
| Scan.CursorsSentNext | src/search1.js:10-15 | the first call sends `"0"`, each later call the previous reply's cursor |
| Scan.CursorsSentNeverRestart | src/search1.js:5-25 | within one iteration only the first call sends `"0"` |
| Scan.KeysOfBatch | src/reset.js:17-24 | every key of every consumed batch is visited |
| Scan.KeysOfFrom | src/reset.js:17-24 | only keys of consumed batches are visited |
| Search1.MatchesOf | src/search1.js:18-22 | every reported document is a hit: a visited key whose `textChi` is present, non-empty and contains the pattern, reported with that text |
| Search1.MatchesOfExactly | src/search1.js:18-22 | a document is reported if and only if it is visited and a hit |
| Search1.EmptyPatternHitsAll | src/search1.js:20 | the empty pattern matches every document with a non-empty text |
| Search1.MatchesOfAppend | src/search1.js:9-25 | the hits of consecutive batches are the hits of each, in batch order |
| Search1.VisitBatch | src/search1.js:18-24 | one batch appends its hits and counts all its keys |
| Search1.ScanTextChi | src/search1.js:3-29 | returns the hits in scan order and the number of visited keys; the cursor protocol is followed; nothing is written |
| Reset.ResetAllAt | src/reset.js:17-24 | a visited key ends with `visited` 0, `updatedAt` `""`, `updateIdent` 0 over its other fields; any other key is unchanged |
| Reset.ResetAllIdempotent | src/reset.js:17-24 | resetting twice is resetting once |
| Reset.ResetAllAppend | src/reset.js:9-25 | resetting consecutive batches is resetting their concatenation |
| Reset.ResetThenTouch | src/reset.js:18-22 | after a reset, both counters of a document equal the number of times it has been returned by a search since |
| Reset.ResetBatch | src/reset.js:17-24 | one batch is reset; the sets and the log are untouched |
| Reset.ResetDocuments | src/reset.js:3-29 | every visited key is reset and counted; the cursor protocol is followed |
| Reset.ResetScript | src/reset.js:36-37 | the reset, followed by the deletion of `fts:chinese:visited` |
| WordCount.PrefixSplit | src/wc.js:23 | a postings key splits into its three namespace pieces and then the pieces of the token |
| WordCount.MemberOf | src/wc.js:23 | `key.split(':')[3]` holds no colon |
| WordCount.MemberOfToken | src/wc.js:23 | the member is the token up to its first colon, so the whole token when it has none |
| WordCount.CountAllAt | src/wc.js:19-25 | the word count holds the member of every visited key, scored with the sum of the last key that gives it |
| WordCount.CountAllOthers | src/wc.js:10-28 | no set but `fts:chinese:wc` is written, and a member no visited key gives keeps its old score |
| WordCount.CountAllAppend | src/wc.js:10-28 | counting consecutive batches is counting their concatenation |
| WordCount.CountAllSnoc | src/wc.js:20-25 | one more key adds its member with its sum |
| WordCount.CountBatch | src/wc.js:19-25 | one batch adds its entries; the hashes and the log are untouched |
| WordCount.Wc | src/wc.js:4-33 | every visited key adds its entry, the count of visited keys is returned, and the cursor protocol is followed |
| DongSeed.StripQuotes | src/dongSeedRedis.js:40 | at most one quote is removed from each end and nothing else: the result is a contiguous slice of the input |
| DongSeed.StripQuotesLeading | src/dongSeedRedis.js:40 | a quote only at the front is removed |
| DongSeed.StripQuotesTrailing | src/dongSeedRedis.js:40 | a quote only at the end is removed |
| DongSeed.StripQuotesOfQuoted | src/dongSeedRedis.js:40 | a quoted definition comes out unquoted, inner quotes kept |
| DongSeed.StripQuotesPlain | src/dongSeedRedis.js:40 | text without edge quotes is unchanged, and a lone quote disappears |
| DongSeed.CommandParts | src/dongSeedRedis.js:26 | a command line splits into `HSET`, the key, the field and the pieces of the definition |
| DongSeed.ParseLine | src/dongSeedRedis.js:26-41 | a line is read if and only if it has at least four space-separated words and the first is `HSET`; a read line starts with `HSET ` |
| DongSeed.ParseLineRoundTrip | src/dongSeedRedis.js:26-41 | a dump line written from an entry name and a quoted definition is accepted and reads back as that name and definition |
| DongSeed.PostingTokens | src/dongSeedRedis.js:54-64 | the tokens posted for a text are its ideographs after stop-character removal, in order |
| DongSeed.ParseLines | src/dongSeedRedis.js:25-26 | one read per line, in order |
| DongSeed.SeedSnoc | src/dongSeedRedis.js:25-77 | one more line extends the records and the requests by that line's |
| DongSeed.SeedHashesAccepted | src/dongSeedRedis.js:44-52 | the record of accepted line k is at document k + 1, with all its fields, and no later line overwrites it |
| DongSeed.SeedHashesUntouched | src/dongSeedRedis.js:44 | a key that numbers no accepted line is left as it was |
| DongSeed.SkippedLineLeavesGap | src/dongSeedRedis.js:68-73 | a skipped line leaves its document number unused |
| DongSeed.SeedEntry | src/dongSeedRedis.js:44-64 | an accepted line writes its record and one request per posted token |
| DongSeed.SeedLine | src/dongSeedRedis.js:38-70 | a line is handled as accepted or skipped |
| DongSeed.SeedLines | src/dongSeedRedis.js:25-77 | the whole loop: records and requests of every line, the counter at the number of lines |
| ZeedSeed.DocTokens | src/zeedRedis.js:30-32 | the tokens posted for a document are the tokens of its stop-character-free text, covering its ideographs, letters and digits in order |
| ZeedSeed.ZeedPostsIdeographs | src/zeedRedis.js:30-46 | the retained part of what this seeder posts is exactly what the dictionary seeder posts for the same text |
| ZeedSeed.SeedSnoc | src/zeedRedis.js:17-47 | one more document extends the records and the requests by its own |
| ZeedSeed.SeedHashesAt | src/zeedRedis.js:21-28 | document k's record is at key k + 1, so the ids run from 1 without a gap, and no later document overwrites it |
| ZeedSeed.SeedHashesUntouched | src/zeedRedis.js:21 | a key that numbers no document is left as it was |
| ZeedSeed.SeedDocument | src/zeedRedis.js:18-46 | one document writes its record and one request per non-empty token |
| ZeedSeed.SeedDocuments | src/zeedRedis.js:17-47 | the whole loop: records and requests of every document |
| ParseHSet.LinePieces | src/parseRedisHSet.js:6 | `split(/\r?\n/)` gives one piece per line feed plus one |
| ParseHSet.Lines | src/parseRedisHSet.js:6 | the kept lines are non-empty and hold no line feed |
| ParseHSet.LinesRoundTrip | src/parseRedisHSet.js:6 | lines joined with any mix of `\n` and `\r\n` are cut back into those lines |
| ParseHSet.SingleLine | src/parseRedisHSet.js:6 | a lone `\r` does not end a line |
| ParseHSet.FirstMatch | src/parseRedisHSet.js:12 | the match is taken at the leftmost position where the pattern matches |
| ParseHSet.LineMatch | src/parseRedisHSet.js:12 | every capture is well formed: a quote-free key, a word-character field, a value with no quote after its first character |
| ParseHSet.MatchTailShape | src/parseRedisHSet.js:12 | the field is a non-empty word run and the lazy value ends at the first quote after its first character |
| ParseHSet.CommandMatchesHere | src/parseRedisHSet.js:12 | a command written with any white-space gaps is matched at its head, whatever follows |
| ParseHSet.MatchHere | src/parseRedisHSet.js:12 | a match at a position begins with `HSET` and its captures are well formed |
| ParseHSet.MatchNeedsH | src/parseRedisHSet.js:12 | no match starts at a character other than `H` |
| ParseHSet.LineMatchCommand | src/parseRedisHSet.js:12 | with no `H` before the command, the command is the line's match and text after it is ignored |
| ParseHSet.Record | src/parseRedisHSet.js:14-19 | the record holds `key` and the field; the field holds the value, and a field named `key` overwrites the key |
| ParseHSet.RecordsOfCommandLines | src/parseRedisHSet.js:10-20 | one record per matching line, in line order; other lines are skipped |
| ParseHSet.ParseLine | src/parseRedisHSet.js:12-19 | the loop body gives the record of the line's match, if any |
| ParseHSet.CollectRecords | src/parseRedisHSet.js:10-20 | the loop collects the records of the lines |
| ParseHSet.ParseHSetFile | src/parseRedisHSet.js:4-23 | the result is the records of the non-empty lines |
| ParseHSet.PlainLineMatches | src/parseRedisHSet.js:12 | a command written with single spaces is matched as itself |
| ParseHSet.RecordsOfMatchingLines | src/parseRedisHSet.js:10-20 | lines that each hold their command give one record per line |
| ParseHSet.DumpRoundTrip | src/parseRedisHSet.js:4-23 | a dump written one command per line, with any `\n`/`\r\n` endings, parses back into the commands' records, in order |

## Left out

- Network and process plumbing: `connect`, `close` and `process.exit`. File and stream reading is out too: the dump text, its lines and the document list are inputs.
- Console output: progress lines, warnings, and the printing loop of `parseRedisHSet.js` (lines 28-38).
- Clocks: `new Date().toISOString()` becomes a `now` parameter, one timestamp per line or document.
- `getTokenKeyName`, `zAddIncr` and `zSumScore` are not part of this model:
  - a postings increment is logged as a (token, document key) request, since the token key name cannot be stated;
  - `zSumScore` is a function parameter of the word count.
- The Lua script behind `scanDocuments` is not part of this model; its reply is a function parameter.
- The server's side of the search index: `getIndexName`, `checkIndex`, `createIndex`, `countDocuments`, `getDocuments`, `getDocument`, `getStatus`, and the `FT.SEARCH` call itself, including its ranking. `findDocuments` starts from the reply.
- The `INFO SERVER` call of `getVersion`: the reply text is an input. `getVersion` itself is specified through lemmas on `InfoObject`; an absent `redis_version` renders as `Redis undefined`.
- Which keys a SCAN pattern returns. The scan is a given sequence of replies that eventually carries cursor `"0"`.
- Concurrency: `Promise.all` fan-out and the un-awaited `hSet` of `reset.js` become sequential updates in program order.
- `try`/`catch` in `dongSeedRedis.js`: nothing in the modelled body throws.
- RedisHelper.TransformSearchResults: a reply whose length after the count is not a multiple of three throws in the source; it is excluded by precondition. A hit whose field array has odd length, whose last name the source maps to `undefined`, is excluded by the same precondition.
- RedisHelper.TwistWithoutNames: a row of odd length, whose last name would map to `undefined`, is excluded by precondition. `ScanDocuments` carries the same precondition when no field names are given.
- WordCount.Wc: every scanned key is required to lie in the `fts:chinese:tokens:` namespace, as the SCAN pattern guarantees. A key outside it would give the member `undefined`.
- RedisHelper.PairsObjectKeys: like RedisHelper.RowObjectKeys, RedisHelper.SearchHitShape, RedisHelper.PairsObject and RedisHelper.RowObject, it treats every name as an ordinary key. In JavaScript the assignment `obj[name] = value` with the name `__proto__` sets the prototype and creates no property; that case is not modelled.
- StopWords.IsNumeric: the `typeof token === 'string'` test is not modelled, since every argument is a string here.
- Store.Incremented: only non-negative integers written without sign or leading zero are read as numbers. A negative value is treated like a non-integer, whose increment fails and leaves the field as it was. Redis keeps counters in signed 64 bits: it rejects a value above 9223372036854775807 and refuses to increment 9223372036854775807, leaving the field unchanged; the model reads any length of digits and increments without bound.
- UTF-16: surrogate pairs are not modelled. Characters outside the Basic Multilingual Plane count as one character here, not two.
