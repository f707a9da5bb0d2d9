/**
 * src/parseRedisHSet.js: read a dump of `HSET "KEY" FIELD "VALUE"` commands
 * and turn every line that holds one into a record `{ key, [field]: value }`.
 * The file contents are a parameter; reading the file is not modelled.
 */
module ParseHSet {
  import opened Text
  import opened Store
  import opened StopWords

  // ---------------------------------------------------------------------------
  // lines

  /** A piece of the `\n` split that is followed by a line feed loses one
      trailing `\r`: that `\r` belonged to a `\r\n` separator. */
  function DropCR(piece: string): (r: string)
    ensures piece != [] && piece[|piece| - 1] == '\r' ==> piece == r + "\r"
    ensures !(piece != [] && piece[|piece| - 1] == '\r') ==> r == piece
  {
    if piece != [] && piece[|piece| - 1] == '\r' then piece[..|piece| - 1] else piece
  }

  /** `text.split(/\r?\n/)`: the text cut at every `\n` and every `\r\n`. */
  function LinePieces(text: string): (ps: seq<string>)
    ensures |ps| == |Split(text, '\n')|
  {
    var parts := Split(text, '\n');
    seq(|parts|, i requires 0 <= i < |parts| => if i < |parts| - 1 then DropCR(parts[i]) else parts[i])
  }

  /** `text.split(/\r?\n/).filter(Boolean)`: the non-empty lines. */
  function Lines(text: string): (ls: seq<string>)
    ensures forall k :: 0 <= k < |ls| ==> ls[k] != [] && '\n' !in ls[k]
  {
    var ps := LinePieces(text);
    assert forall k :: 0 <= k < |ps| ==> '\n' !in ps[k];
    Filter(ps, IsNonEmpty)
  }

  /** The text of `lines` with the line ending `\r\n` after line i where
      `crlf[i]` holds and `\n` elsewhere. */
  function Terminated(lines: seq<string>, crlf: seq<bool>): (ts: seq<string>)
    requires |crlf| == |lines|
    ensures |ts| == |lines|
  {
    seq(|lines|, i requires 0 <= i < |lines| =>
      if i < |lines| - 1 && crlf[i] then lines[i] + "\r" else lines[i])
  }

  /** Cutting lines joined with any mix of `\n` and `\r\n` gives the lines
      back, as long as none is empty, holds a line feed, or ends with `\r`. */
  lemma LinesRoundTrip(lines: seq<string>, crlf: seq<bool>)
    requires |crlf| == |lines|
    requires forall k :: 0 <= k < |lines| ==> lines[k] != [] && '\n' !in lines[k] && lines[k][|lines[k]| - 1] != '\r'
    ensures Lines(Join(Terminated(lines, crlf), '\n')) == lines
  {
    if lines == [] {
      assert Split([], '\n') == [[]];
    } else {
      TerminatedPieces(lines, crlf);
      FilterAll(lines, IsNonEmpty);
    }
  }

  /** The pieces of the joined text are the lines, each with its `\r`
      removed. */
  lemma TerminatedPieces(lines: seq<string>, crlf: seq<bool>)
    requires |crlf| == |lines| && lines != []
    requires forall k :: 0 <= k < |lines| ==> '\n' !in lines[k] && lines[k] != [] && lines[k][|lines[k]| - 1] != '\r'
    ensures LinePieces(Join(Terminated(lines, crlf), '\n')) == lines
  {
    var ts := Terminated(lines, crlf);
    forall k | 0 <= k < |ts|
      ensures '\n' !in ts[k]
    {
      if k < |lines| - 1 && crlf[k] {
        assert ts[k] == lines[k] + "\r";
      }
    }
    SplitJoin(ts, '\n');
    var ps := LinePieces(Join(ts, '\n'));
    forall k | 0 <= k < |ps|
      ensures ps[k] == lines[k]
    {
      assert ps[k] == if k < |ts| - 1 then DropCR(ts[k]) else ts[k];
      if k < |lines| - 1 && crlf[k] {
        assert ts[k] == lines[k] + "\r";
      } else {
        assert ts[k] == lines[k];
      }
    }
  }

  /** A text without a line feed is one line: a `\r` on its own does not
      end a line. */
  lemma SingleLine(text: string)
    requires text != [] && '\n' !in text
    ensures Lines(text) == [text]
  {
    SplitNoSeparator(text, '\n');
    FilterAll([text], IsNonEmpty);
  }

  // ---------------------------------------------------------------------------
  // the HSET pattern

  /** `\w`. */
  predicate IsWordChar(c: char) {
    ('A' <= c <= 'Z') || ('a' <= c <= 'z') || ('0' <= c <= '9') || c == '_'
  }

  predicate NotQuote(c: char) {
    c != '"'
  }

  predicate AllSpace(w: string) {
    forall i :: 0 <= i < |w| ==> IsJsSpace(w[i])
  }

  /** The three capture groups of the pattern. */
  datatype HSetCommand = HSetCommand(key: string, field: string, value: string)

  /** What the pattern can capture: a non-empty key without quotes, a
      non-empty field of word characters, and a non-empty value whose
      characters after the first are not quotes. */
  predicate WellFormed(c: HSetCommand) {
    && c.key != [] && (forall i :: 0 <= i < |c.key| ==> NotQuote(c.key[i]))
    && c.field != [] && (forall i :: 0 <= i < |c.field| ==> IsWordChar(c.field[i]))
    && c.value != [] && (forall i :: 1 <= i < |c.value| ==> NotQuote(c.value[i]))
  }

  /** The pattern from the field on: the field, the white space after it,
      and the quoted value. */
  function MatchTail(s4: string): Option<(string, string)> {
    var f := Span(s4, IsWordChar);
    if f == 0 then None
    else
      var s5 := s4[f..];
      var g3 := Span(s5, IsJsSpace);
      if g3 == 0 || g3 == |s5| || s5[g3] != '"' then None
      else
        var s6 := s5[g3 + 1..];
        if s6 == [] then None
        else
          var v := Span(s6[1..], NotQuote);
          if v == |s6| - 1 then None
          else Some((s4[..f], s6[..v + 1]))
  }

  /** From the key on: the key, its closing quote, white space, and the
      rest of the pattern. */
  function MatchKey(s2: string): (r: Option<HSetCommand>)
    ensures r.Some? ==> WellFormed(r.value)
  {
    var k := Span(s2, NotQuote);
    if k == 0 || k == |s2| then None
    else
      var s3 := s2[k + 1..];
      var g2 := Span(s3, IsJsSpace);
      if g2 == 0 then None
      else
        var rest := MatchTail(s3[g2..]);
        MatchTailShape(s3[g2..]);
        if rest.None? then None
        else Some(HSetCommand(s2[..k], rest.value.0, rest.value.1))
  }

  /** After `HSET`: white space, the opening quote of the key, and the rest
      of the pattern. */
  function MatchAfterVerb(s1: string): Option<HSetCommand> {
    var g1 := Span(s1, IsJsSpace);
    if g1 == 0 || g1 == |s1| || s1[g1] != '"' then None
    else MatchKey(s1[g1 + 1..])
  }

  /** The pattern tried at the head of `s`. Every repetition in it is
      followed by a character its own class excludes, so only the longest
      run can succeed and no other way of matching needs to be tried; the
      lazy value ends at the first quote after its first character. */
  function MatchHere(s: string): (r: Option<HSetCommand>)
    ensures r.Some? ==> "HSET" <= s && WellFormed(r.value)
  {
    if |s| < 4 || s[..4] != "HSET" then None
    else MatchAfterVerb(s[4..])
  }

  /** The field is a run of word characters and the value holds no quote
      after its first character. */
  lemma MatchTailShape(s4: string)
    ensures var r := MatchTail(s4);
      r.Some? ==> r.value.0 != [] && forall i :: 0 <= i < |r.value.0| ==> IsWordChar(r.value.0[i])
    ensures var r := MatchTail(s4);
      r.Some? ==> r.value.1 != [] && forall i :: 1 <= i < |r.value.1| ==> NotQuote(r.value.1[i])
  {
  }

  /** Whether the pattern matches at position `j` of `line`. */
  predicate MatchesAt(line: string, j: nat)
    requires j <= |line|
  {
    MatchHere(line[j..]).Some?
  }

  /** The leftmost position from `p` on where the pattern matches. */
  function FirstMatch(line: string, p: nat): (r: Option<nat>)
    requires p <= |line|
    ensures r.Some? ==> p <= r.value <= |line| && MatchesAt(line, r.value)
    ensures r.Some? ==> forall j :: p <= j < r.value ==> !MatchesAt(line, j)
    ensures r.None? ==> forall j :: p <= j <= |line| ==> !MatchesAt(line, j)
    decreases |line| - p
  {
    if MatchesAt(line, p) then Some(p)
    else if p == |line| then None
    else FirstMatch(line, p + 1)
  }

  /** `line.match(...)`: the captures of the leftmost match, if any. */
  function LineMatch(line: string): (r: Option<HSetCommand>)
    ensures r.Some? ==> WellFormed(r.value)
  {
    match FirstMatch(line, 0)
    case None => None
    case Some(p) => MatchHere(line[p..])
  }

  /** A line holding the command written out with the white-space gaps
      `w1`, `w2` and `w3`, followed by `tail`. */
  function CommandLine(c: HSetCommand, w1: string, w2: string, w3: string, tail: string): string {
    "HSET" + (w1 + ("\"" + (c.key + ("\"" + (w2 + (c.field + (w3 + ("\"" + (c.value + ("\"" + tail))))))))))
  }

  /** The field, the gap after it and the quoted value of a written-out
      command are found whatever follows them. */
  lemma FieldHere(c: HSetCommand, w3: string, tail: string)
    requires WellFormed(c) && w3 != [] && AllSpace(w3)
    ensures MatchTail(c.field + (w3 + ("\"" + (c.value + ("\"" + tail))))) == Some((c.field, c.value))
  {
    var s6 := c.value + ("\"" + tail);
    var s5 := w3 + ("\"" + s6);
    SpanCut(c.field, s5, IsWordChar);
    SpanCut(w3, "\"" + s6, IsJsSpace);
    assert s6[1..] == c.value[1..] + ("\"" + tail);
    SpanCut(c.value[1..], "\"" + tail, NotQuote);
    assert s6[..|c.value|] == c.value;
  }

  /** The key part of a rendered command, from the key on. */
  lemma KeyHere(c: HSetCommand, w2: string, s4: string)
    requires WellFormed(c) && w2 != [] && AllSpace(w2)
    requires s4 != [] && !IsJsSpace(s4[0]) && MatchTail(s4) == Some((c.field, c.value))
    ensures MatchKey(c.key + ("\"" + (w2 + s4))) == Some(c)
  {
    var s3 := w2 + s4;
    SpanCut(c.key, "\"" + s3, NotQuote);
    SpanCut(w2, s4, IsJsSpace);
  }

  /** The gap after `HSET` and the opening quote of the key. */
  lemma GapHere(w1: string, s2: string)
    requires w1 != [] && AllSpace(w1)
    ensures MatchAfterVerb(w1 + ("\"" + s2)) == MatchKey(s2)
  {
    SpanCut(w1, "\"" + s2, IsJsSpace);
  }

  /** A word character is not white space. */
  lemma WordNotSpace(c: char)
    requires IsWordChar(c)
    ensures !IsJsSpace(c)
  {
  }

  /** A command written out with any white-space gaps is matched at its
      head, whatever follows it. */
  lemma CommandMatchesHere(c: HSetCommand, w1: string, w2: string, w3: string, tail: string)
    requires WellFormed(c)
    requires w1 != [] && AllSpace(w1) && w2 != [] && AllSpace(w2) && w3 != [] && AllSpace(w3)
    ensures MatchHere(CommandLine(c, w1, w2, w3, tail)) == Some(c)
  {
    var s4 := c.field + (w3 + ("\"" + (c.value + ("\"" + tail))));
    FieldHere(c, w3, tail);
    WordNotSpace(c.field[0]);
    KeyHere(c, w2, s4);
    var s2 := c.key + ("\"" + (w2 + s4));
    GapHere(w1, s2);
    VerbHere(w1 + ("\"" + s2));
  }

  /** `HSET` at the head of a string hands the rest to the next step. */
  lemma VerbHere(s1: string)
    ensures MatchHere("HSET" + s1) == MatchAfterVerb(s1)
  {
    assert ("HSET" + s1)[..4] == "HSET" && ("HSET" + s1)[4..] == s1;
  }

  /** No match starts at a character other than `H`. */
  lemma MatchNeedsH(s: string)
    requires s != [] && s[0] != 'H'
    ensures MatchHere(s).None?
  {
    if |s| >= 4 {
      assert s[..4][0] == s[0];
    }
  }

  /** Text before the command that holds no `H` cannot start a match, so
      the command is the leftmost match of the line, and what follows it is
      ignored. */
  lemma LineMatchCommand(pre: string, c: HSetCommand, w1: string, w2: string, w3: string, tail: string)
    requires WellFormed(c) && 'H' !in pre
    requires w1 != [] && AllSpace(w1) && w2 != [] && AllSpace(w2) && w3 != [] && AllSpace(w3)
    ensures LineMatch(pre + CommandLine(c, w1, w2, w3, tail)) == Some(c)
  {
    var line := pre + CommandLine(c, w1, w2, w3, tail);
    assert line[|pre|..] == CommandLine(c, w1, w2, w3, tail);
    CommandMatchesHere(c, w1, w2, w3, tail);
    forall j | 0 <= j < |pre|
      ensures !MatchesAt(line, j)
    {
      assert line[j..][0] == pre[j];
      MatchNeedsH(line[j..]);
    }
    var r := FirstMatch(line, 0);
    assert MatchesAt(line, |pre|);
    if r.Some? {
      assert r.value == |pre|;
    }
  }

  // ---------------------------------------------------------------------------
  // records

  /** `{ key, [field]: value }`: the record of one command. The computed
      property is written second, so a field named `key` replaces the key. */
  function Record(c: HSetCommand): (h: Hash)
    ensures h.Keys == {"key", c.field}
    ensures h[c.field] == c.value
    ensures h["key"] == (if c.field == "key" then c.value else c.key)
  {
    map["key" := c.key][c.field := c.value]
  }

  /** The record of a line, if it holds a command. */
  function RecordOfLine(line: string): Option<Hash> {
    match LineMatch(line)
    case None => None
    case Some(c) => Some(Record(c))
  }

  /** The records of `lines`, in order: one per line that holds a command,
      none for any other line. */
  function Records(lines: seq<string>): seq<Hash> {
    Collect(lines, RecordOfLine)
  }

  /** The records are exactly those of the command lines, in line order:
      lines without a command are skipped and nothing else is. */
  lemma RecordsOfCommandLines(lines: seq<string>)
    ensures var m := Filter(lines, Defined(RecordOfLine));
      && |Records(lines)| == |m|
      && forall i :: 0 <= i < |m| ==> LineMatch(m[i]).Some? && Records(lines)[i] == Record(LineMatch(m[i]).value)
  {
    CollectDefined(lines, RecordOfLine);
  }

  /** The body of the loop for one line: match it and build its record. */
  method ParseLine(line: string) returns (record: Option<Hash>)
    ensures record == RecordOfLine(line)
  {
    var m := LineMatch(line);
    if m.Some? {
      record := Some(Record(m.value));
    } else {
      record := None;
    }
  }

  /** `parseHSetFile`: the record of every command line of the text. */
  method ParseHSetFile(text: string) returns (result: seq<Hash>)
    ensures result == Records(Lines(text))
  {
    result := CollectRecords(Lines(text));
  }

  /** The loop of `parseHSetFile` over the lines. */
  method CollectRecords(lines: seq<string>) returns (result: seq<Hash>)
    ensures result == Records(lines)
  {
    result := [];
    var i := 0;
    while i < |lines|
      invariant 0 <= i <= |lines|
      invariant result == Collect(lines[..i], RecordOfLine)
    {
      var line := lines[i];
      var record := ParseLine(line);
      CollectSnoc(lines[..i], line, RecordOfLine);
      assert lines[..i + 1] == lines[..i] + [line];
      if record.Some? {
        result := result + [record.value];
      }
      i := i + 1;
    }
    assert lines[..i] == lines;
  }

  /** A line holding just a command, its parts separated by single spaces. */
  function PlainLine(c: HSetCommand): string {
    CommandLine(c, " ", " ", " ", [])
  }

  /** A dump written one command per line, with single spaces and any mix
      of `\n` and `\r\n` line endings, parses back into the commands'
      records, in order, provided no key or value holds a line feed. */
  lemma DumpRoundTrip(cs: seq<HSetCommand>, crlf: seq<bool>)
    requires |crlf| == |cs|
    requires forall i :: 0 <= i < |cs| ==> WellFormed(cs[i]) && '\n' !in cs[i].key && '\n' !in cs[i].value
    ensures var lines := seq(|cs|, i requires 0 <= i < |cs| => PlainLine(cs[i]));
      Records(Lines(Join(Terminated(lines, crlf), '\n'))) == seq(|cs|, i requires 0 <= i < |cs| => Record(cs[i]))
  {
    var lines := seq(|cs|, i requires 0 <= i < |cs| => PlainLine(cs[i]));
    forall k | 0 <= k < |lines|
      ensures lines[k] != [] && '\n' !in lines[k] && lines[k][|lines[k]| - 1] != '\r'
      ensures LineMatch(lines[k]) == Some(cs[k])
    {
      PlainLineMatches(cs[k]);
    }
    LinesRoundTrip(lines, crlf);
    RecordsOfMatchingLines(lines, cs);
  }

  /** A plain command line is matched as its command. */
  lemma PlainLineMatches(c: HSetCommand)
    requires WellFormed(c) && '\n' !in c.key && '\n' !in c.value
    ensures PlainLine(c) != [] && '\n' !in PlainLine(c) && PlainLine(c)[|PlainLine(c)| - 1] == '"'
    ensures LineMatch(PlainLine(c)) == Some(c)
  {
    PlainLineShape(c);
    LineMatchCommand([], c, " ", " ", " ", []);
    assert [] + CommandLine(c, " ", " ", " ", []) == PlainLine(c);
  }

  /** Lines that each hold their command give one record per line. */
  lemma RecordsOfMatchingLines(lines: seq<string>, cs: seq<HSetCommand>)
    requires |lines| == |cs|
    requires forall k :: 0 <= k < |lines| ==> LineMatch(lines[k]) == Some(cs[k])
    ensures Records(lines) == seq(|cs|, i requires 0 <= i < |cs| => Record(cs[i]))
  {
    forall k | 0 <= k < |lines|
      ensures RecordOfLine(lines[k]) == Some(Record(cs[k]))
    {
    }
    CollectTotal(lines, RecordOfLine, seq(|cs|, i requires 0 <= i < |cs| => Record(cs[i])));
  }

  /** A plain command line ends with a quote and holds a line feed only
      where its key or value does. */
  lemma PlainLineShape(c: HSetCommand)
    requires '\n' !in c.key && '\n' !in c.value
    requires forall i :: 0 <= i < |c.field| ==> IsWordChar(c.field[i])
    ensures PlainLine(c) != [] && '\n' !in PlainLine(c) && PlainLine(c)[|PlainLine(c)| - 1] == '"'
  {
    var l := PlainLine(c);
    assert l == "HSET" + " " + "\"" + c.key + "\"" + " " + c.field + " " + "\"" + c.value + "\"";
  }
}
