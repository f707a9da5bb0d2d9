/**
 * The normaliser and tokeniser of src/util/stopWords.js: stop-word removal,
 * the split into single CJK ideographs and ASCII letter/digit runs, the two
 * retention predicates used by the indexers, and edge-quote trimming.
 * Every operation there is one regular-expression expression over its
 * argument; each becomes a total function here.
 */
module StopWords {
  import opened Text

  // ---------------------------------------------------------------------------
  // removeStopWord

  /** The one-character entries of the stop list: particles, the ideographic
      space, curly quotes and CJK punctuation. */
  const StopChars: set<char> := {
    '\U{7684}', '\U{4E86}', '\U{3000}',                  // 的 了, ideographic space
    '\U{201D}', '\U{201C}', '\U{2019}', '\U{2018}',      // ” “ ’ ‘
    '\U{3002}', '\U{FF0C}', '\U{3001}', '\U{FF1F}',      // 。 ， 、 ？
    '\U{FF01}', '\U{FF1B}', '\U{FF1A}',                  // ！ ； ：
    '\U{300C}', '\U{300D}', '\U{300E}', '\U{300F}',      // 「 」 『 』
    '\U{FF08}', '\U{FF09}', '\U{2014}',                  // （ ） —
    '\U{300A}', '\U{300B}', '\U{00B7}', '\U{2026}'       // 《 》 · …
  }

  /** The one multi-character entry of the stop list. */
  const LineBreakTag: string := "<br />"

  /** `removeStopWord`: a global replace of the alternation of all stop-list
      entries by the empty string. Scanning left to right, a stop character or
      an occurrence of the line-break tag at the current position is deleted;
      any other character is kept. No stop character starts the tag, so the
      order of the alternatives does not matter. */
  function RemoveStopWord(s: string): (r: string)
    ensures |r| <= |s|
    decreases |s|
  {
    if s == [] then []
    else if s[0] in StopChars then RemoveStopWord(s[1..])
    else if LineBreakTag <= s then RemoveStopWord(s[|LineBreakTag|..])
    else [s[0]] + RemoveStopWord(s[1..])
  }

  /** No stop character survives. */
  lemma {:induction false} RemoveStopWordNoStopChars(s: string)
    ensures forall i :: 0 <= i < |RemoveStopWord(s)| ==> RemoveStopWord(s)[i] !in StopChars
    decreases |s|
  {
    if s != [] {
      if s[0] in StopChars {
        RemoveStopWordNoStopChars(s[1..]);
      } else if LineBreakTag <= s {
        RemoveStopWordNoStopChars(s[|LineBreakTag|..]);
      } else {
        RemoveStopWordNoStopChars(s[1..]);
      }
    }
  }

  /** `r` can be obtained from `s` by deleting characters. */
  predicate IsSubsequence(r: string, s: string)
    decreases |s|
  {
    if r == [] then true
    else if s == [] then false
    else (r[0] == s[0] && IsSubsequence(r[1..], s[1..])) || IsSubsequence(r, s[1..])
  }

  lemma {:induction false} SubsequenceOfSuffix(r: string, s: string, n: nat)
    requires n <= |s| && IsSubsequence(r, s[n..])
    ensures IsSubsequence(r, s)
    decreases n
  {
    if n > 0 {
      assert s[1..][n - 1..] == s[n..];
      SubsequenceOfSuffix(r, s[1..], n - 1);
    }
  }

  /** Removal only deletes: what is left keeps its order. */
  lemma {:induction false} RemoveStopWordIsSubsequence(s: string)
    ensures IsSubsequence(RemoveStopWord(s), s)
    decreases |s|
  {
    if s != [] {
      if s[0] in StopChars {
        RemoveStopWordIsSubsequence(s[1..]);
        SubsequenceOfSuffix(RemoveStopWord(s[1..]), s, 1);
      } else if LineBreakTag <= s {
        RemoveStopWordIsSubsequence(s[6..]);
        SubsequenceOfSuffix(RemoveStopWord(s[6..]), s, 6);
      } else {
        RemoveStopWordIsSubsequence(s[1..]);
        var r := RemoveStopWord(s);
        assert r[0] == s[0] && r[1..] == RemoveStopWord(s[1..]);
      }
    }
  }

  /** Removal never deletes a character that is neither a stop character nor
      part of the line-break tag: each such character occurs as often in the
      result as in the input. */
  lemma {:induction false} RemoveStopWordKeeps(s: string, c: char)
    requires c !in StopChars && c !in LineBreakTag
    ensures multiset(RemoveStopWord(s))[c] == multiset(s)[c]
    decreases |s|
  {
    if s != [] {
      if LineBreakTag <= s && s[0] !in StopChars {
        RemoveStopWordKeeps(s[6..], c);
        KeepsOverTag(s, c);
      } else {
        RemoveStopWordKeeps(s[1..], c);
        KeepsOverHead(s, c);
      }
    }
  }

  /** The inductive step of `RemoveStopWordKeeps` past one character. */
  lemma KeepsOverHead(s: string, c: char)
    requires s != [] && !(LineBreakTag <= s && s[0] !in StopChars)
    requires c !in StopChars
    requires multiset(RemoveStopWord(s[1..]))[c] == multiset(s[1..])[c]
    ensures multiset(RemoveStopWord(s))[c] == multiset(s)[c]
  {
    assert s == [s[0]] + s[1..];
    if s[0] in StopChars {
      assert RemoveStopWord(s) == RemoveStopWord(s[1..]);
    } else {
      assert RemoveStopWord(s) == [s[0]] + RemoveStopWord(s[1..]);
    }
  }

  /** The inductive step of `RemoveStopWordKeeps` past the line-break tag. */
  lemma KeepsOverTag(s: string, c: char)
    requires LineBreakTag <= s && s[0] !in StopChars
    requires c !in LineBreakTag
    requires multiset(RemoveStopWord(s[6..]))[c] == multiset(s[6..])[c]
    ensures multiset(RemoveStopWord(s))[c] == multiset(s)[c]
  {
    assert RemoveStopWord(s) == RemoveStopWord(s[6..]);
    assert s == LineBreakTag + s[6..];
    assert multiset(LineBreakTag)[c] == 0;
  }

  lemma RemoveStopWordKeepsHead(c: char, rest: string)
    requires c !in StopChars && !(LineBreakTag <= [c] + rest)
    ensures RemoveStopWord([c] + rest) == [c] + RemoveStopWord(rest)
  {
    assert ([c] + rest)[1..] == rest;
  }

  lemma RemoveStopWordDropsHead(c: char, rest: string)
    requires c in StopChars
    ensures RemoveStopWord([c] + rest) == RemoveStopWord(rest)
  {
    assert ([c] + rest)[1..] == rest;
  }

  lemma RemoveStopWordDropsTag(rest: string)
    ensures RemoveStopWord(LineBreakTag + rest) == RemoveStopWord(rest)
  {
    var s := LineBreakTag + rest;
    assert s[0] == '<' && LineBreakTag <= s && s[6..] == rest;
  }

  /** Deleting a stop character can join the pieces of a new line-break tag,
      which a second pass then removes: the function is not idempotent. */
  lemma RemoveStopWordNotIdempotent()
    ensures RemoveStopWord("<br \U{7684}/>") == "<br />"
    ensures RemoveStopWord(RemoveStopWord("<br \U{7684}/>")) == ""
  {
    FirstPassJoinsTag();
    SecondPassDropsTag();
  }

  /** Every stop character lies above the ASCII range and Latin-1's first
      half. */
  lemma BelowStopChars(c: char)
    requires c < '\U{00B7}'
    ensures c !in StopChars
  {
  }

  /** A text that differs from the tag at one of its first six places does
      not start with it. */
  lemma NotTagAt(s: string, i: nat)
    requires i < |LineBreakTag| && i < |s| && s[i] != LineBreakTag[i]
    ensures !(LineBreakTag <= s)
  {
  }

  /** Removing the stop character between `<br ` and `/>` forms the tag. */
  lemma FirstPassJoinsTag()
    ensures RemoveStopWord("<br \U{7684}/>") == "<br />"
  {
    FirstPassFrom2();
    assert "<br \U{7684}/>" == ['<'] + "br \U{7684}/>";
    NotTagAt(['<'] + "br \U{7684}/>", 4);
    BelowStopChars('<');
    RemoveStopWordKeepsHead('<', "br \U{7684}/>");
    assert ['<'] + "br />" == "<br />";
  }

  lemma FirstPassFrom2()
    ensures RemoveStopWord("br \U{7684}/>") == "br />"
  {
    FirstPassFrom3();
    assert "br \U{7684}/>" == ['b'] + "r \U{7684}/>";
    NotTagAt(['b'] + "r \U{7684}/>", 0);
    BelowStopChars('b');
    RemoveStopWordKeepsHead('b', "r \U{7684}/>");
    assert ['b'] + "r />" == "br />";
  }

  lemma FirstPassFrom3()
    ensures RemoveStopWord("r \U{7684}/>") == "r />"
  {
    FirstPassFrom4();
    assert "r \U{7684}/>" == ['r'] + " \U{7684}/>";
    BelowStopChars('r');
    RemoveStopWordKeepsHead('r', " \U{7684}/>");
    assert ['r'] + " />" == "r />";
  }

  lemma FirstPassFrom4()
    ensures RemoveStopWord(" \U{7684}/>") == " />"
  {
    FirstPassFrom5();
    assert " \U{7684}/>" == [' '] + "\U{7684}/>";
    BelowStopChars(' ');
    RemoveStopWordKeepsHead(' ', "\U{7684}/>");
    assert [' '] + "/>" == " />";
  }

  lemma FirstPassFrom5()
    ensures RemoveStopWord("\U{7684}/>") == "/>"
  {
    BelowStopChars('>');
    RemoveStopWordKeepsHead('>', "");
    BelowStopChars('/');
    RemoveStopWordKeepsHead('/', ">");
    RemoveStopWordDropsHead('\U{7684}', "/>");
  }

  /** The tag on its own is removed. */
  lemma SecondPassDropsTag()
    ensures RemoveStopWord("<br />") == ""
  {
    RemoveStopWordDropsTag("");
    assert LineBreakTag + "" == LineBreakTag;
  }

  // ---------------------------------------------------------------------------
  // spaceChineseChars

  /** The basic CJK ideograph block U+4E00..U+9FFF, the class `[一-鿿]`. */
  predicate IsCjk(c: char) {
    '\U{4E00}' <= c <= '\U{9FFF}'
  }

  /** The class `[a-zA-Z0-9]`. */
  predicate IsAsciiAlnum(c: char) {
    ('a' <= c <= 'z') || ('A' <= c <= 'Z') || IsDecimalDigit(c)
  }

  /** A character that ends up in some token. */
  predicate IsWordChar(c: char) {
    IsCjk(c) || IsAsciiAlnum(c)
  }

  /** What a token looks like: one CJK ideograph, or a non-empty run of ASCII
      letters and digits. */
  predicate IsToken(t: string) {
    || (|t| == 1 && IsCjk(t[0]))
    || (|t| >= 1 && forall i :: 0 <= i < |t| ==> IsAsciiAlnum(t[i]))
  }

  /** The matches of the global pattern `[一-鿿]|[a-zA-Z0-9]+`, left to
      right: an ideograph on its own, a maximal letter/digit run as a whole;
      every other character is skipped. */
  function Tokens(s: string): (ts: seq<string>)
    ensures forall k :: 0 <= k < |ts| ==> IsToken(ts[k])
    decreases |s|
  {
    if s == [] then []
    else if IsCjk(s[0]) then [[s[0]]] + Tokens(s[1..])
    else if IsAsciiAlnum(s[0]) then
      var n := Span(s, IsAsciiAlnum);
      [s[..n]] + Tokens(s[n..])
    else Tokens(s[1..])
  }

  /** `spaceChineseChars`: the tokens joined by single spaces, or the empty
      string when there is no match. */
  function SpaceChineseChars(text: string): (r: string)
    ensures r != [] ==> r[0] != ' ' && r[|r| - 1] != ' '
    ensures forall i :: 0 <= i < |r| - 1 ==> !(r[i] == ' ' && r[i + 1] == ' ')
    ensures r == [] <==> Tokens(text) == []
    ensures Tokens(text) != [] ==> Split(r, ' ') == Tokens(text)
  {
    var ts := Tokens(text);
    TokenJoinFacts(ts);
    Join(ts, ' ')
  }

  lemma TokenJoinFacts(ts: seq<string>)
    requires forall k :: 0 <= k < |ts| ==> IsToken(ts[k])
    ensures var r := Join(ts, ' ');
      && (r != [] ==> r[0] != ' ' && r[|r| - 1] != ' ')
      && (forall i :: 0 <= i < |r| - 1 ==> !(r[i] == ' ' && r[i + 1] == ' '))
      && (r == [] <==> ts == [])
      && (ts != [] ==> Split(r, ' ') == ts)
  {
    forall k | 0 <= k < |ts| ensures ts[k] != [] && ' ' !in ts[k] {
      assert IsToken(ts[k]);
    }
    JoinSpacing(ts, ' ');
    if ts != [] {
      SplitJoin(ts, ' ');
    }
  }

  /** The characters of `s` that land in some token, in order. */
  function WordChars(s: string): (r: string)
    ensures forall i :: 0 <= i < |r| ==> IsWordChar(r[i])
  {
    if s == [] then []
    else if IsWordChar(s[0]) then [s[0]] + WordChars(s[1..])
    else WordChars(s[1..])
  }

  function Concat(ts: seq<string>): string {
    if ts == [] then [] else ts[0] + Concat(ts[1..])
  }

  lemma {:induction false} WordCharsAppend(a: string, b: string)
    ensures WordChars(a + b) == WordChars(a) + WordChars(b)
  {
    if a != [] {
      assert (a + b)[0] == a[0];
      assert (a + b)[1..] == a[1..] + b;
      WordCharsAppend(a[1..], b);
      if IsWordChar(a[0]) {
        assert WordChars(a + b) == [a[0]] + (WordChars(a[1..]) + WordChars(b));
      }
    } else {
      assert a + b == b;
    }
  }

  lemma {:induction false} WordCharsOfWord(a: string)
    requires forall i :: 0 <= i < |a| ==> IsWordChar(a[i])
    ensures WordChars(a) == a
  {
    if a != [] {
      WordCharsOfWord(a[1..]);
      assert [a[0]] + a[1..] == a;
    }
  }

  /** Every ideograph and every ASCII letter or digit of the input lands in
      exactly one token, in input order, and nothing else does. */
  lemma {:induction false} TokensCover(s: string)
    ensures Concat(Tokens(s)) == WordChars(s)
    decreases |s|
  {
    if s != [] {
      if IsCjk(s[0]) {
        TokensCover(s[1..]);
      } else if IsAsciiAlnum(s[0]) {
        var n := Span(s, IsAsciiAlnum);
        TokensCover(s[n..]);
        assert s == s[..n] + s[n..];
        WordCharsAppend(s[..n], s[n..]);
        WordCharsOfWord(s[..n]);
        assert Tokens(s)[1..] == Tokens(s[n..]);
      } else {
        TokensCover(s[1..]);
      }
    }
  }

  lemma TokensConsCjk(c: char, rest: string)
    requires IsCjk(c)
    ensures Tokens([c] + rest) == [[c]] + Tokens(rest)
  {
    assert ([c] + rest)[1..] == rest;
  }

  lemma TokensConsSeparator(c: char, rest: string)
    requires !IsWordChar(c)
    ensures Tokens([c] + rest) == Tokens(rest)
  {
    assert ([c] + rest)[1..] == rest;
  }

  /** A maximal letter/digit run at the head of the input is one token. */
  lemma TokensRun(w: string, rest: string)
    requires w != [] && forall i :: 0 <= i < |w| ==> IsAsciiAlnum(w[i])
    requires rest == [] || !IsAsciiAlnum(rest[0])
    ensures Tokens(w + rest) == [w] + Tokens(rest)
  {
    var s := w + rest;
    if rest == [] {
      SpanAll(w, IsAsciiAlnum);
      assert s == w;
    } else {
      assert s == w + [rest[0]] + rest[1..];
      SpanExact(w, rest[0], rest[1..], IsAsciiAlnum);
    }
    assert s[0] == w[0] && !IsCjk(s[0]);
    assert s[..|w|] == w && s[|w|..] == rest;
  }

  /** Tokens are maximal: cutting the input anywhere except inside a
      letter/digit run cuts the token list at the same place. */
  lemma {:induction false} TokensAppend(a: string, b: string)
    requires !(a != [] && b != [] && IsAsciiAlnum(a[|a| - 1]) && IsAsciiAlnum(b[0]))
    ensures Tokens(a + b) == Tokens(a) + Tokens(b)
    decreases |a|
  {
    if a == [] {
      assert a + b == b;
    } else if !IsAsciiAlnum(a[0]) {
      var c, tail := a[0], a[1..];
      assert a == [c] + tail;
      assert a + b == [c] + (tail + b);
      TokensAppend(tail, b);
      TokensAppendStep(c, tail, b);
    } else {
      var n := Span(a, IsAsciiAlnum);
      var w := a[..n];
      if n < |a| {
        var tail := a[n..];
        assert a == w + tail;
        assert a + b == w + (tail + b);
        TokensAppend(tail, b);
        TokensAppendRun(w, tail, b);
      } else {
        assert w == a;
        TokensRun(a, []);
        assert a + [] == a;
        TokensRun(a, b);
      }
    }
  }

  lemma TokensAppendStep(c: char, tail: string, b: string)
    requires !IsAsciiAlnum(c)
    requires Tokens(tail + b) == Tokens(tail) + Tokens(b)
    ensures Tokens([c] + tail + b) == Tokens([c] + tail) + Tokens(b)
  {
    assert [c] + tail + b == [c] + (tail + b);
    if IsCjk(c) {
      TokensConsCjk(c, tail);
      TokensConsCjk(c, tail + b);
    } else {
      TokensConsSeparator(c, tail);
      TokensConsSeparator(c, tail + b);
    }
  }

  lemma TokensAppendRun(w: string, tail: string, b: string)
    requires w != [] && forall i :: 0 <= i < |w| ==> IsAsciiAlnum(w[i])
    requires tail != [] && !IsAsciiAlnum(tail[0])
    requires Tokens(tail + b) == Tokens(tail) + Tokens(b)
    ensures Tokens(w + tail + b) == Tokens(w + tail) + Tokens(b)
  {
    assert w + tail + b == w + (tail + b);
    TokensRun(w, tail);
    TokensRun(w, tail + b);
  }

  /** A run of letters and digits is a single token. */
  lemma AlnumRunIsOneToken(w: string)
    requires w != [] && forall i :: 0 <= i < |w| ==> IsAsciiAlnum(w[i])
    ensures Tokens(w) == [w]
  {
    SpanAll(w, IsAsciiAlnum);
    assert IsAsciiAlnum(w[0]) && !IsCjk(w[0]);
    assert w[..|w|] == w && w[|w|..] == [];
    assert Tokens(w) == [w] + Tokens([]);
  }

  // ---------------------------------------------------------------------------
  // isNumeric

  predicate IsAscii(c: char) {
    c < '\U{0080}'
  }

  /** A non-empty string all of whose characters satisfy `p`. */
  predicate IsDigitRun(s: string, p: char -> bool) {
    |s| >= 1 && forall i :: 0 <= i < |s| ==> p(s[i])
  }

  predicate IsHexDigit(c: char) {
    IsDecimalDigit(c) || ('a' <= c <= 'f') || ('A' <= c <= 'F')
  }

  predicate IsOctalDigit(c: char) {
    '0' <= c <= '7'
  }

  predicate IsBinaryDigit(c: char) {
    c == '0' || c == '1'
  }

  predicate IsMantissaChar(c: char) {
    IsDecimalDigit(c) || c == '.'
  }

  predicate IsNotExponentMark(c: char) {
    c != 'e' && c != 'E'
  }

  /** Digits with at most one decimal point and at least one digit:
      `1`, `1.`, `1.5` and `.5`, but not `.` alone. */
  predicate IsMantissa(m: string) {
    && (forall i :: 0 <= i < |m| ==> IsMantissaChar(m[i]))
    && multiset(m)['.'] <= 1
    && |m| > multiset(m)['.']
  }

  /** `e` or `E`, an optional sign, then one or more digits. */
  predicate IsExponentPart(e: string) {
    && |e| >= 2
    && !IsNotExponentMark(e[0])
    && if e[1] == '+' || e[1] == '-' then IsDigitRun(e[2..], IsDecimalDigit)
       else IsDigitRun(e[1..], IsDecimalDigit)
  }

  /** StrUnsignedDecimalLiteral of the ECMAScript string-to-number grammar. */
  predicate IsUnsignedDecimal(s: string) {
    || s == "Infinity"
    || (var k := Span(s, IsNotExponentMark);
        IsMantissa(s[..k]) && (k == |s| || IsExponentPart(s[k..])))
  }

  /** StrDecimalLiteral: an optional sign before an unsigned literal. */
  predicate IsSignedDecimal(s: string) {
    if |s| >= 1 && (s[0] == '+' || s[0] == '-') then IsUnsignedDecimal(s[1..])
    else IsUnsignedDecimal(s)
  }

  /** NonDecimalIntegerLiteral: `0x`, `0o` or `0b` (either case) and digits
      of that base; no sign. */
  predicate IsNonDecimalInteger(s: string) {
    && |s| >= 3 && s[0] == '0'
    && (|| ((s[1] == 'x' || s[1] == 'X') && IsDigitRun(s[2..], IsHexDigit))
        || ((s[1] == 'o' || s[1] == 'O') && IsDigitRun(s[2..], IsOctalDigit))
        || ((s[1] == 'b' || s[1] == 'B') && IsDigitRun(s[2..], IsBinaryDigit)))
  }

  /** StrNumericLiteral: the strings `Number` converts to something other
      than NaN, once surrounding white space is trimmed. */
  predicate IsStrNumericLiteral(s: string) {
    IsSignedDecimal(s) || IsNonDecimalInteger(s)
  }

  /** `isNumeric` on a string argument: not blank, and `Number(token)` is not
      NaN. `Number` ignores surrounding white space and maps a blank string
      to 0, so this is: the trimmed token is a numeric literal. */
  predicate IsNumeric(token: string)
    ensures IsNumeric(token) ==> AllAscii(Trim(token))
  {
    var t := Trim(token);
    assert IsStrNumericLiteral(t) ==> AllAscii(t) by {
      if IsStrNumericLiteral(t) {
        NumericLiteralIsAscii(t);
      }
    }
    t != [] && IsStrNumericLiteral(t)
  }

  predicate AllAscii(s: string) {
    forall i :: 0 <= i < |s| ==> IsAscii(s[i])
  }

  lemma AllAsciiConcat(a: string, b: string)
    requires AllAscii(a) && AllAscii(b)
    ensures AllAscii(a + b)
  {
    assert forall i :: |a| <= i < |a + b| ==> (a + b)[i] == b[i - |a|];
  }

  lemma ExponentPartIsAscii(e: string)
    requires IsExponentPart(e)
    ensures AllAscii(e)
  {
    if e[1] == '+' || e[1] == '-' {
      assert e == e[..2] + e[2..];
      assert AllAscii(e[..2]);
      AllAsciiConcat(e[..2], e[2..]);
    } else {
      assert e == e[..1] + e[1..];
      AllAsciiConcat(e[..1], e[1..]);
    }
  }

  lemma UnsignedDecimalIsAscii(u: string)
    requires IsUnsignedDecimal(u)
    ensures AllAscii(u)
  {
    if u != "Infinity" {
      var k := Span(u, IsNotExponentMark);
      assert AllAscii(u[..k]);
      if k < |u| {
        ExponentPartIsAscii(u[k..]);
        assert u == u[..k] + u[k..];
        AllAsciiConcat(u[..k], u[k..]);
      } else {
        assert u == u[..k];
      }
    }
  }

  /** Every numeric literal is plain ASCII. */
  lemma NumericLiteralIsAscii(s: string)
    requires IsStrNumericLiteral(s)
    ensures forall i :: 0 <= i < |s| ==> IsAscii(s[i])
  {
    if IsSignedDecimal(s) {
      SignedDecimalIsAscii(s);
    } else {
      NonDecimalIntegerIsAscii(s);
    }
  }

  lemma SignedDecimalIsAscii(s: string)
    requires IsSignedDecimal(s)
    ensures AllAscii(s)
  {
    if |s| >= 1 && (s[0] == '+' || s[0] == '-') {
      UnsignedDecimalIsAscii(s[1..]);
      assert s == s[..1] + s[1..];
      AllAsciiConcat(s[..1], s[1..]);
    } else {
      UnsignedDecimalIsAscii(s);
    }
  }

  lemma NonDecimalIntegerIsAscii(s: string)
    requires IsNonDecimalInteger(s)
    ensures AllAscii(s)
  {
    assert s == s[..2] + s[2..];
    assert AllAscii(s[2..]);
    AllAsciiConcat(s[..2], s[2..]);
  }
  /** `isNumeric` is false for the empty string and for white space. */
  lemma BlankIsNotNumeric(token: string)
    requires forall i :: 0 <= i < |token| ==> IsJsSpace(token[i])
    ensures !IsNumeric(token)
  {
    TrimEmpty(token);
  }

  /** `isNumeric` holds for every non-empty run of ASCII digits. */
  lemma DigitsAreNumeric(token: string)
    requires IsDigitRun(token, IsDecimalDigit)
    ensures IsNumeric(token)
  {
    TrimNoEdges(token);
    SpanAll(token, IsNotExponentMark);
    assert token[..|token|] == token;
    assert '.' !in multiset(token);
  }

  /** `isNumeric` is false for any string holding a CJK ideograph. */
  lemma CjkIsNotNumeric(token: string, k: nat)
    requires k < |token| && IsCjk(token[k])
    ensures !IsNumeric(token)
  {
    TrimKeeps(token, k);
    var t := Trim(token);
    if IsStrNumericLiteral(t) {
      NumericLiteralIsAscii(t);
    }
  }

  // ---------------------------------------------------------------------------
  // isEnglishOrSymbol

  /** The symbols of the class in `isEnglishOrSymbol`. */
  const SymbolChars: set<char> := {
    '!', '@', '#', '$', '%', '^', '&', '*', '(', ')', '_', '+', '-', '=',
    '[', ']', '{', '}', ';', '\'', ':', '"', '\\', '|', ',', '.', '<', '>',
    '/', '?'
  }

  predicate IsEnglishOrSymbolChar(c: char) {
    ('A' <= c <= 'Z') || ('a' <= c <= 'z') || c in SymbolChars
  }

  /** `isEnglishOrSymbol`: some character of the token is an ASCII letter or
      one of the listed symbols. */
  predicate IsEnglishOrSymbol(token: string)
    ensures IsEnglishOrSymbol(token) ==> exists i :: 0 <= i < |token| && IsAscii(token[i])
  {
    assert forall i :: 0 <= i < |token| && !IsAscii(token[i]) ==> !IsEnglishOrSymbolChar(token[i]) by {
      forall i | 0 <= i < |token| && !IsAscii(token[i])
        ensures !IsEnglishOrSymbolChar(token[i])
      {
        NonAsciiIsNotSymbol(token[i]);
      }
    }
    exists i :: 0 <= i < |token| && IsEnglishOrSymbolChar(token[i])
  }

  /** The two examples the source documents, and digits, which are neither
      letters nor symbols. */
  lemma EnglishOrSymbolExamples(digits: string)
    requires IsDigitRun(digits, IsDecimalDigit)
    ensures IsEnglishOrSymbol("hello!")
    ensures !IsEnglishOrSymbol("\U{6E2C}\U{8A66}")
    ensures !IsEnglishOrSymbol(digits)
  {
    assert IsEnglishOrSymbolChar("hello!"[0]);
  }

  // ---------------------------------------------------------------------------
  // the retention filter used by the Dong indexer

  /** A token the Dong indexer posts: non-empty, not numeric, and without
      letters or symbols. */
  predicate IsRetained(token: string)
    ensures IsRetained(token) ==> !IsDigitRun(token, IsDecimalDigit)
    ensures IsRetained(token) ==> forall i :: 0 <= i < |token| ==> !('A' <= token[i] <= 'Z') && !('a' <= token[i] <= 'z')
  {
    assert IsDigitRun(token, IsDecimalDigit) ==> IsNumeric(token) by {
      if IsDigitRun(token, IsDecimalDigit) {
        DigitsAreNumeric(token);
      }
    }
    token != [] && !IsNumeric(token) && !IsEnglishOrSymbol(token)
  }

  /** On tokens, the filter keeps exactly the single ideographs: a run with a
      letter is English, a run of digits is numeric. */
  lemma RetainedTokenIsIdeograph(t: string)
    requires IsToken(t)
    ensures IsRetained(t) <==> |t| == 1 && IsCjk(t[0])
  {
    if |t| == 1 && IsCjk(t[0]) {
      IdeographIsRetained(t);
    } else if exists i :: 0 <= i < |t| && !IsDecimalDigit(t[i]) {
      var i :| 0 <= i < |t| && !IsDecimalDigit(t[i]);
      assert IsEnglishOrSymbolChar(t[i]);
    } else {
      DigitsAreNumeric(t);
    }
  }

  /** A single ideograph is neither numeric nor English. */
  lemma IdeographIsRetained(t: string)
    requires |t| == 1 && IsCjk(t[0])
    ensures IsRetained(t)
  {
    CjkIsNotNumeric(t, 0);
    NonAsciiIsNotSymbol(t[0]);
  }

  /** Every listed symbol is ASCII. */
  lemma NonAsciiIsNotSymbol(c: char)
    requires !IsAscii(c)
    ensures !IsEnglishOrSymbolChar(c)
  {
  }
  // ---------------------------------------------------------------------------
  // what the indexers post: the space-separated pieces of the normalised text

  /** The test `token` alone: a string is truthy when it is not empty. */
  predicate IsNonEmpty(token: string) {
    token != []
  }

  /** The pieces `token && ...` lets through when it only tests non-emptiness. */
  function NonEmptyPieces(parts: seq<string>): seq<string> {
    Filter(parts, IsNonEmpty)
  }

  /** The pieces that pass the full retention filter. */
  function RetainedPieces(parts: seq<string>): seq<string> {
    Filter(parts, IsRetained)
  }

  /** Each CJK ideograph of `s` as a one-character token, in order. */
  function Ideographs(s: string): (r: seq<string>)
    ensures forall k :: 0 <= k < |r| ==> |r[k]| == 1 && IsCjk(r[k][0])
  {
    if s == [] then []
    else (if IsCjk(s[0]) then [[s[0]]] else []) + Ideographs(s[1..])
  }

  /** The pieces of `spaceChineseChars(x).split(' ')`, empty strings dropped,
      are exactly the tokens of `x`: the split undoes the join, and the only
      empty piece is the one `''.split(' ')` yields when there is no token. */
  lemma NonEmptyPiecesAreTokens(x: string)
    ensures NonEmptyPieces(Split(SpaceChineseChars(x), ' ')) == Tokens(x)
  {
    var ts := Tokens(x);
    if ts == [] {
      assert Split([], ' ') == [[]];
    } else {
      NonEmptyPiecesOfNonEmpty(ts);
    }
  }

  lemma {:induction false} NonEmptyPiecesOfNonEmpty(parts: seq<string>)
    requires forall k :: 0 <= k < |parts| ==> parts[k] != []
    ensures NonEmptyPieces(parts) == parts
  {
    if parts != [] {
      NonEmptyPiecesOfNonEmpty(parts[1..]);
      assert [parts[0]] + parts[1..] == parts;
    }
  }

  lemma {:induction false} IdeographsSkipRun(s: string, n: nat)
    requires n <= |s| && forall i :: 0 <= i < n ==> !IsCjk(s[i])
    ensures Ideographs(s) == Ideographs(s[n..])
  {
    if n > 0 {
      assert s[1..][n - 1..] == s[n..];
      IdeographsSkipRun(s[1..], n - 1);
    }
  }

  /** On the token list, the retention filter keeps the ideographs and
      nothing else. */
  lemma {:induction false} RetainedTokensAreIdeographs(s: string)
    ensures RetainedPieces(Tokens(s)) == Ideographs(s)
    decreases |s|
  {
    if s != [] {
      var ts := Tokens(s);
      if IsCjk(s[0]) {
        RetainedTokensAreIdeographs(s[1..]);
        RetainedTokenIsIdeograph([s[0]]);
        assert ts[0] == [s[0]] && ts[1..] == Tokens(s[1..]);
      } else if IsAsciiAlnum(s[0]) {
        var n := Span(s, IsAsciiAlnum);
        RetainedTokensAreIdeographs(s[n..]);
        RetainedTokenIsIdeograph(s[..n]);
        IdeographsSkipRun(s, n);
        assert ts[0] == s[..n] && ts[1..] == Tokens(s[n..]);
      } else {
        RetainedTokensAreIdeographs(s[1..]);
      }
    }
  }

  /** What the Dong indexer posts for a text `x`: the pieces of
      `spaceChineseChars(x).split(' ')` that pass the filter are the CJK
      ideographs of `x`, one per occurrence, in order. No Latin word and no
      digit run is ever posted. */
  lemma RetainedPiecesAreIdeographs(x: string)
    ensures RetainedPieces(Split(SpaceChineseChars(x), ' ')) == Ideographs(x)
  {
    RetainedTokensAreIdeographs(x);
    if Tokens(x) == [] {
      assert Split([], ' ') == [[]];
      assert !IsRetained([]);
    }
  }

  // ---------------------------------------------------------------------------
  // trimEdgeQuotes

  /** The characters `.` does not match in a regular expression without the
      `s` flag. */
  predicate IsLineTerminator(c: char) {
    c == '\n' || c == '\r' || c == '\U{2028}' || c == '\U{2029}'
  }

  /** `trimEdgeQuotes`: the replacement of `^"(.*)"$` by its group. It applies
      only to a whole line-terminator-free string that begins and ends with a
      double quote, and then drops exactly those two quotes. */
  function TrimEdgeQuotes(s: string): (r: string)
    ensures r == s || (|s| >= 2 && s[0] == '"' && s[|s| - 1] == '"' && r == s[1..|s| - 1])
    ensures (exists i :: 0 <= i < |s| && IsLineTerminator(s[i])) ==> r == s
  {
    if |s| >= 2 && s[0] == '"' && s[|s| - 1] == '"'
       && forall i :: 0 <= i < |s| ==> !IsLineTerminator(s[i])
    then s[1..|s| - 1]
    else s
  }

  /** Quoting a single-line string and trimming the quotes is the identity,
      whatever quotes the string holds inside. */
  lemma TrimEdgeQuotesOfQuoted(t: string)
    requires forall i :: 0 <= i < |t| ==> !IsLineTerminator(t[i])
    ensures TrimEdgeQuotes("\"" + t + "\"") == t
  {
    var s := "\"" + t + "\"";
    assert forall i :: 1 <= i < |s| - 1 ==> s[i] == t[i - 1];
    assert s[1..|s| - 1] == t;
  }

  /** A string that does not both begin and end with a quote is unchanged. */
  lemma TrimEdgeQuotesUnquoted(s: string)
    requires s == [] || s[0] != '"' || s[|s| - 1] != '"'
    ensures TrimEdgeQuotes(s) == s
  {
  }
}
