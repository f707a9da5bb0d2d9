/**
 * String helpers shared by the whole model: the few JavaScript string
 * operations the indexer relies on (`split` and `join` with a one-character
 * separator, `includes`, `replace` of a literal string, `trim`) and decimal
 * numerals, which is how the store renders and parses integers.
 *
 * Strings are sequences of characters; a JavaScript string is a sequence of
 * UTF-16 code units, which coincides with this view for every character the
 * indexer inspects (all of them lie in the Basic Multilingual Plane).
 */
module Text {

  datatype Option<+T> = None | Some(value: T)

  /** Length of the longest prefix of `s` whose characters all satisfy `p`. */
  function Span(s: string, p: char -> bool): (n: nat)
    ensures n <= |s|
    ensures forall i :: 0 <= i < n ==> p(s[i])
    ensures n < |s| ==> !p(s[n])
  {
    if s == [] || !p(s[0]) then 0 else 1 + Span(s[1..], p)
  }

  /** Length of the longest suffix of `s` whose characters all satisfy `p`. */
  function SpanEnd(s: string, p: char -> bool): (n: nat)
    ensures n <= |s|
    ensures forall i :: |s| - n <= i < |s| ==> p(s[i])
    ensures n < |s| ==> !p(s[|s| - 1 - n])
  {
    if s == [] || !p(s[|s| - 1]) then 0 else 1 + SpanEnd(s[..|s| - 1], p)
  }

  /** The maximal run of `p`-characters at the head of `s` is `w` whenever `s`
      is `w` followed by a character outside `p`. */
  lemma {:induction false} SpanExact(w: string, c: char, rest: string, p: char -> bool)
    requires forall i :: 0 <= i < |w| ==> p(w[i])
    requires !p(c)
    ensures Span(w + [c] + rest, p) == |w|
  {
    if w != [] {
      assert (w + [c] + rest)[1..] == w[1..] + [c] + rest;
      SpanExact(w[1..], c, rest, p);
    }
  }

  /** The maximal run of `p`-characters at the head of `w + rest` is `w`
      whenever `rest` starts outside `p`; cutting there gives the pieces
      back. */
  lemma SpanCut(w: string, rest: string, p: char -> bool)
    requires forall i :: 0 <= i < |w| ==> p(w[i])
    requires rest != [] && !p(rest[0])
    ensures Span(w + rest, p) == |w|
    ensures (w + rest)[..|w|] == w && (w + rest)[|w|..] == rest
    ensures (w + rest)[|w|] == rest[0] && (w + rest)[|w| + 1..] == rest[1..]
  {
    assert w + rest == w + [rest[0]] + rest[1..];
    SpanExact(w, rest[0], rest[1..], p);
  }

  /** A run of `p`-characters that is followed by nothing is all of `s`. */
  lemma {:induction false} SpanAll(s: string, p: char -> bool)
    requires forall i :: 0 <= i < |s| ==> p(s[i])
    ensures Span(s, p) == |s|
  {
    if s != [] {
      SpanAll(s[1..], p);
    }
  }

  // ---------------------------------------------------------------------------
  // filter

  /** Concatenation regroups freely; stated on plain sequences so that long
      terms need not be compared element by element. */
  lemma AppendAssoc<T>(a: seq<T>, b: seq<T>, c: seq<T>)
    ensures (a + b) + c == a + (b + c)
  {
  }

  /** JavaScript `xs.filter(keep)`: the elements `keep` accepts, in order. */
  function Filter<T>(xs: seq<T>, keep: T -> bool): (r: seq<T>)
    ensures |r| <= |xs|
    ensures forall k :: 0 <= k < |r| ==> keep(r[k]) && r[k] in xs
  {
    if xs == [] then []
    else (if keep(xs[0]) then [xs[0]] else []) + Filter(xs[1..], keep)
  }

  /** Filtering a list extended by one element. */
  lemma {:induction false} FilterSnoc<T>(xs: seq<T>, x: T, keep: T -> bool)
    ensures Filter(xs + [x], keep) == Filter(xs, keep) + (if keep(x) then [x] else [])
    decreases |xs|
  {
    if xs == [] {
      assert [] + [x] == [x];
    } else {
      assert (xs + [x])[1..] == xs[1..] + [x];
      FilterSnoc(xs[1..], x, keep);
    }
  }

  /** An element is kept exactly when it is in the list and accepted. */
  lemma {:induction false} FilterMember<T>(xs: seq<T>, x: T, keep: T -> bool)
    ensures x in Filter(xs, keep) <==> x in xs && keep(x)
    decreases |xs|
  {
    if xs != [] {
      FilterMember(xs[1..], x, keep);
      assert xs == [xs[0]] + xs[1..];
    }
  }

  /** A filter that accepts every element keeps the list as it is. */
  lemma {:induction false} FilterAll<T>(xs: seq<T>, keep: T -> bool)
    requires forall k :: 0 <= k < |xs| ==> keep(xs[k])
    ensures Filter(xs, keep) == xs
    decreases |xs|
  {
    if xs != [] {
      FilterAll(xs[1..], keep);
      assert xs == [xs[0]] + xs[1..];
    }
  }

  /** Whether `f` yields a value for `x`. */
  function Defined<T, U>(f: T -> Option<U>): T -> bool {
    x => f(x).Some?
  }

  /** The values `f` yields along `xs`, in order, skipping the elements it
      yields nothing for. */
  function Collect<T, U>(xs: seq<T>, f: T -> Option<U>): (r: seq<U>)
    ensures |r| <= |xs|
    decreases |xs|
  {
    if xs == [] then []
    else
      var n := |xs| - 1;
      Collect(xs[..n], f) + (if f(xs[n]).Some? then [f(xs[n]).value] else [])
  }

  /** Collecting along a list extended by one element. */
  lemma CollectSnoc<T, U>(xs: seq<T>, x: T, f: T -> Option<U>)
    ensures Collect(xs + [x], f) == Collect(xs, f) + (if f(x).Some? then [f(x).value] else [])
  {
    assert (xs + [x])[..|xs|] == xs;
  }

  /** Collecting is taking the value of every element `f` is defined on,
      in order. */
  lemma {:induction false} CollectDefined<T, U>(xs: seq<T>, f: T -> Option<U>)
    ensures var m := Filter(xs, Defined(f));
      && |Collect(xs, f)| == |m|
      && forall i :: 0 <= i < |m| ==> f(m[i]).Some? && Collect(xs, f)[i] == f(m[i]).value
    decreases |xs|
  {
    if xs != [] {
      var n := |xs| - 1;
      CollectDefined(xs[..n], f);
      FilterSnoc(xs[..n], xs[n], Defined(f));
      assert xs[..n] + [xs[n]] == xs;
    }
  }

  /** Where `f` yields a value for every element, collecting is mapping. */
  lemma CollectTotal<T, U>(xs: seq<T>, f: T -> Option<U>, ys: seq<U>)
    requires |ys| == |xs|
    requires forall k :: 0 <= k < |xs| ==> f(xs[k]) == Some(ys[k])
    ensures Collect(xs, f) == ys
  {
    FilterAll(xs, Defined(f));
    CollectDefined(xs, f);
  }

  // ---------------------------------------------------------------------------
  // split and join

  /** JavaScript `s.split(sep)` for a one-character separator: the pieces
      between consecutive separators, in order. There is always one piece more
      than there are separators, so `''.split(sep)` is `['']`. */
  function Split(s: string, sep: char): (parts: seq<string>)
    ensures |parts| >= 1
    ensures forall k :: 0 <= k < |parts| ==> sep !in parts[k]
  {
    if s == [] then [[]]
    else
      var rest := Split(s[1..], sep);
      assert s == [s[0]] + s[1..];
      if s[0] == sep then [[]] + rest
      else [[s[0]] + rest[0]] + rest[1..]
  }

  /** There is one piece more than there are separators. */
  lemma {:induction false} SplitCount(s: string, sep: char)
    ensures |Split(s, sep)| == multiset(s)[sep] + 1
    decreases |s|
  {
    if s != [] {
      SplitCount(s[1..], sep);
      assert s == [s[0]] + s[1..];
    }
  }

  /** JavaScript `parts.join(sep)`: the parts with one separator between each
      two neighbours; the empty list joins to the empty string. */
  function Join(parts: seq<string>, sep: char): (s: string)
    ensures |parts| == 1 ==> s == parts[0]
  {
    if parts == [] then []
    else if |parts| == 1 then parts[0]
    else parts[0] + [sep] + Join(parts[1..], sep)
  }

  lemma {:induction false} SplitAroundSeparator(w: string, sep: char, rest: string)
    requires sep !in w
    ensures Split(w + [sep] + rest, sep) == [w] + Split(rest, sep)
  {
    if w == [] {
      assert ([] + [sep] + rest)[1..] == rest;
    } else {
      var line := w + [sep] + rest;
      assert line[0] == w[0] && line[1..] == w[1..] + [sep] + rest;
      SplitAroundSeparator(w[1..], sep, rest);
      var after := Split(line[1..], sep);
      assert after[0] == w[1..] && after[1..] == Split(rest, sep);
      assert Split(line, sep) == [[line[0]] + after[0]] + after[1..];
      assert [w[0]] + w[1..] == w;
    }
  }

  lemma {:induction false} SplitNoSeparator(w: string, sep: char)
    requires sep !in w
    ensures Split(w, sep) == [w]
  {
    if w != [] {
      SplitNoSeparator(w[1..], sep);
      assert [w[0]] + w[1..] == w;
    }
  }

  /** Splitting a join recovers the parts, provided there is at least one part
      and no part contains the separator. */
  lemma {:induction false} SplitJoin(parts: seq<string>, sep: char)
    requires parts != []
    requires forall k :: 0 <= k < |parts| ==> sep !in parts[k]
    ensures Split(Join(parts, sep), sep) == parts
  {
    if |parts| == 1 {
      SplitNoSeparator(parts[0], sep);
    } else {
      SplitJoin(parts[1..], sep);
      SplitAroundSeparator(parts[0], sep, Join(parts[1..], sep));
      assert [parts[0]] + parts[1..] == parts;
    }
  }

  /** Joining the pieces of a split gives back the original string. */
  lemma {:induction false} JoinSplit(s: string, sep: char)
    ensures Join(Split(s, sep), sep) == s
  {
    if s != [] {
      JoinSplit(s[1..], sep);
      SplitCons(s, sep);
      var rest := Split(s[1..], sep);
      if s[0] == sep {
        JoinCons([], rest, sep);
      } else {
        JoinSplitStep(s[0], rest, sep);
      }
    }
  }

  /** Prepending a character to the first part prepends it to the join. */
  lemma JoinSplitStep(c: char, rest: seq<string>, sep: char)
    requires rest != []
    ensures Join([[c] + rest[0]] + rest[1..], sep) == [c] + Join(rest, sep)
  {
    var tail := rest[1..];
    assert [rest[0]] + tail == rest;
    JoinCons(rest[0], tail, sep);
    JoinCons([c] + rest[0], tail, sep);
    if tail != [] {
      AppendAssoc([c] + rest[0], [sep], Join(tail, sep));
      AppendAssoc([c], rest[0], [sep] + Join(tail, sep));
      AppendAssoc(rest[0], [sep], Join(tail, sep));
    }
  }

  lemma SplitCons(s: string, sep: char)
    requires s != []
    ensures var rest := Split(s[1..], sep);
      && s == [s[0]] + s[1..]
      && Split(s, sep) == if s[0] == sep then [[]] + rest else [[s[0]] + rest[0]] + rest[1..]
  {
  }

  lemma JoinCons(head: string, tail: seq<string>, sep: char)
    ensures Join([head] + tail, sep) == if tail == [] then head else head + [sep] + Join(tail, sep)
  {
    assert ([head] + tail)[1..] == tail;
  }

  /** No part starts, ends or doubles the separator in a join of non-empty
      parts that do not contain it. */
  lemma {:induction false} JoinSpacing(parts: seq<string>, sep: char)
    requires forall k :: 0 <= k < |parts| ==> parts[k] != [] && sep !in parts[k]
    ensures var s := Join(parts, sep);
      && (s != [] ==> s[0] != sep && s[|s| - 1] != sep)
      && (forall i :: 0 <= i < |s| - 1 ==> !(s[i] == sep && s[i + 1] == sep))
      && (s == [] <==> parts == [])
  {
    if |parts| > 1 {
      JoinSpacing(parts[1..], sep);
      var tail := Join(parts[1..], sep);
      var s := parts[0] + [sep] + tail;
      forall i | 0 <= i < |s| - 1
        ensures !(s[i] == sep && s[i + 1] == sep)
      {
        if i < |parts[0]| {
          assert s[i] == parts[0][i];
          assert s[i] in parts[0];
        } else if i == |parts[0]| {
          assert s[i + 1] == tail[0];
        } else {
          assert s[i] == tail[i - |parts[0]| - 1];
          assert s[i + 1] == tail[i - |parts[0]|];
        }
      }
    }
  }

  // ---------------------------------------------------------------------------
  // substring search

  /** Index of the first occurrence of `p` in `s`, if there is one. */
  function IndexOf(s: string, p: string): (r: Option<nat>)
    ensures r.Some? ==> r.value + |p| <= |s| && p <= s[r.value..]
    ensures r.Some? ==> forall j :: 0 <= j < r.value ==> !(p <= s[j..])
    ensures r.None? ==> forall j :: 0 <= j <= |s| ==> !(p <= s[j..])
  {
    if p <= s then Some(0)
    else if s == [] then None
    else
      var r := IndexOf(s[1..], p);
      assert forall j :: 1 <= j <= |s| ==> s[1..][j - 1..] == s[j..];
      match r
      case None => None
      case Some(i) => Some(i + 1)
  }

  /** JavaScript `s.includes(p)`. */
  predicate Contains(s: string, p: string) {
    IndexOf(s, p).Some?
  }

  /** `p` occurs in `s` exactly when some position of `s` starts with `p`. */
  lemma ContainsAt(s: string, p: string, j: nat)
    requires j <= |s| && p <= s[j..]
    ensures Contains(s, p)
  {
  }

  /** No occurrence of `p` in `s` starts before position `i`. */
  predicate FirstOccurrence(s: string, p: string, i: nat)
    requires i <= |s|
  {
    forall j :: 0 <= j < i ==> !(p <= s[j..])
  }

  /** JavaScript `s.replace(p, '')` with a literal string pattern: the first
      occurrence of `p`, if any, is cut out; nothing else changes. */
  function RemoveFirst(s: string, p: string): (r: string)
    ensures Contains(s, p) ==> |r| == |s| - |p|
    ensures !Contains(s, p) ==> r == s
    ensures p <= s ==> r == s[|p|..]
    ensures Contains(s, p) ==> exists i: nat ::
      && i + |p| <= |s| && p <= s[i..] && FirstOccurrence(s, p, i)
      && r == s[..i] + s[i + |p|..]
  {
    match IndexOf(s, p)
    case None => s
    case Some(i) => s[..i] + s[i + |p|..]
  }

  // ---------------------------------------------------------------------------
  // whitespace

  /** The characters JavaScript's `trim` and the regular-expression class `\s`
      treat as white space: the WhiteSpace and LineTerminator characters of the
      ECMAScript grammar. */
  predicate IsJsSpace(c: char) {
    || c == '\t' || c == '\n' || c == '\U{000B}' || c == '\U{000C}' || c == '\r'
    || c == ' ' || c == '\U{00A0}' || c == '\U{1680}'
    || ('\U{2000}' <= c <= '\U{200A}')
    || c == '\U{2028}' || c == '\U{2029}' || c == '\U{202F}' || c == '\U{205F}'
    || c == '\U{3000}' || c == '\U{FEFF}'
  }

  /** JavaScript `s.trim()`: the white space at both ends is cut off. */
  function Trim(s: string): (t: string)
    ensures |t| <= |s|
    ensures t != [] ==> !IsJsSpace(t[0]) && !IsJsSpace(t[|t| - 1])
  {
    var u := s[Span(s, IsJsSpace)..];
    u[..|u| - SpanEnd(u, IsJsSpace)]
  }

  /** `trim` leaves nothing exactly when every character is white space. */
  lemma TrimEmpty(s: string)
    ensures Trim(s) == [] <==> forall i :: 0 <= i < |s| ==> IsJsSpace(s[i])
  {
  }

  /** `trim` keeps every character that is not white space. */
  lemma TrimKeeps(s: string, k: nat)
    requires k < |s| && !IsJsSpace(s[k])
    ensures s[k] in Trim(s)
  {
    var a := Span(s, IsJsSpace);
    var u := s[a..];
    var b := SpanEnd(u, IsJsSpace);
    assert a <= k;
    assert u[k - a] == s[k];
    assert k - a < |u| - b;
    assert Trim(s)[k - a] == s[k];
  }

  /** A string with no white space at either end is its own trim. */
  lemma TrimNoEdges(s: string)
    requires s != [] ==> !IsJsSpace(s[0]) && !IsJsSpace(s[|s| - 1])
    ensures Trim(s) == s
  {
  }

  // ---------------------------------------------------------------------------
  // decimal numerals

  predicate IsDecimalDigit(c: char) {
    '0' <= c <= '9'
  }

  function DigitChar(d: nat): (c: char)
    requires d < 10
    ensures IsDecimalDigit(c) && c as int - '0' as int == d
  {
    (48 + d) as char
  }

  /** The decimal rendering of a natural number, as JavaScript's template
      strings and the store write integers: no sign, no leading zero. */
  function NatToDec(n: nat): (s: string)
    ensures |s| >= 1
    ensures forall i :: 0 <= i < |s| ==> IsDecimalDigit(s[i])
    ensures s[0] == '0' ==> n == 0 && |s| == 1
  {
    if n < 10 then [DigitChar(n)] else NatToDec(n / 10) + [DigitChar(n % 10)]
  }

  function DigitValue(c: char): (d: nat)
    requires IsDecimalDigit(c)
    ensures d < 10 && DigitChar(d) == c
  {
    c as int - '0' as int
  }

  /** The value of a string of decimal digits. */
  function DecValue(s: string): nat
    requires forall i :: 0 <= i < |s| ==> IsDecimalDigit(s[i])
  {
    if s == [] then 0
    else 10 * DecValue(s[..|s| - 1]) + DigitValue(s[|s| - 1])
  }

  /** A canonical decimal integer as the store accepts for increments: one or
      more digits, without a superfluous leading zero. */
  predicate IsCanonicalDec(s: string) {
    && |s| >= 1
    && (forall i :: 0 <= i < |s| ==> IsDecimalDigit(s[i]))
    && (s[0] == '0' ==> |s| == 1)
  }

  function ParseDec(s: string): (r: Option<nat>)
    ensures r.Some? <==> IsCanonicalDec(s)
  {
    if IsCanonicalDec(s) then Some(DecValue(s)) else None
  }

  /** Parsing a rendered number gives the number back. */
  lemma {:induction false} ParseNatToDec(n: nat)
    ensures ParseDec(NatToDec(n)) == Some(n)
  {
    if n >= 10 {
      ParseNatToDec(n / 10);
      var s := NatToDec(n);
      var init := NatToDec(n / 10);
      assert s == init + [DigitChar(n % 10)];
      assert s[..|s| - 1] == init;
      assert DigitValue(s[|s| - 1]) == n % 10;
      assert s[0] == init[0];
      assert DecValue(s) == 10 * DecValue(init) + n % 10;
    }
  }

  /** Rendering a parsed canonical numeral gives the numeral back. */
  lemma {:induction false} NatToDecParse(s: string)
    requires IsCanonicalDec(s)
    ensures NatToDec(DecValue(s)) == s
  {
    if |s| > 1 {
      var init := s[..|s| - 1];
      assert init[0] == s[0];
      NatToDecParse(init);
      var d := DigitValue(s[|s| - 1]);
      assert DecValue(init) != 0 by {
        assert NatToDec(0) == ['0'];
      }
      assert DecValue(s) / 10 == DecValue(init) && DecValue(s) % 10 == d;
      assert init + [s[|s| - 1]] == s;
    }
  }

  /** Different numbers render differently. */
  lemma NatToDecInjective(m: nat, n: nat)
    requires NatToDec(m) == NatToDec(n)
    ensures m == n
  {
    ParseNatToDec(m);
    ParseNatToDec(n);
  }
}
