/**
 * fixJsonString (common-mail-insights.ts): the best-effort repair applied to
 * the text of a retrieval-augmented draft before it is parsed. Two global
 * regular-expression replacements run one after the other:
 *
 *   1. `/"\s*"/g` -> `", "`: a quote, a run of whitespace, a quote become a
 *      quote, comma, space, quote (a missing separator between two strings);
 *   2. `/"([^"]*)"/g`: every quoted segment, paired left to right, has each
 *      newline that is not followed by a backslash and an `n` replaced by a
 *      backslash and an `n`.
 *
 * Each replacement scans left to right, resumes after the end of a match and
 * moves one character on where no match starts; the functions below follow
 * that scan one position at a time.
 */
module FixJson {

  /** JavaScript's `\s`: the ECMAScript WhiteSpace and LineTerminator characters. */
  predicate IsJsWhitespace(c: char) {
    || c == ' ' || c == '\t' || c == '\n' || c == '\r'
    || c == '\U{000B}' || c == '\U{000C}' || c == '\U{00A0}' || c == '\U{1680}'
    || ('\U{2000}' <= c <= '\U{200A}')
    || c == '\U{2028}' || c == '\U{2029}' || c == '\U{202F}' || c == '\U{205F}'
    || c == '\U{3000}' || c == '\U{FEFF}'
  }

  function Count(c: char, s: string): nat {
    if s == [] then 0 else (if s[0] == c then 1 else 0) + Count(c, s[1..])
  }

  lemma {:induction false} CountAppend(c: char, a: string, b: string)
    ensures Count(c, a + b) == Count(c, a) + Count(c, b)
  {
    if a == [] {
      assert a + b == b;
    } else {
      assert (a + b)[1..] == a[1..] + b;
      CountAppend(c, a[1..], b);
    }
  }

  lemma {:induction false} CountZero(c: char, s: string)
    ensures Count(c, s) == 0 <==> c !in s
  {
    if s != [] {
      CountZero(c, s[1..]);
      assert forall x :: x in s <==> x == s[0] || x in s[1..];
    }
  }

  // ---------------------------------------------------------------------
  // Pass 1: .replace(/"\s*"/g, '", "')
  // ---------------------------------------------------------------------

  const Separator: string := "\", \""

  /** The first index at or after `i` that does not hold whitespace (`|s|` if none). */
  function SkipWhitespace(s: string, i: nat): (j: nat)
    requires i <= |s|
    ensures i <= j <= |s|
    ensures forall k :: i <= k < j ==> IsJsWhitespace(s[k])
    ensures j < |s| ==> !IsJsWhitespace(s[j])
    decreases |s| - i
  {
    if i < |s| && IsJsWhitespace(s[i]) then SkipWhitespace(s, i + 1) else i
  }

  /** Does a match of `"\s*"` start at position 0 of `s`, and where does it end? */
  predicate SeparatorMatchAt(s: string) {
    |s| > 0 && s[0] == '"' && SkipWhitespace(s, 1) < |s| && s[SkipWhitespace(s, 1)] == '"'
  }

  function InsertSeparators(s: string): (r: string)
    decreases |s|
  {
    if s == [] then []
    else if SeparatorMatchAt(s) then Separator + InsertSeparators(s[SkipWhitespace(s, 1) + 1..])
    else [s[0]] + InsertSeparators(s[1..])
  }

  // ---------------------------------------------------------------------
  // Pass 2: .replace(/"([^"]*)"/g, m => m.replace(/\n(?!\\n)/g, "\\n"))
  // ---------------------------------------------------------------------

  /** The first index at or after `i` that holds a quote (`|s|` if none). */
  function NextQuote(s: string, i: nat): (j: nat)
    requires i <= |s|
    ensures i <= j <= |s|
    ensures forall k :: i <= k < j ==> s[k] != '"'
    ensures j < |s| ==> s[j] == '"'
    decreases |s| - i
  {
    if i < |s| && s[i] != '"' then NextQuote(s, i + 1) else i
  }

  /** The lookahead `(?!\\n)` fails at position `i + 1`: a backslash and an `n` follow. */
  predicate EscapedAfter(m: string, i: nat) {
    i + 2 < |m| && m[i + 1] == '\\' && m[i + 2] == 'n'
  }

  /** `m.replace(/\n(?!\\n)/g, "\\n")`; the lookahead reads the original text. */
  function EscapeNewlines(m: string): (r: string)
    decreases |m|
  {
    if m == [] then []
    else if m[0] == '\n' && !EscapedAfter(m, 0) then "\\n" + EscapeNewlines(m[1..])
    else [m[0]] + EscapeNewlines(m[1..])
  }

  function EscapeQuotedNewlines(s: string): (r: string)
    decreases |s|
  {
    if s == [] then []
    else if s[0] != '"' then [s[0]] + EscapeQuotedNewlines(s[1..])
    else if NextQuote(s, 1) == |s| then s
    else EscapeNewlines(s[..NextQuote(s, 1) + 1]) + EscapeQuotedNewlines(s[NextQuote(s, 1) + 1..])
  }

  function FixJsonString(s: string): (r: string) {
    EscapeQuotedNewlines(InsertSeparators(s))
  }

  // ---------------------------------------------------------------------
  // Properties
  // ---------------------------------------------------------------------

  lemma {:induction false} InsertSeparatorsIdentity(s: string)
    requires '"' !in s
    ensures InsertSeparators(s) == s
  {
    if s != [] {
      assert s[0] in s;
      assert forall c :: c in s[1..] ==> c in s;
      InsertSeparatorsIdentity(s[1..]);
    }
  }

  lemma {:induction false} EscapeQuotedNewlinesIdentity(s: string)
    requires '"' !in s
    ensures EscapeQuotedNewlines(s) == s
  {
    if s != [] {
      assert s[0] in s;
      assert forall c :: c in s[1..] ==> c in s;
      EscapeQuotedNewlinesIdentity(s[1..]);
    }
  }

  /** A text without any quote comes out exactly as it went in. */
  lemma FixJsonStringIdentity(s: string)
    requires '"' !in s
    ensures FixJsonString(s) == s
  {
    InsertSeparatorsIdentity(s);
    EscapeQuotedNewlinesIdentity(s);
  }

  /** A matched `"\s*"` holds exactly two quotes, as does its replacement. */
  lemma {:induction false} SeparatorMatchQuotes(s: string)
    requires SeparatorMatchAt(s)
    ensures Count('"', s[..SkipWhitespace(s, 1) + 1]) == 2
    ensures Count('"', Separator) == 2
  {
    var j := SkipWhitespace(s, 1);
    var mid := s[1..j];
    assert '"' !in mid by {
      forall k | 0 <= k < |mid| ensures mid[k] != '"' {
        assert IsJsWhitespace(s[1 + k]);
      }
    }
    CountZero('"', mid);
    assert s[..j + 1] == [s[0]] + mid + [s[j]];
    CountAppend('"', [s[0]] + mid, [s[j]]);
    CountAppend('"', [s[0]], mid);
    assert [s[0]][1..] == [];
    assert [s[j]][1..] == [];
    assert Separator == ['"'] + [',', ' '] + ['"'];
    CountAppend('"', ['"'] + [',', ' '], ['"']);
    CountAppend('"', ['"'], [',', ' ']);
    CountZero('"', [',', ' ']);
    assert ['"'][1..] == [];
  }

  lemma {:induction false} InsertSeparatorsQuotes(s: string)
    ensures Count('"', InsertSeparators(s)) == Count('"', s)
    decreases |s|
  {
    if s == [] {
    } else if SeparatorMatchAt(s) {
      var j := SkipWhitespace(s, 1);
      SeparatorMatchQuotes(s);
      InsertSeparatorsQuotes(s[j + 1..]);
      CountAppend('"', Separator, InsertSeparators(s[j + 1..]));
      assert s == s[..j + 1] + s[j + 1..];
      CountAppend('"', s[..j + 1], s[j + 1..]);
    } else {
      InsertSeparatorsQuotes(s[1..]);
      CountAppend('"', [s[0]], InsertSeparators(s[1..]));
      assert [s[0]][1..] == [];
    }
  }

  lemma {:induction false} EscapeNewlinesQuotes(m: string)
    ensures Count('"', EscapeNewlines(m)) == Count('"', m)
  {
    if m != [] {
      EscapeNewlinesQuotes(m[1..]);
      if m[0] == '\n' && !EscapedAfter(m, 0) {
        CountAppend('"', "\\n", EscapeNewlines(m[1..]));
        assert "\\n"[1..] == "n";
        assert "n"[1..] == [];
      } else {
        CountAppend('"', [m[0]], EscapeNewlines(m[1..]));
        assert [m[0]][1..] == [];
      }
    }
  }

  lemma {:induction false} EscapeQuotedNewlinesQuotes(s: string)
    ensures Count('"', EscapeQuotedNewlines(s)) == Count('"', s)
    decreases |s|
  {
    if s == [] {
    } else if s[0] != '"' {
      EscapeQuotedNewlinesQuotes(s[1..]);
      CountAppend('"', [s[0]], EscapeQuotedNewlines(s[1..]));
      assert [s[0]][1..] == [];
    } else if NextQuote(s, 1) == |s| {
    } else {
      var j := NextQuote(s, 1);
      EscapeNewlinesQuotes(s[..j + 1]);
      EscapeQuotedNewlinesQuotes(s[j + 1..]);
      CountAppend('"', EscapeNewlines(s[..j + 1]), EscapeQuotedNewlines(s[j + 1..]));
      assert s == s[..j + 1] + s[j + 1..];
      CountAppend('"', s[..j + 1], s[j + 1..]);
    }
  }

  /** Neither pass adds or removes a quote. */
  lemma FixJsonStringQuotes(s: string)
    ensures Count('"', FixJsonString(s)) == Count('"', s)
  {
    InsertSeparatorsQuotes(s);
    EscapeQuotedNewlinesQuotes(InsertSeparators(s));
  }

  /** Whitespace and commas: all that pass 1 may insert or remove. */
  predicate IsLayout(c: char) {
    IsJsWhitespace(c) || c == ','
  }

  function DropLayout(s: string): (r: string)
    ensures forall c :: c in r ==> c in s && !IsLayout(c)
  {
    if s == [] then []
    else if IsLayout(s[0]) then DropLayout(s[1..])
    else [s[0]] + DropLayout(s[1..])
  }

  lemma {:induction false} DropLayoutAppend(a: string, b: string)
    ensures DropLayout(a + b) == DropLayout(a) + DropLayout(b)
  {
    if a == [] {
      assert a + b == b;
    } else {
      assert (a + b)[1..] == a[1..] + b;
      DropLayoutAppend(a[1..], b);
    }
  }

  lemma {:induction false} DropLayoutAllLayout(s: string)
    requires forall k :: 0 <= k < |s| ==> IsLayout(s[k])
    ensures DropLayout(s) == []
  {
    if s != [] {
      DropLayoutAllLayout(s[1..]);
    }
  }

  /**
   * Pass 1 changes nothing but layout: with whitespace and commas removed,
   * its output and its input are the same text.
   */
  lemma {:induction false} InsertSeparatorsOnlyLayout(s: string)
    ensures DropLayout(InsertSeparators(s)) == DropLayout(s)
    decreases |s|
  {
    if s == [] {
    } else if SeparatorMatchAt(s) {
      var j := SkipWhitespace(s, 1);
      InsertSeparatorsOnlyLayout(s[j + 1..]);
      SeparatorLayout(InsertSeparators(s[j + 1..]));
      SeparatorMatchLayout(s);
    } else {
      InsertSeparatorsOnlyLayout(s[1..]);
      DropLayoutAppend([s[0]], InsertSeparators(s[1..]));
      assert [s[0]][1..] == [];
    }
  }

  lemma SeparatorLayout(t: string)
    ensures DropLayout(Separator + t) == ['"', '"'] + DropLayout(t)
  {
    DropLayoutAppend(Separator, t);
    assert Separator == ['"'] + [',', ' '] + ['"'];
    DropLayoutAppend(['"'] + [',', ' '], ['"']);
    DropLayoutAppend(['"'], [',', ' ']);
    DropLayoutAllLayout([',', ' ']);
    assert ['"'][1..] == [];
  }

  lemma SeparatorMatchLayout(s: string)
    requires s != [] && SeparatorMatchAt(s)
    ensures var j := SkipWhitespace(s, 1);
      DropLayout(s) == ['"', '"'] + DropLayout(s[j + 1..])
  {
    var j := SkipWhitespace(s, 1);
    assert s == [s[0]] + s[1..j] + [s[j]] + s[j + 1..];
    DropLayoutAppend([s[0]] + s[1..j] + [s[j]], s[j + 1..]);
    DropLayoutAppend([s[0]] + s[1..j], [s[j]]);
    DropLayoutAppend([s[0]], s[1..j]);
    DropLayoutAllLayout(s[1..j]);
    assert ['"'][1..] == [];
  }

  /** A run of `n` whitespace characters from `i`, ended by a non-whitespace character or the end. */
  lemma {:induction false} SkipWhitespaceRun(s: string, i: nat, n: nat)
    requires i + n <= |s|
    requires forall k :: i <= k < i + n ==> IsJsWhitespace(s[k])
    requires i + n < |s| ==> !IsJsWhitespace(s[i + n])
    ensures SkipWhitespace(s, i) == i + n
    decreases n
  {
    if n > 0 {
      SkipWhitespaceRun(s, i + 1, n - 1);
    }
  }

  /** Pass 1 replaces a quote, a run of whitespace and a quote by `", "`, and goes on after them. */
  lemma InsertSeparatorsAtMatch(ws: string, b: string)
    requires forall k :: 0 <= k < |ws| ==> IsJsWhitespace(ws[k])
    ensures InsertSeparators(['"'] + ws + ['"'] + b) == Separator + InsertSeparators(b)
  {
    var s := ['"'] + ws + ['"'] + b;
    assert forall k :: 1 <= k < 1 + |ws| ==> s[k] == ws[k - 1];
    assert s[1 + |ws|] == '"';
    SkipWhitespaceRun(s, 1, |ws|);
    assert SeparatorMatchAt(s);
    assert s[|ws| + 2..] == b;
  }

  /** Pass 1 copies, unchanged, every character at which no match starts. */
  lemma {:induction false} InsertSeparatorsUnmatchedPrefix(a: string, b: string)
    requires forall i :: 0 <= i < |a| ==> !SeparatorMatchAt((a + b)[i..])
    ensures InsertSeparators(a + b) == a + InsertSeparators(b)
  {
    if a == [] {
      assert a + b == b;
    } else {
      var s := a + b;
      assert s[0..] == s;
      assert s[1..] == a[1..] + b;
      forall i | 0 <= i < |a[1..]|
        ensures !SeparatorMatchAt((a[1..] + b)[i..])
      {
        assert (a[1..] + b)[i..] == s[i + 1..];
      }
      InsertSeparatorsUnmatchedPrefix(a[1..], b);
    }
  }

  /** Text in which no match starts is left exactly as it is by pass 1. */
  lemma InsertSeparatorsNoMatch(s: string)
    requires forall i :: 0 <= i < |s| ==> !SeparatorMatchAt(s[i..])
    ensures InsertSeparators(s) == s
  {
    assert s + [] == s;
    InsertSeparatorsUnmatchedPrefix(s, []);
  }

  /** Every newline is followed by a backslash and an `n`. */
  predicate NoBareNewline(m: string) {
    forall i :: 0 <= i < |m| && m[i] == '\n' ==> EscapedAfter(m, i)
  }

  lemma EscapeNewlinesHead(m: string)
    requires m != [] && m[0] != '\n'
    ensures EscapeNewlines(m) == [m[0]] + EscapeNewlines(m[1..])
  {
  }

  /** After pass 2 no newline in a segment is left bare. */
  lemma {:induction false} EscapeNewlinesNoBare(m: string)
    ensures NoBareNewline(EscapeNewlines(m))
  {
    if m != [] {
      EscapeNewlinesNoBare(m[1..]);
      var t := EscapeNewlines(m[1..]);
      if m[0] == '\n' && !EscapedAfter(m, 0) {
        var r := "\\n" + t;
        forall i | 0 <= i < |r| && r[i] == '\n' ensures EscapedAfter(r, i) {
          assert i >= 2 && r[i] == t[i - 2];
          assert EscapedAfter(t, i - 2);
        }
      } else if m[0] == '\n' {
        var r := [m[0]] + t;
        EscapeNewlinesHead(m[1..]);
        EscapeNewlinesHead(m[2..]);
        assert m[1..][1..] == m[2..];
        assert r[1] == '\\' && r[2] == 'n';
        forall i | 0 <= i < |r| && r[i] == '\n' ensures EscapedAfter(r, i) {
          if i > 0 {
            assert r[i] == t[i - 1];
            assert EscapedAfter(t, i - 1);
          }
        }
      } else {
        var r := [m[0]] + t;
        forall i | 0 <= i < |r| && r[i] == '\n' ensures EscapedAfter(r, i) {
          assert i > 0 && r[i] == t[i - 1];
          assert EscapedAfter(t, i - 1);
        }
      }
    }
  }

  /** A segment with no bare newline is left as it is. */
  lemma {:induction false} EscapeNewlinesFixpoint(m: string)
    requires NoBareNewline(m)
    ensures EscapeNewlines(m) == m
  {
    if m != [] {
      assert NoBareNewline(m[1..]) by {
        forall i | 0 <= i < |m[1..]| && m[1..][i] == '\n' ensures EscapedAfter(m[1..], i) {
          assert m[i + 1] == '\n' && EscapedAfter(m, i + 1);
        }
      }
      EscapeNewlinesFixpoint(m[1..]);
    }
  }

  /** Escaping newlines twice gives what escaping once gives. */
  lemma EscapeNewlinesIdempotent(m: string)
    ensures EscapeNewlines(EscapeNewlines(m)) == EscapeNewlines(m)
  {
    EscapeNewlinesNoBare(m);
    EscapeNewlinesFixpoint(EscapeNewlines(m));
  }

  /** Text before the first quote is never touched by pass 2. */
  lemma {:induction false} EscapeQuotedNewlinesUnquotedPrefix(a: string, b: string)
    requires '"' !in a
    ensures EscapeQuotedNewlines(a + b) == a + EscapeQuotedNewlines(b)
  {
    if a == [] {
      assert a + b == b;
    } else {
      assert (a + b)[0] == a[0] && a[0] in a;
      assert (a + b)[1..] == a[1..] + b;
      assert forall c :: c in a[1..] ==> c in a;
      EscapeQuotedNewlinesUnquotedPrefix(a[1..], b);
    }
  }

  lemma {:induction false} EscapeNewlinesAppendQuote(x: string)
    ensures EscapeNewlines(x + ['"']) == EscapeNewlines(x) + ['"']
  {
    if x == [] {
      assert x + ['"'] == ['"'];
      assert ['"'][1..] == [];
    } else {
      var y := x + ['"'];
      assert y[1..] == x[1..] + ['"'];
      assert y[0] == x[0];
      assert EscapedAfter(y, 0) == EscapedAfter(x, 0);
      EscapeNewlinesAppendQuote(x[1..]);
    }
  }

  lemma EscapeNewlinesNoQuote(m: string)
    requires '"' !in m
    ensures '"' !in EscapeNewlines(m)
  {
    CountZero('"', m);
    EscapeNewlinesQuotes(m);
    CountZero('"', EscapeNewlines(m));
  }

  /** A quoted segment keeps its two quotes and gains none in between. */
  lemma EscapeNewlinesSegment(mid: string)
    requires '"' !in mid
    ensures EscapeNewlines(['"'] + mid + ['"']) == ['"'] + EscapeNewlines(mid) + ['"']
    ensures '"' !in EscapeNewlines(mid)
  {
    var seg := ['"'] + mid + ['"'];
    assert seg[1..] == mid + ['"'];
    assert EscapeNewlines(seg) == ['"'] + EscapeNewlines(seg[1..]);
    EscapeNewlinesAppendQuote(mid);
    EscapeNewlinesNoQuote(mid);
  }

  /** The newline at `i` is one the lookahead lets through: it is replaced. */
  predicate BareAt(m: string, i: nat)
    requires i < |m|
  {
    m[i] == '\n' && !EscapedAfter(m, i)
  }

  /** How many replaced newlines come before position `i`. */
  function BareBefore(m: string, i: nat): nat
    requires i <= |m|
  {
    if i == 0 then 0 else BareBefore(m, i - 1) + (if BareAt(m, i - 1) then 1 else 0)
  }

  lemma {:induction false} BareBeforeTail(m: string, i: nat)
    requires i < |m|
    ensures BareBefore(m, i + 1) == (if BareAt(m, 0) then 1 else 0) + BareBefore(m[1..], i)
    decreases i
  {
    if i > 0 {
      BareBeforeTail(m, i - 1);
      assert m[1..][i - 1] == m[i];
      assert EscapedAfter(m[1..], i - 1) == EscapedAfter(m, i);
    }
  }

  lemma {:induction false} EscapeNewlinesLength(m: string)
    ensures |EscapeNewlines(m)| == |m| + BareBefore(m, |m|)
  {
    if m != [] {
      EscapeNewlinesLength(m[1..]);
      BareBeforeTail(m, |m| - 1);
    }
  }

  /**
   * Character `i` of segment `m` sits in `r` at its own position shifted by the
   * replacements before it: as a backslash and an `n` when it is a newline the
   * lookahead lets through, as itself otherwise.
   */
  predicate PlacedAt(m: string, r: string, i: nat)
    requires i < |m|
  {
    var o := i + BareBefore(m, i);
    if BareAt(m, i) then o + 1 < |r| && r[o] == '\\' && r[o + 1] == 'n'
    else o < |r| && r[o] == m[i]
  }

  lemma {:induction false} EscapeNewlinesAt(m: string, i: nat)
    requires i < |m|
    ensures PlacedAt(m, EscapeNewlines(m), i)
    decreases i
  {
    EscapeNewlinesLength(m);
    if i > 0 {
      EscapeNewlinesAt(m[1..], i - 1);
      BareBeforeTail(m, i - 1);
      assert m[1..][i - 1] == m[i];
      assert EscapedAfter(m[1..], i - 1) == EscapedAfter(m, i);
      var head := if BareAt(m, 0) then "\\n" else [m[0]];
      assert EscapeNewlines(m) == head + EscapeNewlines(m[1..]);
    }
  }

  /**
   * The inner replacement in full: every character of the segment is placed
   * in order, a newline the lookahead lets through as a backslash and an `n`;
   * nothing else is inserted, since the length grows by exactly the number
   * of replacements.
   */
  lemma EscapeNewlinesSpec(m: string)
    ensures |EscapeNewlines(m)| == |m| + BareBefore(m, |m|)
    ensures forall i :: 0 <= i < |m| ==> PlacedAt(m, EscapeNewlines(m), i)
  {
    EscapeNewlinesLength(m);
    forall i | 0 <= i < |m| {
      EscapeNewlinesAt(m, i);
    }
  }

  /** Pass 2 escapes a closed quoted segment, quotes kept, and goes on after its closing quote. */
  lemma EscapeQuotedNewlinesAtSegment(mid: string, b: string)
    requires '"' !in mid
    ensures EscapeQuotedNewlines(['"'] + mid + ['"'] + b) == ['"'] + EscapeNewlines(mid) + ['"'] + EscapeQuotedNewlines(b)
  {
    var s := ['"'] + mid + ['"'] + b;
    assert forall k :: 1 <= k < 1 + |mid| ==> s[k] == mid[k - 1];
    assert NextQuote(s, 1) == |mid| + 1 by {
      assert forall k :: 1 <= k < |mid| + 1 ==> s[k] != '"';
      assert s[|mid| + 1] == '"';
    }
    assert s[..|mid| + 2] == ['"'] + mid + ['"'];
    assert s[|mid| + 2..] == b;
    EscapeNewlinesSegment(mid);
  }

  /** A quote that no later quote closes starts no segment: the rest is left as it is. */
  lemma EscapeQuotedNewlinesUnclosed(mid: string)
    requires '"' !in mid
    ensures EscapeQuotedNewlines(['"'] + mid) == ['"'] + mid
  {
    var s := ['"'] + mid;
    assert forall k :: 1 <= k < |s| ==> s[k] == mid[k - 1];
    assert NextQuote(s, 1) == |s|;
  }

  /** Pass 2 applied to its own output changes nothing more. */
  lemma {:induction false} EscapeQuotedNewlinesIdempotent(s: string)
    ensures EscapeQuotedNewlines(EscapeQuotedNewlines(s)) == EscapeQuotedNewlines(s)
    decreases |s|
  {
    if s == [] {
    } else if s[0] != '"' {
      var t := EscapeQuotedNewlines(s[1..]);
      EscapeQuotedNewlinesIdempotent(s[1..]);
      var r := [s[0]] + t;
      assert r[0] == s[0] && r[1..] == t;
    } else if NextQuote(s, 1) == |s| {
    } else {
      var j := NextQuote(s, 1);
      var seg := s[..j + 1];
      var mid := s[1..j];
      assert '"' !in mid by {
        forall k | 0 <= k < |mid| ensures mid[k] != '"' {
          assert mid[k] == s[k + 1];
        }
      }
      assert seg == ['"'] + mid + ['"'];
      EscapeNewlinesSegment(mid);
      var mid' := EscapeNewlines(mid);
      var seg' := EscapeNewlines(seg);
      var rest' := EscapeQuotedNewlines(s[j + 1..]);
      var out := seg' + rest';
      assert out == EscapeQuotedNewlines(s);
      assert out[0] == '"';
      assert NextQuote(out, 1) == |seg'| - 1 by {
        assert forall k :: 1 <= k < |seg'| - 1 ==> out[k] == mid'[k - 1];
        assert out[|seg'| - 1] == '"';
      }
      assert out[..|seg'|] == seg' && out[|seg'|..] == rest';
      EscapeNewlinesIdempotent(seg);
      EscapeQuotedNewlinesIdempotent(s[j + 1..]);
    }
  }

  /** The empty string value `""` is read as a missing separator and becomes `", "`. */
  lemma EmptyStringBecomesSeparator()
    ensures FixJsonString("\"\"") == Separator
  {
    var s := "\"\"";
    assert SkipWhitespace(s, 1) == 1;
    assert SeparatorMatchAt(s);
    assert s[2..] == [];
    assert InsertSeparators(s) == Separator + InsertSeparators([]);
    assert NextQuote(Separator, 1) == 3;
    assert Separator[..4] == Separator && Separator[4..] == [];
    assert EscapeNewlines(Separator) == Separator by {
      EscapeNewlinesFixpoint(Separator);
    }
  }
}
