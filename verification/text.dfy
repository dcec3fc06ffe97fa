/**
  The few pieces of Python string behaviour the node relies on:
  `str.split()` with no separator, `str.split("\n")`, `" ".join` and
  `"\n".join`, decimal `str(int)` and `int(str)`, and the ordering `<` on
  strings.
 */
module Text {
  import opened Common

  /** Characters for which Python's `str.isspace()` holds; `str.split()`
      with no separator breaks on runs of these. */
  predicate IsSpace(c: char) {
    || c == ' '
    || ('\t' <= c <= '\r')
    || ('\U{1c}' <= c <= '\U{1f}')
    || c == '\U{85}' || c == '\U{a0}' || c == '\U{1680}'
    || ('\U{2000}' <= c <= '\U{200a}')
    || c == '\U{2028}' || c == '\U{2029}' || c == '\U{202f}'
    || c == '\U{205f}' || c == '\U{3000}'
  }

  predicate IsNewline(c: char) {
    c == '\n'
  }

  /** A word as `str.split()` produces it: non-empty, without whitespace. */
  predicate IsToken(s: string) {
    |s| > 0 && forall i :: 0 <= i < |s| ==> !IsSpace(s[i])
  }

  /** Length of the longest prefix of `s` free of `stop` characters. */
  function Span(s: string, stop: char -> bool): (n: nat)
    ensures n <= |s|
    ensures forall i :: 0 <= i < n ==> !stop(s[i])
    ensures n < |s| ==> stop(s[n])
    decreases |s|
  {
    if |s| == 0 || stop(s[0]) then 0 else 1 + Span(s[1..], stop)
  }

  /** Python's `s.split()`: the maximal runs of non-whitespace characters. */
  function Words(s: string): (ws: seq<string>)
    ensures forall i :: 0 <= i < |ws| ==> IsToken(ws[i])
    decreases |s|
  {
    if |s| == 0 then []
    else if IsSpace(s[0]) then Words(s[1..])
    else
      var n := Span(s, IsSpace);
      [s[..n]] + Words(s[n..])
  }

  /** Python's `s.split("\n")`: always at least one piece, none holding a
      newline; the empty string gives `[""]`. */
  function Lines(s: string): (ls: seq<string>)
    ensures |ls| >= 1
    ensures forall i :: 0 <= i < |ls| ==> '\n' !in ls[i]
    decreases |s|
  {
    var n := Span(s, IsNewline);
    if n == |s| then [s] else [s[..n]] + Lines(s[n + 1..])
  }

  /** Python's `sep.join(xs)` for a one-character separator. */
  function JoinWith(sep: char, xs: seq<string>): string
    decreases |xs|
  {
    if |xs| == 0 then ""
    else if |xs| == 1 then xs[0]
    else xs[0] + [sep] + JoinWith(sep, xs[1..])
  }

  lemma {:induction false} SpanOfPrefix(t: string, rest: string, stop: char -> bool)
    requires forall i :: 0 <= i < |t| ==> !stop(t[i])
    requires rest == [] || stop(rest[0])
    ensures Span(t + rest, stop) == |t|
    decreases |t|
  {
    if |t| == 0 {
      assert t + rest == rest;
    } else {
      assert (t + rest)[1..] == t[1..] + rest;
      SpanOfPrefix(t[1..], rest, stop);
    }
  }

  /** A token followed by whitespace (or nothing) is split off as one word. */
  lemma WordsOfTokenThen(t: string, rest: string)
    requires IsToken(t)
    requires rest == [] || IsSpace(rest[0])
    ensures Words(t + rest) == [t] + Words(rest)
  {
    SpanOfPrefix(t, rest, IsSpace);
    var s := t + rest;
    assert s[..|t|] == t;
    assert s[|t|..] == rest;
  }

  /** Leading whitespace is skipped. */
  lemma WordsSkipsSpace(c: char, rest: string)
    requires IsSpace(c)
    ensures Words([c] + rest) == Words(rest)
  {
    assert ([c] + rest)[1..] == rest;
  }

  /** `" ".join` of tokens splits back into the same tokens. */
  lemma {:induction false} WordsOfJoinedTokens(ws: seq<string>)
    requires forall i :: 0 <= i < |ws| ==> IsToken(ws[i])
    ensures Words(JoinWith(' ', ws)) == ws
    decreases |ws|
  {
    if |ws| == 1 {
      WordsOfTokenThen(ws[0], "");
      assert ws[0] + "" == ws[0];
    } else if |ws| > 1 {
      var rest := JoinWith(' ', ws[1..]);
      assert JoinWith(' ', ws) == ws[0] + ([' '] + rest);
      WordsOfTokenThen(ws[0], [' '] + rest);
      WordsSkipsSpace(' ', rest);
      WordsOfJoinedTokens(ws[1..]);
      assert [ws[0]] + ws[1..] == ws;
    }
  }

  /** `"\n".join` of newline-free pieces splits back into the same pieces. */
  lemma {:induction false} LinesOfJoin(ls: seq<string>)
    requires |ls| >= 1
    requires forall i :: 0 <= i < |ls| ==> '\n' !in ls[i]
    ensures Lines(JoinWith('\n', ls)) == ls
    decreases |ls|
  {
    var l := ls[0];
    assert forall i :: 0 <= i < |l| ==> !IsNewline(l[i]) by {
      forall i | 0 <= i < |l| ensures !IsNewline(l[i]) {
        assert l[i] in l;
      }
    }
    if |ls| == 1 {
      SpanOfPrefix(l, "", IsNewline);
      assert l + "" == l;
    } else {
      var rest := JoinWith('\n', ls[1..]);
      var s := l + (['\n'] + rest);
      assert JoinWith('\n', ls) == s;
      SpanOfPrefix(l, ['\n'] + rest, IsNewline);
      assert s[..|l|] == l;
      assert s[|l| + 1..] == rest;
      LinesOfJoin(ls[1..]);
    }
  }

  /** Splitting on newlines and joining back gives the original string. */
  lemma {:induction false} JoinOfLines(s: string)
    ensures JoinWith('\n', Lines(s)) == s
    decreases |s|
  {
    var n := Span(s, IsNewline);
    if n < |s| {
      var rest := s[n + 1..];
      var head := s[..n];
      assert Lines(s) == [head] + Lines(rest);
      JoinOfLines(rest);
      var ls := [head] + Lines(rest);
      assert ls[0] == head && ls[1..] == Lines(rest) && |ls| >= 2;
      assert JoinWith('\n', ls) == head + ['\n'] + JoinWith('\n', Lines(rest));
      assert s == head + ['\n'] + rest;
    }
  }

  // Decimal numerals

  predicate IsDigit(c: char) {
    '0' <= c <= '9'
  }

  function DigitChar(d: nat): (c: char)
    requires d < 10
    ensures IsDigit(c)
  {
    ('0' as int + d) as char
  }

  function DigitValue(c: char): (d: nat)
    requires IsDigit(c)
    ensures d < 10
  {
    c as int - '0' as int
  }

  /** Python's `str(n)` for a non-negative integer. */
  function NatToString(n: nat): (s: string)
    ensures |s| >= 1
    ensures forall i :: 0 <= i < |s| ==> IsDigit(s[i])
    decreases n
  {
    if n < 10 then [DigitChar(n)] else NatToString(n / 10) + [DigitChar(n % 10)]
  }

  /** Python's `str(i)` for any integer. */
  function IntToString(i: int): string {
    if i < 0 then "-" + NatToString(-i) else NatToString(i)
  }

  /** The digit part `int()` accepts: digits, where single underscores
      may separate two digits. */
  predicate IsDigitGroups(s: string) {
    && |s| > 0
    && (forall i :: 0 <= i < |s| ==> IsDigit(s[i]) || s[i] == '_')
    && s[0] != '_'
    && s[|s| - 1] != '_'
    && (forall i :: 0 < i < |s| && s[i] == '_' ==> s[i - 1] != '_')
  }

  /** The value of a numeral, read left to right, underscores skipped. */
  function DigitsValue(s: string): nat
    requires forall i :: 0 <= i < |s| ==> IsDigit(s[i]) || s[i] == '_'
    decreases |s|
  {
    if |s| == 0 then 0
    else
      var last := s[|s| - 1];
      if last == '_' then DigitsValue(s[..|s| - 1])
      else DigitsValue(s[..|s| - 1]) * 10 + DigitValue(last)
  }

  /** Python's `int(s)` on a word: an optional sign, then digit groups;
      `None` where Python raises `ValueError`. */
  function ParseInt(s: string): (r: Option<int>)
    ensures r.Some? <==>
              || IsDigitGroups(s)
              || (|s| > 0 && (s[0] == '+' || s[0] == '-') && IsDigitGroups(s[1..]))
    ensures r.Some? ==> |s| > 0 && (r.value < 0 ==> s[0] == '-')
  {
    if |s| > 0 && (s[0] == '+' || s[0] == '-') then
      var body := s[1..];
      if IsDigitGroups(body) then
        var v: int := DigitsValue(body);
        Some(if s[0] == '-' then -v else v)
      else None
    else if IsDigitGroups(s) then Some(DigitsValue(s))
    else None
  }

  lemma {:induction false} ValueOfNatToString(n: nat)
    ensures DigitsValue(NatToString(n)) == n
    decreases n
  {
    var s := NatToString(n);
    if n < 10 {
      assert s[..|s| - 1] == [];
    } else {
      ValueOfNatToString(n / 10);
      assert s[..|s| - 1] == NatToString(n / 10);
    }
  }

  /** `int(str(i)) == i`. */
  lemma ParseIntOfIntToString(i: int)
    ensures ParseInt(IntToString(i)) == Some(i)
  {
    var s := IntToString(i);
    if i < 0 {
      assert s[1..] == NatToString(-i);
      ValueOfNatToString(-i);
    } else {
      ValueOfNatToString(i);
    }
  }

  /** A printed integer is a single word. */
  lemma IntToStringIsToken(i: int)
    ensures IsToken(IntToString(i))
  {
    var s := IntToString(i);
    if i < 0 {
      assert forall k :: 1 <= k < |s| ==> s[k] == NatToString(-i)[k - 1];
    }
  }

  // String ordering

  /** Python's `a < b` on strings: lexicographic by code point, a proper
      prefix being smaller. */
  predicate LexLess(a: string, b: string)
    decreases |a|
  {
    if |a| == 0 then |b| > 0
    else if |b| == 0 then false
    else if a[0] != b[0] then a[0] < b[0]
    else LexLess(a[1..], b[1..])
  }

  /** Strings with a common non-empty prefix start with the same
      character. */
  lemma PrefixHead(a: string, b: string, i: nat)
    requires 0 < i <= |a| && i <= |b| && a[..i] == b[..i]
    ensures a[0] == b[0]
  {
    assert a[..i][0] == a[0] && b[..i][0] == b[0];
  }

  /** The recursive definition is the textbook one: `a < b` iff `a` is a
      proper prefix of `b`, or at the first position where they differ
      `a` has the smaller code point. */
  lemma {:induction false} LexLessIsCodePointOrder(a: string, b: string)
    ensures LexLess(a, b) <==>
              || (|a| < |b| && a == b[..|a|])
              || (exists i :: 0 <= i < |a| && i < |b| && a[..i] == b[..i] && a[i] < b[i])
    decreases |a|
  {
    if |a| == 0 {
      assert b[..0] == a;
    } else if |b| == 0 {
    } else if a[0] != b[0] {
      assert |a| < |b| ==> a != b[..|a|] by {
        if |a| < |b| {
          assert b[..|a|][0] == b[0];
        }
      }
      forall i | 0 <= i < |a| && i < |b| && a[..i] == b[..i] ensures i == 0 {
        if i > 0 {
          PrefixHead(a, b, i);
          assert false;
        }
      }
      if a[0] < b[0] {
        assert a[..0] == b[..0];
      }
    } else {
      var a', b' := a[1..], b[1..];
      LexLessIsCodePointOrder(a', b');
      assert a == [a[0]] + a' && b == [b[0]] + b';
      assert (|a| < |b| && a == b[..|a|]) <==> (|a'| < |b'| && a' == b'[..|a'|]) by {
        if |a| < |b| {
          assert b[..|a|] == [b[0]] + b'[..|a'|];
        }
      }
      if exists i :: 0 <= i < |a'| && i < |b'| && a'[..i] == b'[..i] && a'[i] < b'[i] {
        var i :| 0 <= i < |a'| && i < |b'| && a'[..i] == b'[..i] && a'[i] < b'[i];
        assert a[..i + 1] == [a[0]] + a'[..i] && b[..i + 1] == [b[0]] + b'[..i];
        assert a[i + 1] == a'[i] && b[i + 1] == b'[i];
      }
      if exists i :: 0 <= i < |a| && i < |b| && a[..i] == b[..i] && a[i] < b[i] {
        var i :| 0 <= i < |a| && i < |b| && a[..i] == b[..i] && a[i] < b[i];
        assert i > 0;
        assert a'[..i - 1] == a[..i][1..] && b'[..i - 1] == b[..i][1..];
        assert a'[i - 1] == a[i] && b'[i - 1] == b[i];
      }
    }
  }

  /** `<` on strings is a strict total order: exactly one of `a < b`,
      `a == b`, `b < a` holds. */
  lemma {:induction false} LexLessTrichotomy(a: string, b: string)
    ensures !(LexLess(a, b) && a == b)
    ensures !(LexLess(a, b) && LexLess(b, a))
    ensures LexLess(a, b) || a == b || LexLess(b, a)
    decreases |a|
  {
    if |a| > 0 && |b| > 0 && a[0] == b[0] {
      LexLessTrichotomy(a[1..], b[1..]);
      if a[1..] == b[1..] {
        assert a == [a[0]] + a[1..] && b == [b[0]] + b[1..];
      }
    }
  }
}
