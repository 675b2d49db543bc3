/**
 * The pieces of Ruby's `String`, `Array#join` and `Regexp` behaviour that the
 * plugin leans on: character classes, `chomp`, `strip`, the three ways it
 * splits text (`split(/\n/)`, `split` on whitespace, `IO.readlines`), decimal
 * numbers, and the line anchor `^`.
 */
module RubyText {
  import opened Optional

  /** `\s` in a Ruby regexp, and the separators of an argument-less `String#split`. */
  predicate IsSpace(c: char) {
    c == ' ' || c == '\t' || c == '\n' || c == '\U{B}' || c == '\U{C}' || c == '\r'
  }

  predicate NotSpace(c: char) { !IsSpace(c) }

  /** What `String#strip` removes from either end: ASCII whitespace and NUL. */
  predicate IsStripped(c: char) { IsSpace(c) || c == '\0' }

  /** `\d`. */
  predicate IsDigit(c: char) { '0' <= c <= '9' }

  /** `\w`: Ruby's word characters are ASCII letters, digits and underscore. */
  predicate IsWordChar(c: char) {
    'a' <= c <= 'z' || 'A' <= c <= 'Z' || IsDigit(c) || c == '_'
  }

  /** A non-empty run of `\d`. */
  predicate IsDigits(s: string) {
    s != "" && forall i :: 0 <= i < |s| ==> IsDigit(s[i])
  }

  /** A non-empty run of `\S`: what `\S+` matches and what `split` returns. */
  predicate IsWord(s: string) {
    s != "" && forall i :: 0 <= i < |s| ==> NotSpace(s[i])
  }

  /** `s =~ /\s/`. */
  predicate HasSpace(s: string) {
    exists i :: 0 <= i < |s| && IsSpace(s[i])
  }

  function ToLower(c: char): char {
    if 'A' <= c <= 'Z' then (c as int + 32) as char else c
  }

  function Lowercase(s: string): (r: string)
    ensures |r| == |s|
  {
    seq(|s|, i requires 0 <= i < |s| => ToLower(s[i]))
  }

  /** `s =~ /word/i` for a lower-case `word`, folding ASCII case only. */
  predicate ContainsIgnoringCase(s: string, word: string) {
    exists i :: 0 <= i <= |s| - |word| && MatchesIgnoringCaseAt(s, word, i)
  }

  predicate MatchesIgnoringCaseAt(s: string, word: string, i: int)
    requires 0 <= i <= |s| - |word|
  {
    Lowercase(s[i..i + |word|]) == word
  }

  /** The longest prefix of `s` whose characters all satisfy `p`: a greedy `[...]*` at the start. */
  function TakeWhile(s: string, p: char -> bool): (r: string)
    ensures r <= s
    ensures forall i :: 0 <= i < |r| ==> p(r[i])
    ensures |r| == |s| || !p(s[|r|])
  {
    if |s| == 0 || !p(s[0]) then "" else [s[0]] + TakeWhile(s[1..], p)
  }

  /** A run of characters satisfying `p`, cut short by one that does not, is taken whole. */
  lemma {:induction false} TakeWhileStops(run: string, rest: string, p: char -> bool)
    requires forall i :: 0 <= i < |run| ==> p(run[i])
    requires rest == "" || !p(rest[0])
    ensures TakeWhile(run + rest, p) == run
    decreases |run|
  {
    if |run| > 0 {
      assert (run + rest)[1..] == run[1..] + rest;
      TakeWhileStops(run[1..], rest, p);
    } else {
      assert run + rest == rest;
    }
  }

  /** `String#chomp` with the default separator: one trailing `\r\n`, `\n` or `\r`. */
  function Chomp(s: string): (r: string)
    ensures r <= s && |s| - |r| <= 2
    ensures s == r || s == r + "\n" || s == r + "\r" || s == r + "\r\n"
    ensures r == s <==> s == "" || (s[|s| - 1] != '\n' && s[|s| - 1] != '\r')
    ensures |s| >= 2 && s[|s| - 2..] == "\r\n" ==> r == s[..|s| - 2]
  {
    if |s| >= 2 && s[|s| - 2..] == "\r\n" then s[..|s| - 2]
    else if |s| >= 1 && (s[|s| - 1] == '\n' || s[|s| - 1] == '\r') then s[..|s| - 1]
    else s
  }

  /** A newline after text that does not end in a carriage return is all `chomp` removes. */
  lemma ChompNewline(t: string)
    requires t == "" || t[|t| - 1] != '\r'
    ensures Chomp(t + "\n") == t
  {
    var s := t + "\n";
    assert |s| >= 2 ==> s[|s| - 2] == t[|t| - 1] != '\r';
    assert s[..|s| - 1] == t;
  }

  /** `String#lstrip`. */
  function LStrip(s: string): (r: string)
    ensures IsSuffix(r, s)
    ensures AllStripped(s[..|s| - |r|])
    ensures r == "" || !IsStripped(r[0])
  {
    s[|TakeWhile(s, IsStripped)|..]
  }

  predicate IsSuffix(r: string, s: string) {
    |r| <= |s| && r == s[|s| - |r|..]
  }

  predicate AllStripped(s: string) {
    forall i :: 0 <= i < |s| ==> IsStripped(s[i])
  }

  /** `String#rstrip`. */
  function RStrip(s: string): (r: string)
    ensures r <= s
    ensures forall i :: |r| <= i < |s| ==> IsStripped(s[i])
    ensures r == "" || !IsStripped(r[|r| - 1])
  {
    if |s| > 0 && IsStripped(s[|s| - 1]) then RStrip(s[..|s| - 1]) else s
  }

  /** `r` is the slice of `s` at `i`, with nothing but whitespace and NUL on either side of it. */
  predicate IsTrimmedAt(s: string, r: string, i: int) {
    0 <= i && i + |r| <= |s| && r == s[i..i + |r|] && AllStripped(s[..i]) && AllStripped(s[i + |r|..])
  }

  /** `String#strip`: the text between the leading and the trailing whitespace and NUL. */
  function Strip(s: string): (r: string)
    ensures exists i :: IsTrimmedAt(s, r, i)
    ensures r == "" || (!IsStripped(r[0]) && !IsStripped(r[|r| - 1]))
  {
    var l := LStrip(s);
    var r := RStrip(l);
    TrimmedOfBothEnds(s, l, r);
    r
  }

  /** Taking a stripped prefix off `s` and then a stripped tail off what is left leaves a trimmed slice. */
  lemma TrimmedOfBothEnds(s: string, l: string, r: string)
    requires IsSuffix(l, s) && AllStripped(s[..|s| - |l|])
    requires r <= l && forall i :: |r| <= i < |l| ==> IsStripped(l[i])
    ensures IsTrimmedAt(s, r, |s| - |l|)
  {
    var i := |s| - |l|;
    assert l == s[i..];
    assert s[i..i + |r|] == l[..|r|] == r;
    assert s[i + |r|..] == l[|r|..];
  }

  /** Stripping removes only whitespace and NUL, so any other character survives it. */
  lemma StripKeeps(s: string, c: char)
    requires !IsStripped(c)
    ensures c in Strip(s) <==> c in s
  {
    var l := LStrip(s);
    if c in s {
      var i :| 0 <= i < |s| && s[i] == c;
      assert l[i - (|s| - |l|)] == c;
      assert RStrip(l)[i - (|s| - |l|)] == c;
    }
  }

  /** `Array#join(sep)` on strings. */
  function Join(xs: seq<string>, sep: string): string
  {
    if |xs| == 0 then "" else if |xs| == 1 then xs[0] else xs[0] + sep + Join(xs[1..], sep)
  }

  lemma {:induction false} JoinAppend(xs: seq<string>, ys: seq<string>, sep: string)
    requires |xs| > 0 && |ys| > 0
    ensures Join(xs + ys, sep) == Join(xs, sep) + sep + Join(ys, sep)
    decreases |xs|
  {
    if |xs| == 1 {
      assert (xs + ys)[1..] == ys;
    } else {
      assert (xs + ys)[1..] == xs[1..] + ys;
      JoinAppend(xs[1..], ys, sep);
    }
  }

  /** A join ends with its last piece. */
  lemma {:induction false} JoinEndsWith(xs: seq<string>, sep: string)
    requires |xs| > 0
    ensures IsSuffix(xs[|xs| - 1], Join(xs, sep))
    decreases |xs|
  {
    if |xs| > 1 {
      JoinEndsWith(xs[1..], sep);
      assert xs[1..][|xs| - 2] == xs[|xs| - 1];
    }
  }

  /** Every field between consecutive `sep`s, empty ones included: `split(sep, -1)`. */
  function Fields(s: string, sep: char): (r: seq<string>)
    ensures |r| >= 1
    ensures forall i :: 0 <= i < |r| ==> sep !in r[i]
    ensures Join(r, [sep]) == s
  {
    if |s| == 0 then [""]
    else
      var rest := Fields(s[1..], sep);
      if s[0] == sep then
        assert ([""] + rest)[1..] == rest;
        [""] + rest
      else
        var r := [[s[0]] + rest[0]] + rest[1..];
        assert r[1..] == rest[1..];
        assert s == [s[0]] + s[1..];
        r
  }

  /** A field free of `sep` followed by `sep` is split off as the first field. */
  lemma {:induction false} FieldsCons(a: string, b: string, sep: char)
    requires sep !in a
    ensures Fields(a + [sep] + b, sep) == [a] + Fields(b, sep)
    decreases |a|
  {
    if |a| == 0 {
      assert (a + [sep] + b)[1..] == b;
    } else {
      assert (a + [sep] + b)[1..] == a[1..] + [sep] + b;
      FieldsCons(a[1..], b, sep);
      assert [a[0]] + a[1..] == a;
    }
  }

  /** A string free of `sep` is a single field. */
  lemma {:induction false} FieldsSingle(a: string, sep: char)
    requires sep !in a
    ensures Fields(a, sep) == [a]
    decreases |a|
  {
    if |a| > 0 {
      FieldsSingle(a[1..], sep);
      assert [a[0]] + a[1..] == a;
    }
  }

  /** Splitting a join on its separator gives the pieces back. */
  lemma {:induction false} FieldsOfJoin(xs: seq<string>, sep: char)
    requires |xs| >= 1
    requires forall i :: 0 <= i < |xs| ==> sep !in xs[i]
    ensures Fields(Join(xs, [sep]), sep) == xs
    decreases |xs|
  {
    if |xs| == 1 {
      FieldsSingle(xs[0], sep);
    } else {
      FieldsOfJoin(xs[1..], sep);
      FieldsCons(xs[0], Join(xs[1..], [sep]), sep);
      assert [xs[0]] + xs[1..] == xs;
    }
  }

  /** Ruby's `split` with no limit drops the empty fields at the end. */
  function DropTrailingEmpty(xs: seq<string>): (r: seq<string>)
    ensures r <= xs
    ensures r == [] || r[|r| - 1] != ""
    ensures forall i :: |r| <= i < |xs| ==> xs[i] == ""
  {
    if |xs| > 0 && xs[|xs| - 1] == "" then DropTrailingEmpty(xs[..|xs| - 1]) else xs
  }

  /** Joining nothing but empty strings leaves only separators. */
  lemma {:induction false} JoinOfEmpties(xs: seq<string>, c: char)
    requires forall i :: 0 <= i < |xs| ==> xs[i] == ""
    ensures forall i :: 0 <= i < |Join(xs, [c])| ==> Join(xs, [c])[i] == c
    decreases |xs|
  {
    if |xs| > 1 {
      JoinOfEmpties(xs[1..], c);
    }
  }

  /**
   * `s.split(/\n/)` (and `s.split($/)`): the lines of `s`, keeping empty lines
   * inside the text but none at its end.  Joined back with newlines they give
   * `s` up to its trailing newlines.
   */
  function SplitLines(s: string): (r: seq<string>)
    ensures forall i :: 0 <= i < |r| ==> '\n' !in r[i]
    ensures r == [] || r[|r| - 1] != ""
    ensures Join(r, "\n") <= s
    ensures forall i :: |Join(r, "\n")| <= i < |s| ==> s[i] == '\n'
  {
    KeptFieldsHaveNoNewline(s);
    TrailingNewlines(s);
    DropTrailingEmpty(Fields(s, '\n'))
  }

  /** The fields kept by `SplitLines` hold no newline. */
  lemma KeptFieldsHaveNoNewline(s: string)
    ensures forall i :: 0 <= i < |DropTrailingEmpty(Fields(s, '\n'))| ==> '\n' !in DropTrailingEmpty(Fields(s, '\n'))[i]
  {
    var fields := Fields(s, '\n');
    var r := DropTrailingEmpty(fields);
    assert forall i :: 0 <= i < |r| ==> r[i] == fields[i];
  }

  /** What the trailing empty fields dropped by `SplitLines` stood for: trailing newlines. */
  lemma TrailingNewlines(s: string)
    ensures Join(DropTrailingEmpty(Fields(s, '\n')), "\n") <= s
    ensures forall i :: |Join(DropTrailingEmpty(Fields(s, '\n')), "\n")| <= i < |s| ==> s[i] == '\n'
  {
    var fields := Fields(s, '\n');
    var r := DropTrailingEmpty(fields);
    var tail := fields[|r|..];
    assert fields == r + tail;
    JoinEmptyTail(r, tail, s);
  }

  /** Joining lines followed by empty ones: the lines, then nothing but newlines. */
  lemma JoinEmptyTail(r: seq<string>, tail: seq<string>, s: string)
    requires forall i :: 0 <= i < |tail| ==> tail[i] == ""
    requires Join(r + tail, "\n") == s
    ensures Join(r, "\n") <= s
    ensures forall i :: |Join(r, "\n")| <= i < |s| ==> s[i] == '\n'
  {
    JoinOfEmpties(tail, '\n');
    if r == [] {
      assert r + tail == tail;
    } else if tail != [] {
      JoinAppend(r, tail, "\n");
    } else {
      assert r + tail == r;
    }
  }

  /** The lines of a text written as newline-separated lines come back unchanged. */
  lemma SplitLinesOfJoin(lines: seq<string>)
    requires forall i :: 0 <= i < |lines| ==> '\n' !in lines[i]
    requires lines == [] || lines[|lines| - 1] != ""
    ensures SplitLines(Join(lines, "\n")) == lines
  {
    if lines == [] {
      assert Fields("", '\n') == [""];
    } else {
      FieldsOfJoin(lines, '\n');
    }
  }

  /**
   * `s.split` with no argument: the maximal runs of non-whitespace, ignoring
   * whitespace at either end and between runs.
   */
  function Words(s: string): (r: seq<string>)
    ensures forall i :: 0 <= i < |r| ==> IsWord(r[i])
    decreases |s|
  {
    if |s| == 0 then []
    else if IsSpace(s[0]) then Words(s[1..])
    else
      var w := TakeWhile(s, NotSpace);
      [w] + Words(s[|w|..])
  }

  /** `split` finds no word exactly when the text is all whitespace. */
  lemma {:induction false} WordsEmpty(s: string)
    ensures Words(s) == [] <==> forall i :: 0 <= i < |s| ==> IsSpace(s[i])
    decreases |s|
  {
    if |s| > 0 && IsSpace(s[0]) {
      WordsEmpty(s[1..]);
      assert forall i :: 1 <= i < |s| ==> s[i] == s[1..][i - 1];
    }
  }

  lemma {:induction false} WordsOfLeadingSpace(ws: string, rest: string)
    requires forall i :: 0 <= i < |ws| ==> IsSpace(ws[i])
    ensures Words(ws + rest) == Words(rest)
    decreases |ws|
  {
    if |ws| == 0 {
      assert ws + rest == rest;
    } else {
      assert (ws + rest)[1..] == ws[1..] + rest;
      WordsOfLeadingSpace(ws[1..], rest);
    }
  }

  /** Words separated by single spaces split back into those words. */
  lemma {:induction false} WordsOfJoin(ws: seq<string>)
    requires forall i :: 0 <= i < |ws| ==> IsWord(ws[i])
    ensures Words(Join(ws, " ")) == ws
    decreases |ws|
  {
    if |ws| == 1 {
      WordsOfWord(ws[0]);
    } else if |ws| > 1 {
      WordsCons(ws[0], Join(ws[1..], " "));
      WordsOfJoin(ws[1..]);
      assert [ws[0]] + ws[1..] == ws;
    }
  }

  /** A word and a space in front of a text: the word, then the text's words. */
  lemma WordsCons(w: string, rest: string)
    requires IsWord(w)
    ensures Words(w + " " + rest) == [w] + Words(rest)
  {
    var s := w + " " + rest;
    TakeWhileStops(w, " " + rest, NotSpace);
    assert s == w + (" " + rest);
    assert s[|w|..] == " " + rest;
    WordsOfLeadingSpace(" ", rest);
  }

  /** A single run of non-whitespace splits into itself. */
  lemma WordsOfWord(w: string)
    requires IsWord(w)
    ensures Words(w) == [w]
  {
    TakeWhileStops(w, "", NotSpace);
    assert w + "" == w;
    assert w[|w|..] == "";
  }

  /** Whitespace between two texts separates their words: `split` of the whole is both splits in turn. */
  lemma {:induction false} WordsAppend(a: string, sp: string, b: string)
    requires |sp| > 0 && forall i :: 0 <= i < |sp| ==> IsSpace(sp[i])
    ensures Words(a + sp + b) == Words(a) + Words(b)
    decreases |a|, 2
  {
    if |a| == 0 {
      assert a + sp + b == sp + b;
      WordsOfLeadingSpace(sp, b);
    } else if IsSpace(a[0]) {
      WordsAppendAfterSpace(a, sp, b);
    } else {
      WordsAppendAfterRun(a, sp, b);
    }
  }

  lemma {:induction false} WordsAppendAfterSpace(a: string, sp: string, b: string)
    requires |a| > 0 && IsSpace(a[0])
    requires |sp| > 0 && forall i :: 0 <= i < |sp| ==> IsSpace(sp[i])
    ensures Words(a + sp + b) == Words(a) + Words(b)
    decreases |a|, 1
  {
    assert a == [a[0]] + a[1..];
    assert a + sp + b == [a[0]] + (a[1..] + sp + b);
    WordsOfLeadingSpace([a[0]], a[1..]);
    WordsOfLeadingSpace([a[0]], a[1..] + sp + b);
    WordsAppend(a[1..], sp, b);
  }

  lemma {:induction false} WordsAppendAfterRun(a: string, sp: string, b: string)
    requires |a| > 0 && !IsSpace(a[0])
    requires |sp| > 0 && forall i :: 0 <= i < |sp| ==> IsSpace(sp[i])
    ensures Words(a + sp + b) == Words(a) + Words(b)
    decreases |a|, 1
  {
    var w := TakeWhile(a, NotSpace);
    var rest := a[|w|..];
    assert IsWord(w) && (rest == "" || IsSpace(rest[0]));
    assert Words(a) == [w] + Words(rest) by {
      assert a == w + rest;
      WordsOfRun(w, rest);
    }
    assert Words(a + sp + b) == [w] + Words(rest + sp + b) by {
      assert a + sp + b == w + (rest + sp + b);
      assert (rest + sp + b)[0] == if rest == "" then sp[0] else rest[0];
      WordsOfRun(w, rest + sp + b);
    }
    WordsAppend(rest, sp, b);
  }

  /** A whole run of non-whitespace at the front of a text is its first word. */
  lemma WordsOfRun(w: string, t: string)
    requires IsWord(w) && (t == "" || IsSpace(t[0]))
    ensures Words(w + t) == [w] + Words(t)
  {
    TakeWhileStops(w, t, NotSpace);
    assert (w + t)[|w|..] == t;
  }

  /** A line as `IO.readlines` returns it: non-empty, with a newline at most at its end. */
  predicate IsReadLine(l: string) {
    l != "" && '\n' !in l[..|l| - 1]
  }

  function Concat(xs: seq<string>): string
  {
    if |xs| == 0 then "" else xs[0] + Concat(xs[1..])
  }

  /**
   * `IO.readlines`: the text cut after every newline, each line keeping its
   * newline; only the last line may lack one.
   */
  function ReadLines(s: string): (r: seq<string>)
    ensures Concat(r) == s
    ensures forall i :: 0 <= i < |r| ==> IsReadLine(r[i])
    ensures forall i :: 0 <= i < |r| - 1 ==> |r[i]| > 0 && r[i][|r[i]| - 1] == '\n'
  {
    if |s| == 0 then []
    else
      var rest := ReadLines(s[1..]);
      if s[0] == '\n' || rest == [] then
        assert ([[s[0]]] + rest)[1..] == rest;
        assert s == [s[0]] + s[1..];
        [[s[0]]] + rest
      else
        var line := [s[0]] + rest[0];
        var r := [line] + rest[1..];
        assert r[1..] == rest[1..];
        assert line[..|line| - 1] == [s[0]] + rest[0][..|rest[0]| - 1];
        assert s == [s[0]] + s[1..];
        r
  }

  /** A newline-terminated line without other newlines is read off first. */
  lemma {:induction false} ReadLinesCons(line: string, rest: string)
    requires |line| > 0 && line[|line| - 1] == '\n' && '\n' !in line[..|line| - 1]
    ensures ReadLines(line + rest) == [line] + ReadLines(rest)
    decreases |line|
  {
    if |line| == 1 {
      assert (line + rest)[1..] == rest;
      assert line == [line[0]];
    } else {
      assert line[0] in line[..|line| - 1];
      assert (line + rest)[1..] == line[1..] + rest;
      assert line[1..][..|line| - 2] == line[..|line| - 1][1..];
      ReadLinesCons(line[1..], rest);
      assert [line[0]] + line[1..] == line;
    }
  }

  function DigitChar(d: nat): (c: char)
    requires d < 10
    ensures IsDigit(c)
  {
    ('0' as int + d) as char
  }

  /** The value of a decimal numeral. */
  function DigitsValue(s: string): nat
    requires forall i :: 0 <= i < |s| ==> IsDigit(s[i])
  {
    if |s| == 0 then 0 else DigitsValue(s[..|s| - 1]) * 10 + DigitValue(s[|s| - 1])
  }

  function DigitValue(c: char): nat
    requires IsDigit(c)
  {
    c as int - '0' as int
  }

  /** `Integer#to_s`: the decimal numeral without leading zeros, which reads back as `n`. */
  function NatToString(n: nat): (r: string)
    ensures IsDigits(r)
    ensures DigitsValue(r) == n
    ensures r[0] == '0' ==> r == "0"
  {
    if n < 10 then [DigitChar(n)]
    else
      var r := NatToString(n / 10) + [DigitChar(n % 10)];
      assert r[..|r| - 1] == NatToString(n / 10);
      r
  }

  /** Where `^` matches: the start of the text or just after a newline. */
  predicate IsLineStart(s: string, i: int) {
    0 <= i < |s| && (i == 0 || s[i - 1] == '\n')
  }

  /** `s =~ /^[...]/`: some line of `s` starts with one of `chars`. */
  predicate StartsLineWith(s: string, chars: set<char>) {
    exists i :: 0 <= i < |s| && IsLineStart(s, i) && s[i] in chars
  }

  /**
   * The leftmost line start of `s`, at or after `from`, where the matcher `m`
   * succeeds: how Ruby looks for a `^`-anchored pattern.
   */
  function FirstLineMatch(s: string, m: string -> Option<string>, from: nat): (r: Option<nat>)
    requires from <= |s|
    ensures r.Some? ==> from <= r.value < |s| && IsLineStart(s, r.value) && m(s[r.value..]).Some?
    ensures forall i :: from <= i < |s| && IsLineStart(s, i) && (r.None? || i < r.value) ==> m(s[i..]).None?
    decreases |s| - from
  {
    if from == |s| then None
    else if IsLineStart(s, from) && m(s[from..]).Some? then Some(from)
    else FirstLineMatch(s, m, from + 1)
  }
}
