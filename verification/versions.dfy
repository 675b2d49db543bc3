/**
 * Version numbers and release tags as `Hoe::Mercurial` recognises them:
 * `\d+(\.\d+)+` after the tag prefix, the `major.minor` part of a version,
 * and the history-file headings that name a release.  The tag prefix is
 * matched as literal text.
 */
module Versions {
  import opened Optional
  import opened RubyText

  // ---------------------------------------------------------------- version numbers

  /** `\d+(\.\d+)*`: digits, with single dots standing between digits. */
  predicate IsDottedNumber(v: string) {
    v != "" && forall i :: 0 <= i < |v| ==> IsDigit(v[i]) || DotBetweenDigits(v, i)
  }

  predicate DotBetweenDigits(v: string, i: int)
    requires 0 <= i < |v|
  {
    v[i] == '.' && 0 < i < |v| - 1 && IsDigit(v[i - 1]) && IsDigit(v[i + 1])
  }

  /** `\d+(\.\d+)+`: a dotted number with at least two groups. */
  predicate IsVersionNumber(v: string) {
    IsDottedNumber(v) && '.' in v
  }

  /** `prefix` followed by a version number, the whole tag: what `/^#{prefix}\d+(\.\d+)+$/` accepts in a tag without newlines. */
  predicate IsReleaseTag(prefix: string, tag: string) {
    prefix <= tag && IsVersionNumber(tag[|prefix|..])
  }

  /** A dot at `i` with a digit after it: where `(\.\d+)*` could go on. */
  predicate DotThenDigit(t: string, i: int)
    requires 0 <= i < |t|
  {
    t[i] == '.' && i + 1 < |t| && IsDigit(t[i + 1])
  }

  /** The longest `\d+(\.\d+)*` at the start of `t`, or `""` when `t` does not start with a digit. */
  function DottedRun(t: string): (r: string)
    ensures r <= t
    ensures r == "" <==> t == "" || !IsDigit(t[0])
    ensures r != "" ==> IsDottedNumber(r)
    decreases |t|
  {
    var d := TakeWhile(t, IsDigit);
    if d == "" then ""
    else if |d| + 1 < |t| && t[|d|] == '.' && IsDigit(t[|d| + 1]) then
      var tail := t[|d| + 1..];
      assert t == d + "." + tail;
      var rest := DottedRun(tail);
      DottedJoin(d, rest);
      d + "." + rest
    else
      d
  }

  /** Digits, a dot and a dotted number make a dotted number. */
  lemma DottedJoin(d: string, rest: string)
    requires IsDigits(d) && IsDottedNumber(rest)
    ensures IsDottedNumber(d + "." + rest)
  {
    var r := d + "." + rest;
    forall i | 0 <= i < |r| ensures IsDigit(r[i]) || DotBetweenDigits(r, i) {
      if i < |d| {
        assert r[i] == d[i];
      } else if i == |d| {
        assert r[i - 1] == d[|d| - 1] && r[i + 1] == rest[0];
        assert rest[0] in rest;
        assert !DotBetweenDigits(rest, 0);
      } else {
        var j := i - |d| - 1;
        assert r[i] == rest[j];
        if !IsDigit(rest[j]) {
          assert DotBetweenDigits(rest, j);
          assert r[i - 1] == rest[j - 1] && r[i + 1] == rest[j + 1];
        }
      }
    }
  }

  /** What follows the first dot of a dotted number is a dotted number. */
  lemma DottedTail(v: string, k: nat)
    requires IsDottedNumber(v) && k < |v| && v[k] == '.'
    ensures IsDottedNumber(v[k + 1..])
  {
    var tail := v[k + 1..];
    assert DotBetweenDigits(v, k);
    assert tail[0] == v[k + 1];
    forall i | 0 <= i < |tail| ensures IsDigit(tail[i]) || DotBetweenDigits(tail, i) {
      assert tail[i] == v[i + k + 1];
      if !IsDigit(tail[i]) {
        assert DotBetweenDigits(v, i + k + 1);
        assert tail[i - 1] == v[i + k] && tail[i + 1] == v[i + k + 2];
      }
    }
  }

  /** The run is as long as it can be: neither a digit nor a dot and a digit follow it. */
  lemma {:induction false} DottedRunMaximal(t: string)
    ensures var r := DottedRun(t); r != "" && |r| < |t| ==> !IsDigit(t[|r|]) && !DotThenDigit(t, |r|)
    decreases |t|
  {
    var d := TakeWhile(t, IsDigit);
    if d != "" && |d| + 1 < |t| && t[|d|] == '.' && IsDigit(t[|d| + 1]) {
      var tail := t[|d| + 1..];
      DottedRunMaximal(tail);
      var rest := DottedRun(tail);
      var r := d + "." + rest;
      assert DottedRun(t) == r;
      assert |r| < |t| ==> t[|r|] == tail[|rest|];
      assert |r| + 1 < |t| ==> t[|r| + 1] == tail[|rest| + 1];
    }
  }

  /** A dotted number followed by neither a digit nor a dot is read whole. */
  lemma {:induction false} DottedRunStops(v: string, rest: string)
    requires IsDottedNumber(v)
    requires rest == "" || (!IsDigit(rest[0]) && rest[0] != '.')
    ensures DottedRun(v + rest) == v
    decreases |v|
  {
    var d := TakeWhile(v, IsDigit);
    assert v[0] in v && !DotBetweenDigits(v, 0);
    if |d| == |v| {
      assert d == v;
      TakeWhileStops(v, rest, IsDigit);
      assert (v + rest)[|v|..] == rest;
    } else {
      assert DotBetweenDigits(v, |d|);
      var tail := v[|d| + 1..];
      assert d == v[..|d|];
      assert v == d + "." + tail;
      assert IsDigits(d) && IsDigit(tail[0]);
      DottedTail(v, |d|);
      DottedRunStops(tail, rest);
      DottedRunUnfold(d, tail, rest, v + rest);
    }
  }

  /** Digits, a dot and a digit: the run goes on after the dot. */
  lemma DottedRunUnfold(d: string, tail: string, rest: string, t: string)
    requires IsDigits(d) && tail != "" && IsDigit(tail[0])
    requires t == d + "." + tail + rest
    ensures DottedRun(t) == d + "." + DottedRun(tail + rest)
  {
    assert t == d + ("." + (tail + rest));
    TakeWhileStops(d, "." + (tail + rest), IsDigit);
    assert t[|d|] == '.' && t[|d| + 1] == tail[0];
    assert t[|d| + 1..] == tail + rest;
  }

  // ---------------------------------------------------------------- initialize_mercurial

  /** `\d+\.\d+`: digits, a dot and digits. */
  predicate IsMajorMinor(s: string) {
    exists k :: 0 < k < |s| - 1 && s[k] == '.' && IsDigits(s[..k]) && IsDigits(s[k + 1..])
  }

  /** `t` starts with digits, a dot and a digit: where `^\d+\.\d+` can match. */
  predicate StartsMajorMinor(t: string) {
    exists k :: 0 < k < |t| - 1 && t[k] == '.' && IsDigits(t[..k]) && IsDigit(t[k + 1])
  }

  /**
   * `\d+\.\d+` at the start of `t`: present exactly when `t` starts with
   * digits, a dot and a digit, and then both digit runs are taken whole.
   */
  function MajorMinor(t: string): (r: Option<string>)
    ensures r.Some? <==> StartsMajorMinor(t)
    ensures r.Some? ==> r.value <= t && IsMajorMinor(r.value)
    ensures r.Some? ==> |r.value| == |t| || !IsDigit(t[|r.value|])
  {
    var a := TakeWhile(t, IsDigit);
    MajorMinorNeedsRun(t);
    if a != "" && |a| < |t| && t[|a|] == '.' then
      var b := TakeWhile(t[|a| + 1..], IsDigit);
      assert t[..|a| + 1 + |b|] == a + "." + b;
      if b != "" then
        MajorMinorPieces(t, a, b);
        Some(a + "." + b)
      else None
    else None
  }

  /** Where `^\d+\.\d+` can match, the leading digit run is followed by a dot and a digit. */
  lemma MajorMinorNeedsRun(t: string)
    ensures StartsMajorMinor(t) <==>
      var a := TakeWhile(t, IsDigit);
      a != "" && |a| + 1 < |t| && t[|a|] == '.' && IsDigit(t[|a| + 1])
  {
    var a := TakeWhile(t, IsDigit);
    if StartsMajorMinor(t) {
      var k :| 0 < k < |t| - 1 && t[k] == '.' && IsDigits(t[..k]) && IsDigit(t[k + 1]);
      assert t == t[..k] + t[k..];
      TakeWhileStops(t[..k], t[k..], IsDigit);
    } else if a != "" && |a| + 1 < |t| && t[|a|] == '.' && IsDigit(t[|a| + 1]) {
      assert t[..|a|] == a;
      assert StartsMajorMinor(t);
    }
  }

  /** The two digit runs read by `MajorMinor`, with the dot between them. */
  lemma MajorMinorPieces(t: string, a: string, b: string)
    requires a != "" && b != "" && |a| < |t| && t[|a|] == '.'
    requires a == TakeWhile(t, IsDigit) && b == TakeWhile(t[|a| + 1..], IsDigit)
    ensures a + "." + b <= t && IsMajorMinor(a + "." + b)
    ensures |a + "." + b| == |t| || !IsDigit(t[|a + "." + b|])
  {
    var rest := t[|a| + 1..];
    DottedPrefix(t, a, b);
    MajorMinorJoin(a, b);
    assert |a + "." + b| < |t| ==> t[|a + "." + b|] == rest[|b|];
  }

  /** A prefix, the dot after it and a prefix of what follows the dot make a prefix. */
  lemma DottedPrefix(t: string, a: string, b: string)
    requires a <= t && |a| < |t| && t[|a|] == '.' && b <= t[|a| + 1..]
    ensures a + "." + b <= t
  {
    var rest := t[|a| + 1..];
    assert t == a + "." + rest;
    assert rest == b + rest[|b|..];
    assert t == a + "." + b + rest[|b|..];
  }

  /** Digits, a dot and digits spell a `major.minor`. */
  lemma MajorMinorJoin(a: string, b: string)
    requires IsDigits(a) && IsDigits(b)
    ensures IsMajorMinor(a + "." + b)
  {
    var r := a + "." + b;
    assert r[..|a|] == a && r[|a| + 1..] == b;
    assert r[|a|] == '.';
  }

  /**
   * `version[/^\d+\.\d+/]`: the first `major.minor` found at the start of a
   * line, both parts taken whole.
   */
  function MinorVersion(version: string): (r: Option<string>)
    ensures r.Some? ==>
      exists i :: 0 <= i < |version| && IsLineStart(version, i) && MajorMinor(version[i..]) == r &&
                  forall j :: 0 <= j < i && IsLineStart(version, j) ==> MajorMinor(version[j..]).None?
    ensures r.None? ==> forall i :: 0 <= i < |version| && IsLineStart(version, i) ==> MajorMinor(version[i..]).None?
  {
    match FirstLineMatch(version, MajorMinor, 0)
    case None => None
    case Some(i) => MajorMinor(version[i..])
  }

  /** Digits, a dot and digits, followed by a non-digit, are read as `major.minor`. */
  lemma MajorMinorOf(a: string, b: string, rest: string)
    requires IsDigits(a) && IsDigits(b)
    requires rest == "" || !IsDigit(rest[0])
    ensures MajorMinor(a + "." + b + rest) == Some(a + "." + b)
  {
    var t := a + "." + b + rest;
    assert t == a + ("." + (b + rest));
    TakeWhileStops(a, "." + (b + rest), IsDigit);
    assert t[|a| + 1..] == b + rest;
    TakeWhileStops(b, rest, IsDigit);
  }

  /** The `major.minor` of `major.minor.patch` is what it says. */
  lemma MinorVersionOfRelease(major: string, minor: string, patch: string)
    requires IsDigits(major) && IsDigits(minor) && IsDigits(patch)
    ensures MinorVersion(major + "." + minor + "." + patch) == Some(major + "." + minor)
  {
    var v := major + "." + minor + "." + patch;
    assert v == major + "." + minor + ("." + patch);
    MajorMinorOf(major, minor, "." + patch);
    assert IsLineStart(v, 0) && v[0..] == v;
  }

  // ---------------------------------------------------------------- history headings

  predicate IsHash(c: char) { c == '#' }

  predicate IsEquals(c: char) { c == '=' }

  /** The heading markers a history file may use. */
  predicate IsMarker(marker: string) {
    (|marker| == 3 && marker[0] == 'h' && IsDigit(marker[1]) && marker[2] == '.') ||
    (marker != "" && forall i :: 0 <= i < |marker| ==> IsHash(marker[i])) ||
    (marker != "" && forall i :: 0 <= i < |marker| ==> IsEquals(marker[i]))
  }

  /**
   * `h\d\.`, `#+` or `=+` as it starts a line: the end of the longest prefix
   * of the line that is a marker, or `None` when no prefix is one.
   */
  function MarkerEnd(line: string): (r: Option<nat>)
    ensures r.Some? ==> 0 < r.value <= |line| && IsMarker(line[..r.value])
    ensures r.Some? ==> forall k {:trigger IsMarker(line[..k])} :: r.value < k <= |line| ==> !IsMarker(line[..k])
    ensures r.None? ==> forall k {:trigger IsMarker(line[..k])} :: 0 < k <= |line| ==> !IsMarker(line[..k])
  {
    if |line| >= 3 && line[0] == 'h' && IsDigit(line[1]) && line[2] == '.' then
      NoLongerMarker(line, 3);
      Some(3)
    else if line != "" && IsHash(line[0]) then
      var n := |TakeWhile(line, IsHash)|;
      assert line[..n] == TakeWhile(line, IsHash);
      NoLongerMarker(line, n);
      Some(n)
    else if line != "" && IsEquals(line[0]) then
      var n := |TakeWhile(line, IsEquals)|;
      assert line[..n] == TakeWhile(line, IsEquals);
      NoLongerMarker(line, n);
      Some(n)
    else
      NoMarker(line);
      None
  }

  /**
   * Past the `h\d\.` form, or past a line's leading run of `#` or `=`, no
   * longer prefix is a marker.
   */
  lemma NoLongerMarker(line: string, n: nat)
    requires 0 < n
    requires n < |line| ==> line[n] != line[0] || !(IsHash(line[0]) || IsEquals(line[0]))
    requires line != "" && (line[0] == 'h' ==> n == 3)
    ensures forall k :: n < k <= |line| ==> !IsMarker(line[..k])
  {
    forall k | n < k <= |line| ensures !IsMarker(line[..k]) {
      var pre := line[..k];
      assert pre[0] == line[0] && pre[n] == line[n];
    }
  }

  /** A line that starts with none of the markers has no marker prefix. */
  lemma NoMarker(line: string)
    requires line != "" ==> !IsHash(line[0]) && !IsEquals(line[0])
    requires |line| >= 3 && line[0] == 'h' ==> !IsDigit(line[1]) || line[2] != '.'
    ensures forall k :: 0 < k <= |line| ==> !IsMarker(line[..k])
  {
    forall k | 0 < k <= |line| ensures !IsMarker(line[..k]) {
      var pre := line[..k];
      assert pre[0] == line[0];
      assert k == 3 ==> pre[1] == line[1] && pre[2] == line[2];
    }
  }

  /**
   * `#{prefix}\d+(\.\d+)+` followed by whitespace, matched at `p`: the tag, or
   * `None`.  Only the longest dotted number can be followed by whitespace, so
   * it is the only one tried.
   */
  function CaptureAt(prefix: string, line: string, p: nat): (r: Option<string>)
    requires p <= |line|
    ensures r.Some? ==> IsReleaseTag(prefix, r.value)
    ensures r.Some? ==> p + |r.value| < |line| && line[p..p + |r.value|] == r.value && IsSpace(line[p + |r.value|])
  {
    if prefix <= line[p..] then
      var v := DottedRun(line[p..][|prefix|..]);
      var q := p + |prefix| + |v|;
      if IsVersionNumber(v) && q < |line| && IsSpace(line[q]) then
        TagAt(line, p, prefix, v);
        Some(prefix + v)
      else None
    else None
  }

  /** A prefix found at `p` and a version number read after it, then whitespace: a release tag standing at `p`. */
  lemma TagAt(line: string, p: nat, prefix: string, v: string)
    requires p <= |line| && prefix <= line[p..] && v <= line[p..][|prefix|..]
    requires IsVersionNumber(v)
    requires p + |prefix| + |v| < |line| && IsSpace(line[p + |prefix| + |v|])
    ensures IsReleaseTag(prefix, prefix + v)
    ensures p + |prefix + v| < |line| && line[p..p + |prefix + v|] == prefix + v && IsSpace(line[p + |prefix + v|])
  {
    forall i | 0 <= i < |prefix| + |v| ensures line[p + i] == (prefix + v)[i] {
      if i < |prefix| {
        assert line[p..][i] == prefix[i];
      } else {
        assert line[p..][|prefix|..][i - |prefix|] == v[i - |prefix|];
      }
    }
    assert (prefix + v)[|prefix|..] == v;
  }

  /** A release tag stands at `p`, followed by whitespace: what `(#{tag_pattern})\s+` matches there. */
  predicate TagStandsAt(prefix: string, line: string, p: int, tag: string) {
    IsReleaseTag(prefix, tag) && 0 <= p && p + |tag| < |line| &&
    line[p..p + |tag|] == tag && IsSpace(line[p + |tag|])
  }

  /** Everything from `m` up to `p` is whitespace. */
  predicate SpacesBetween(line: string, m: int, p: int) {
    0 <= m <= p <= |line| && forall i :: m <= i < p ==> IsSpace(line[i])
  }

  /** After the marker ending at `m`, a whitespace run up to `p` and a release tag standing there. */
  predicate HeadingTagAt(prefix: string, line: string, m: int, p: int, tag: string) {
    m < p && SpacesBetween(line, m, p) && TagStandsAt(prefix, line, p, tag)
  }

  /** Where a release tag stands, followed by whitespace, `CaptureAt` finds it. */
  lemma CaptureAtFinds(prefix: string, line: string, p: nat, tag: string)
    requires TagStandsAt(prefix, line, p, tag)
    ensures CaptureAt(prefix, line, p) == Some(tag)
  {
    var v := tag[|prefix|..];
    var after := line[p + |tag|..];
    assert tag == prefix + v;
    assert line == line[..p] + line[p..p + |tag|] + after;
    CaptureOf(line[..p], prefix, v, after, line);
  }

  /** The captures of `CaptureAt` along a line, as one function of the position. */
  function Captures(prefix: string, line: string): nat -> Option<string> {
    (p: nat) => if p <= |line| then CaptureAt(prefix, line, p) else None
  }

  /** `cap` has something at `p`, which lies in `(m, m + k]`, and nothing after `p` up to `m + k`. */
  predicate FurthestAt(cap: nat -> Option<string>, m: nat, k: nat, p: nat) {
    m < p <= m + k && cap(p).Some? && forall q :: p < q <= m + k ==> cap(q).None?
  }

  /** Tries `m + k` down to `m + 1` in turn: what `cap` gives at the first position where it gives something. */
  function LongestFirst(cap: nat -> Option<string>, m: nat, k: nat): (r: Option<string>)
    ensures r.Some? ==> exists p: nat :: FurthestAt(cap, m, k, p) && cap(p) == r
    ensures r.None? ==> forall p :: m < p <= m + k ==> cap(p).None?
    decreases k
  {
    if k == 0 then None
    else if cap(m + k).Some? then
      assert FurthestAt(cap, m, k, m + k);
      cap(m + k)
    else
      LongestFirst(cap, m, k - 1)
  }

  /** The tag standing at `p`, in `(m, m + k]`, with no tag standing after it up to `m + k`. */
  ghost predicate FurthestTag(prefix: string, line: string, m: nat, k: nat, p: nat, tag: string) {
    m < p <= m + k && TagStandsAt(prefix, line, p, tag) &&
    forall q, t :: p < q <= m + k ==> !TagStandsAt(prefix, line, q, t)
  }

  /**
   * `\s+(#{tag_pattern})\s+` after the marker ending at `m`: the whitespace run
   * of length `k` is tried longest first and given back one character at a
   * time, as the regexp engine backtracks.  The result is the tag standing at
   * the furthest position that has one, or `None` when no position has one.
   */
  function TryWhitespace(prefix: string, line: string, m: nat, k: nat): (r: Option<string>)
    requires m + k <= |line|
    ensures r.Some? ==> IsReleaseTag(prefix, r.value)
  {
    var r := LongestFirst(Captures(prefix, line), m, k);
    TagsOfCaptures(prefix, line, m, k, r);
    r
  }

  /**
   * Where the tag `TryWhitespace` returns stands: at the furthest position up
   * to `m + k` where a tag stands; and no tag stands anywhere there when it
   * returns `None`.
   */
  lemma TryWhitespaceFurthest(prefix: string, line: string, m: nat, k: nat)
    requires m + k <= |line|
    ensures TryWhitespace(prefix, line, m, k).Some? ==>
      exists p: nat :: FurthestTag(prefix, line, m, k, p, TryWhitespace(prefix, line, m, k).value)
    ensures TryWhitespace(prefix, line, m, k).None? ==>
      forall p, t :: m < p <= m + k ==> !TagStandsAt(prefix, line, p, t)
  {
    TagsOfCaptures(prefix, line, m, k, LongestFirst(Captures(prefix, line), m, k));
  }

  /** What the search over the captures finds, in terms of the tags standing in the line. */
  lemma TagsOfCaptures(prefix: string, line: string, m: nat, k: nat, r: Option<string>)
    requires m + k <= |line|
    requires r.Some? ==> exists p: nat :: FurthestAt(Captures(prefix, line), m, k, p) && Captures(prefix, line)(p) == r
    requires r.None? ==> forall p :: m < p <= m + k ==> Captures(prefix, line)(p).None?
    ensures r.Some? ==> IsReleaseTag(prefix, r.value)
    ensures r.Some? ==> exists p: nat :: FurthestTag(prefix, line, m, k, p, r.value)
    ensures r.None? ==> forall p, t :: m < p <= m + k ==> !TagStandsAt(prefix, line, p, t)
  {
    var cap := Captures(prefix, line);
    if r.Some? {
      var p: nat :| FurthestAt(cap, m, k, p) && cap(p) == r;
      NoLaterTags(prefix, line, m, k, p);
      assert FurthestTag(prefix, line, m, k, p, r.value);
    } else {
      forall p, t | m < p <= m + k ensures !TagStandsAt(prefix, line, p, t) {
        NoCaptureNoTag(prefix, line, p);
      }
    }
  }

  /** After the furthest capture no tag stands, and the capture itself is a tag standing there. */
  lemma NoLaterTags(prefix: string, line: string, m: nat, k: nat, p: nat)
    requires m + k <= |line|
    requires FurthestAt(Captures(prefix, line), m, k, p)
    ensures TagStandsAt(prefix, line, p, Captures(prefix, line)(p).value)
    ensures forall q, t :: p < q <= m + k ==> !TagStandsAt(prefix, line, q, t)
  {
    forall q, t | p < q <= m + k ensures !TagStandsAt(prefix, line, q, t) {
      NoCaptureNoTag(prefix, line, q);
    }
  }

  /** Where `CaptureAt` finds nothing, no tag stands. */
  lemma NoCaptureNoTag(prefix: string, line: string, q: nat)
    requires q <= |line| && Captures(prefix, line)(q).None?
    ensures forall t :: !TagStandsAt(prefix, line, q, t)
  {
    forall t | TagStandsAt(prefix, line, q, t) ensures false {
      CaptureAtFinds(prefix, line, q, t);
    }
  }

  /** The tag after the longest whitespace run that is followed by one. */
  ghost predicate LastHeadingTagAt(prefix: string, line: string, m: int, p: int, tag: string) {
    HeadingTagAt(prefix, line, m, p, tag) &&
    forall q, t :: p < q ==> !HeadingTagAt(prefix, line, m, q, t)
  }

  /**
   * The tag a history line names: `line =~ /^(?:h\d\.|#+|=+)\s+(#{tag_pattern})\s+/`
   * and `$1`.  A line as `IO.readlines` gives it has a newline at most at its
   * end, so `^` can only match at its start.
   */
  function HistoryTag(prefix: string, line: string): (r: Option<string>)
    ensures r.Some? ==> IsReleaseTag(prefix, r.value)
    ensures r.Some? ==> MarkerEnd(line).Some?
  {
    match MarkerEnd(line)
    case None => None
    case Some(m) =>
      var spaces := TakeWhile(line[m..], IsSpace);
      TryWhitespace(prefix, line, m, |spaces|)
  }

  /**
   * Where the named tag stands: after the marker and a whitespace run, and
   * followed by whitespace; of all such tags the one after the longest run is
   * taken, and a marker line names none when there is no such tag.
   */
  lemma HistoryTagFindsLast(prefix: string, line: string)
    ensures HistoryTag(prefix, line).Some? ==>
      exists p :: LastHeadingTagAt(prefix, line, MarkerEnd(line).value, p, HistoryTag(prefix, line).value)
    ensures HistoryTag(prefix, line).None? && MarkerEnd(line).Some? ==>
      forall p, t :: !HeadingTagAt(prefix, line, MarkerEnd(line).value, p, t)
  {
    if MarkerEnd(line).Some? {
      var m := MarkerEnd(line).value;
      var spaces := TakeWhile(line[m..], IsSpace);
      SpaceRun(line, m, spaces);
      var r := TryWhitespace(prefix, line, m, |spaces|);
      assert HistoryTag(prefix, line) == r;
      TryWhitespaceFurthest(prefix, line, m, |spaces|);
      HeadingTagOfRun(prefix, line, m, |spaces|, r);
    }
  }

  /** The leading whitespace run after `m` ends where the spaces between `m` and `p` stop. */
  lemma SpaceRun(line: string, m: nat, spaces: string)
    requires m <= |line| && spaces == TakeWhile(line[m..], IsSpace)
    ensures m + |spaces| <= |line|
    ensures forall p :: m <= p <= |line| ==> (SpacesBetween(line, m, p) <==> p <= m + |spaces|)
  {
    var rest := line[m..];
    forall p | m <= p <= |line| ensures SpacesBetween(line, m, p) <==> p <= m + |spaces| {
      if p <= m + |spaces| {
        forall i | m <= i < p ensures IsSpace(line[i]) {
          assert line[i] == rest[i - m] == spaces[i - m];
        }
      } else {
        assert line[m + |spaces|] == rest[|spaces|];
      }
    }
  }

  /**
   * Over the whole whitespace run after the marker, the furthest tag is the
   * one after the longest run that has one, and no tag means none at all.
   */
  lemma HeadingTagOfRun(prefix: string, line: string, m: nat, k: nat, r: Option<string>)
    requires m + k <= |line|
    requires forall p :: m <= p <= |line| ==> (SpacesBetween(line, m, p) <==> p <= m + k)
    requires r.Some? ==> exists p: nat :: FurthestTag(prefix, line, m, k, p, r.value)
    requires r.None? ==> forall p, t :: m < p <= m + k ==> !TagStandsAt(prefix, line, p, t)
    ensures r.Some? ==> exists p :: LastHeadingTagAt(prefix, line, m, p, r.value)
    ensures r.None? ==> forall p, t :: !HeadingTagAt(prefix, line, m, p, t)
  {
    if r.Some? {
      var p: nat :| FurthestTag(prefix, line, m, k, p, r.value);
      assert SpacesBetween(line, m, p);
      assert LastHeadingTagAt(prefix, line, m, p, r.value);
    }
  }

  lemma MarkerEndOf(marker: string, rest: string)
    requires IsMarker(marker)
    requires rest != "" && IsSpace(rest[0])
    ensures MarkerEnd(marker + rest) == Some(|marker|)
  {
    var line := marker + rest;
    if |marker| == 3 && marker[0] == 'h' && IsDigit(marker[1]) && marker[2] == '.' {
    } else if forall i :: 0 <= i < |marker| ==> IsHash(marker[i]) {
      TakeWhileStops(marker, rest, IsHash);
    } else {
      TakeWhileStops(marker, rest, IsEquals);
    }
  }

  /** A release tag followed by whitespace is captured where it starts. */
  lemma CaptureOf(before: string, prefix: string, version: string, after: string, line: string)
    requires IsVersionNumber(version)
    requires after != "" && IsSpace(after[0])
    requires line == before + prefix + version + after
    ensures CaptureAt(prefix, line, |before|) == Some(prefix + version)
  {
    var rest := line[|before|..];
    assert rest == prefix + (version + after);
    assert rest[|prefix|..] == version + after;
    DottedRunStops(version, after);
    assert line[|before| + |prefix| + |version|] == after[0];
  }

  /** A marker, a run of blanks, then text not starting with whitespace: the run after the marker is those blanks. */
  lemma BlanksAfterMarker(marker: string, blanks: string, text: string, line: string)
    requires IsMarker(marker)
    requires blanks != "" && forall i :: 0 <= i < |blanks| ==> IsSpace(blanks[i])
    requires text != "" && !IsSpace(text[0])
    requires line == marker + blanks + text
    ensures MarkerEnd(line) == Some(|marker|)
    ensures TakeWhile(line[|marker|..], IsSpace) == blanks
  {
    assert line == marker + (blanks + text);
    MarkerEndOf(marker, blanks + text);
    assert line[|marker|..] == blanks + text;
    TakeWhileStops(blanks, text, IsSpace);
  }

  /** A non-empty run of `\s`. */
  predicate IsBlanks(blanks: string) {
    blanks != "" && forall i :: 0 <= i < |blanks| ==> IsSpace(blanks[i])
  }

  /**
   * A heading `marker blanks tag after`, with whitespace after the tag, names
   * its tag, for any prefix that does not itself start with whitespace.
   */
  lemma HeadingNamesTag(marker: string, blanks: string, prefix: string, version: string, after: string)
    requires IsMarker(marker) && IsBlanks(blanks) && IsVersionNumber(version)
    requires prefix == "" || !IsSpace(prefix[0])
    requires after != "" && IsSpace(after[0])
    ensures HistoryTag(prefix, marker + blanks + prefix + version + after) == Some(prefix + version)
  {
    StartsWithDigit(version);
    HeadingPieces(marker, blanks, prefix, version, after, marker + blanks + prefix + version + after);
    HeadingLineNamesTag(marker, blanks, prefix, version, after, marker + blanks + prefix + version + after);
  }

  /** The heading above, its pieces already grouped. */
  lemma HeadingLineNamesTag(marker: string, blanks: string, prefix: string, version: string, after: string, line: string)
    requires IsMarker(marker) && IsBlanks(blanks) && IsVersionNumber(version)
    requires after != "" && IsSpace(after[0])
    requires prefix + version + after != "" && !IsSpace((prefix + version + after)[0])
    requires line == marker + blanks + (prefix + version + after)
    requires line == (marker + blanks) + prefix + version + after
    ensures HistoryTag(prefix, line) == Some(prefix + version)
  {
    BlanksAfterMarker(marker, blanks, prefix + version + after, line);
    CaptureOf(marker + blanks, prefix, version, after, line);
    HistoryTagOfCapture(prefix, line, |marker|, |blanks|, prefix + version);
  }

  /** The pieces of a heading, grouped as the proof above needs them. */
  lemma HeadingPieces(marker: string, blanks: string, prefix: string, version: string, after: string, line: string)
    requires version != ""
    requires line == marker + blanks + prefix + version + after
    ensures line == marker + blanks + (prefix + version + after)
    ensures line == (marker + blanks) + prefix + version + after
    ensures prefix + version + after != ""
    ensures (prefix + version + after)[0] == if prefix == "" then version[0] else prefix[0]
  {
  }

  /** A dotted number starts with a digit. */
  lemma StartsWithDigit(v: string)
    requires IsDottedNumber(v)
    ensures IsDigit(v[0])
  {
    assert v[0] in v;
  }

  /** After a marker and a whitespace run, the tag captured right after the whole run is the one named. */
  lemma HistoryTagOfCapture(prefix: string, line: string, m: nat, k: nat, tag: string)
    requires MarkerEnd(line) == Some(m) && k > 0
    requires |TakeWhile(line[m..], IsSpace)| == k
    requires CaptureAt(prefix, line, m + k) == Some(tag)
    ensures HistoryTag(prefix, line) == Some(tag)
  {
    HistoryTagTries(prefix, line, m);
    TryWhitespaceAtTop(prefix, line, m, k, tag);
  }

  /** On a marker line, `HistoryTag` tries the whole whitespace run after the marker. */
  lemma HistoryTagTries(prefix: string, line: string, m: nat)
    requires MarkerEnd(line) == Some(m)
    ensures m + |TakeWhile(line[m..], IsSpace)| <= |line|
    ensures HistoryTag(prefix, line) == TryWhitespace(prefix, line, m, |TakeWhile(line[m..], IsSpace)|)
  {
  }

  /** A tag right after the whole run is what `TryWhitespace` returns. */
  lemma TryWhitespaceAtTop(prefix: string, line: string, m: nat, k: nat, tag: string)
    requires m + k <= |line| && k > 0
    requires CaptureAt(prefix, line, m + k) == Some(tag)
    ensures TryWhitespace(prefix, line, m, k) == Some(tag)
  {
    var cap := Captures(prefix, line);
    assert cap(m + k) == Some(tag);
    LongestFirstAtTop(cap, m, k);
    TryWhitespaceTakesLongest(prefix, line, m, k);
  }

  lemma TryWhitespaceTakesLongest(prefix: string, line: string, m: nat, k: nat)
    requires m + k <= |line|
    ensures TryWhitespace(prefix, line, m, k) == LongestFirst(Captures(prefix, line), m, k)
  {
  }

  /** Something at the furthest position is what `LongestFirst` takes. */
  lemma LongestFirstAtTop(cap: nat -> Option<string>, m: nat, k: nat)
    requires k > 0 && cap(m + k).Some?
    ensures LongestFirst(cap, m, k) == cap(m + k)
  {
  }

  /**
   * With a prefix that starts with whitespace, the whitespace run after the
   * marker gives a character back to the prefix: `#  v1.0` names ` v1.0` for
   * the prefix ` v`.
   */
  lemma PrefixTakesBackWhitespace(marker: string, word: string, version: string, rest: string)
    requires IsMarker(marker) && IsVersionNumber(version)
    requires word != "" && !IsSpace(word[0])
    ensures HistoryTag(" " + word, marker + "  " + word + version + " " + rest) == Some(" " + word + version)
  {
    var prefix := " " + word;
    var m := |marker|;
    var text := word + version + " " + rest;
    var line := marker + "  " + word + version + " " + rest;
    TwoBlankHeadingPieces(marker, word, version, rest, line);
    BlanksAfterMarker(marker, "  ", text, line);
    CaptureOf(marker + " ", prefix, version, " " + rest, line);
    NoCaptureWithoutPrefix(prefix, line, m + 2);
    OneBlankGivenBack(prefix, line, m, prefix + version);
  }

  /** The pieces of a heading with two blanks, grouped as the proof above needs them. */
  lemma TwoBlankHeadingPieces(marker: string, word: string, version: string, rest: string, line: string)
    requires word != ""
    requires line == marker + "  " + word + version + " " + rest
    ensures line == marker + "  " + (word + version + " " + rest)
    ensures line == (marker + " ") + (" " + word) + version + (" " + rest)
    ensures |marker| + 2 < |line| && line[|marker| + 2] == word[0]
  {
  }

  /** Where the prefix does not start, nothing is captured. */
  lemma NoCaptureWithoutPrefix(prefix: string, line: string, p: nat)
    requires p < |line| && prefix != "" && prefix[0] != line[p]
    ensures CaptureAt(prefix, line, p).None?
  {
    assert line[p..][0] == line[p];
  }

  /** When the tag does not match after the whole two-blank run, the engine retries after one blank. */
  lemma OneBlankGivenBack(prefix: string, line: string, m: nat, tag: string)
    requires MarkerEnd(line) == Some(m)
    requires |TakeWhile(line[m..], IsSpace)| == 2
    requires CaptureAt(prefix, line, m + 2).None?
    requires CaptureAt(prefix, line, m + 1) == Some(tag)
    ensures HistoryTag(prefix, line) == Some(tag)
  {
    assert TryWhitespace(prefix, line, m, 1) == Some(tag);
    assert TryWhitespace(prefix, line, m, 2) == Some(tag);
  }
}
