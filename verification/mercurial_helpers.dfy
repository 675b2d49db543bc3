/**
 * `Hoe::MercurialHelpers`: reading the output of `hg` commands, building the
 * `.hgignore` lines for ignored files, and the confirmation before deleting
 * files.  A command's standard output is a parameter; running the command is
 * not modelled.
 */
module MercurialHelpers {
  import opened Optional
  import opened RubyText
  import RakeHelpers
  import Prompts

  // ---------------------------------------------------------------- read_command_output

  /** What `read_command_output` hands back: the command's output, chomped. */
  function ReadCommandOutput(stdout: string): (r: string)
    ensures r <= stdout
    ensures stdout == r || stdout == r + "\n" || stdout == r + "\r" || stdout == r + "\r\n"
    ensures r == stdout <==> stdout == "" || (stdout[|stdout| - 1] != '\n' && stdout[|stdout| - 1] != '\r')
    ensures |stdout| >= 2 && stdout[|stdout| - 2..] == "\r\n" ==> r == stdout[..|stdout| - 2]
  {
    Chomp(stdout)
  }

  /** The output of a command that prints each of `lines` followed by a newline. */
  function Listing(lines: seq<string>): string {
    Join(lines, "\n") + "\n"
  }

  /** Chomping a listing removes just its final newline, unless the last line ends in a carriage return. */
  lemma ChompListing(lines: seq<string>)
    requires lines == [] || lines[|lines| - 1] == "" || lines[|lines| - 1][|lines[|lines| - 1]| - 1] != '\r'
    ensures ReadCommandOutput(Listing(lines)) == Join(lines, "\n")
  {
    var text := Join(lines, "\n");
    if |lines| > 0 {
      var last := lines[|lines| - 1];
      JoinEndsWith(lines, "\n");
      if last != "" {
        assert text[|text| - 1] == last[|last| - 1];
      } else if |lines| > 1 {
        assert lines == lines[..|lines| - 1] + [last];
        JoinAppend(lines[..|lines| - 1], [last], "\n");
      }
    }
    ChompNewline(text);
  }

  // ---------------------------------------------------------------- line getters

  /**
   * `output.split(/\n/)`, as `get_manifest`, `get_uncommitted_files` and
   * `get_unknown_files` do it: the lines of the chomped output.  Empty lines
   * inside the output are kept as empty entries; empty lines at its end are
   * dropped.
   */
  function OutputLines(stdout: string): (r: seq<string>)
    ensures forall i :: 0 <= i < |r| ==> '\n' !in r[i]
    ensures r == [] || r[|r| - 1] != ""
    ensures Join(r, "\n") <= ReadCommandOutput(stdout)
    ensures var output := ReadCommandOutput(stdout);
      forall i :: |Join(r, "\n")| <= i < |output| ==> output[i] == '\n'
  {
    SplitLines(ReadCommandOutput(stdout))
  }

  /** A listing of newline-free lines, the last one not blank nor ending in a carriage return, reads back as those lines. */
  lemma OutputLinesOfListing(lines: seq<string>)
    requires forall i :: 0 <= i < |lines| ==> '\n' !in lines[i]
    requires lines == [] || (lines[|lines| - 1] != "" && lines[|lines| - 1][|lines[|lines| - 1]| - 1] != '\r')
    ensures OutputLines(Listing(lines)) == lines
  {
    ChompListing(lines);
    SplitLinesOfJoin(lines);
  }

  // ---------------------------------------------------------------- get_tags

  /** `\S+` matched at the start of `t`. */
  function LeadingWord(t: string): Option<string> {
    if t != "" && NotSpace(t[0]) then Some(TakeWhile(t, NotSpace)) else None
  }

  /**
   * `line[/^\S+/]`: the first run of non-whitespace that starts a line of
   * `line`, or nil.  On a line without newlines, only its very start counts.
   */
  function LeadingToken(line: string): (r: Option<string>)
    ensures r.Some? ==> IsWord(r.value)
    ensures '\n' !in line ==> (r.Some? <==> line != "" && NotSpace(line[0]))
    ensures '\n' !in line && r.Some? ==>
      r.value <= line && (|r.value| == |line| || IsSpace(line[|r.value|]))
  {
    match FirstLineMatch(line, LeadingWord, 0)
    case None =>
      assert line != "" ==> IsLineStart(line, 0) && line[0..] == line;
      None
    case Some(i) =>
      SingleLineStart(line, i);
      assert line[0..] == line;
      Some(TakeWhile(line[i..], NotSpace))
  }

  /** A text without newlines has one line, starting at 0. */
  lemma SingleLineStart(line: string, i: int)
    requires IsLineStart(line, i)
    ensures '\n' !in line ==> i == 0
  {
    if i > 0 {
      assert line[i - 1] in line;
    }
  }

  /**
   * `get_tags`: one entry per line of the output of `hg tags`, holding the
   * line's leading run of non-whitespace, or nil when the line begins with
   * whitespace.
   */
  function GetTags(stdout: string): (r: seq<Option<string>>)
    ensures |r| == |OutputLines(stdout)|
    ensures forall i :: 0 <= i < |r| ==>
      var line := OutputLines(stdout)[i];
      (r[i].Some? <==> line != "" && NotSpace(line[0])) &&
      (r[i].Some? ==> IsWord(r[i].value) && r[i].value <= line &&
                      (|r[i].value| == |line| || IsSpace(line[|r[i].value|])))
  {
    var lines := OutputLines(stdout);
    seq(|lines|, i requires 0 <= i < |lines| => LeadingToken(lines[i]))
  }

  /** A line of `hg tags`: the tag name, a space, then the revision column. */
  function TagLine(name: string, rest: string): string {
    name + " " + rest
  }

  lemma TagLineFacts(name: string, rest: string)
    requires IsWord(name) && '\n' !in rest && '\r' !in rest
    ensures var line := TagLine(name, rest);
      line != "" && '\n' !in line && line[|line| - 1] != '\r' && LeadingToken(line) == Some(name)
  {
    var line := TagLine(name, rest);
    assert line == name + (" " + rest);
    if rest != "" {
      assert line[|line| - 1] == rest[|rest| - 1];
      assert rest[|rest| - 1] in rest;
    }
    TakeWhileStops(name, " " + rest, NotSpace);
  }

  /** The tags of a listing of tag lines are exactly the names, in order. */
  lemma GetTagsOfListing(names: seq<string>, rests: seq<string>, lines: seq<string>)
    requires |names| == |rests| == |lines|
    requires forall i :: 0 <= i < |names| ==> IsWord(names[i])
    requires forall i :: 0 <= i < |rests| ==> '\n' !in rests[i] && '\r' !in rests[i]
    requires forall i :: 0 <= i < |lines| ==> lines[i] == TagLine(names[i], rests[i])
    ensures |GetTags(Listing(lines))| == |names|
    ensures forall i :: 0 <= i < |names| ==> GetTags(Listing(lines))[i] == Some(names[i])
  {
    forall i | 0 <= i < |lines|
      ensures lines[i] != "" && '\n' !in lines[i] && lines[i][|lines[i]| - 1] != '\r'
      ensures LeadingToken(lines[i]) == Some(names[i])
    {
      TagLineFacts(names[i], rests[i]);
    }
    GetTagsOfLines(lines);
  }

  /** The tags read back from a listing are the lines' leading tokens. */
  lemma GetTagsOfLines(lines: seq<string>)
    requires forall i :: 0 <= i < |lines| ==> '\n' !in lines[i]
    requires lines == [] || (lines[|lines| - 1] != "" && lines[|lines| - 1][|lines[|lines| - 1]| - 1] != '\r')
    ensures |GetTags(Listing(lines))| == |lines|
    ensures forall i :: 0 <= i < |lines| ==> GetTags(Listing(lines))[i] == LeadingToken(lines[i])
  {
    OutputLinesOfListing(lines);
  }

  // ---------------------------------------------------------------- get_repo_paths

  /** One group of `each_slice(3)`: a name, the `=` between, and the url; the last group may be short. */
  datatype Slice = Slice(name: string, middle: Option<string>, url: Option<string>)

  function At(words: seq<string>, i: nat): Option<string> {
    if i < |words| then Some(words[i]) else None
  }

  /** `words.each_slice(3)`. */
  function EachSlice3(words: seq<string>): (r: seq<Slice>)
    ensures |r| == (|words| + 2) / 3
    ensures forall k :: 0 <= k < |r| ==>
      r[k].name == words[3 * k] && r[k].middle == At(words, 3 * k + 1) && r[k].url == At(words, 3 * k + 2)
    decreases |words|
  {
    if |words| == 0 then []
    else if |words| <= 3 then [Slice(words[0], At(words, 1), At(words, 2))]
    else
      var rest := EachSlice3(words[3..]);
      var r := [Slice(words[0], Some(words[1]), Some(words[2]))] + rest;
      forall k | 1 <= k < |r|
        ensures r[k].name == words[3 * k] && r[k].middle == At(words, 3 * k + 1) && r[k].url == At(words, 3 * k + 2)
      {
        var j := 3 * (k - 1);
        assert 3 * k == j + 3;
        assert r[k] == rest[k - 1];
        assert words[j + 3] == words[3..][j];
        assert At(words, j + 4) == At(words[3..], j + 1);
        assert At(words, j + 5) == At(words[3..], j + 2);
      }
      r
  }

  /** No group after the `k`th has the same name. */
  predicate LastNamed(slices: seq<Slice>, k: int)
    requires 0 <= k < |slices|
  {
    forall j :: k < j < |slices| ==> slices[j].name != slices[k].name
  }

  /** `paths[name] = url` for each group in turn, starting from an empty hash. */
  function PathsOf(slices: seq<Slice>): (r: map<string, Option<string>>)
    ensures forall name :: name in r <==> exists k :: 0 <= k < |slices| && slices[k].name == name
    ensures forall k :: 0 <= k < |slices| && LastNamed(slices, k) ==> r[slices[k].name] == slices[k].url
  {
    if |slices| == 0 then map[]
    else
      var earlier := slices[..|slices| - 1];
      var last := slices[|slices| - 1];
      var before := PathsOf(earlier);
      var after := before[last.name := last.url];
      assert forall k :: 0 <= k < |slices| - 1 ==> slices[k] == earlier[k];
      PathsOfKeys(slices, before, after);
      PathsOfValues(slices, before, after);
      after
  }

  /** Storing the final group's url: the keys are the names of all the groups. */
  lemma PathsOfKeys(slices: seq<Slice>, before: map<string, Option<string>>, after: map<string, Option<string>>)
    requires |slices| > 0
    requires after == before[slices[|slices| - 1].name := slices[|slices| - 1].url]
    requires forall name :: name in before <==> exists k :: 0 <= k < |slices| - 1 && slices[k].name == name
    ensures forall name :: name in after <==> exists k :: 0 <= k < |slices| && slices[k].name == name
  {
    var n := |slices| - 1;
    forall name
      ensures name in after <==> exists k :: 0 <= k < |slices| && slices[k].name == name
    {
      if name in after && name != slices[n].name {
        assert name in before;
      }
      if exists k :: 0 <= k < |slices| && slices[k].name == name {
        var k :| 0 <= k < |slices| && slices[k].name == name;
        if k < n {
          assert name in before;
        }
      }
    }
  }

  /** Storing the final group's url: a group that is the last of its name gives that name's url. */
  lemma PathsOfValues(slices: seq<Slice>, before: map<string, Option<string>>, after: map<string, Option<string>>)
    requires |slices| > 0
    requires after == before[slices[|slices| - 1].name := slices[|slices| - 1].url]
    requires forall k :: 0 <= k < |slices| - 1 ==> slices[k].name in before
    requires forall k :: 0 <= k < |slices| - 1 && LastNamed(slices[..|slices| - 1], k) ==>
      before[slices[k].name] == slices[k].url
    ensures forall k :: 0 <= k < |slices| && LastNamed(slices, k) ==> after[slices[k].name] == slices[k].url
  {
    var n := |slices| - 1;
    var earlier := slices[..n];
    forall k | 0 <= k < |slices| && LastNamed(slices, k)
      ensures after[slices[k].name] == slices[k].url
    {
      if k < n {
        assert slices[n].name != slices[k].name;
        forall j | k < j < |earlier| ensures earlier[j].name != earlier[k].name {
          assert earlier[j] == slices[j];
        }
        assert LastNamed(earlier, k);
      }
    }
  }

  /** The groups `get_repo_paths` reads from the output of `hg paths`. */
  function PathSlices(stdout: string): seq<Slice> {
    EachSlice3(Words(ReadCommandOutput(stdout)))
  }

  /**
   * `get_repo_paths`: the whitespace-separated words of `hg paths` taken three
   * at a time as `name = url`; every group's name is a key, the last group of
   * a name gives its url, and a short last group maps its name to nil.
   */
  function GetRepoPaths(stdout: string): (r: map<string, Option<string>>)
    ensures var slices := PathSlices(stdout);
      forall name :: name in r <==> exists k :: 0 <= k < |slices| && slices[k].name == name
    ensures var slices := PathSlices(stdout);
      forall k :: 0 <= k < |slices| && LastNamed(slices, k) ==> r[slices[k].name] == slices[k].url
  {
    PathsOf(PathSlices(stdout))
  }

  /** Groups that agree on names and urls give the same paths, whatever stands between. */
  lemma {:induction false} PathsIgnoreMiddle(a: seq<Slice>, b: seq<Slice>)
    requires |a| == |b|
    requires forall k :: 0 <= k < |a| ==> a[k].name == b[k].name && a[k].url == b[k].url
    ensures PathsOf(a) == PathsOf(b)
    decreases |a|
  {
    if |a| > 0 {
      PathsIgnoreMiddle(a[..|a| - 1], b[..|b| - 1]);
    }
  }

  /** The token between a name and its url never matters: only every third word is a name and the one after next its url. */
  lemma MiddleTokenIgnored(a: string, b: string)
    requires var wa := Words(ReadCommandOutput(a)); var wb := Words(ReadCommandOutput(b));
      |wa| == |wb| && forall i :: 0 <= i < |wa| && i % 3 != 1 ==> wa[i] == wb[i]
    ensures GetRepoPaths(a) == GetRepoPaths(b)
  {
    var wa := Words(ReadCommandOutput(a));
    var wb := Words(ReadCommandOutput(b));
    var sa := EachSlice3(wa);
    var sb := EachSlice3(wb);
    forall k | 0 <= k < |sa| ensures sa[k].name == sb[k].name && sa[k].url == sb[k].url {
      NameAndUrlPositions(k);
    }
    PathsIgnoreMiddle(sa, sb);
  }

  /** The name and the url of the `k`th slice are not at a middle position. */
  lemma NameAndUrlPositions(k: nat)
    ensures (3 * k) % 3 == 0 && (3 * k + 2) % 3 == 2
  {
  }

  /** An entry of `hg paths`: `name = url`. */
  datatype PathEntry = PathEntry(name: string, url: string)

  function PathLine(e: PathEntry): string {
    e.name + " = " + e.url
  }

  function PathLines(entries: seq<PathEntry>): (r: seq<string>)
    ensures |r| == |entries|
  {
    seq(|entries|, k requires 0 <= k < |entries| => PathLine(entries[k]))
  }

  /** The words of a sequence of path entries, three per entry. */
  function EntryWords(entries: seq<PathEntry>): (r: seq<string>)
    ensures |r| == 3 * |entries|
  {
    if |entries| == 0 then [] else [entries[0].name, "=", entries[0].url] + EntryWords(entries[1..])
  }

  /** Taking the words of the entries three at a time gives the entries back. */
  lemma {:induction false} EntrySlices(entries: seq<PathEntry>)
    ensures EachSlice3(EntryWords(entries)) ==
      seq(|entries|, k requires 0 <= k < |entries| => Slice(entries[k].name, Some("="), Some(entries[k].url)))
    decreases |entries|
  {
    if |entries| > 0 {
      var words := EntryWords(entries);
      assert words[3..] == EntryWords(entries[1..]);
      EntrySlices(entries[1..]);
    }
  }

  lemma {:induction false} WordsOfPathLines(entries: seq<PathEntry>)
    requires forall k :: 0 <= k < |entries| ==> IsWord(entries[k].name) && IsWord(entries[k].url)
    ensures Words(Join(PathLines(entries), "\n")) == EntryWords(entries)
    decreases |entries|
  {
    var lines := PathLines(entries);
    if |entries| > 0 {
      var e := entries[0];
      WordsOfPathLine(e);
      assert lines[1..] == PathLines(entries[1..]);
      WordsOfPathLines(entries[1..]);
      if |entries| > 1 {
        WordsAppend(PathLine(e), "\n", Join(lines[1..], "\n"));
      }
    }
  }

  /** One line of `hg paths` splits into the name, `=` and the url. */
  lemma WordsOfPathLine(e: PathEntry)
    requires IsWord(e.name) && IsWord(e.url)
    ensures Words(PathLine(e)) == [e.name, "=", e.url]
  {
    assert PathLine(e) == e.name + " " + ("=" + " " + e.url);
    WordsAppend(e.name, " ", "=" + " " + e.url);
    WordsAppend("=", " ", e.url);
    WordsOfWord(e.name);
    WordsOfWord("=");
    WordsOfWord(e.url);
  }

  /** Reading back the listing of `hg paths` maps each name to the url of its last entry. */
  lemma GetRepoPathsOfListing(entries: seq<PathEntry>)
    requires forall k :: 0 <= k < |entries| ==> IsWord(entries[k].name) && IsWord(entries[k].url)
    ensures forall name :: name in GetRepoPaths(Listing(PathLines(entries))) <==>
      exists k :: 0 <= k < |entries| && entries[k].name == name
    ensures forall k :: 0 <= k < |entries| && (forall j :: k < j < |entries| ==> entries[j].name != entries[k].name) ==>
      GetRepoPaths(Listing(PathLines(entries)))[entries[k].name] == Some(entries[k].url)
  {
    var stdout := Listing(PathLines(entries));
    ListingSlices(entries);
    var slices := PathSlices(stdout);
    forall k | 0 <= k < |entries| && (forall j :: k < j < |entries| ==> entries[j].name != entries[k].name)
      ensures LastNamed(slices, k)
    {
    }
  }

  /** The groups read back from the listing of `hg paths` are its entries. */
  lemma ListingSlices(entries: seq<PathEntry>)
    requires forall k :: 0 <= k < |entries| ==> IsWord(entries[k].name) && IsWord(entries[k].url)
    ensures |PathSlices(Listing(PathLines(entries)))| == |entries|
    ensures forall k :: 0 <= k < |entries| ==>
      PathSlices(Listing(PathLines(entries)))[k] == Slice(entries[k].name, Some("="), Some(entries[k].url))
  {
    var lines := PathLines(entries);
    if lines != [] {
      var e := entries[|entries| - 1];
      assert lines[|lines| - 1] == e.name + " = " + e.url;
      assert lines[|lines| - 1][|lines[|lines| - 1]| - 1] == e.url[|e.url| - 1];
    }
    ChompListing(lines);
    WordsOfPathLines(entries);
    EntrySlices(entries);
  }

  // ---------------------------------------------------------------- get_numeric_rev

  /** `\d+` matched at the start of `t`. */
  function LeadingDigits(t: string): Option<string> {
    if t != "" && IsDigit(t[0]) then Some(TakeWhile(t, IsDigit)) else None
  }

  /** A line of `id` starts at `i` with a digit. */
  predicate DigitLineAt(id: string, i: int) {
    IsLineStart(id, i) && IsDigit(id[i])
  }

  /** The text `get_numeric_rev` searches: the command output chomped once more. */
  function RevisionId(stdout: string): string {
    Chomp(ReadCommandOutput(stdout))
  }

  /**
   * `id[/^(\d+)/, 1] || '0'`: the digits starting the first line of `id`
   * that starts with a digit, or `"0"` when there is none.
   */
  function RevNumber(id: string): (r: string)
    ensures IsDigits(r)
    ensures (forall i :: 0 <= i < |id| ==> !DigitLineAt(id, i)) ==> r == "0"
    ensures forall i :: 0 <= i < |id| && DigitLineAt(id, i) && (forall j :: 0 <= j < i ==> !DigitLineAt(id, j)) ==>
      r == TakeWhile(id[i..], IsDigit)
  {
    DigitLinesMatch(id);
    match FirstLineMatch(id, LeadingDigits, 0)
    case None => "0"
    case Some(p) => TakeWhile(id[p..], IsDigit)
  }

  /** `get_numeric_rev`: the revision number in the output of `hg identify -n`. */
  function GetNumericRev(stdout: string): (r: string)
    ensures IsDigits(r)
    ensures var id := RevisionId(stdout);
      (forall i :: 0 <= i < |id| ==> !DigitLineAt(id, i)) ==> r == "0"
    ensures var id := RevisionId(stdout);
      forall i :: 0 <= i < |id| && DigitLineAt(id, i) && (forall j :: 0 <= j < i ==> !DigitLineAt(id, j)) ==>
        r == TakeWhile(id[i..], IsDigit)
  {
    RevNumber(RevisionId(stdout))
  }

  /** The line starts where `^(\d+)` matches are exactly the lines that start with a digit. */
  lemma DigitLinesMatch(id: string)
    ensures forall i :: 0 <= i < |id| ==> (DigitLineAt(id, i) <==> IsLineStart(id, i) && LeadingDigits(id[i..]).Some?)
  {
    forall i | 0 <= i < |id|
      ensures DigitLineAt(id, i) <==> IsLineStart(id, i) && LeadingDigits(id[i..]).Some?
    {
      assert id[i..][0] == id[i];
    }
  }

  /** `hg identify -n` prints the revision number, with `+` after it when the working copy is modified. */
  lemma NumericRevOfIdentify(n: nat, suffix: string)
    requires suffix == "" || !IsDigit(suffix[0])
    requires '\n' !in suffix && '\r' !in suffix
    ensures GetNumericRev(NatToString(n) + suffix + "\n") == NatToString(n)
  {
    var digits := NatToString(n);
    var text := digits + suffix;
    EndsWithoutNewline(digits, suffix);
    RevisionIdOfLine(text);
    assert DigitLineAt(text, 0);
    TakeWhileStops(digits, suffix, IsDigit);
    assert text[0..] == text;
  }

  /** Digits and a suffix free of line ends end in neither a newline nor a carriage return. */
  lemma EndsWithoutNewline(digits: string, suffix: string)
    requires IsDigits(digits)
    requires '\n' !in suffix && '\r' !in suffix
    ensures var text := digits + suffix; text[|text| - 1] != '\n' && text[|text| - 1] != '\r'
  {
    var text := digits + suffix;
    if suffix == "" {
      assert text[|text| - 1] == digits[|digits| - 1];
    } else {
      assert text[|text| - 1] == suffix[|suffix| - 1];
    }
  }

  /** A single line printed with its newline is read back as that line. */
  lemma RevisionIdOfLine(text: string)
    requires text != "" && text[|text| - 1] != '\n' && text[|text| - 1] != '\r'
    ensures RevisionId(text + "\n") == text
  {
    ChompNewline(text);
    assert ReadCommandOutput(text + "\n") == text;
    assert Chomp(text) == text;
  }

  // ---------------------------------------------------------------- hg_ignore_files

  /** The characters `Regexp.escape` puts a backslash in front of. */
  predicate IsMeta(c: char) {
    c in {'[', ']', '{', '}', '(', ')', '|', '-', '*', '.', '\\', '?', '+', '^', '$', '#'}
  }

  /** The control characters `Regexp.escape` writes as a backslash and a letter, with that letter. */
  function ControlLetter(c: char): Option<char> {
    if c == '\t' then Some('t')
    else if c == '\n' then Some('n')
    else if c == '\r' then Some('r')
    else if c == '\U{C}' then Some('f')
    else if c == '\U{B}' then Some('v')
    else None
  }

  function EscapeChar(c: char): (r: string)
    ensures 1 <= |r| <= 2
    ensures '\n' !in r
  {
    if IsMeta(c) || c == ' ' then ['\\', c]
    else if ControlLetter(c).Some? then ['\\', ControlLetter(c).value]
    else [c]
  }

  /** `Regexp.escape`: every character that means something in a pattern written so it stands for itself. */
  function RegexpEscape(s: string): (r: string)
    ensures |s| <= |r| <= 2 * |s|
    ensures '\n' !in r
  {
    if |s| == 0 then "" else EscapeChar(s[0]) + RegexpEscape(s[1..])
  }

  /** The character an escape `\e` stands for, if `Regexp.escape` writes it. */
  function UnescapeChar(e: char): Option<char> {
    if IsMeta(e) || e == ' ' then Some(e)
    else if e == 't' then Some('\t')
    else if e == 'n' then Some('\n')
    else if e == 'r' then Some('\r')
    else if e == 'f' then Some('\U{C}')
    else if e == 'v' then Some('\U{B}')
    else None
  }

  /** Reads an escaped string back; `None` for anything `Regexp.escape` does not produce. */
  function RegexpUnescape(t: string): Option<string>
    decreases |t|
  {
    if |t| == 0 then Some("")
    else if t[0] == '\\' then
      if |t| < 2 || UnescapeChar(t[1]).None? then None
      else match RegexpUnescape(t[2..])
        case None => None
        case Some(rest) => Some([UnescapeChar(t[1]).value] + rest)
    else if IsMeta(t[0]) || t[0] == ' ' || ControlLetter(t[0]).Some? then None
    else match RegexpUnescape(t[1..])
      case None => None
      case Some(rest) => Some([t[0]] + rest)
  }

  /** Escaping loses nothing: the escaped text reads back as the original. */
  lemma {:induction false} UnescapeEscape(s: string)
    ensures RegexpUnescape(RegexpEscape(s)) == Some(s)
    decreases |s|
  {
    if |s| > 0 {
      var e := EscapeChar(s[0]);
      var rest := RegexpEscape(s[1..]);
      UnescapeEscape(s[1..]);
      var t := e + rest;
      if |e| == 2 {
        assert t[2..] == rest;
      } else {
        assert t[1..] == rest;
      }
      assert [s[0]] + s[1..] == s;
    }
  }

  /** `'^' + Regexp.escape(path) + '$'`: a pattern for exactly this path. */
  function IgnorePattern(path: string): (r: string)
    ensures |r| >= 2 && r[0] == '^' && r[|r| - 1] == '$'
    ensures '\n' !in r
    ensures RegexpUnescape(r[1..|r| - 1]) == Some(path)
  {
    var r := "^" + RegexpEscape(path) + "$";
    assert r[1..|r| - 1] == RegexpEscape(path);
    UnescapeEscape(path);
    r
  }

  /** `fh.puts(patterns)`: each pattern on a line of its own; an empty array writes one empty line. */
  function IgnoreFileAddition(paths: seq<string>): string {
    if |paths| == 0 then "\n" else PatternLines(paths)
  }

  function PatternLines(paths: seq<string>): string {
    if |paths| == 0 then "" else IgnorePattern(paths[0]) + "\n" + PatternLines(paths[1..])
  }

  /**
   * `hg_ignore_files(*paths)`: what is appended to `.hgignore` reads back, line
   * by line, as one anchored pattern per path that unescapes to that path.
   */
  lemma {:induction false} IgnoreFileLines(paths: seq<string>)
    ensures var lines := ReadLines(PatternLines(paths));
      |lines| == |paths| && forall i :: 0 <= i < |paths| ==> IsPatternLine(lines[i], paths[i])
    decreases |paths|
  {
    if |paths| > 0 {
      var line := IgnorePattern(paths[0]) + "\n";
      PatternLineOf(paths[0]);
      ReadLinesCons(line, PatternLines(paths[1..]));
      IgnoreFileLines(paths[1..]);
      var lines := ReadLines(PatternLines(paths));
      assert lines == [line] + ReadLines(PatternLines(paths[1..]));
      forall i | 1 <= i < |paths| ensures IsPatternLine(lines[i], paths[i]) {
        assert lines[i] == ReadLines(PatternLines(paths[1..]))[i - 1];
        assert paths[i] == paths[1..][i - 1];
      }
    }
  }

  /** A line `^pattern$` and its newline, whose pattern unescapes to `path`. */
  predicate IsPatternLine(line: string, path: string) {
    |line| >= 3 && line[0] == '^' && line[|line| - 2..] == "$\n" &&
    RegexpUnescape(line[1..|line| - 2]) == Some(path)
  }

  /** The line `puts` writes for one path. */
  lemma PatternLineOf(path: string)
    ensures var line := IgnorePattern(path) + "\n";
      IsPatternLine(line, path) && line[|line| - 1] == '\n' && '\n' !in line[..|line| - 1]
  {
    var p := IgnorePattern(path);
    var line := p + "\n";
    assert line[..|line| - 1] == p;
    assert line[1..|line| - 2] == p[1..|p| - 1];
  }

  /** With no paths, `puts` of the empty pattern list still writes a newline. */
  lemma IgnoreNothing()
    ensures IgnoreFileAddition([]) == "\n"
    ensures ReadLines(IgnoreFileAddition([])) == ["\n"]
  {
  }

  // ---------------------------------------------------------------- delete_extra_files

  /** What `delete_extra_files` shows and what it removes. */
  datatype Deletion = Deletion(listing: string, removed: seq<string>)

  /**
   * `delete_extra_files(filelist)`: shows the files and asks "Really delete
   * them?" (default no, never aborting); only a yes removes them, all of them.
   */
  function DeleteExtraFiles(files: seq<string>, responses: seq<string>): (r: Option<Prompts.Answer<Deletion>>)
    ensures r.Some? <==> Prompts.AskForConfirmation(false, responses).Some?
    ensures r.Some? ==> r.value.value.listing == RakeHelpers.HumanizeFileListFixed(files, "\t ")
    ensures r.Some? ==> r.value.used == Prompts.AskForConfirmation(false, responses).value.used
    ensures r.Some? ==> 1 <= r.value.used <= |responses|
    ensures r.Some? ==> r.value.value.removed == files || r.value.value.removed == []
    ensures r.Some? && files != [] ==>
      (r.value.value.removed == files <==>
       Prompts.SaysYes(Prompts.Settled(Some("n"), responses[r.value.used - 1])))
  {
    match Prompts.IfConfirmed(files, [], responses)
    case None => None
    case Some(a) => Some(Prompts.Answer(Deletion(RakeHelpers.HumanizeFileListFixed(files, "\t "), a.value), a.used))
  }

  /** A rejected answer and then a yes: the files are removed, and both responses are used. */
  lemma RetriedYesDeletes(files: seq<string>)
    ensures DeleteExtraFiles(files, ["maybe", "y"]) ==
      Some(Prompts.Answer(Deletion(RakeHelpers.HumanizeFileListFixed(files, "\t "), files), 2))
  {
    var responses := ["maybe", "y"];
    assert !Prompts.IsYesOrNo("maybe") by {
      forall i | 0 <= i < 5 && IsLineStart("maybe", i) ensures "maybe"[i] !in {'y', 'Y', 'n', 'N'} {
        assert i == 0;
      }
    }
    Prompts.OtherAnswerAsksAgain(false, responses);
    assert responses[1..] == ["y"];
    Prompts.YesProceeds(false, ["y"]);
  }
}
