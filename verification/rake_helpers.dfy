/**
 * The formatting helpers of `Hoe::RakeHelpers`: ANSI colour escapes, the
 * colouring of messages, the label a prompt is shown with, quoting of command
 * words for a trace, and the truncated file listing shown before deletion.
 * The terminal type (`ENV['TERM']`) is a parameter.
 */
module RakeHelpers {
  import opened Optional
  import opened RubyText

  /** Attribute names and their SGR codes (lib/hoe/mercurial.rb:30-49). */
  const ANSI_ATTRIBUTES: map<string, nat> := map[
    "clear" := 0, "reset" := 0, "bold" := 1, "dark" := 2,
    "underline" := 4, "underscore" := 4, "blink" := 5, "reverse" := 7, "concealed" := 8,
    "black" := 30, "on_black" := 40,
    "red" := 31, "on_red" := 41,
    "green" := 32, "on_green" := 42,
    "yellow" := 33, "on_yellow" := 43,
    "blue" := 34, "on_blue" := 44,
    "magenta" := 35, "on_magenta" := 45,
    "cyan" := 36, "on_cyan" := 46,
    "white" := 37, "on_white" := 47
  ]

  const ESC: char := '\U{1B}'

  // ---------------------------------------------------------------- ansi_code

  /** `ENV['TERM'] =~ /(?:vt10[03]|xterm(?:-color)?|linux|screen)/i`; an unset TERM never matches. */
  predicate IsColorTerminal(term: Option<string>) {
    term.Some? &&
    (ContainsIgnoringCase(term.value, "vt100") || ContainsIgnoringCase(term.value, "vt103") ||
     ContainsIgnoringCase(term.value, "xterm") || ContainsIgnoringCase(term.value, "linux") ||
     ContainsIgnoringCase(term.value, "screen"))
  }

  /**
   * Which terminals count as colour terminals: an unset TERM or one shorter than the
   * shortest listed name never does; `xterm-256color` and `SCREEN` do, case ignored;
   * `tmux-256color` names none of the listed terminals.
   */
  lemma ColorTerminals()
    ensures !IsColorTerminal(None)
    ensures forall t :: |t| < 5 ==> !IsColorTerminal(Some(t))
    ensures IsColorTerminal(Some("xterm-256color"))
    ensures IsColorTerminal(Some("SCREEN"))
    ensures !IsColorTerminal(Some("tmux-256color"))
  {
    assert "xterm-256color"[0..5] == "xterm";
    MatchesAtStart("xterm-256color", "xterm");
    MatchesAtStart("SCREEN", "screen");
    TmuxNamesNoTerminal();
  }

  /** A TERM that starts with `word`, up to case, contains it. */
  lemma MatchesAtStart(t: string, word: string)
    requires |word| <= |t| && Lowercase(t[..|word|]) == word
    ensures ContainsIgnoringCase(t, word)
  {
    assert t[0..|word|] == t[..|word|];
    assert MatchesIgnoringCaseAt(t, word, 0);
  }

  lemma TmuxNamesNoTerminal()
    ensures !IsColorTerminal(Some("tmux-256color"))
  {
    var t := "tmux-256color";
    NoMatchByFirstTwo(t, "vt100");
    NoMatchByFirstTwo(t, "vt103");
    NoMatchByFirstTwo(t, "xterm");
    NoMatchByFirstTwo(t, "linux");
    NoMatchByFirstTwo(t, "screen");
  }

  /** When no position of `t` starts with the first two letters of `word`, up to case, `t` does not contain it. */
  lemma NoMatchByFirstTwo(t: string, word: string)
    requires 2 <= |word|
    requires forall i :: 0 <= i <= |t| - |word| ==> ToLower(t[i]) != word[0] || ToLower(t[i + 1]) != word[1]
    ensures !ContainsIgnoringCase(t, word)
  {
    forall i | 0 <= i <= |t| - |word|
      ensures !MatchesIgnoringCaseAt(t, word, i)
    {
      var l := Lowercase(t[i..i + |word|]);
      assert l[0] == ToLower(t[i]) && l[1] == ToLower(t[i + 1]);
    }
  }

  /** `ANSI_ATTRIBUTES.values_at(*names).compact`: the codes of the known names, in argument order. */
  function AttributeCodes(names: seq<string>): (codes: seq<nat>)
    ensures |codes| <= |names|
    ensures forall c :: c in codes ==> c in ANSI_ATTRIBUTES.Values
    ensures codes == [] <==> forall i :: 0 <= i < |names| ==> names[i] !in ANSI_ATTRIBUTES
  {
    if |names| == 0 then []
    else
      var rest := AttributeCodes(names[1..]);
      if names[0] in ANSI_ATTRIBUTES then [ANSI_ATTRIBUTES[names[0]]] + rest
      else
        assert forall i :: 1 <= i < |names| ==> names[i] == names[1..][i - 1];
        rest
  }

  /** Looking up a list of names is looking up each part in turn: order is kept, unknown names vanish. */
  lemma {:induction false} AttributeCodesAppend(a: seq<string>, b: seq<string>)
    ensures AttributeCodes(a + b) == AttributeCodes(a) + AttributeCodes(b)
    decreases |a|
  {
    if |a| == 0 {
      assert a + b == b;
    } else {
      assert (a + b)[1..] == a[1..] + b;
      AttributeCodesAppend(a[1..], b);
    }
  }

  /** A known name yields its own code and an unknown one nothing: with `AttributeCodesAppend`, this fixes every lookup. */
  lemma AttributeCodesOfName(n: string)
    ensures AttributeCodes([n]) == if n in ANSI_ATTRIBUTES then [ANSI_ATTRIBUTES[n]] else []
  {
    assert [n][1..] == [];
  }

  /** A decimal numeral as Ruby's `Integer#to_s` writes it: digits, with no leading zero. */
  predicate IsPlainNumeral(f: string) {
    IsDigits(f) && (f[0] == '0' ==> f == "0")
  }

  /** The codes as decimal numerals. */
  function CodeNumerals(codes: seq<nat>): (r: seq<string>)
    ensures |r| == |codes|
    ensures forall i :: 0 <= i < |r| ==> IsPlainNumeral(r[i]) && DigitsValue(r[i]) == codes[i]
  {
    seq(|codes|, i requires 0 <= i < |codes| => NatToString(codes[i]))
  }

  /** Reads the codes back out of `ESC [ n;n;... m`; `None` when the text is not such an escape. */
  function ParseSgr(s: string): Option<seq<nat>>
  {
    if |s| >= 3 && s[0] == ESC && s[1] == '[' && s[|s| - 1] == 'm'
    then ParseNumerals(Fields(s[2..|s| - 1], ';'))
    else None
  }

  function ParseNumerals(fields: seq<string>): Option<seq<nat>>
  {
    if |fields| == 0 then Some([])
    else if !IsDigits(fields[0]) then None
    else match ParseNumerals(fields[1..])
      case None => None
      case Some(rest) => Some([DigitsValue(fields[0])] + rest)
  }

  lemma {:induction false} ParseNumeralsOfCodes(codes: seq<nat>)
    ensures ParseNumerals(CodeNumerals(codes)) == Some(codes)
    decreases |codes|
  {
    if |codes| > 0 {
      ParseNumeralsOfCodes(codes[1..]);
      assert CodeNumerals(codes)[1..] == CodeNumerals(codes[1..]);
      assert [codes[0]] + codes[1..] == codes;
    }
  }

  /**
   * `ansi_code(*names)`: empty on a terminal that is not recognised or when no
   * name is known; otherwise an SGR escape that reads back as exactly the codes
   * of the known names, in argument order.
   */
  function AnsiCode(term: Option<string>, names: seq<string>): (r: string)
    ensures !IsColorTerminal(term) || AttributeCodes(names) == [] ==> r == ""
    ensures IsColorTerminal(term) && AttributeCodes(names) != [] ==> ParseSgr(r) == Some(AttributeCodes(names))
    ensures IsColorTerminal(term) && AttributeCodes(names) != [] ==>
      |r| >= 3 && forall f :: f in Fields(r[2..|r| - 1], ';') ==> IsPlainNumeral(f)
  {
    if !IsColorTerminal(term) then ""
    else
      var codes := AttributeCodes(names);
      if codes == [] then ""
      else
        var numerals := CodeNumerals(codes);
        var r := [ESC, '['] + Join(numerals, ";") + "m";
        assert r[2..|r| - 1] == Join(numerals, ";");
        assert forall i :: 0 <= i < |numerals| ==> ';' !in numerals[i] by {
          forall i | 0 <= i < |numerals| ensures ';' !in numerals[i] {
            assert IsDigits(numerals[i]);
          }
        }
        FieldsOfJoin(numerals, ';');
        ParseNumeralsOfCodes(codes);
        r
  }

  /** On a colour terminal, `ansi_code('reset')` is `ESC[0m`. */
  lemma ResetCode(term: Option<string>)
    requires IsColorTerminal(term)
    ensures AnsiCode(term, ["reset"]) == [ESC, '[', '0', 'm']
  {
    assert AttributeCodes(["reset"]) == [0];
    assert NatToString(0) == "0";
  }

  // ---------------------------------------------------------------- colorize

  /** Position `i` holds whitespace that `$` can follow: the text ends or a newline comes next. */
  predicate SpaceEndsLine(s: string, i: int) {
    0 <= i < |s| && IsSpace(s[i]) && (i + 1 == |s| || s[i + 1] == '\n')
  }

  function FirstSpaceEndingLine(s: string, from: nat): (r: Option<nat>)
    requires from <= |s|
    ensures r.Some? ==> from <= r.value && SpaceEndsLine(s, r.value)
    ensures forall i :: from <= i < |s| && (r.None? || i < r.value) ==> !SpaceEndsLine(s, i)
    decreases |s| - from
  {
    if from == |s| then None
    else if SpaceEndsLine(s, from) then Some(from)
    else FirstSpaceEndingLine(s, from + 1)
  }

  /** `i` is the first position holding whitespace that ends a line. */
  predicate FirstSpaceEndsLine(s: string, i: int) {
    SpaceEndsLine(s, i) && forall j :: 0 <= j < i ==> !SpaceEndsLine(s, j)
  }

  /**
   * `string[/(\s)$/] || ''`: the first whitespace character that ends a line
   * (Ruby's `$` matches before every newline, not only at the end of the text).
   */
  function LineEndSpace(s: string): (r: string)
    ensures r == "" <==> forall i :: 0 <= i < |s| ==> !SpaceEndsLine(s, i)
    ensures r != "" ==> |r| == 1 && IsSpace(r[0]) && r[0] in s
    ensures forall i :: FirstSpaceEndsLine(s, i) ==> r == [s[i]]
  {
    match FirstSpaceEndingLine(s, 0)
    case None => ""
    case Some(i) => [s[i]]
  }

  /** For single-line text, the whitespace character the text ends with, if any. */
  function FinalSpace(s: string): string {
    if s != "" && IsSpace(s[|s| - 1]) then [s[|s| - 1]] else ""
  }

  /**
   * `colorize(text, *attributes)`: the text without trailing whitespace, wrapped
   * in the attributes' escape and a reset escape, followed by the first
   * whitespace character that ends a line of the text, if there is one.  For
   * single-line text that is its final whitespace character.
   */
  function Colorize(term: Option<string>, text: string, attributes: seq<string>): (r: string)
    ensures '\n' !in text ==>
      r == AnsiCode(term, attributes) + RStrip(text) + AnsiCode(term, ["reset"]) + FinalSpace(text)
    ensures (forall i :: 0 <= i < |text| ==> !SpaceEndsLine(text, i)) ==>
      r == AnsiCode(term, attributes) + RStrip(text) + AnsiCode(term, ["reset"])
    ensures forall i :: FirstSpaceEndsLine(text, i) ==>
      r == AnsiCode(term, attributes) + RStrip(text) + AnsiCode(term, ["reset"]) + [text[i]]
    ensures !IsColorTerminal(term) ==> RStrip(text) <= r && |r| <= |RStrip(text)| + 1
  {
    var open := AnsiCode(term, attributes);
    var reset := AnsiCode(term, ["reset"]);
    assert !IsColorTerminal(term) ==> open == "" && reset == "";
    Wrapped(open, text, reset)
  }

  /** The right-stripped text between two escapes, then the whitespace that `$` first follows. */
  function Wrapped(open: string, text: string, reset: string): (r: string)
    ensures '\n' !in text ==> r == open + RStrip(text) + reset + FinalSpace(text)
    ensures (forall i :: 0 <= i < |text| ==> !SpaceEndsLine(text, i)) ==> r == open + RStrip(text) + reset
    ensures forall i :: FirstSpaceEndsLine(text, i) ==> r == open + RStrip(text) + reset + [text[i]]
    ensures open == "" && reset == "" ==> RStrip(text) <= r && |r| <= |RStrip(text)| + 1
  {
    var ending := LineEndSpace(text);
    SingleLineEnding(text);
    open + RStrip(text) + reset + ending
  }

  /** Without newlines the only place `$` matches is the end of the text. */
  lemma SingleLineEnding(text: string)
    ensures '\n' !in text ==> LineEndSpace(text) == FinalSpace(text)
  {
    if '\n' !in text && text != "" {
      forall i | 0 <= i < |text| - 1 ensures !SpaceEndsLine(text, i) {
        assert text[i + 1] in text;
      }
      if IsSpace(text[|text| - 1]) {
        assert SpaceEndsLine(text, |text| - 1);
      }
    }
  }

  /**
   * With a newline after the trailing blank, the blank is kept and the newline
   * is lost: `colorize("done \n")` on a plain terminal gives `"done "`.
   */
  lemma ColorizeDropsFinalNewline()
    ensures Colorize(None, "done \n", []) == "done "
  {
    assert SpaceEndsLine("done \n", 4);
    assert !SpaceEndsLine("done \n", 0) && !SpaceEndsLine("done \n", 1);
    assert !SpaceEndsLine("done \n", 2) && !SpaceEndsLine("done \n", 3);
    assert FirstSpaceEndingLine("done \n", 0) == Some(4);
    assert RStrip("done \n") == "done" by {
      assert "done \n"[..5] == "done ";
      assert "done "[..4] == "done";
    }
  }

  // ---------------------------------------------------------------- prompt label

  /** `/\W$/`: some line of `s` ends with a non-word character. */
  predicate NonWordEndsLine(s: string) {
    exists i :: 0 <= i < |s| && !IsWordChar(s[i]) && (i + 1 == |s| || s[i + 1] == '\n')
  }

  /**
   * The label `prompt` shows: the chomped prompt string, with a colon added
   * unless a line of it already ends in a non-word character.  The label
   * itself always has such a line ending, so labelling never stacks colons.
   */
  function PromptLabel(promptString: string): (r: string)
    ensures Chomp(promptString) <= r && |r| <= |Chomp(promptString)| + 1
    ensures r == Chomp(promptString) <==> NonWordEndsLine(Chomp(promptString))
    ensures r != Chomp(promptString) ==> r[|r| - 1] == ':'
    ensures NonWordEndsLine(r)
  {
    var s := Chomp(promptString);
    if NonWordEndsLine(s) then s
    else
      var r := s + ":";
      assert !IsWordChar(r[|r| - 1]);
      r
  }

  /** `"%s [%s]" % [prompt_string, default]`: how `prompt_with_default` asks. */
  function DefaultPromptText(promptString: string, default: string): string {
    promptString + " [" + default + "]"
  }

  /** A prompt that shows its default already ends in `]`, so `prompt` adds no colon. */
  lemma DefaultPromptHasNoColon(promptString: string, default: string)
    ensures PromptLabel(DefaultPromptText(promptString, default)) == DefaultPromptText(promptString, default)
  {
    var s := DefaultPromptText(promptString, default);
    assert s[|s| - 1] == ']';
    assert Chomp(s) == s;
    assert !IsWordChar(s[|s| - 1]);
  }

  // ---------------------------------------------------------------- quotelist

  /** The escape `String#inspect` writes for one character. */
  function InspectChar(c: char): string {
    if c == '\"' then "\\\""
    else if c == '\\' then "\\\\"
    else if c == '\n' then "\\n"
    else if c == '\t' then "\\t"
    else if c == '\r' then "\\r"
    else if c == '\U{C}' then "\\f"
    else if c == '\U{B}' then "\\v"
    else if c == '\U{7}' then "\\a"
    else if c == '\U{8}' then "\\b"
    else if c == ESC then "\\e"
    else [c]
  }

  /** The character a two-character escape stands for. */
  function UninspectEscape(e: char): Option<char> {
    if e == '\"' then Some('\"')
    else if e == '\\' then Some('\\')
    else if e == 'n' then Some('\n')
    else if e == 't' then Some('\t')
    else if e == 'r' then Some('\r')
    else if e == 'f' then Some('\U{C}')
    else if e == 'v' then Some('\U{B}')
    else if e == 'a' then Some('\U{7}')
    else if e == 'b' then Some('\U{8}')
    else if e == 'e' then Some(ESC)
    else None
  }

  function InspectBody(s: string): string {
    if s == "" then "" else InspectChar(s[0]) + InspectBody(s[1..])
  }

  /** Reads an escaped body back; a bare quote or an unknown escape is rejected. */
  function UninspectBody(t: string): Option<string>
    decreases |t|
  {
    if t == "" then Some("")
    else if t[0] == '\"' then None
    else if t[0] == '\\' then
      if |t| < 2 then None
      else match UninspectEscape(t[1])
        case None => None
        case Some(c) => match UninspectBody(t[2..])
          case None => None
          case Some(rest) => Some([c] + rest)
    else match UninspectBody(t[1..])
      case None => None
      case Some(rest) => Some([t[0]] + rest)
  }

  lemma UninspectChar(c: char, t: string)
    ensures UninspectBody(InspectChar(c) + t) ==
      match UninspectBody(t) case None => None case Some(rest) => Some([c] + rest)
  {
    var e := InspectChar(c) + t;
    if |InspectChar(c)| == 2 {
      assert e[2..] == t;
    } else {
      assert e[1..] == t;
    }
  }

  lemma {:induction false} UninspectInspectBody(s: string)
    ensures UninspectBody(InspectBody(s)) == Some(s)
    decreases |s|
  {
    if s != "" {
      UninspectInspectBody(s[1..]);
      UninspectChar(s[0], InspectBody(s[1..]));
      assert [s[0]] + s[1..] == s;
    }
  }

  /** `String#inspect` for the characters the plugin can meet: a double-quoted, escaped copy. */
  function Inspect(s: string): (r: string)
    ensures |r| >= 2 && r[0] == '\"' && r[|r| - 1] == '\"'
    ensures Uninspect(r) == Some(s)
  {
    var r := "\"" + InspectBody(s) + "\"";
    assert r[1..|r| - 1] == InspectBody(s);
    UninspectInspectBody(s);
    r
  }

  function Uninspect(r: string): Option<string> {
    if |r| >= 2 && r[0] == '\"' && r[|r| - 1] == '\"' then UninspectBody(r[1..|r| - 1]) else None
  }

  /**
   * `quotelist(*args)`: one entry per argument; arguments with whitespace are
   * replaced by a quoted form that reads back as the argument, the rest are
   * left alone.
   */
  function Quotelist(args: seq<string>): (r: seq<string>)
    ensures |r| == |args|
    ensures forall i :: 0 <= i < |args| && HasSpace(args[i]) ==>
      Uninspect(r[i]) == Some(args[i])
    ensures forall i :: 0 <= i < |args| && !HasSpace(args[i]) ==> r[i] == args[i]
  {
    seq(|args|, i requires 0 <= i < |args| => if HasSpace(args[i]) then Inspect(args[i]) else args[i])
  }

  // ---------------------------------------------------------------- humanize_file_list

  function Min(a: int, b: int): int { if a < b then a else b }

  /** `" (and %d other/s)"` for a positive count, nothing for zero. */
  function OthersNote(count: nat): string {
    if count > 0 then " (and " + NatToString(count) + " other/s)" else ""
  }

  /** `list.length - 5` when `list.length > 5`, zero otherwise. */
  function BeyondFive(list: seq<string>): nat {
    if |list| > 5 then |list| - 5 else 0
  }

  /** `humanize_file_list` as written: `list[0..5]` shows SIX names, yet `> 5` counts all but five as others. */
  function HumanizeFileList(list: seq<string>, indent: string): (r: string)
    ensures |list| <= 5 ==> r == Join(list, "\n" + indent)
    ensures |list| > 5 ==> r == Join(list[..6], "\n" + indent) + " (and " + NatToString(|list| - 5) + " other/s)"
  {
    assert |list| <= 5 ==> list[..Min(6, |list|)] == list;
    Join(list[..Min(6, |list|)], "\n" + indent) + OthersNote(BeyondFive(list))
  }

  /** The same listing showing five names, so that shown plus counted is the whole list. */
  function HumanizeFileListFixed(list: seq<string>, indent: string): string {
    Join(list[..Min(5, |list|)], "\n" + indent) + OthersNote(BeyondFive(list))
  }

  /** How many names a listing shows, and how many others it claims. */
  datatype Tally = Tally(shown: nat, claimed: nat)

  function WrittenTally(list: seq<string>): Tally {
    Tally(|list[..Min(6, |list|)]|, BeyondFive(list))
  }

  function FixedTally(list: seq<string>): Tally {
    Tally(|list[..Min(5, |list|)]|, BeyondFive(list))
  }

  /**
   * As written, any list longer than five is over-counted by one: the sixth
   * name is both shown and counted among the others.
   */
  lemma HumanizeOvercounts(list: seq<string>, indent: string)
    requires |list| > 5
    ensures WrittenTally(list).shown + WrittenTally(list).claimed == |list| + 1
    ensures HumanizeFileList(list, indent) ==
      Join(list[..6], "\n" + indent) + " (and " + NatToString(|list| - 5) + " other/s)"
  {
  }

  /** Six files: every one of them is listed, and the note still claims one other. */
  lemma HumanizeSixFiles(list: seq<string>, indent: string)
    requires |list| == 6
    ensures HumanizeFileList(list, indent) == Join(list, "\n" + indent) + " (and 1 other/s)"
  {
    assert list[..6] == list;
    assert NatToString(1) == "1";
  }

  /**
   * The corrected listing accounts for every file exactly once: the first
   * `shown` names are displayed and the note counts precisely the rest.
   */
  lemma HumanizeFixedAccountsForAll(list: seq<string>, indent: string)
    ensures FixedTally(list).shown + FixedTally(list).claimed == |list|
    ensures FixedTally(list).shown <= 5
    ensures HumanizeFileListFixed(list, indent) ==
      Join(list[..FixedTally(list).shown], "\n" + indent) +
      OthersNote(FixedTally(list).claimed)
  {
  }
}
