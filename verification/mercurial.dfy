/**
 * `Hoe::Mercurial`: the plugin's settings, the release bookkeeping that
 * compares tags with the history file, and the decisions the `hg:prep_release`,
 * `hg:newfiles`, `hg:pull`, `hg:push` and `check_history` tasks make.  Every
 * command's output, the history file's text and what the user types are
 * parameters; the commands a task would run are returned as argument lists.
 */
module Mercurial {
  import opened Optional
  import opened RubyText
  import opened Lists
  import opened Versions
  import MercurialHelpers
  import RakeHelpers
  import Prompts

  /** `Hoe::Mercurial::VERSION`. */
  const VERSION := "1.4.1"

  /** A command line the task would run, program first. */
  type Command = seq<string>

  // ---------------------------------------------------------------- initialize_mercurial

  /** The three accessors the plugin adds to the Hoe spec. */
  datatype Settings = Settings(releaseTagPrefix: string, signTags: bool, checkHistoryOnRelease: bool)

  /** An entry of `extra_dev_deps`: a gem name and its requirement. */
  datatype Dependency = Dependency(name: string, requirement: string)

  /** The spec after `initialize_mercurial`. */
  datatype Setup = Setup(settings: Settings, extraDevDeps: seq<Dependency>)

  /** The plugin's own `major.minor`, as `VERSION[/^\d+\.\d+/]` finds it. */
  lemma PluginMinorVersion()
    ensures MinorVersion(VERSION) == Some("1.4")
  {
    VersionSpelledOut();
    MinorVersionOfRelease("1", "4", "1");
  }

  /** `VERSION` as major, minor and patch digits. */
  lemma VersionSpelledOut()
    ensures IsDigits("1") && IsDigits("4")
    ensures VERSION == "1" + "." + "4" + "." + "1"
    ensures "1" + "." + "4" == "1.4"
    ensures "~> " + "1.4" == "~> 1.4"
  {
  }

  /** The requirement a plugin user's project gets: `~>` and the plugin's `major.minor`. */
  function PluginRequirement(): (r: string)
    ensures r == "~> 1.4"
  {
    PluginMinorVersion();
    VersionSpelledOut();
    // A nil match would interpolate as the empty string.
    "~> " + MinorVersion(VERSION).GetOr("")
  }

  function InitializeMercurial(name: string, extraDevDeps: seq<Dependency>): (r: Setup)
    ensures r.settings == Settings("v", false, false)
    ensures name == "hoe-mercurial" ==> r.extraDevDeps == extraDevDeps
    ensures name != "hoe-mercurial" ==>
      r.extraDevDeps == extraDevDeps + [Dependency("hoe-mercurial", "~> 1.4")]
  {
    var requirement := PluginRequirement();
    var deps := if name == "hoe-mercurial" then extraDevDeps
                else extraDevDeps + [Dependency("hoe-mercurial", requirement)];
    Setup(Settings("v", false, false), deps)
  }

  // ---------------------------------------------------------------- get_unhistoried_version_tags

  /**
   * `get_tags().grep(/^#{prefix}\d+(\.\d+)+$/)`: the tags that are release
   * tags, in order; a nil entry never matches.
   */
  function ReleaseTags(prefix: string, tags: seq<Option<string>>): (r: seq<string>)
    ensures forall t :: t in r <==> Some(t) in tags && IsReleaseTag(prefix, t)
    ensures |r| <= |tags|
  {
    if |tags| == 0 then []
    else
      var rest := ReleaseTags(prefix, tags[1..]);
      assert tags == [tags[0]] + tags[1..];
      if tags[0].Some? && IsReleaseTag(prefix, tags[0].value) then [tags[0].value] + rest else rest
  }

  /** `grep` works line by line of the tag list: the release tags of two lists are those of each, in order. */
  lemma {:induction false} ReleaseTagsAppend(prefix: string, a: seq<Option<string>>, b: seq<Option<string>>)
    ensures ReleaseTags(prefix, a + b) == ReleaseTags(prefix, a) + ReleaseTags(prefix, b)
    decreases |a|
  {
    if |a| == 0 {
      assert a + b == b;
    } else {
      assert (a + b)[0] == a[0] && (a + b)[1..] == a[1..] + b;
      ReleaseTagsAppend(prefix, a[1..], b);
    }
  }

  /** The package's own tag, `"#{prefix}#{version}"`. */
  function PackageTag(prefix: string, version: string): string {
    prefix + version
  }

  /** The tags that need a history entry: the package tag first when asked for, then the release tags. */
  function Candidates(prefix: string, version: string, tagsStdout: string, includePkgVersion: bool): (r: seq<string>)
    ensures forall t :: t in r <==>
      (includePkgVersion && t == PackageTag(prefix, version)) ||
      (Some(t) in MercurialHelpers.GetTags(tagsStdout) && IsReleaseTag(prefix, t))
    ensures includePkgVersion ==>
      |r| > 0 && r[0] == PackageTag(prefix, version) &&
      r[1..] == ReleaseTags(prefix, MercurialHelpers.GetTags(tagsStdout))
    ensures !includePkgVersion ==> r == ReleaseTags(prefix, MercurialHelpers.GetTags(tagsStdout))
  {
    var released := ReleaseTags(prefix, MercurialHelpers.GetTags(tagsStdout));
    if includePkgVersion then [PackageTag(prefix, version)] + released else released
  }

  /** The tag each history line names after a heading marker, line by line. */
  function HeadingTags(prefix: string, lines: seq<string>): (r: seq<Option<string>>)
    ensures |r| == |lines|
    ensures forall i :: 0 <= i < |lines| ==> r[i] == HistoryTag(prefix, lines[i])
  {
    seq(|lines|, i requires 0 <= i < |lines| => HistoryTag(prefix, lines[i]))
  }

  /** The tags named somewhere in a sequence of per-line results. */
  function NamedSet(named: seq<Option<string>>): (r: set<string>)
    ensures forall t :: t in r <==> Some(t) in named
    decreases |named|
  {
    if |named| == 0 then {}
    else
      assert named == [named[0]] + named[1..];
      match named[0]
      case None => NamedSet(named[1..])
      case Some(t) => {t} + NamedSet(named[1..])
  }

  /** The tags some history line names after a heading marker. */
  function MentionedTags(prefix: string, lines: seq<string>): (r: set<string>)
    ensures forall t :: t in r <==> exists line :: line in lines && HistoryTag(prefix, line) == Some(t)
  {
    var named := HeadingTags(prefix, lines);
    forall t | Some(t) in named ensures exists line :: line in lines && HistoryTag(prefix, line) == Some(t) {
      var i :| 0 <= i < |named| && named[i] == Some(t);
      assert lines[i] in lines;
    }
    forall t, line | line in lines && HistoryTag(prefix, line) == Some(t) ensures Some(t) in named {
      var i :| 0 <= i < |lines| && lines[i] == line;
      assert named[i] == Some(t);
    }
    NamedSet(named)
  }

  /** The loop over the history lines: each line that names a tag deletes every occurrence of it. */
  function DeleteNamed(tags: seq<string>, named: seq<Option<string>>): seq<string>
    decreases |named|
  {
    if |named| == 0 then tags
    else
      var kept := match named[0]
        case None => tags
        case Some(t) => DeleteAll(tags, t);
      DeleteNamed(kept, named[1..])
  }

  /** Filtering out nothing changes nothing. */
  lemma {:induction false} WithoutNothing(xs: seq<string>)
    ensures Without(xs, {}) == xs
    decreases |xs|
  {
    if |xs| > 0 {
      WithoutNothing(xs[1..]);
      assert [xs[0]] + xs[1..] == xs;
    }
  }

  /**
   * Deleting line by line is filtering once: after the loop, exactly the tags
   * no line names are left, in their order.
   */
  lemma {:induction false} DeleteNamedWithout(xs: seq<string>, drop: set<string>, named: seq<Option<string>>)
    ensures DeleteNamed(Without(xs, drop), named) == Without(xs, drop + NamedSet(named))
    decreases |named|
  {
    if |named| == 0 {
      assert drop + NamedSet(named) == drop;
    } else {
      var rest := NamedSet(named[1..]);
      match named[0]
      case None =>
        assert NamedSet(named) == rest;
        DeleteNamedWithout(xs, drop, named[1..]);
      case Some(t) =>
        assert NamedSet(named) == {t} + rest;
        DeleteAllWithout(xs, drop, t);
        DeleteNamedWithout(xs, drop + {t}, named[1..]);
        assert drop + {t} + rest == drop + ({t} + rest);
    }
  }

  /**
   * `get_unhistoried_version_tags(include_pkg_version)`: the candidate tags no
   * heading of the history file names, in candidate order, duplicates kept.
   */
  function UnhistoriedVersionTags(prefix: string, version: string, tagsStdout: string, history: string,
                                  includePkgVersion: bool): (r: seq<string>)
    ensures var candidates := Candidates(prefix, version, tagsStdout, includePkgVersion);
      r == Without(candidates, MentionedTags(prefix, ReadLines(history))) &&
      IsSubsequence(r, candidates)
    ensures forall t :: t in r <==>
      t in Candidates(prefix, version, tagsStdout, includePkgVersion) &&
      forall line :: line in ReadLines(history) ==> HistoryTag(prefix, line) != Some(t)
    ensures forall t :: t in r ==>
      IsReleaseTag(prefix, t) || (includePkgVersion && t == PackageTag(prefix, version))
  {
    var candidates := Candidates(prefix, version, tagsStdout, includePkgVersion);
    var lines := ReadLines(history);
    WithoutNothing(candidates);
    var named := HeadingTags(prefix, lines);
    DeleteNamedWithout(candidates, {}, named);
    assert {} + NamedSet(named) == MentionedTags(prefix, lines);
    DeleteNamed(candidates, named)
  }

  /**
   * `unshift` puts the package tag at the front: when it is asked for and no
   * heading names it, it is the first tag reported missing.
   */
  lemma PackageTagReportedFirst(prefix: string, version: string, tagsStdout: string, history: string)
    requires forall line :: line in ReadLines(history) ==> HistoryTag(prefix, line) != Some(PackageTag(prefix, version))
    ensures var r := UnhistoriedVersionTags(prefix, version, tagsStdout, history, true);
      |r| > 0 && r[0] == PackageTag(prefix, version)
  {
  }

  /**
   * A heading `marker tag ...` among the history file's lines takes that tag
   * off the list, whatever the other lines say.
   */
  lemma HeadingRemovesTag(prefix: string, version: string, tagsStdout: string, history: string,
                          includePkgVersion: bool, marker: string, blanks: string, tagVersion: string, after: string)
    requires IsMarker(marker) && IsBlanks(blanks) && IsVersionNumber(tagVersion)
    requires prefix == "" || !IsSpace(prefix[0])
    requires after != "" && IsSpace(after[0])
    requires marker + blanks + prefix + tagVersion + after in ReadLines(history)
    ensures prefix + tagVersion !in UnhistoriedVersionTags(prefix, version, tagsStdout, history, includePkgVersion)
  {
    HeadingNamesTag(marker, blanks, prefix, tagVersion, after);
  }

  // ---------------------------------------------------------------- check_history

  /** The verdict of the `check_history` task. */
  datatype HistoryCheck = Complete | MissingEntries(tags: seq<string>)

  /**
   * `check_history`: fails, naming the tags in the order
   * `get_unhistoried_version_tags` reports them, unless every release tag and
   * the package's own tag has a heading in the history file.
   */
  function CheckHistory(prefix: string, version: string, tagsStdout: string, history: string): (r: HistoryCheck)
    ensures r == Complete <==>
      forall t :: t in Candidates(prefix, version, tagsStdout, true) ==>
        t in MentionedTags(prefix, ReadLines(history))
    ensures r.MissingEntries? ==> r.tags != []
    ensures r.MissingEntries? ==> r.tags == UnhistoriedVersionTags(prefix, version, tagsStdout, history, true)
    ensures r.MissingEntries? ==> forall t :: t in r.tags ==>
      t in Candidates(prefix, version, tagsStdout, true) && t !in MentionedTags(prefix, ReadLines(history))
    ensures r.Complete? ==> PackageTag(prefix, version) in MentionedTags(prefix, ReadLines(history))
  {
    var missing := UnhistoriedVersionTags(prefix, version, tagsStdout, history, true);
    if missing == [] then Complete
    else
      assert missing[0] in missing;
      MissingEntries(missing)
  }

  // ---------------------------------------------------------------- hg:pull and hg:push

  /** Which way `hg:pull` or `hg:push` talks to the default path. */
  datatype Direction = Pull | Push

  /** The command the `..._without_confirmation` task runs. */
  function SyncCommand(direction: Direction): Command {
    match direction
    case Pull => ["hg", "pull", "-u"]
    case Push => ["hg", "push"]
  }

  /** The question asked before syncing with `url`. */
  function SyncQuestion(direction: Direction, url: string): string {
    match direction
    case Pull => "Pull and update from '" + url + "'?"
    case Push => "Push to '" + url + "'?"
  }

  /** The question names the URL and ends in a question mark, so it is shown as it is. */
  lemma SyncQuestionShown(direction: Direction, url: string)
    ensures Prompts.ConfirmationPrompt(SyncQuestion(direction, url)) == SyncQuestion(direction, url)
  {
    var q := SyncQuestion(direction, url);
    assert q[|q| - 1] == '?';
  }

  /** `paths['default']`: the default path's URL, nil when there is none or its triple was cut short. */
  function DefaultUrl(pathsStdout: string): (r: Option<string>)
    ensures r.Some? <==> "default" in MercurialHelpers.GetRepoPaths(pathsStdout) &&
                         MercurialHelpers.GetRepoPaths(pathsStdout)["default"].Some?
  {
    var paths := MercurialHelpers.GetRepoPaths(pathsStdout);
    if "default" in paths then paths["default"] else None
  }

  /**
   * `hg:pull` / `hg:push`: without a default URL nothing is asked and nothing
   * runs; otherwise the user is asked (default no, never aborting) and only a
   * yes runs the command.
   */
  function SyncWithDefault(direction: Direction, pathsStdout: string, responses: seq<string>)
    : (r: Option<Prompts.Answer<seq<Command>>>)
    ensures DefaultUrl(pathsStdout).None? ==> r == Some(Prompts.Answer([], 0))
    ensures r.Some? ==> r.value.used <= |responses|
    ensures r.Some? ==> r.value.value == [] || r.value.value == [SyncCommand(direction)]
    ensures DefaultUrl(pathsStdout).Some? ==>
      var a := Prompts.AskForConfirmation(false, responses);
      (r.Some? <==> a.Some?) &&
      (r.Some? ==>
         r.value.used == a.value.used && 1 <= r.value.used &&
         (r.value.value == [SyncCommand(direction)] <==>
          Prompts.SaysYes(Prompts.Settled(Some("n"), responses[r.value.used - 1]))))
  {
    match DefaultUrl(pathsStdout)
    case None => Some(Prompts.Answer([], 0))
    case Some(url) => Prompts.IfConfirmed([SyncCommand(direction)], [], responses)
  }

  // ---------------------------------------------------------------- hg:prep_release

  /** Why `hg:prep_release` fails. */
  datatype Failure = UncommittedDeclined | AlreadyTagged | HistoryIncomplete(missing: seq<string>)

  /** What `hg:prep_release` ends with: the commands it ran, or the reason it failed. */
  datatype Release = Released(commands: seq<Command>) | Failed(reason: Failure)

  /** Signing (when configured) and tagging the current revision with the package tag. */
  function TagCommands(settings: Settings, version: string): (r: seq<Command>)
    ensures |r| == if settings.signTags then 2 else 1
    ensures r[|r| - 1] == ["hg", "tag", settings.releaseTagPrefix + version]
    ensures settings.signTags <==> r[0] == ["hg", "sign"]
  {
    (if settings.signTags then [["hg", "sign"]] else []) +
    [["hg", "tag", PackageTag(settings.releaseTagPrefix, version)]]
  }

  /**
   * The checks before tagging: the package tag must not exist yet, and when
   * `check_history_on_release` is set the history must be complete.
   */
  function ReleaseBlocker(settings: Settings, version: string, tagsStdout: string, history: string)
    : (r: Option<Failure>)
    ensures r.None? <==>
      Some(PackageTag(settings.releaseTagPrefix, version)) !in MercurialHelpers.GetTags(tagsStdout) &&
      (settings.checkHistoryOnRelease ==>
        CheckHistory(settings.releaseTagPrefix, version, tagsStdout, history) == Complete)
    ensures r == Some(AlreadyTagged) <==>
      Some(PackageTag(settings.releaseTagPrefix, version)) in MercurialHelpers.GetTags(tagsStdout)
    ensures r.Some? && r != Some(AlreadyTagged) ==>
      settings.checkHistoryOnRelease && r.value.HistoryIncomplete? &&
      CheckHistory(settings.releaseTagPrefix, version, tagsStdout, history) == MissingEntries(r.value.missing)
  {
    var prefix := settings.releaseTagPrefix;
    if Some(PackageTag(prefix, version)) in MercurialHelpers.GetTags(tagsStdout) then Some(AlreadyTagged)
    else if settings.checkHistoryOnRelease then
      match CheckHistory(prefix, version, tagsStdout, history)
      case Complete => None
      case MissingEntries(tags) => Some(HistoryIncomplete(tags))
    else None
  }

  /**
   * `hg:prep_release`: with uncommitted files the user must agree to go on
   * (a decline fails the task); then the checks; then the tag commands; then
   * the offer to push.  `used` counts the responses consumed by both prompts.
   */
  function PrepRelease(settings: Settings, version: string, statusStdout: string, tagsStdout: string,
                       history: string, pathsStdout: string, responses: seq<string>)
    : (r: Option<Prompts.Answer<Release>>)
    ensures r.Some? ==> r.value.used <= |responses|
    ensures r.Some? && r.value.value.Released? ==>
      ReleaseBlocker(settings, version, tagsStdout, history).None? &&
      TagCommands(settings, version) <= r.value.value.commands &&
      |r.value.value.commands| <= |TagCommands(settings, version)| + 1
    ensures r.Some? && r.value.value.Failed? ==>
      r.value.value.reason == UncommittedDeclined ||
      Some(r.value.value.reason) == ReleaseBlocker(settings, version, tagsStdout, history)
    ensures r.Some? && r.value.value == Failed(UncommittedDeclined) ==>
      MercurialHelpers.OutputLines(statusStdout) != []
    ensures MercurialHelpers.OutputLines(statusStdout) == [] && r.None? ==>
      ReleaseBlocker(settings, version, tagsStdout, history).None? && DefaultUrl(pathsStdout).Some?
    ensures (r.Some? && r.value.value == Failed(UncommittedDeclined)) <==>
      ConfirmUncommitted(statusStdout, responses).Some? &&
      ConfirmUncommitted(statusStdout, responses).value.value != Prompts.Proceed
    ensures (ConfirmUncommitted(statusStdout, responses).Some? &&
             ConfirmUncommitted(statusStdout, responses).value.value == Prompts.Proceed &&
             ReleaseBlocker(settings, version, tagsStdout, history).None?) ==>
        (r.Some? <==> TagAndPush(settings, version, pathsStdout,
                                 responses[ConfirmUncommitted(statusStdout, responses).value.used..]).Some?) &&
        (r.Some? ==> r.value.value == Released(TagAndPush(settings, version, pathsStdout,
                                 responses[ConfirmUncommitted(statusStdout, responses).value.used..]).value.value)) &&
        (r.Some? ==> r.value.used == ConfirmUncommitted(statusStdout, responses).value.used +
                                     TagAndPush(settings, version, pathsStdout,
                                 responses[ConfirmUncommitted(statusStdout, responses).value.used..]).value.used)
    ensures ConfirmUncommitted(statusStdout, responses).None? ==> r.None?
    ensures (ConfirmUncommitted(statusStdout, responses).Some? &&
             ConfirmUncommitted(statusStdout, responses).value.value == Prompts.Proceed &&
             ReleaseBlocker(settings, version, tagsStdout, history).Some?) ==>
        r == Some(Prompts.Answer(Failed(ReleaseBlocker(settings, version, tagsStdout, history).value),
                                 ConfirmUncommitted(statusStdout, responses).value.used))
  {
    match ConfirmUncommitted(statusStdout, responses)
    case None => None
    case Some(c) =>
      if c.value != Prompts.Proceed then Some(Prompts.Answer(Failed(UncommittedDeclined), c.used))
      else match ReleaseBlocker(settings, version, tagsStdout, history)
        case Some(failure) => Some(Prompts.Answer(Failed(failure), c.used))
        case None =>
          match TagAndPush(settings, version, pathsStdout, responses[c.used..])
          case None => None
          case Some(p) => Some(Prompts.Answer(Released(p.value), c.used + p.used))
  }

  /**
   * The first question of `hg:prep_release`: asked only when `hg status`
   * lists files, and a decline aborts the task.
   */
  function ConfirmUncommitted(statusStdout: string, responses: seq<string>)
    : (r: Option<Prompts.Answer<Prompts.Confirmation>>)
    ensures MercurialHelpers.OutputLines(statusStdout) == [] ==> r == Some(Prompts.Answer(Prompts.Proceed, 0))
    ensures MercurialHelpers.OutputLines(statusStdout) != [] ==> r == Prompts.AskForConfirmation(true, responses)
    ensures r.Some? ==> r.value.used <= |responses|
    ensures r.Some? ==> r.value.value != Prompts.Declined
  {
    if MercurialHelpers.OutputLines(statusStdout) == [] then Some(Prompts.Answer(Prompts.Proceed, 0))
    else Prompts.AskForConfirmation(true, responses)
  }

  /**
   * The end of `hg:prep_release`: the tag commands, then the offer to push to
   * the default path, which runs `hg push` only after a yes.
   */
  function TagAndPush(settings: Settings, version: string, pathsStdout: string, responses: seq<string>)
    : (r: Option<Prompts.Answer<seq<Command>>>)
    ensures r.Some? ==> r.value.used <= |responses|
    ensures r.Some? ==> TagCommands(settings, version) <= r.value.value
    ensures r.Some? ==>
      r.value.value == TagCommands(settings, version) ||
      r.value.value == TagCommands(settings, version) + [SyncCommand(Push)]
    ensures r.None? ==> DefaultUrl(pathsStdout).Some?
    ensures DefaultUrl(pathsStdout).None? ==> r == Some(Prompts.Answer(TagCommands(settings, version), 0))
    ensures DefaultUrl(pathsStdout).Some? ==> (r.Some? <==> Prompts.AskForConfirmation(false, responses).Some?)
    ensures r.Some? && DefaultUrl(pathsStdout).Some? ==>
      r.value.used == Prompts.AskForConfirmation(false, responses).value.used
    ensures r.Some? && DefaultUrl(pathsStdout).Some? ==> 1 <= r.value.used
    ensures r.Some? && DefaultUrl(pathsStdout).Some? && 1 <= r.value.used ==>
      (r.value.value == TagCommands(settings, version) + [SyncCommand(Push)] <==>
       Prompts.SaysYes(Prompts.Settled(Some("n"), responses[r.value.used - 1])))
  {
    var tags := TagCommands(settings, version);
    match SyncWithDefault(Push, pathsStdout, responses)
    case None => None
    case Some(p) =>
      PushAfterTags(tags, p.value);
      Some(Prompts.Answer(tags + p.value, p.used))
  }

  /** What the push offer ran, after the tag commands: they stay a prefix, and the push is there exactly when it ran. */
  lemma PushAfterTags(tags: seq<Command>, pushed: seq<Command>)
    requires pushed == [] || pushed == [SyncCommand(Push)]
    ensures tags <= tags + pushed
    ensures tags + pushed == tags || tags + pushed == tags + [SyncCommand(Push)]
    ensures tags + pushed == tags + [SyncCommand(Push)] <==> pushed == [SyncCommand(Push)]
  {
    AppendCancels(tags, pushed, [SyncCommand(Push)]);
    assert tags + [] == tags;
  }

  /** Two sequences with the same prefix are equal exactly when what follows it is. */
  lemma AppendCancels<T>(a: seq<T>, b: seq<T>, c: seq<T>)
    ensures a + b == a + c <==> b == c
  {
    if a + b == a + c {
      assert b == (a + b)[|a|..];
    }
  }

  /**
   * A clean working copy, a new version and no default path: the release is
   * tagged without a single question.
   */
  lemma QuietRelease(settings: Settings, version: string, tagsStdout: string, history: string,
                     pathsStdout: string, responses: seq<string>)
    requires ReleaseBlocker(settings, version, tagsStdout, history).None?
    requires DefaultUrl(pathsStdout).None?
    ensures PrepRelease(settings, version, "", tagsStdout, history, pathsStdout, responses) ==
      Some(Prompts.Answer(Released(TagCommands(settings, version)), 0))
  {
    assert MercurialHelpers.OutputLines("") == [];
    assert ConfirmUncommitted("", responses) == Some(Prompts.Answer(Prompts.Proceed, 0));
    assert responses[0..] == responses;
  }

  /**
   * An existing package tag always stops the release before anything is
   * tagged: once the uncommitted-files question (if any) is answered, the
   * task fails, with `AlreadyTagged` unless that answer already aborted it.
   */
  lemma TaggedVersionNeverReleased(settings: Settings, version: string, statusStdout: string, tagsStdout: string,
                                   history: string, pathsStdout: string, responses: seq<string>)
    requires Some(PackageTag(settings.releaseTagPrefix, version)) in MercurialHelpers.GetTags(tagsStdout)
    ensures var r := PrepRelease(settings, version, statusStdout, tagsStdout, history, pathsStdout, responses);
      r.None? || r.value.value.Failed?
    ensures var r := PrepRelease(settings, version, statusStdout, tagsStdout, history, pathsStdout, responses);
      var c := ConfirmUncommitted(statusStdout, responses);
      (r.None? <==> c.None?) &&
      (c.Some? && c.value.value == Prompts.Proceed ==> r == Some(Prompts.Answer(Failed(AlreadyTagged), c.value.used)))
  {
  }

  // ---------------------------------------------------------------- hg:newfiles

  /** What the `newfiles` task does with one unknown file. */
  datatype Action = Add | Ignore | Delete | Skip

  /**
   * The action an entry's prompt (default `s`) settles on: exactly `a`, `i`
   * or `d` picks an action, anything else -- including the default and a
   * `~`, which answers nil -- skips the file.
   */
  function EntryAction(response: string): (r: Action)
    ensures r == Add <==> response == "a"
    ensures r == Ignore <==> response == "i"
    ensures r == Delete <==> response == "d"
    ensures r == Skip <==> response != "a" && response != "i" && response != "d"
  {
    match Prompts.Settled(Some("s"), response)
    case None => Skip
    case Some(answer) =>
      if answer == "a" then Add
      else if answer == "i" then Ignore
      else if answer == "d" then Delete
      else Skip
  }

  /** Every response ends an entry's prompt, so each entry takes exactly one. */
  lemma EntryPromptTakesOne(responses: seq<string>)
    requires |responses| > 0
    ensures Prompts.PromptWithDefault(Some("s"), Prompts.AcceptAll, responses) ==
      Some(Prompts.Answer(Prompts.Settled(Some("s"), responses[0]), 1))
  {
    assert Prompts.Settles(Some("s"), Prompts.AcceptAll, responses[0]);
  }

  /** The entries whose action is `action`, in order. */
  function Select(entries: seq<string>, actions: seq<Action>, action: Action): (r: seq<string>)
    requires |actions| == |entries|
    ensures IsSubsequence(r, entries)
    ensures forall f :: f in r <==> exists i :: 0 <= i < |entries| && entries[i] == f && actions[i] == action
    decreases |entries|
  {
    if |entries| == 0 then []
    else
      var rest := Select(entries[1..], actions[1..], action);
      assert entries == [entries[0]] + entries[1..];
      assert forall i :: 1 <= i < |entries| ==> entries[i] == entries[1..][i - 1] && actions[i] == actions[1..][i - 1];
      if actions[0] == action then
        SubsequenceCons(entries[0], rest, entries[1..]);
        [entries[0]] + rest
      else
        SubsequenceSkip(entries[0], rest, entries[1..]);
        rest
  }

  /** Selecting from a list with one more entry at the end. */
  lemma {:induction false} SelectSnoc(entries: seq<string>, actions: seq<Action>, f: string, a: Action, action: Action)
    requires |actions| == |entries|
    ensures Select(entries + [f], actions + [a], action) ==
      Select(entries, actions, action) + (if a == action then [f] else [])
    decreases |entries|
  {
    if |entries| == 0 {
      assert entries + [f] == [f] && actions + [a] == [a];
    } else {
      assert (entries + [f])[1..] == entries[1..] + [f];
      assert (actions + [a])[1..] == actions[1..] + [a];
      SelectSnoc(entries[1..], actions[1..], f, a, action);
    }
  }

  /** Selecting from a non-empty list, counted as a multiset: the first entry counts iff its action matches. */
  lemma SelectCons(entries: seq<string>, actions: seq<Action>, action: Action)
    requires |actions| == |entries| > 0
    ensures multiset(Select(entries, actions, action)) ==
      (if actions[0] == action then multiset{entries[0]} else multiset{}) +
      multiset(Select(entries[1..], actions[1..], action))
  {
  }

  /** Every entry lands in exactly one of the four selections. */
  lemma {:induction false} SelectPartitions(entries: seq<string>, actions: seq<Action>)
    requires |actions| == |entries|
    ensures multiset(Select(entries, actions, Add)) + multiset(Select(entries, actions, Ignore)) +
            multiset(Select(entries, actions, Delete)) + multiset(Select(entries, actions, Skip)) ==
            multiset(entries)
    decreases |entries|
  {
    if |entries| > 0 {
      var e, a := entries[1..], actions[1..];
      SelectPartitions(e, a);
      SelectCons(entries, actions, Add);
      SelectCons(entries, actions, Ignore);
      SelectCons(entries, actions, Delete);
      SelectCons(entries, actions, Skip);
      OneMoreInOne(entries[0], actions[0],
        multiset(Select(entries, actions, Add)), multiset(Select(entries, actions, Ignore)),
        multiset(Select(entries, actions, Delete)), multiset(Select(entries, actions, Skip)),
        multiset(Select(e, a, Add)), multiset(Select(e, a, Ignore)),
        multiset(Select(e, a, Delete)), multiset(Select(e, a, Skip)));
      assert entries == [entries[0]] + e;
      assert multiset(entries) == multiset{entries[0]} + multiset(e);
    }
  }

  /** Adding `x` to the one of four multisets its action names adds it once to their sum. */
  lemma OneMoreInOne(x: string, which: Action,
                     add: multiset<string>, ignore: multiset<string>, delete: multiset<string>, skip: multiset<string>,
                     add0: multiset<string>, ignore0: multiset<string>, delete0: multiset<string>, skip0: multiset<string>)
    requires add == (if which == Add then multiset{x} else multiset{}) + add0
    requires ignore == (if which == Ignore then multiset{x} else multiset{}) + ignore0
    requires delete == (if which == Delete then multiset{x} else multiset{}) + delete0
    requires skip == (if which == Skip then multiset{x} else multiset{}) + skip0
    ensures add + ignore + delete + skip == multiset{x} + (add0 + ignore0 + delete0 + skip0)
  {
  }

  /** The actions chosen for the entries, one response each. */
  function Actions(entries: seq<string>, responses: seq<string>): (r: seq<Action>)
    requires |responses| >= |entries|
    ensures |r| == |entries|
    ensures forall i :: 0 <= i < |entries| ==> r[i] == EntryAction(responses[i])
  {
    seq(|entries|, i requires 0 <= i < |entries| => EntryAction(responses[i]))
  }

  /** The three lists the `newfiles` loop fills. */
  datatype Partition = Partition(toAdd: seq<string>, toIgnore: seq<string>, toDelete: seq<string>)

  /**
   * The lists `newfiles` builds from the entries and the responses: each list
   * keeps the entries' order and holds exactly the entries answered `a`, `i`
   * or `d` respectively.
   */
  function PartitionOf(entries: seq<string>, responses: seq<string>): (r: Partition)
    requires |responses| >= |entries|
    ensures IsSubsequence(r.toAdd, entries) && IsSubsequence(r.toIgnore, entries) &&
            IsSubsequence(r.toDelete, entries)
    ensures forall f :: f in r.toAdd <==> exists i :: 0 <= i < |entries| && entries[i] == f && responses[i] == "a"
    ensures forall f :: f in r.toIgnore <==> exists i :: 0 <= i < |entries| && entries[i] == f && responses[i] == "i"
    ensures forall f :: f in r.toDelete <==> exists i :: 0 <= i < |entries| && entries[i] == f && responses[i] == "d"
  {
    var actions := Actions(entries, responses);
    Partition(Select(entries, actions, Add), Select(entries, actions, Ignore), Select(entries, actions, Delete))
  }

  /** Distinct entries go to at most one list: the three lists and the skipped ones add up to the entries. */
  lemma PartitionIsDisjoint(entries: seq<string>, responses: seq<string>)
    requires |responses| >= |entries|
    ensures var p := PartitionOf(entries, responses);
      multiset(p.toAdd) + multiset(p.toIgnore) + multiset(p.toDelete) <= multiset(entries)
  {
    SelectPartitions(entries, Actions(entries, responses));
  }

  /** The loop of the `newfiles` task: one response per entry, appended to the list its action names. */
  method SortEntries(entries: seq<string>, responses: seq<string>) returns (p: Partition)
    requires |responses| >= |entries|
    ensures p == PartitionOf(entries, responses)
  {
    var actions := Actions(entries, responses);
    var toAdd, toIgnore, toDelete := [], [], [];
    var i := 0;
    while i < |entries|
      invariant 0 <= i <= |entries|
      invariant toAdd == Select(entries[..i], actions[..i], Add)
      invariant toIgnore == Select(entries[..i], actions[..i], Ignore)
      invariant toDelete == Select(entries[..i], actions[..i], Delete)
    {
      var action := EntryAction(responses[i]);
      SelectSnoc(entries[..i], actions[..i], entries[i], action, Add);
      SelectSnoc(entries[..i], actions[..i], entries[i], action, Ignore);
      SelectSnoc(entries[..i], actions[..i], entries[i], action, Delete);
      assert entries[..i + 1] == entries[..i] + [entries[i]];
      assert actions[..i + 1] == actions[..i] + [action];
      if action == Add {
        toAdd := toAdd + [entries[i]];
      } else if action == Ignore {
        toIgnore := toIgnore + [entries[i]];
      } else if action == Delete {
        toDelete := toDelete + [entries[i]];
      }
      i := i + 1;
    }
    assert entries[..i] == entries && actions[..i] == actions;
    p := Partition(toAdd, toIgnore, toDelete);
  }

  /** What the `newfiles` task does: the `hg add` it runs, the lines it appends to `.hgignore`, the deletion. */
  datatype NewFilesResult = NewFilesResult(
    partition: Partition,
    commands: seq<Command>,
    ignoreText: string,
    deletion: Option<MercurialHelpers.Deletion>)

  /**
   * `hg_ignore_files(*files_to_ignore)` unless the list is empty: nothing for
   * no files, otherwise one anchored pattern line per file, in order.
   */
  function IgnoreText(files: seq<string>): (r: string)
    ensures r == "" <==> files == []
    ensures var lines := ReadLines(r);
      |lines| == |files| &&
      forall i :: 0 <= i < |files| ==> MercurialHelpers.IsPatternLine(lines[i], files[i])
  {
    MercurialHelpers.IgnoreFileLines(files);
    if files == [] then "" else MercurialHelpers.IgnoreFileAddition(files)
  }

  /**
   * `delete_extra_files(files_to_delete)` unless the list is empty: no
   * question and no deletion for no files, otherwise the confirmation, whose
   * yes removes them all.
   */
  function OfferDeletion(files: seq<string>, responses: seq<string>)
    : (r: Option<Prompts.Answer<Option<MercurialHelpers.Deletion>>>)
    ensures files == [] ==> r == Some(Prompts.Answer(None, 0))
    ensures files != [] ==> (r.Some? <==> Prompts.AskForConfirmation(false, responses).Some?)
    ensures r.Some? ==> r.value.used <= |responses|
    ensures r.Some? && files != [] ==> r.value.used == Prompts.AskForConfirmation(false, responses).value.used
    ensures r.Some? ==> (r.value.value.None? <==> files == [])
    ensures r.Some? && r.value.value.Some? ==>
      1 <= r.value.used &&
      r.value.value.value.listing == RakeHelpers.HumanizeFileListFixed(files, "\t ") &&
      (r.value.value.value.removed == files || r.value.value.value.removed == []) &&
      (r.value.value.value.removed == files <==>
       Prompts.SaysYes(Prompts.Settled(Some("n"), responses[r.value.used - 1])))
  {
    if files == [] then Some(Prompts.Answer(None, 0))
    else match MercurialHelpers.DeleteExtraFiles(files, responses)
      case None => None
      case Some(d) => Some(Prompts.Answer(Some(d.value), d.used))
  }

  /**
   * `hg:newfiles`: asks about every unknown file, then adds, ignores and
   * offers to delete the files so chosen; a list that stays empty leads to
   * no action at all.
   */
  function NewFiles(unknownStdout: string, responses: seq<string>): (r: Option<Prompts.Answer<NewFilesResult>>)
    ensures |responses| < |MercurialHelpers.OutputLines(unknownStdout)| ==> r.None?
    ensures var entries := MercurialHelpers.OutputLines(unknownStdout);
      r.Some? <==> |responses| >= |entries| &&
                   OfferDeletion(PartitionOf(entries, responses).toDelete, responses[|entries|..]).Some?
    ensures var entries := MercurialHelpers.OutputLines(unknownStdout);
      r.Some? ==>
        r.value.used ==
          |entries| + OfferDeletion(PartitionOf(entries, responses).toDelete, responses[|entries|..]).value.used
    ensures r.Some? ==> var entries := MercurialHelpers.OutputLines(unknownStdout);
      |entries| <= r.value.used <= |responses| &&
      r.value.value.partition == PartitionOf(entries, responses)
    ensures r.Some? ==> var p := r.value.value.partition;
      (p.toAdd == [] ==> r.value.value.commands == []) &&
      (p.toAdd != [] ==> r.value.value.commands == [["hg", "add"] + p.toAdd])
    ensures r.Some? ==> var p := r.value.value.partition;
      var lines := ReadLines(r.value.value.ignoreText);
      (r.value.value.ignoreText == "" <==> p.toIgnore == []) &&
      |lines| == |p.toIgnore| &&
      forall i :: 0 <= i < |p.toIgnore| ==> MercurialHelpers.IsPatternLine(lines[i], p.toIgnore[i])
    ensures r.Some? ==> var p := r.value.value.partition;
      (p.toDelete == [] <==> r.value.value.deletion.None?) &&
      (r.value.value.deletion.Some? ==>
        r.value.value.deletion.value.listing == RakeHelpers.HumanizeFileListFixed(p.toDelete, "\t ") &&
        (r.value.value.deletion.value.removed == p.toDelete || r.value.value.deletion.value.removed == []))
    ensures r.Some? && r.value.value.deletion.Some? ==>
      |MercurialHelpers.OutputLines(unknownStdout)| < r.value.used &&
      (r.value.value.deletion.value.removed == r.value.value.partition.toDelete <==>
       Prompts.SaysYes(Prompts.Settled(Some("n"), responses[r.value.used - 1])))
  {
    var entries := MercurialHelpers.OutputLines(unknownStdout);
    if |responses| < |entries| then None
    else
      var p := PartitionOf(entries, responses);
      var commands := if p.toAdd == [] then [] else [["hg", "add"] + p.toAdd];
      match OfferDeletion(p.toDelete, responses[|entries|..])
      case None => None
      case Some(d) =>
        assert d.used > 0 ==> responses[|entries|..][d.used - 1] == responses[|entries| + d.used - 1];
        Some(Prompts.Answer(NewFilesResult(p, commands, IgnoreText(p.toIgnore), d.value), |entries| + d.used))
  }
}
