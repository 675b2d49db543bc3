# hoe-mercurial, modelled in Dafny

`hoe-mercurial` is a Hoe plugin. It gives a Ruby project's Rakefile Mercurial
tasks: `hg:prep_release` tags a release, `hg:newfiles` sorts out unknown
files, `hg:pull`/`hg:push` sync with the default path, and `check_history`
makes sure the history file has a heading for every release tag. Most of
`lib/hoe/mercurial.rb` runs `hg` and reads what it prints. The decisions in
between are pure text processing, and they are what this project models:

- parsing the output of `hg tags`, `hg paths`, `hg identify -n` and `hg status`;
- the prompt loops of `Hoe::RakeHelpers`, as functions of what the user types;
- the release bookkeeping that compares tags with the history file;
- the formatting helpers: ANSI colour escapes, `colorize`, `quotelist`, and the truncated file listing.

A command's standard output, the history file's text, the terminal type and
the user's answers are all parameters. A task returns the commands it would
run as argument lists. When the answers run out before a prompt is satisfied,
the result is `None`: the real prompt would still be waiting.

The modules follow the Ruby modules:

| file | module | contents |
|---|---|---|
| `optional.dfy` | `Optional` | `Option`, for Ruby's `nil` |
| `lists.dfy` | `Lists` | subsequences, filtering and `Array#delete` |
| `ruby_text.dfy` | `RubyText` | the `String` and `Regexp` behaviour the code relies on: `chomp`, `strip`, `split`, `IO.readlines`, line anchors |
| `rake_helpers.dfy` | `RakeHelpers` | `ansi_code`, `colorize`, the prompt label, `quotelist`, `humanize_file_list` |
| `prompts.dfy` | `Prompts` | `prompt`, `prompt_with_default`, `prompt_for_multiple_values`, `ask_for_confirmation` |
| `mercurial_helpers.dfy` | `MercurialHelpers` | the `hg` output parsers, `.hgignore` patterns, `delete_extra_files` |
| `versions.dfy` | `Versions` | release tags (`prefix\d+(\.\d+)+`), `major.minor`, and history headings |
| `mercurial.dfy` | `Mercurial` | `initialize_mercurial`, `get_unhistoried_version_tags`, and the task decisions |

Ruby semantics are modelled where the code depends on them:

- `split(/\n/)` drops only trailing empty fields. An empty line in the middle of `hg status` output therefore stays in the list as an empty file name. The model keeps them, as the code does.
- `^` and `$` match at every line boundary, not only at the ends of the text. This matters to `colorize`, `get_numeric_rev`, the `major.minor` match, the prompt colon and the y/n checks.
- `read_command_output` already chomps. `get_numeric_rev` chomps a second time.
- `\s` is `[ \t\n\v\f\r]`, and `strip` also removes NUL characters.

## Model

All source paths are in `lib/hoe/mercurial.rb`.

| member | source | states |
|---|---|---|
| RubyText.Chomp | lib/hoe/mercurial.rb:280 | chomp removes exactly one line terminator from the end, a trailing `\r\n` as a pair, and changes nothing exactly when there is none |
| RubyText.Strip | lib/hoe/mercurial.rb:128 | the stripped response is a slice of the input with only whitespace and NUL on either side of it, and it neither starts nor ends with either |
| RubyText.RStrip | lib/hoe/mercurial.rb:96 | the result is a prefix of the text, everything after it is whitespace or NUL, and it does not end in either, so it is the longest such prefix |
| RubyText.Words | lib/hoe/mercurial.rb:382 | `split` with no argument gives only non-empty runs without whitespace |
| RubyText.WordsEmpty | lib/hoe/mercurial.rb:382 | `split` finds no word exactly when the text is all whitespace |
| RubyText.WordsOfJoin | lib/hoe/mercurial.rb:382 | words joined by single spaces split back into the same words |
| RubyText.WordsAppend | lib/hoe/mercurial.rb:382 | a whitespace run between two texts separates their words: the words of the whole are the words of each in turn |
| RubyText.StripKeeps | lib/hoe/mercurial.rb:199 | stripping never adds or removes a `?`, so `description.strip.rindex('?')` asks whether the description contains one |
| RubyText.SplitLines | lib/hoe/mercurial.rb:374 | `split(/\n/)` gives newline-free pieces, with no trailing empty piece, that join back to the text minus trailing newlines |
| RubyText.SplitLinesOfJoin | lib/hoe/mercurial.rb:392 | splitting newline-free lines joined by newlines gives the lines back, when the last one is not empty |
| RubyText.Fields | lib/hoe/mercurial.rb:73 | cutting at a separator gives separator-free fields that join back to the text |
| RubyText.ReadLines | lib/hoe/mercurial.rb:473 | `IO.readlines` gives lines that concatenate to the file, each with a newline only at its end, all but the last ending in one |
| RubyText.FirstLineMatch | lib/hoe/mercurial.rb:367 | an unanchored match of a `^`-pattern is the leftmost line start where the pattern matches |
| RakeHelpers.AttributeCodes | lib/hoe/mercurial.rb:73 | `values_at(...).compact` keeps only known names' codes, and is empty exactly when no name is known |
| RakeHelpers.AttributeCodesOfName | lib/hoe/mercurial.rb:73 | a single name gives its own code when it is known, and nothing otherwise |
| RakeHelpers.AttributeCodesAppend | lib/hoe/mercurial.rb:73 | the codes come in argument order: looking up two lists is looking up each |
| RakeHelpers.ParseNumeralsOfCodes | lib/hoe/mercurial.rb:73 | the decimal numerals of the codes read back as the codes |
| RakeHelpers.AnsiCode | lib/hoe/mercurial.rb:67-81 | empty on an unrecognised terminal or when no name is known; otherwise an SGR escape whose fields are plain decimal numerals (no leading zeros) reading back as exactly the known names' codes, in order |
| RakeHelpers.ResetCode | lib/hoe/mercurial.rb:98 | on a colour terminal `ansi_code('reset')` is `ESC[0m` |
| RakeHelpers.LineEndSpace | lib/hoe/mercurial.rb:95 | `string[/(\s)$/]` is empty exactly when no whitespace ends a line; otherwise it is the whitespace at the first position that ends a line |
| RakeHelpers.IsColorTerminal | lib/hoe/mercurial.rb:72 | TERM is set and contains `vt100`, `vt103`, `xterm`, `linux` or `screen`, ignoring ASCII case; `RakeHelpers.ColorTerminals` gives its cases |
| RakeHelpers.ColorTerminals | lib/hoe/mercurial.rb:72 | an unset TERM, or one shorter than the shortest listed name, is never a colour terminal; `xterm-256color` and `SCREEN` are, case ignored; `tmux-256color` is not |
| RakeHelpers.Colorize | lib/hoe/mercurial.rb:86-99 | the escape, the right-stripped text and the reset escape, then the whitespace at the first position that ends a line, if any; for single-line text that is the final whitespace character; on a plain terminal the result is the stripped text plus at most one character |
| RakeHelpers.Wrapped | lib/hoe/mercurial.rb:95-98 | the right-stripped text between the two escapes, then the whitespace at the first position that ends a line, if any; with empty escapes, the stripped text plus at most one character |
| RakeHelpers.SingleLineEnding | lib/hoe/mercurial.rb:95 | without newlines, `$` matches only at the end, so the kept ending is the text's final whitespace character |
| RakeHelpers.ColorizeDropsFinalNewline | lib/hoe/mercurial.rb:95-98 | `"done \n"` on a plain terminal comes out as `"done "`: the blank before the newline is kept and the newline is lost |
| RakeHelpers.PromptLabel | lib/hoe/mercurial.rb:121-122 | the label is the chomped prompt string, plus a `:` exactly when no line ends in a non-word character; the label itself always has such an ending |
| RakeHelpers.DefaultPromptHasNoColon | lib/hoe/mercurial.rb:148 | a `"%s [%s]"` prompt ends in `]`, so no colon is added |
| RakeHelpers.Inspect | lib/hoe/mercurial.rb:238 | `inspect` gives a quoted string that reads back as the original |
| RakeHelpers.UninspectInspectBody | lib/hoe/mercurial.rb:238 | the escaped body of an inspected string reads back as the string |
| RakeHelpers.Quotelist | lib/hoe/mercurial.rb:237-239 | one entry per argument: words with whitespace are quoted so that they read back as themselves, and the others are kept as they are |
| RakeHelpers.HumanizeOvercounts | lib/hoe/mercurial.rb:294-296 | for more than five files, the listing shows six names and claims `length − 5` others, one more than the whole list |
| RakeHelpers.HumanizeSixFiles | lib/hoe/mercurial.rb:294-296 | six files are all listed, and the note still claims one other |
| RakeHelpers.HumanizeFileList | lib/hoe/mercurial.rb:293-300 | up to five files are all listed, one per line after the indent, with nothing appended; more than five show the first six names and a note claiming `length − 5` others |
| RakeHelpers.HumanizeFixedAccountsForAll | lib/hoe/mercurial.rb:293-300 | the corrected listing shows at most five names and counts the rest, so shown plus claimed is the list's length |
| Prompts.Responses | lib/hoe/mercurial.rb:127-128 | one response per input: the i-th is the i-th `readline` result, or `''` for nil, stripped |
| Prompts.Prompt | lib/hoe/mercurial.rb:120-136 | the answer is the first response the validator accepts, and every earlier one was rejected; when none is accepted the prompt keeps waiting |
| Prompts.PromptWithDefault | lib/hoe/mercurial.rb:143-164 | the first response that settles decides: an empty one becomes the default (nil counts as `~`), `~` gives nil without validation, and anything else must pass the validator; every earlier response failed to settle |
| Prompts.TildeBypassesValidator | lib/hoe/mercurial.rb:147-162 | a typed `~`, or an empty response with a nil or `~` default, ends the prompt with nil at once, even under a validator that rejects everything |
| Prompts.EmptyResponseTakesDefault | lib/hoe/mercurial.rb:149-159 | an empty response takes a non-`~` default, which is still validated |
| Prompts.CollectLines | lib/hoe/mercurial.rb:177-184 | the lines before the first nil or empty input, unstripped and in order |
| Prompts.PromptForMultipleValues | lib/hoe/mercurial.rb:168-187 | finishes exactly when some input is blank, at the first blank one; a blank first line gives the default, otherwise the lines typed before it |
| Prompts.ConfirmationPrompt | lib/hoe/mercurial.rb:195-203 | a description containing `?` is the prompt; otherwise the prompt is `Continue?` |
| Prompts.AskForConfirmation | lib/hoe/mercurial.rb:194-217 | asks with default `n` until a y/n answer or `~` arrives; only an answer starting with `y`/`Y` proceeds; a decline aborts when `abort_on_decline` is set and returns false otherwise |
| Prompts.IfConfirmed | lib/hoe/mercurial.rb:194-217 | a non-aborting confirmation settles exactly when `ask_for_confirmation` does, uses exactly the responses it uses, and gives the block's value when its answer is a proceed (a settled yes) and the other value otherwise |
| Prompts.BlankAnswerDeclines | lib/hoe/mercurial.rb:205-216 | pressing return takes the default `n`, which declines |
| Prompts.YesProceeds | lib/hoe/mercurial.rb:206-210 | an answer starting with `y` or `Y` runs the block at once, whatever `abort_on_decline` says |
| Prompts.OtherAnswerAsksAgain | lib/hoe/mercurial.rb:146-160 | an answer that is not empty, not `~` and not a y/n answer is rejected and the confirmation is asked again, using one more response |
| Prompts.TildeDeclines | lib/hoe/mercurial.rb:156-214 | a typed `~` gets past the y/n check as nil, and nil declines |
| MercurialHelpers.ReadCommandOutput | lib/hoe/mercurial.rb:277-282 | the output is the result plus at most one line terminator; a trailing `\r\n` goes as a pair, and the output is kept whole exactly when it does not end in `\n` or `\r` |
| MercurialHelpers.ChompListing | lib/hoe/mercurial.rb:280 | chomping the output of a command that prints lines removes just the final newline |
| MercurialHelpers.OutputLines | lib/hoe/mercurial.rb:389-406 | `get_uncommitted_files`, `get_unknown_files` and `get_manifest` give newline-free lines whose last one is not empty; joined, they are the output minus trailing newlines |
| MercurialHelpers.OutputLinesOfListing | lib/hoe/mercurial.rb:344-347 | the listing of a list of names, whose last name is not empty, reads back as exactly those names, interior empty names included |
| MercurialHelpers.LeadingToken | lib/hoe/mercurial.rb:374 | `tag[/^\S+/]` is the maximal leading run of non-whitespace, present exactly when the line starts with such a character |
| MercurialHelpers.GetTags | lib/hoe/mercurial.rb:372-375 | one entry per line of the chomped output: nil when the line starts with whitespace or is empty, otherwise the line's maximal leading non-whitespace run |
| MercurialHelpers.GetTagsOfListing | lib/hoe/mercurial.rb:372-375 | for `hg tags` output with lines `name revision`, the tags are exactly the names, in order |
| MercurialHelpers.EachSlice3 | lib/hoe/mercurial.rb:382 | `each_slice(3)` gives ⌈n/3⌉ slices with the i-th slice holding words 3i, 3i+1, 3i+2; the missing words of a short last slice are nil |
| MercurialHelpers.PathsOf | lib/hoe/mercurial.rb:380-385 | the map's keys are exactly the slices' names, and each name maps to the url of its last slice |
| MercurialHelpers.GetRepoPaths | lib/hoe/mercurial.rb:379-386 | the paths map of the whitespace-split output's slices of three |
| MercurialHelpers.PathsIgnoreMiddle | lib/hoe/mercurial.rb:382 | slices that differ only in their middle word give the same map |
| MercurialHelpers.MiddleTokenIgnored | lib/hoe/mercurial.rb:382-383 | outputs whose words differ only in the middle word of each triple give the same paths |
| MercurialHelpers.GetRepoPathsOfListing | lib/hoe/mercurial.rb:379-386 | for `hg paths` output, the keys are exactly the path names, and each name maps to the url of its last entry |
| MercurialHelpers.RevNumber | lib/hoe/mercurial.rb:365-368 | a run of digits: `"0"` when no line of the twice-chomped output starts with a digit, otherwise the full digit run at the first line that does |
| MercurialHelpers.GetNumericRev | lib/hoe/mercurial.rb:365-368 | the result is all digits: `0` when no line of the chomped output starts with a digit, and otherwise the digit run that starts the first such line |
| MercurialHelpers.NumericRevOfIdentify | lib/hoe/mercurial.rb:365-368 | for output made of the number `n`, a suffix that does not start with a digit and has no line break, and a newline, the result is `n` in decimal |
| MercurialHelpers.EscapeChar | lib/hoe/mercurial.rb:412 | each character escapes to one or two characters, never a newline |
| MercurialHelpers.RegexpEscape | lib/hoe/mercurial.rb:412 | an escaped path is between one and two times as long as the path, and has no newline |
| MercurialHelpers.UnescapeEscape | lib/hoe/mercurial.rb:412 | an escaped path unescapes back to the path |
| MercurialHelpers.IgnorePattern | lib/hoe/mercurial.rb:411-413 | the pattern is `^`, the escaped path, then `$`; it has no newline, and its middle unescapes to the path |
| MercurialHelpers.IgnoreFileLines | lib/hoe/mercurial.rb:410-419 | the appended text reads back as one line per path, in order, each `^…$` unescaping to its path |
| MercurialHelpers.IgnoreNothing | lib/hoe/mercurial.rb:417 | `puts` of an empty pattern list still appends one empty line |
| MercurialHelpers.RetriedYesDeletes | lib/hoe/mercurial.rb:423-431 | answering `maybe` and then `y` removes all the files and uses both responses |
| MercurialHelpers.DeleteExtraFiles | lib/hoe/mercurial.rb:423-431 | asks with default no, never aborting; all files are removed exactly when the answer is a yes, and none otherwise; it uses exactly the responses the confirmation uses; the listing shown is the corrected one (see Findings) |
| Versions.DottedRun | lib/hoe/mercurial.rb:468 | the longest `\d+(\.\d+)*` at the start: a prefix of the text, empty exactly when the text does not start with a digit |
| Versions.DottedRunMaximal | lib/hoe/mercurial.rb:468 | the run cannot be extended by a dot and a digit |
| Versions.DottedRunStops | lib/hoe/mercurial.rb:468 | a dotted number followed by something that cannot extend it is read whole |
| Versions.MajorMinor | lib/hoe/mercurial.rb:458 | `\d+\.\d+` matches at the start exactly when the text starts with digits, a dot and a digit; the match is a prefix of that form, and no digit follows it |
| Versions.MinorVersion | lib/hoe/mercurial.rb:458 | `VERSION[/^\d+\.\d+/]` is the match at the first line start where one exists, no earlier line start matching, and nil when none exists |
| Versions.MajorMinorOf | lib/hoe/mercurial.rb:458 | digits, a dot and digits, followed by a non-digit, are read as `major.minor` |
| Versions.MinorVersionOfRelease | lib/hoe/mercurial.rb:458 | the minor version of `major.minor.patch` is `major.minor` |
| Versions.MarkerEnd | lib/hoe/mercurial.rb:474 | the longest prefix of the line that is a heading marker `h\d\.`, `#+` or `=+`, and `None` exactly when no prefix is one |
| Versions.CaptureAt | lib/hoe/mercurial.rb:468-474 | a capture at a position is a release tag (prefix, then digits with one or more dot groups) standing there and followed by whitespace |
| Versions.CaptureAtFinds | lib/hoe/mercurial.rb:468-474 | conversely, a release tag standing at a position and followed by whitespace is what the capture there gives |
| Versions.TryWhitespace | lib/hoe/mercurial.rb:474 | backtracking through the whitespace run from longest to shortest finds only release tags |
| Versions.LongestFirst | lib/hoe/mercurial.rb:474 | the greedy `\s+` with backtracking: the capture at the furthest position that has one, or `None` when no position has one |
| Versions.TryWhitespaceFurthest | lib/hoe/mercurial.rb:474 | what is found is the tag standing at the furthest position of the run that has one; nothing is found exactly when no position of the run has a tag |
| Versions.HistoryTag | lib/hoe/mercurial.rb:474-476 | a history line names a release tag only when it starts with a heading marker |
| Versions.HistoryTagFindsLast | lib/hoe/mercurial.rb:474-476 | the tag named stands after the longest marker and a run of whitespace, at the furthest position where one does; a line with a marker names no tag exactly when no such position exists |
| Versions.HeadingNamesTag | lib/hoe/mercurial.rb:474-476 | the line `marker blanks prefixVERSION rest`, with any non-empty whitespace run as `blanks` and a blank at the start of `rest`, names the tag `prefixVERSION`, for any prefix that does not start with whitespace |
| Versions.PrefixTakesBackWhitespace | lib/hoe/mercurial.rb:474 | with a prefix that starts with a blank, the engine gives a blank of the run after the marker back to the prefix: `#  v1.0 ` names ` v1.0` for the prefix ` v` |
| Mercurial.PluginMinorVersion | lib/hoe/mercurial.rb:441-458 | the plugin's own `major.minor` is `1.4` |
| Mercurial.PluginRequirement | lib/hoe/mercurial.rb:458-459 | the requirement added to other projects is `~> 1.4` |
| Mercurial.InitializeMercurial | lib/hoe/mercurial.rb:452-461 | the defaults are prefix `v`, no signing and no history check; every project except `hoe-mercurial` gains the dependency `hoe-mercurial ~> 1.4` |
| Mercurial.ReleaseTags | lib/hoe/mercurial.rb:468-469 | `grep` keeps exactly the non-nil tags that are whole release tags |
| Mercurial.ReleaseTagsAppend | lib/hoe/mercurial.rb:469 | `grep` keeps the tags' order |
| Mercurial.Candidates | lib/hoe/mercurial.rb:469-471 | the candidates are the release tags in `hg tags` order, with the package tag put in front when it is asked for |
| Mercurial.MentionedTags | lib/hoe/mercurial.rb:473-476 | the tags named are exactly those some history line names after a heading marker |
| Mercurial.HeadingTags | lib/hoe/mercurial.rb:473-474 | one entry per history line: the tag that line's heading names, if any |
| Mercurial.NamedSet | lib/hoe/mercurial.rb:473-476 | a tag is named exactly when some line's entry is that tag |
| Mercurial.DeleteNamedWithout | lib/hoe/mercurial.rb:473-480 | deleting every occurrence of each named tag, line by line, is filtering out the set of all named tags once |
| Mercurial.UnhistoriedVersionTags | lib/hoe/mercurial.rb:466-483 | the result is the candidates minus the tags any history heading names: an order-preserving subsequence, whose elements are release tags or the package tag |
| Mercurial.PackageTagReportedFirst | lib/hoe/mercurial.rb:471-483 | a package tag that no heading names is the first tag reported |
| Mercurial.HeadingRemovesTag | lib/hoe/mercurial.rb:473-477 | a history line `marker blanks tag rest` takes that tag off the list |
| Mercurial.CheckHistory | lib/hoe/mercurial.rb:652-660 | passes exactly when every candidate tag, the package tag included, has a heading; otherwise it names exactly the candidates without one, in the order `get_unhistoried_version_tags` reports them, and there is at least one |
| Mercurial.SyncQuestionShown | lib/hoe/mercurial.rb:578-634 | the pull/push question ends in `?`, so it is shown as it is |
| Mercurial.DefaultUrl | lib/hoe/mercurial.rb:577 | `paths['default']` is a URL exactly when the paths map has a `default` key and the last `default` slice has a URL |
| Mercurial.SyncWithDefault | lib/hoe/mercurial.rb:575-585 | with no default URL, nothing is asked and nothing runs; otherwise it settles exactly when the confirmation does, uses exactly its responses, and `hg pull -u` or `hg push` runs exactly when the answer is a yes |
| Mercurial.ReleaseBlocker | lib/hoe/mercurial.rb:510-519 | tagging is blocked exactly when the package tag already exists, or when the history check is on and fails; an existing tag blocks first, and any other blocker is the history failure naming the tags `check_history` finds missing |
| Mercurial.ConfirmUncommitted | lib/hoe/mercurial.rb:499-506 | nothing is asked when `hg status` lists no file; otherwise the aborting confirmation decides, and it never ends in a plain decline |
| Mercurial.TagCommands | lib/hoe/mercurial.rb:521-529 | one command, or two when signing is configured, in which case `hg sign` comes first; the last is `hg tag` with the release tag prefix followed by the version |
| Mercurial.TagAndPush | lib/hoe/mercurial.rb:521-532 | the sign and tag commands come first; with a default path the task finishes exactly when the push question settles, uses exactly that question's responses, and the push follows exactly when it gets a yes; with no default path, the tag commands are all and no answer is used |
| Mercurial.PrepRelease | lib/hoe/mercurial.rb:498-533 | waits while the uncommitted-files question is unanswered; fails for uncommitted files exactly when that question gets no yes; a clean or confirmed tree fails at once with the blocker when there is one, and otherwise goes on to the tag commands and the push question, using the first question's responses and then exactly those of the push question |
| Mercurial.QuietRelease | lib/hoe/mercurial.rb:498-533 | a clean working copy, an untagged version and no default path give the tag commands without a question |
| Mercurial.TaggedVersionNeverReleased | lib/hoe/mercurial.rb:510-516 | a version that already has a tag is never released: once the uncommitted-files question (if any) is answered the task fails, with `AlreadyTagged` unless that answer aborted it |
| Mercurial.EntryAction | lib/hoe/mercurial.rb:547-557 | an entry is added, ignored or deleted exactly when its response is `a`, `i` or `d`; any other response, including the default `s` and `~`, skips it |
| Mercurial.EntryPromptTakesOne | lib/hoe/mercurial.rb:548 | every response settles an entry's prompt, so each entry takes exactly one response |
| Mercurial.Select | lib/hoe/mercurial.rb:547-557 | a selection is a subsequence of the entries, holding exactly the entries with that action |
| Mercurial.SelectSnoc | lib/hoe/mercurial.rb:547-557 | one more entry extends only the selection its action names, at its end |
| Mercurial.SelectPartitions | lib/hoe/mercurial.rb:547-557 | the four selections together hold every entry exactly once |
| Mercurial.PartitionOf | lib/hoe/mercurial.rb:541-557 | the add, ignore and delete lists keep the entries' order and hold exactly the entries answered `a`, `i` and `d` |
| Mercurial.IgnoreText | lib/hoe/mercurial.rb:563-565 | nothing for no ignored files, otherwise one `^…$` line per file that unescapes to it, in order |
| Mercurial.OfferDeletion | lib/hoe/mercurial.rb:567-569 | no question for no files; otherwise the delete confirmation, using exactly its responses, whose yes removes all of them and whose other answers remove none |
| Mercurial.PartitionIsDisjoint | lib/hoe/mercurial.rb:547-557 | no entry lands in more than one list |
| Mercurial.SortEntries | lib/hoe/mercurial.rb:541-557 | the loop that appends each entry to its list builds exactly those lists |
| Mercurial.NewFiles | lib/hoe/mercurial.rb:537-571 | finishes exactly when every unknown file has a response and the delete question, if asked, settles; `hg add` runs only for a non-empty add list, `.hgignore` gains one pattern line per ignored file, for that file and in order, and the delete prompt comes only for a non-empty delete list, whose files are removed exactly when it gets a yes; it uses one response per unknown file and then exactly those of the delete question |

## Left out

- Running commands (`run`, the backticks in `read_command_output`, `system`, `edit`) is not modelled. A command's output is a parameter, and a task returns the argument lists it would run. Dry-run mode and exit-status failures are left out with it.
- Terminal I/O is not modelled. `readline`, the Readline fallback, `log`, `trace`, `error_message` and the colouring of the prompt itself are output only. The user's answers are a finite sequence of inputs.
- Prompts.Prompt: works on responses already stripped (`Prompts.Responses` makes them from raw `readline` results), so the validator sees the stripped response, as in the code.
- File system effects are not modelled: appending to `.hgignore`, `rm_rf`, and the commit message file. The history file is passed in as text.
- Rake task definition and invocation are not modelled: prerequisites, `CLEAN`, `task_defined?`, and `get_target_args`.
- `hg:checkin`, `make_commit_log`, `edit_commit_log` and `make_changelog` are left out. They only run commands and the editor.
- `get_tip_info` is left out: it hands the output to the YAML library.
- `get_current_rev` is only the chomp already modelled by `MercurialHelpers.RevisionId`.
- `lib/hoe/hg.rb` is not part of this model.
- The tag prefix is matched as literal text: a prefix containing regexp metacharacters is not modelled.
- The `/i` flag is modelled for ASCII letters only.
- RakeHelpers.Inspect: simplifies `String#inspect`. It escapes quotes, backslashes and the common control characters, and leaves other characters as they are.
- `humanize_file_list`'s default indent names a constant the file never defines, so the indent is always a parameter.
- Mercurial.PrepRelease: when the push prompt runs out of answers the result is `None`, so the tag commands that already ran are not reported.
- MercurialHelpers.DeleteExtraFiles: shows the corrected five-name listing `RakeHelpers.HumanizeFileListFixed`, where lib/hoe/mercurial.rb:424 shows the six names and overcount of `humanize_file_list` as written (see Findings).
- Mercurial.NewFiles: its deletion listing is the corrected one, through `MercurialHelpers.DeleteExtraFiles`.
- Mercurial.OfferDeletion: its listing is likewise the corrected one, through `MercurialHelpers.DeleteExtraFiles`.
- Mercurial.SyncWithDefault: the URL shown in the question is not part of the result.

## Findings

| source | as written | input that shows it | evidently intended | confidence | as-written member | corrected member |
|---|---|---|---|---|---|---|
| lib/hoe/mercurial.rb:294-296 | `list[0..5]` shows six names, yet `list.length - 5` others are claimed | seven files: six names listed and "(and 2 other/s)", eight files in all | show five names and count the rest, or show six and count `length - 6` | high; not executed | RakeHelpers.HumanizeOvercounts | RakeHelpers.HumanizeFixedAccountsForAll |

The rest of the model, `MercurialHelpers.DeleteExtraFiles` in particular,
uses the corrected listing `RakeHelpers.HumanizeFileListFixed`.
