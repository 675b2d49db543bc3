/**
 * The interactive prompts of `Hoe::RakeHelpers`, as functions of what the user
 * types.  `readline` is replaced by a finite sequence: raw inputs (`None` where
 * it returns `nil` at end of input) for `prompt_for_multiple_values`, and the
 * stripped responses `Response` makes of them for the prompts that strip.
 * Each answer records how many of them it used.  When they run out before a
 * prompt is satisfied the result is `None`: the real prompt would still be
 * waiting.
 */
module Prompts {
  import opened Optional
  import opened RubyText

  /** One call of `readline`: a line, or `nil`. */
  type Input = Option<string>

  /** A prompt's outcome and the number of inputs it consumed. */
  datatype Answer<T> = Answer(value: T, used: nat)

  /** `(readline(prompt) || '').strip`: the response `prompt` works with. */
  function Response(input: Input): string {
    Strip(input.GetOr(""))
  }

  /** The responses a sequence of raw inputs gives, one each. */
  function Responses(inputs: seq<Input>): (r: seq<string>)
    ensures |r| == |inputs|
    ensures forall i :: 0 <= i < |inputs| ==> r[i] == Strip(if inputs[i].Some? then inputs[i].value else "")
  {
    seq(|inputs|, i requires 0 <= i < |inputs| => Response(inputs[i]))
  }

  /** The validator used when `prompt` is called without a block. */
  predicate AcceptAll(response: string) { true }

  // ---------------------------------------------------------------- prompt

  /**
   * `prompt { |response| valid }`: asks again until a stripped response passes
   * the validator, and returns that response.  The answer is the first
   * acceptable input; if there is none the prompt never finishes.
   */
  function Prompt(valid: string -> bool, responses: seq<string>): (r: Option<Answer<string>>)
    ensures r.Some? ==>
      1 <= r.value.used <= |responses| &&
      r.value.value == responses[r.value.used - 1] && valid(r.value.value) &&
      forall i :: 0 <= i < r.value.used - 1 ==> !valid(responses[i])
    ensures r.None? ==> forall i :: 0 <= i < |responses| ==> !valid(responses[i])
    decreases |responses|
  {
    if |responses| == 0 then None
    else if valid(responses[0]) then Some(Answer(responses[0], 1))
    else match Prompt(valid, responses[1..])
      case None => None
      case Some(a) => Some(Answer(a.value, a.used + 1))
  }

  // ---------------------------------------------------------------- prompt_with_default

  /** `default ||= '~'`. */
  function DefaultOrTilde(default: Option<string>): string {
    default.GetOr("~")
  }

  /** An empty response stands for the default. */
  function Resolve(default: Option<string>, response: string): string {
    if response == "" then DefaultOrTilde(default) else response
  }

  /** Does this input end `prompt_with_default`? `~` always does; anything else must pass the validator. */
  predicate Settles(default: Option<string>, valid: string -> bool, response: string) {
    var resolved := Resolve(default, response);
    resolved == "~" || valid(resolved)
  }

  /** The value a settling response yields: `nil` for `~`, the resolved response otherwise. */
  function Settled(default: Option<string>, response: string): Option<string> {
    var resolved := Resolve(default, response);
    if resolved == "~" then None else Some(resolved)
  }

  /**
   * `prompt_with_default(prompt_string, default) { |response| valid }`: the
   * first input that settles decides the answer; every earlier one was
   * rejected by the validator.
   */
  function PromptWithDefault(default: Option<string>, valid: string -> bool, responses: seq<string>)
    : (r: Option<Answer<Option<string>>>)
    ensures r.Some? ==>
      1 <= r.value.used <= |responses| &&
      Settles(default, valid, responses[r.value.used - 1]) &&
      r.value.value == Settled(default, responses[r.value.used - 1]) &&
      forall i :: 0 <= i < r.value.used - 1 ==> !Settles(default, valid, responses[i])
    ensures r.None? ==> forall i :: 0 <= i < |responses| ==> !Settles(default, valid, responses[i])
    decreases |responses|
  {
    match Prompt(AcceptAll, responses)
    case None => None
    case Some(a) =>
      assert a == Answer(responses[0], 1);
      var response := Resolve(default, a.value);
      if response == "~" then Some(Answer(None, 1))
      else if valid(response) then Some(Answer(Some(response), 1))
      else match PromptWithDefault(default, valid, responses[1..])
        case None => None
        case Some(b) => Some(Answer(b.value, b.used + 1))
  }

  /**
   * A `~` -- typed, or reached through an empty response when the default is
   * nil or `~` -- ends the prompt with nil at once; the validator is never
   * consulted, even one that rejects everything.
   */
  lemma TildeBypassesValidator(default: Option<string>, valid: string -> bool, responses: seq<string>)
    requires |responses| > 0
    requires responses[0] == "~" || (responses[0] == "" && DefaultOrTilde(default) == "~")
    ensures PromptWithDefault(default, valid, responses) == Some(Answer(None, 1))
  {
  }

  /** An empty response is replaced by a non-`~` default, which is still validated. */
  lemma EmptyResponseTakesDefault(default: string, valid: string -> bool, responses: seq<string>)
    requires |responses| > 0 && responses[0] == "" && default != "~"
    ensures valid(default) ==> PromptWithDefault(Some(default), valid, responses) == Some(Answer(Some(default), 1))
    ensures !valid(default) && |responses| == 1 ==> PromptWithDefault(Some(default), valid, responses).None?
  {
  }

  // ---------------------------------------------------------------- prompt_for_multiple_values

  /** `result.nil? || result.empty?`: what ends multi-line input. */
  predicate IsBlank(input: Input) {
    input.None? || input.value == ""
  }

  /** The raw lines typed before the first blank one. */
  function CollectLines(inputs: seq<Input>): (r: Option<Answer<seq<string>>>)
    ensures r.Some? ==>
      1 <= r.value.used <= |inputs| && IsBlank(inputs[r.value.used - 1]) &&
      |r.value.value| == r.value.used - 1 &&
      forall i :: 0 <= i < r.value.used - 1 ==> inputs[i] == Some(r.value.value[i]) && r.value.value[i] != ""
    ensures r.None? ==> forall i :: 0 <= i < |inputs| ==> !IsBlank(inputs[i])
    decreases |inputs|
  {
    if |inputs| == 0 then None
    else if IsBlank(inputs[0]) then Some(Answer([], 1))
    else match CollectLines(inputs[1..])
      case None => None
      case Some(a) => Some(Answer([inputs[0].value] + a.value, a.used + 1))
  }

  /**
   * `prompt_for_multiple_values(label, default)`: the lines typed, unstripped,
   * up to the first blank one; a blank first line gives the default (flattened)
   * or nothing.
   */
  function PromptForMultipleValues(default: Option<seq<string>>, inputs: seq<Input>)
    : (r: Option<Answer<seq<string>>>)
    ensures r.Some? <==> exists i :: 0 <= i < |inputs| && IsBlank(inputs[i])
    ensures r.Some? ==>
      1 <= r.value.used <= |inputs| && IsBlank(inputs[r.value.used - 1]) &&
      forall i :: 0 <= i < r.value.used - 1 ==> !IsBlank(inputs[i])
    ensures r.Some? && r.value.used == 1 ==> r.value.value == default.GetOr([])
    ensures r.Some? && r.value.used > 1 ==>
      |r.value.value| == r.value.used - 1 && r.value.used <= |inputs| &&
      forall i :: 0 <= i < |r.value.value| ==> inputs[i] == Some(r.value.value[i])
  {
    match CollectLines(inputs)
    case None => None
    case Some(a) =>
      if a.value == [] then Some(Answer(default.GetOr([]), a.used)) else Some(a)
  }

  // ---------------------------------------------------------------- ask_for_confirmation

  /** What `ask_for_confirmation` leads to: the block runs, the call returns false, or the task fails. */
  datatype Confirmation = Proceed | Declined | Aborted

  /** The prompt shown: the description when it contains a question mark, `Continue?` otherwise. */
  function ConfirmationPrompt(description: string): (r: string)
    ensures '?' in description ==> r == description
    ensures '?' !in description ==> r == "Continue?"
  {
    StripKeeps(description, '?');
    if '?' in Strip(description) then description else "Continue?"
  }

  /** `input =~ /^[yn]/i`. */
  predicate IsYesOrNo(response: string) {
    StartsLineWith(response, {'y', 'Y', 'n', 'N'})
  }

  /** `answer =~ /^y/i`; a nil answer is no yes. */
  predicate SaysYes(answer: Option<string>) {
    answer.Some? && StartsLineWith(answer.value, {'y', 'Y'})
  }

  /**
   * `ask_for_confirmation(description, abort_on_decline) { ... }`: asks with
   * default `n` until a y/n answer (or `~`) arrives.  Only a yes runs the
   * block; any other settled answer fails the task when `abortOnDecline` is
   * set and returns false otherwise.
   */
  function AskForConfirmation(abortOnDecline: bool, responses: seq<string>): (r: Option<Answer<Confirmation>>)
    ensures r.Some? ==>
      1 <= r.value.used <= |responses| &&
      Settles(Some("n"), IsYesOrNo, responses[r.value.used - 1]) &&
      (forall i :: 0 <= i < r.value.used - 1 ==> !Settles(Some("n"), IsYesOrNo, responses[i])) &&
      (r.value.value == Proceed <==> SaysYes(Settled(Some("n"), responses[r.value.used - 1]))) &&
      (r.value.value == Aborted ==> abortOnDecline) &&
      (r.value.value == Declined ==> !abortOnDecline)
    ensures r.None? ==> forall i :: 0 <= i < |responses| ==> !Settles(Some("n"), IsYesOrNo, responses[i])
  {
    match PromptWithDefault(Some("n"), IsYesOrNo, responses)
    case None => None
    case Some(a) =>
      var outcome := if SaysYes(a.value) then Proceed else if abortOnDecline then Aborted else Declined;
      Some(Answer(outcome, a.used))
  }

  /**
   * `ask_for_confirmation(description) { ... }` used for its block's value:
   * `yes` when the settled answer is a yes, `no` after any other answer.
   */
  function IfConfirmed<T>(yes: T, no: T, responses: seq<string>): (r: Option<Answer<T>>)
    ensures r.Some? <==> AskForConfirmation(false, responses).Some?
    ensures r.Some? ==> r.value.used == AskForConfirmation(false, responses).value.used
    ensures r.Some? ==>
      r.value.value == (if AskForConfirmation(false, responses).value.value == Proceed then yes else no)
    ensures r.Some? ==> 1 <= r.value.used <= |responses|
    ensures r.Some? && SaysYes(Settled(Some("n"), responses[r.value.used - 1])) ==> r.value.value == yes
    ensures r.Some? && !SaysYes(Settled(Some("n"), responses[r.value.used - 1])) ==> r.value.value == no
  {
    match AskForConfirmation(false, responses)
    case None => None
    case Some(a) => Some(Answer(if a.value == Proceed then yes else no, a.used))
  }

  /** Just pressing return takes the default `n`: a decline. */
  lemma BlankAnswerDeclines(abortOnDecline: bool, responses: seq<string>)
    requires |responses| > 0 && responses[0] == ""
    ensures AskForConfirmation(abortOnDecline, responses) ==
      Some(Answer(if abortOnDecline then Aborted else Declined, 1))
  {
    assert IsLineStart("n", 0);
    assert IsYesOrNo("n");
    assert !SaysYes(Some("n")) by {
      forall i | 0 <= i < 1 && IsLineStart("n", i) ensures "n"[i] !in {'y', 'Y'} { }
    }
  }

  /** An answer beginning with `y` or `Y` runs the block, whatever `abortOnDecline` says. */
  lemma YesProceeds(abortOnDecline: bool, responses: seq<string>)
    requires |responses| > 0 && responses[0] != "" && responses[0][0] in {'y', 'Y'}
    ensures AskForConfirmation(abortOnDecline, responses) == Some(Answer(Proceed, 1))
  {
    var response := responses[0];
    assert IsLineStart(response, 0);
    assert response[0] != '~';
    assert IsYesOrNo(response);
    assert SaysYes(Some(response));
  }

  /** An answer that is neither empty, `~` nor a y/n answer is rejected, and the question is asked again. */
  lemma OtherAnswerAsksAgain(abortOnDecline: bool, responses: seq<string>)
    requires |responses| > 0 && responses[0] != "" && responses[0] != "~" && !IsYesOrNo(responses[0])
    ensures AskForConfirmation(abortOnDecline, responses) ==
      match AskForConfirmation(abortOnDecline, responses[1..])
      case None => None
      case Some(a) => Some(Answer(a.value, a.used + 1))
  {
    assert !Settles(Some("n"), IsYesOrNo, responses[0]);
  }

  /** A typed `~` passes the y/n check as nil, and nil is a decline. */
  lemma TildeDeclines(abortOnDecline: bool, responses: seq<string>)
    requires |responses| > 0 && responses[0] == "~"
    ensures AskForConfirmation(abortOnDecline, responses) ==
      Some(Answer(if abortOnDecline then Aborted else Declined, 1))
  {
  }
}
