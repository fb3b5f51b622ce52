/**
 * The interactive prompt built for a missing key, and the terminal that
 * answers it. The terminal library is not part of this model: it is an
 * oracle, and what the program relies on from it (a value it returns has
 * passed the prompt's validator) is the stated assumption HonoursValidators.
 * Elicit is a model of that library's documented behaviour (default on an
 * empty submission, re-prompt while invalid, cancel), used to show the
 * assumption can be met.
 */
module Prompts {
  import opened Wrappers
  import opened GoStrings
  import opened Registry

  /** The zero rune: input is echoed as typed. */
  const NoMask: char := 0 as char

  datatype Prompt = Prompt(labelText: string, defaultValue: string, mask: char, validate: Option<Validator>)

  /** The prompt for a missing item, built field by field from Go's zero values. */
  function NewPrompt(k: ConfigItem): (p: Prompt)
    ensures p.labelText == k.prompt
    ensures p.defaultValue == k.defaultValue
    ensures p.mask == '*' <==> k.secret
    ensures p.mask == '*' || p.mask == NoMask
    ensures p.validate == k.validate
  {
    var blank := Prompt(k.prompt, "", NoMask, None);
    var withDefault := if k.defaultValue != "" then blank.(defaultValue := k.defaultValue) else blank;
    var masked := if k.secret then withDefault.(mask := '*') else withDefault;
    if k.validate.Some? then masked.(validate := k.validate) else masked
  }

  /** What running a prompt yields: the accepted string or an error. */
  datatype Answer = Entered(value: string) | Failed(err: Error)

  /** The terminal: the answer given to the n-th prompt of a run. */
  type Terminal = (Prompt, nat) -> Answer

  /** Whether the prompt's validator, if any, lets `value` through. */
  predicate Valid(p: Prompt, value: string) {
    Passes(p.validate, value)
  }

  /** The assumed contract of the terminal: a returned value passes the prompt's validator. */
  ghost predicate HonoursValidators(t: Terminal) {
    forall p: Prompt, n: nat :: t(p, n).Entered? ==> Valid(p, t(p, n).value)
  }

  /** One operator action at a prompt: submit a line, or interrupt. */
  datatype Input = Submit(typed: string) | Cancel(err: Error)

  /** End of input (Ctrl-D). */
  const EndOfInput := Error("^D")

  /** The value a submission stands for: an empty line takes the default. */
  function Candidate(p: Prompt, typed: string): string {
    if typed == "" then p.defaultValue else typed
  }

  /** Running one prompt against the operator's actions, re-prompting while invalid. */
  function Elicit(p: Prompt, session: seq<Input>): (a: Answer)
    ensures a.Entered? ==> Valid(p, a.value)
    decreases |session|
  {
    if session == [] then Failed(EndOfInput)
    else match session[0]
      case Cancel(e) => Failed(e)
      case Submit(typed) =>
        if Valid(p, Candidate(p, typed)) then Entered(Candidate(p, typed))
        else Elicit(p, session[1..])
  }

  /**
   * Reference definition of Elicit's outcome: the first action that is not
   * an invalid submission decides it.
   */
  ghost predicate Rejected(p: Prompt, x: Input) {
    x.Submit? && !Valid(p, Candidate(p, x.typed))
  }

  lemma {:induction false} ElicitFirstDecisive(p: Prompt, session: seq<Input>, i: nat)
    requires i <= |session|
    requires forall j :: 0 <= j < i ==> Rejected(p, session[j])
    requires i == |session| || !Rejected(p, session[i])
    ensures i == |session| ==> Elicit(p, session) == Failed(EndOfInput)
    ensures i < |session| && session[i].Cancel? ==> Elicit(p, session) == Failed(session[i].err)
    ensures i < |session| && session[i].Submit? ==> Elicit(p, session) == Entered(Candidate(p, session[i].typed))
  {
    if i > 0 {
      assert Rejected(p, session[0]);
      ElicitFirstDecisive(p, session[1..], i - 1);
    }
  }

  /** An empty submission at a prompt with a valid default yields the default. */
  lemma ElicitTakesDefault(p: Prompt, rest: seq<Input>)
    requires p.defaultValue != "" && Valid(p, p.defaultValue)
    ensures Elicit(p, [Submit("")] + rest) == Entered(p.defaultValue)
  {
  }

  /** A terminal that runs the n-th prompt against the n-th scripted session. */
  function SessionTerminal(sessions: seq<seq<Input>>): Terminal {
    (p: Prompt, n: nat) => if n < |sessions| then Elicit(p, sessions[n]) else Failed(EndOfInput)
  }

  /** The assumption on the terminal is satisfiable: the session terminal meets it. */
  lemma SessionTerminalHonoursValidators(sessions: seq<seq<Input>>)
    ensures HonoursValidators(SessionTerminal(sessions))
  {
  }

  /**
   * At the GitHub token prompt a 10-character submission is rejected with
   * the GitHub message and re-prompted; the 40-character one that follows
   * is accepted.
   */
  lemma GitHubTokenRetryScenario(short: string, token: string)
    requires IsAscii(short) && |short| == 10
    requires IsAscii(token) && |token| == 40
    ensures GhKeyValidate(short) == Some(Error(GitHubTokenMessage))
    ensures Elicit(NewPrompt(ConfigKeys[3]), [Submit(short), Submit(token)]) == Entered(token)
  {
    ByteLenIsLengthIffAscii(short);
    ByteLenIsLengthIffAscii(token);
    assert [Submit(short), Submit(token)][1..] == [Submit(token)];
  }
}
