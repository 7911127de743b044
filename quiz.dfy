/** The exercise records and verdict words shared by the three programs. */
module Quiz {
  import opened Text

  /** The three exercise kinds: "translate", "is_correct", "fix_sentence". */
  datatype Kind = Translate | IsCorrect | FixSentence

  /** The tuple (kind, prompt shown to the learner, reference answer,
      correction) that generate_question returns.  For IsCorrect the
      reference is the verdict word and the correction the corrected
      sentence; the other kinds leave the correction empty. */
  datatype Exercise = Exercise(kind: Kind, prompt: string, reference: string, correction: string)

  /** What one call of the console or web generator ends with: an exercise,
      None after its five attempts, or an exception raised by the parsing
      (which the caller does not catch). */
  datatype Generated = Found(ex: Exercise) | Exhausted | Raised

  /** The field names the is_correct reply format asks for: sentence,
      verdict, corrected sentence. */
  const SentenceKey: string := "Věta"
  const AnswerKey: string := "Odpověď"
  const CorrectionKey: string := "Správně"

  /** The field names of the fix_sentence reply format. */
  const WrongKey: string := "wrong"
  const RightKey: string := "correct"

  /** The most attempts one call of generate_question makes. */
  const MaxAttempts: nat := 5

  /** What one attempt of generate_question ends with: an exercise whose
      prompt is new, nothing (the reply did not parse, or its prompt was
      asked before), or an exception from the parsing. */
  datatype Try = Accept(ex: Exercise) | Skip | Abort

  /** What one call of generate_question comes to: its result, the number
      of attempts it made and the number of service calls they used. */
  datatype Draw = Draw(result: Generated, attempts: nat, calls: nat)

  /** Service calls per attempt: the translate kind asks for a sentence and
      then for its translation, the other kinds ask once. */
  function CallsOf(kind: Kind): (n: nat)
    ensures 1 <= n <= 2
  {
    if kind == Translate then 2 else 1
  }

  /** The number of service calls the attempts before attempt j use, when
      attempt i is of kind choose(i). */
  function CallsBefore(choose: nat -> Kind, j: nat): (n: nat)
    ensures j <= n <= 2 * j
  {
    if j == 0 then 0 else CallsBefore(choose, j - 1) + CallsOf(choose(j - 1))
  }

  /** The attempts of generate_question from attempt k on, the replies of
      attempt k numbered from `call`: attempt(i, c) is what attempt i makes
      of the replies from number c on, and kinds(i) its kind.  The loop stops
      at the first exercise or exception and gives up after five attempts. */
  function RunTries(attempt: (nat, nat) -> Try, kinds: nat -> Kind, k: nat, call: nat): (d: Draw)
    requires k <= MaxAttempts
    ensures k <= d.attempts <= MaxAttempts && (k < MaxAttempts ==> k < d.attempts)
    ensures d.result.Exhausted? ==> d.attempts == MaxAttempts
    decreases MaxAttempts - k
  {
    if k == MaxAttempts then Draw(Exhausted, k, call)
    else
      var next := call + CallsOf(kinds(k));
      match attempt(k, call)
      case Accept(ex) => Draw(Found(ex), k + 1, next)
      case Abort => Draw(Raised, k + 1, next)
      case Skip => RunTries(attempt, kinds, k + 1, next)
  }

  /** The loop `for attempt in range(5)` of generate_question: run the
      attempts in turn, counting the service calls, until one is decisive. */
  method RetryLoop(attempt: (nat, nat) -> Try, kinds: nat -> Kind) returns (d: Draw)
    ensures d == RunTries(attempt, kinds, 0, 0)
  {
    var k := 0;
    var calls: nat := 0;
    while k < MaxAttempts
      invariant k <= MaxAttempts
      invariant RunTries(attempt, kinds, k, calls) == RunTries(attempt, kinds, 0, 0)
      decreases MaxAttempts - k
    {
      var t := attempt(k, calls);
      calls := calls + CallsOf(kinds(k));
      match t
      case Accept(ex) => return Draw(Found(ex), k + 1, calls);
      case Abort => return Draw(Raised, k + 1, calls);
      case Skip => k := k + 1;
    }
    return Draw(Exhausted, k, calls);
  }

  /** The attempts of RunTries use the replies attempt by attempt: attempt i
      reads from CallsBefore(kinds, i) on, and the calls of the whole run are
      those of its attempts. */
  lemma {:induction false} RunTriesCalls(attempt: (nat, nat) -> Try, kinds: nat -> Kind, k: nat)
    requires k <= MaxAttempts
    ensures var d := RunTries(attempt, kinds, k, CallsBefore(kinds, k));
      d.calls == CallsBefore(kinds, d.attempts)
    decreases MaxAttempts - k
  {
    if k < MaxAttempts {
      var call := CallsBefore(kinds, k);
      var next := call + CallsOf(kinds(k));
      assert CallsBefore(kinds, k + 1) == next;
      var t := attempt(k, call);
      if t == Skip {
        assert RunTries(attempt, kinds, k, call) == RunTries(attempt, kinds, k + 1, next);
        RunTriesCalls(attempt, kinds, k + 1);
      } else {
        assert RunTries(attempt, kinds, k, call).calls == next;
      }
    }
  }

  /** Every attempt before the last one made skipped, and all five skipped
      when the run is exhausted. */
  lemma {:induction false} RunTriesSkipsBefore(attempt: (nat, nat) -> Try, kinds: nat -> Kind, k: nat)
    requires k <= MaxAttempts
    ensures var d := RunTries(attempt, kinds, k, CallsBefore(kinds, k));
      && (forall i :: k <= i < d.attempts - 1 ==> attempt(i, CallsBefore(kinds, i)) == Skip)
      && (d.result.Exhausted? ==> forall i :: k <= i < MaxAttempts ==> attempt(i, CallsBefore(kinds, i)) == Skip)
    decreases MaxAttempts - k
  {
    if k < MaxAttempts {
      var call := CallsBefore(kinds, k);
      var next := call + CallsOf(kinds(k));
      assert CallsBefore(kinds, k + 1) == next;
      var t := attempt(k, call);
      if t == Skip {
        assert RunTries(attempt, kinds, k, call) == RunTries(attempt, kinds, k + 1, next);
        RunTriesSkipsBefore(attempt, kinds, k + 1);
      } else {
        assert RunTries(attempt, kinds, k, call).attempts == k + 1;
      }
    }
  }

  /** The outcome of the attempt that gives a result: an exercise comes
      from an accepting attempt, an exception from an aborting one, and a
      run that gives up ends on an attempt that skipped. */
  function Decision(g: Generated): Try
  {
    match g
    case Found(ex) => Accept(ex)
    case Raised => Abort
    case Exhausted => Skip
  }

  /** The last attempt made gives the result of the run d, which starts at
      attempt k with the replies from `call` on. */
  lemma {:induction false} RunTriesLast(attempt: (nat, nat) -> Try, kinds: nat -> Kind, k: nat, call: nat, d: Draw)
    requires k < MaxAttempts && call == CallsBefore(kinds, k) && d == RunTries(attempt, kinds, k, call)
    ensures attempt(d.attempts - 1, CallsBefore(kinds, d.attempts - 1)) == Decision(d.result)
    decreases MaxAttempts - k
  {
    var next := call + CallsOf(kinds(k));
    assert CallsBefore(kinds, k + 1) == next;
    var t := attempt(k, call);
    if t == Skip {
      assert d == RunTries(attempt, kinds, k + 1, next);
      if k + 1 < MaxAttempts {
        RunTriesLast(attempt, kinds, k + 1, next, d);
      } else {
        assert d == Draw(Exhausted, k + 1, next);
      }
    } else {
      assert d.attempts == k + 1;
      assert d.result == if t.Accept? then Found(t.ex) else Raised;
    }
  }

  /** The same loop described attempt by attempt: attempt i reads the
      replies from CallsBefore(kinds, i) on; every attempt before the last
      one made skipped; the last one gave the result, or all five skipped. */
  lemma RunTriesIsFirstDecisive(attempt: (nat, nat) -> Try, kinds: nat -> Kind, k: nat)
    requires k <= MaxAttempts
    ensures var d := RunTries(attempt, kinds, k, CallsBefore(kinds, k));
      && k <= d.attempts <= MaxAttempts && (k < MaxAttempts ==> k < d.attempts)
      && d.calls == CallsBefore(kinds, d.attempts)
      && (forall i :: k <= i < d.attempts - 1 ==> attempt(i, CallsBefore(kinds, i)) == Skip)
      && (d.result.Found? ==> attempt(d.attempts - 1, CallsBefore(kinds, d.attempts - 1)) == Accept(d.result.ex))
      && (d.result.Raised? ==> attempt(d.attempts - 1, CallsBefore(kinds, d.attempts - 1)) == Abort)
      && (d.result.Exhausted? ==>
            d.attempts == MaxAttempts
            && forall i :: k <= i < MaxAttempts ==> attempt(i, CallsBefore(kinds, i)) == Skip)
  {
    RunTriesCalls(attempt, kinds, k);
    RunTriesSkipsBefore(attempt, kinds, k);
    if k < MaxAttempts {
      var call := CallsBefore(kinds, k);
      RunTriesLast(attempt, kinds, k, call, RunTries(attempt, kinds, k, call));
    }
  }

  /** How evaluate_answer ends: a verdict with its feedback, or the
      IndexError that split()[0] raises on a blank judgment reply. */
  datatype Outcome = Graded(correct: bool, feedback: string) | Failed

  /** The value ask_openai returns for the message content the service
      sends back: the content stripped of surrounding whitespace. */
  function Ask(content: string): (r: string)
    ensures Blank(r) <==> Blank(content)
  {
    StripOfBlank(content);
    Strip(content)
  }

  /** The first word of a reply as response.strip().split()[0] reads it, or
      None where that raises IndexError. */
  function FirstWord(response: string): (r: Option<string>)
    ensures r.None? <==> Blank(response)
    ensures r.Some? ==> IsWord(r.value)
  {
    StripOfBlank(response);
    TokensEmptyIffBlank(Strip(response));
    var words := Tokens(Strip(response));
    if words == [] then None else Some(words[0])
  }

  /** The first word of a reply that starts, after any whitespace, with the
      word w followed by whitespace or by nothing. */
  lemma FirstWordOf(ws: string, w: string, rest: string)
    requires Blank(ws) && IsWord(w) && (rest == [] || rest[0] in Whitespace)
    ensures FirstWord(ws + w + rest) == Some(w)
  {
    FirstTokenOfStripped(ws, w, rest);
  }

  /** ask_openai has already stripped the reply, so reading its first word
      strips nothing more. */
  lemma FirstWordOfAsk(content: string)
    ensures FirstWord(Ask(content)) == FirstWord(content)
  {
    var s := Strip(content);
    StripIdempotent(content);
    assert Ask(content) == s;
    assert Tokens(Strip(Ask(content))) == Tokens(Strip(content));
  }

  /** The affirmative and negative verdict words ("yes", "no"). */
  const Yes: string := "ANO"
  const No: string := "NE"

  /** The characters evaluate_answer strips from a verdict word. */
  const Punctuation: set<char> := {'.', ',', '!', '?'}

  /** A word as the evaluators read it: word.upper().strip(".,!?"). */
  function NormalizeWord(w: string): string
  {
    StripChars(Upper(w), Punctuation)
  }

  predicate IsVerdict(w: string)
  {
    w == Yes || w == No
  }

  /** The learner's answer as the is_correct comparison reads it:
      answer.strip().upper(). */
  function NormalizeAnswer(user: string): string
  {
    Upper(Strip(user))
  }
}
