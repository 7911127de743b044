/** AI_Tutor_for_Flask.py: the web tutor.  Its state lives in the session:
    the prompts asked so far (a list), the last ten outcomes and the pending
    question; one request either grades an answer (POST) or generates the
    next question (GET). */
module TutorWeb {
  import opened Text
  import opened Quiz
  import opened LabelParse
  import opened Score

  // ---------------------------------------------------------------------
  // evaluate_answer

  /** evaluate_answer(q_type, user_answer, correct_answer), with the
      service's judgment `content`.  The kind is the one stored in the
      session, None when no question was ever generated: anything but
      is_correct is judged by the service.  Only the first word of the
      reply counts. */
  function Evaluate(kind: Option<Kind>, user: string, reference: string, content: string): Outcome
  {
    if kind == Some(IsCorrect) then Graded(NormalizeAnswer(user) == NormalizeWord(Strip(reference)), [])
    else
      var response := Ask(content);
      match FirstWord(response)
      case None => Failed
      case Some(w) => Graded(NormalizeWord(w) == Yes, response)
  }

  /** An is_correct answer needs no reply: the trimmed, uppercased answer
      is compared with the reference trimmed, uppercased and stripped of
      ".,!?", and the feedback is empty. */
  lemma JudgmentIgnoresReply(user: string, reference: string, c1: string, c2: string)
    ensures Evaluate(Some(IsCorrect), user, reference, c1) == Evaluate(Some(IsCorrect), user, reference, c2)
    ensures var r := Evaluate(Some(IsCorrect), user, reference, c1);
      && r.Graded? && r.feedback == []
      && (r.correct <==> Upper(Strip(user)) == StripChars(Upper(Strip(reference)), Punctuation))
  {
  }

  /** Any other answer is correct exactly when the first word of the reply
      reads as ANO; every other first word, NE or not a verdict at all,
      makes it wrong, and the feedback is the reply as ask_openai returned
      it, without a note. */
  lemma FirstTokenOnly(kind: Option<Kind>, user: string, reference: string, content: string)
    requires kind != Some(IsCorrect) && !Blank(content)
    ensures FirstWord(content).Some?
    ensures var r := Evaluate(kind, user, reference, content);
      && r.Graded?
      && (r.correct <==> NormalizeWord(FirstWord(content).value) == Yes)
      && r.feedback == Strip(content)
  {
    FirstWordOfAsk(content);
  }

  /** The judgment fails exactly when the reply is blank: split()[0]
      raises IndexError. */
  lemma OpenAnswerFails(kind: Option<Kind>, user: string, reference: string, content: string)
    requires kind != Some(IsCorrect)
    ensures Evaluate(kind, user, reference, content).Failed? <==> Blank(content)
  {
    FirstWordOfAsk(content);
  }

  // ---------------------------------------------------------------------
  // generate_question

  /** One pass of the loop of generate_question(asked), of the kind chosen
      before the loop, with the service's replies numbered from `call`. */
  function Attempt(asked: seq<string>, kind: Kind, reply: nat -> string, call: nat): (t: Try)
    ensures t.Accept? ==> t.ex.kind == kind && t.ex.prompt !in asked
    ensures t == Abort <==>
      || (kind == IsCorrect && ParseJudgment(Ask(reply(call))).Crashed?)
      || (kind == FixSentence && ParseFix(Ask(reply(call))).Crashed?)
  {
    match kind
    case Translate =>
      var cz := Ask(reply(call));
      var en := Ask(reply(call + 1));
      if cz !in asked then Accept(Exercise(Translate, cz, en, [])) else Skip
    case IsCorrect =>
      (match ParseJudgment(Ask(reply(call)))
       case NoFields => Skip
       case Crashed => Abort
       case Parsed(ex) => if ex.prompt !in asked then Accept(ex) else Skip)
    case FixSentence =>
      match ParseFix(Ask(reply(call)))
      case NoFields => Skip
      case Crashed => Abort
      case Parsed(ex) => if ex.prompt !in asked then Accept(ex) else Skip
  }

  /** An attempt accepts exactly the exercise its reply parses to (for
      translate: the sentence and its translation), and only when that
      prompt is new. */
  lemma AttemptAcceptsParsed(asked: seq<string>, kind: Kind, reply: nat -> string, call: nat, e: Exercise)
    ensures Attempt(asked, kind, reply, call) == Accept(e) <==>
      && e.prompt !in asked
      && match kind
         case Translate => e == Exercise(Translate, Ask(reply(call)), Ask(reply(call + 1)), [])
         case IsCorrect => ParseJudgment(Ask(reply(call))) == Parsed(e)
         case FixSentence => ParseFix(Ask(reply(call))) == Parsed(e)
  {
  }

  /** The kind of every attempt: the one chosen before the loop. */
  function Fixed(kind: Kind): nat -> Kind
  {
    (i: nat) => kind
  }

  /** Attempt i of a call, of kind kinds(i), reading the replies from c on;
      generate_question passes Fixed(q_type). */
  function Tries(asked: seq<string>, kinds: nat -> Kind, reply: nat -> string): (nat, nat) -> Try
  {
    (i: nat, c: nat) => Attempt(asked, kinds(i), reply, c)
  }

  /** One call of generate_question(asked) with q_type = kind. */
  function Generate(asked: seq<string>, kind: Kind, reply: nat -> string): Draw
  {
    RunTries(Tries(asked, Fixed(kind), reply), Fixed(kind), 0, 0)
  }

  /** The number of the first reply attempt i reads when every attempt is
      of kind `kind`: two replies per translate attempt, one otherwise. */
  function FirstReply(kind: Kind, i: nat): nat
  {
    if kind == Translate then 2 * i else i
  }

  /** With the kind fixed, the replies the attempts before attempt i use
      are FirstReply(kind, i). */
  lemma {:induction false} CallsOfFixedKind(kind: Kind, i: nat)
    ensures CallsBefore(Fixed(kind), i) == FirstReply(kind, i)
  {
    if i > 0 {
      CallsOfFixedKind(kind, i - 1);
    }
  }

  /** The run of the attempts for any choice of kinds: the service calls
      add up, and the last attempt made gave the result. */
  lemma RunOfTries(asked: seq<string>, kinds: nat -> Kind, reply: nat -> string)
    ensures var d := RunTries(Tries(asked, kinds, reply), kinds, 0, 0);
      var n := d.attempts - 1;
      && d.calls == CallsBefore(kinds, d.attempts)
      && (d.result.Found? ==> Attempt(asked, kinds(n), reply, CallsBefore(kinds, n)) == Accept(d.result.ex))
      && (d.result.Raised? ==> Attempt(asked, kinds(n), reply, CallsBefore(kinds, n)) == Abort)
  {
    var tries := Tries(asked, kinds, reply);
    var d := RunTries(tries, kinds, 0, 0);
    var n: nat := d.attempts - 1;
    var last := CallsBefore(kinds, n);
    assert CallsBefore(kinds, 0) == 0;
    assert d.calls == CallsBefore(kinds, d.attempts) by {
      RunTriesCalls(tries, kinds, 0);
    }
    RunLastOfTries(asked, kinds, reply, d, n, last);
  }

  /** The last attempt, with the run and its last reply number named. */
  lemma RunLastOfTries(asked: seq<string>, kinds: nat -> Kind, reply: nat -> string, d: Draw, n: nat, last: nat)
    requires d == RunTries(Tries(asked, kinds, reply), kinds, 0, 0)
    requires n == d.attempts - 1 && last == CallsBefore(kinds, n)
    ensures d.result.Found? ==> Attempt(asked, kinds(n), reply, last) == Accept(d.result.ex)
    ensures d.result.Raised? ==> Attempt(asked, kinds(n), reply, last) == Abort
  {
    var tries := Tries(asked, kinds, reply);
    var t := tries(n, last);
    assert (d.result.Found? ==> t == Accept(d.result.ex)) && (d.result.Raised? ==> t == Abort) by {
      assert CallsBefore(kinds, 0) == 0;
      RunTriesLast(tries, kinds, 0, 0, d);
    }
    assert t == Attempt(asked, kinds(n), reply, last);
  }

  /** Every attempt before the last one made skipped. */
  lemma SkipsOfTries(asked: seq<string>, kinds: nat -> Kind, reply: nat -> string)
    ensures var d := RunTries(Tries(asked, kinds, reply), kinds, 0, 0);
      forall i :: 0 <= i < d.attempts - 1 ==> Attempt(asked, kinds(i), reply, CallsBefore(kinds, i)) == Skip
  {
    var tries := Tries(asked, kinds, reply);
    var n := RunTries(tries, kinds, 0, 0).attempts - 1;
    assert CallsBefore(kinds, 0) == 0;
    assert forall i :: 0 <= i < n ==> tries(i, CallsBefore(kinds, i)) == Skip by {
      RunTriesSkipsBefore(tries, kinds, 0);
    }
    forall i | 0 <= i < n
      ensures Attempt(asked, kinds(i), reply, CallsBefore(kinds, i)) == Skip
    {
      assert tries(i, CallsBefore(kinds, i)) == Attempt(asked, kinds(i), reply, CallsBefore(kinds, i));
    }
  }

  /** generate_question makes between one and five attempts, all of the
      kind chosen before the loop, each consuming one reply (two for
      translate); every attempt before the last one found nothing new, and
      None comes only after five attempts. */
  lemma GenerateBounds(asked: seq<string>, kind: Kind, reply: nat -> string)
    ensures var d := Generate(asked, kind, reply);
      && 1 <= d.attempts <= MaxAttempts
      && d.calls == FirstReply(kind, d.attempts)
      && (forall i :: 0 <= i < d.attempts - 1 ==> Attempt(asked, kind, reply, FirstReply(kind, i)) == Skip)
      && (d.result.Exhausted? ==> d.attempts == MaxAttempts)
  {
    var d := Generate(asked, kind, reply);
    RunOfTries(asked, Fixed(kind), reply);
    SkipsOfTries(asked, Fixed(kind), reply);
    CallsOfFixedKind(kind, d.attempts);
    forall i | 0 <= i < d.attempts - 1
      ensures Attempt(asked, kind, reply, FirstReply(kind, i)) == Skip
    {
      CallsOfFixedKind(kind, i);
      assert Fixed(kind)(i) == kind;
    }
  }

  /** A returned prompt was not asked before and comes from the last
      attempt, the first that found a new one. */
  lemma GenerateIsFirstNew(asked: seq<string>, kind: Kind, reply: nat -> string)
    ensures var d := Generate(asked, kind, reply);
      var last := FirstReply(kind, d.attempts - 1);
      d.result.Found? ==>
        d.result.ex.prompt !in asked && d.result.ex.kind == kind
        && Attempt(asked, kind, reply, last) == Accept(d.result.ex)
  {
    var d := Generate(asked, kind, reply);
    RunOfTries(asked, Fixed(kind), reply);
    CallsOfFixedKind(kind, d.attempts - 1);
    assert Fixed(kind)(d.attempts - 1) == kind;
  }

  /** An exception comes from the last attempt, whose reply has its labels
      out of place. */
  lemma GenerateRaisesOnCrash(asked: seq<string>, kind: Kind, reply: nat -> string)
    ensures var d := Generate(asked, kind, reply);
      var last := FirstReply(kind, d.attempts - 1);
      d.result.Raised? ==>
        || (kind == IsCorrect && ParseJudgment(Ask(reply(last))).Crashed?)
        || (kind == FixSentence && ParseFix(Ask(reply(last))).Crashed?)
  {
    var d := Generate(asked, kind, reply);
    RunOfTries(asked, Fixed(kind), reply);
    CallsOfFixedKind(kind, d.attempts - 1);
    assert Fixed(kind)(d.attempts - 1) == kind;
  }

  /** A first translate attempt with a new sentence: the exercise is the
      sentence and its translation, after one attempt and two calls. */
  lemma GenerateTranslateFirst(asked: seq<string>, reply: nat -> string)
    requires Ask(reply(0)) !in asked
    ensures Generate(asked, Translate, reply)
         == Draw(Found(Exercise(Translate, Ask(reply(0)), Ask(reply(1)), [])), 1, 2)
  {
    assert Tries(asked, Fixed(Translate), reply)(0, 0) == Attempt(asked, Translate, reply, 0);
  }

  /** A first is_correct attempt whose reply is in the requested format,
      after any preamble, with a new sentence: that exercise is returned
      after one call. */
  lemma GenerateJudgmentFirst(asked: seq<string>, reply: nat -> string,
                              pre: string, sentence: string, verdict: string, correction: string)
    requires NoEq(sentence) && NoEq(verdict) && NoEq(correction)
    requires Ask(reply(0)) == pre + SentenceLabel + sentence + AnswerLabel + verdict
                              + CorrectionLabel + correction
    requires Strip(sentence) !in asked
    ensures Generate(asked, IsCorrect, reply)
         == Draw(Found(Exercise(IsCorrect, Strip(sentence), Upper(Strip(verdict)), Strip(correction))), 1, 1)
  {
    JudgmentRoundTrip(pre, sentence, verdict, correction);
    assert Tries(asked, Fixed(IsCorrect), reply)(0, 0) == Attempt(asked, IsCorrect, reply, 0);
  }

  /** A first fix_sentence attempt whose reply is in the requested format,
      after any preamble, with a new wrong sentence. */
  lemma GenerateFixFirst(asked: seq<string>, reply: nat -> string, pre: string, wrong: string, right: string)
    requires NoEq(wrong) && NoEq(right)
    requires Ask(reply(0)) == pre + WrongLabel + wrong + RightLabel + right
    requires Strip(wrong) !in asked
    ensures Generate(asked, FixSentence, reply)
         == Draw(Found(Exercise(FixSentence, Strip(wrong), Strip(right), [])), 1, 1)
  {
    FixRoundTrip(pre, wrong, right);
    assert Tries(asked, Fixed(FixSentence), reply)(0, 0) == Attempt(asked, FixSentence, reply, 0);
  }

  // ---------------------------------------------------------------------
  // index: the session

  /** What a request renders: a graded answer with the percentage shown, a
      new question, the message that no question could be generated, or
      an exception (a blank judgment, labels out of order). */
  datatype Page =
    | Answered(correct: bool, feedback: string, percent: int)
    | Question(ex: Exercise)
    | Unavailable
    | Failure

  /** The session of one user.  `started` says whether "asked" is in the
      session; `pending` holds q_type, question, correct and correction of
      the last generated question. */
  class Session {
    var started: bool
    var asked: seq<string>
    var score: seq<int>
    var pending: Option<Exercise>

    /** The stored score is at most ten outcomes. */
    ghost predicate Valid()
      reads this
    {
      |score| <= WindowSize && Outcomes(score)
    }

    /** A new session holds nothing. */
    constructor()
      ensures Valid() && !started && asked == [] && score == [] && pending == None
    {
      started := false;
      asked := [];
      score := [];
      pending := None;
    }

    /** The first request of a session puts an empty "asked" and "score"
        into it. */
    method Begin()
      requires Valid()
      modifies this
      ensures Valid() && started
      ensures if old(started) then asked == old(asked) && score == old(score)
              else asked == [] && score == []
      ensures pending == old(pending)
    {
      if !started {
        asked := [];
        score := [];
        started := true;
      }
    }

    /** generate_question(session["asked"]): up to five attempts of the
        one kind; the first new prompt found is appended to the list,
        which otherwise stays as it was. */
    method GenerateQuestion(kind: Kind, reply: nat -> string) returns (q: Generated, calls: nat)
      modifies this
      ensures var d := Generate(old(asked), kind, reply); q == d.result && calls == d.calls
      ensures q.Found? ==> q.ex.kind == kind && q.ex.prompt !in old(asked) && asked == old(asked) + [q.ex.prompt]
      ensures !q.Found? ==> asked == old(asked)
      ensures started == old(started) && score == old(score) && pending == old(pending)
    {
      var d := RetryLoop(Tries(asked, Fixed(kind), reply), Fixed(kind));
      GenerateIsFirstNew(asked, kind, reply);
      q, calls := d.result, d.calls;
      if q.Found? {
        asked := asked + [q.ex.prompt];
      }
    }

    /** A POST: grade the answer against the pending question, append the
        outcome, keep the last ten outcomes and show the percentage of the
        list before it was cut back to ten. */
    method HandlePost(user: string, content: string) returns (page: Page)
      requires Valid()
      modifies this
      ensures Valid() && started && pending == old(pending)
      ensures asked == if old(started) then old(asked) else []
      ensures var before := if old(started) then old(score) else [];
        var kind := if pending.Some? then Some(pending.value.kind) else None;
        var reference := if pending.Some? then pending.value.reference else [];
        var r := Evaluate(kind, user, reference, content);
        if r.Failed? then page == Failure && score == before
        else
          var appended := before + [Point(r.correct)];
          && page == Answered(r.correct, r.feedback, Percent(appended))
          && score == LastN(appended, WindowSize)
          && 0 <= page.percent <= 100
    {
      Begin();
      var kind := if pending.Some? then Some(pending.value.kind) else None;
      var reference := if pending.Some? then pending.value.reference else [];
      var r := Evaluate(kind, user, reference, content);
      if r.Failed? {
        return Failure;
      }
      var appended := score + [Point(r.correct)];
      OutcomesAppend(score, r.correct);
      OutcomesLastN(appended, WindowSize);
      PercentBounds(appended);
      page := Answered(r.correct, r.feedback, Percent(appended));
      score := LastN(appended, WindowSize);
    }

    /** A GET: generate a question of the chosen kind; a new one becomes
        the pending question, a failed generation leaves it as it was. */
    method HandleGet(kind: Kind, reply: nat -> string) returns (page: Page)
      requires Valid()
      modifies this
      ensures Valid() && started
      ensures var before := if old(started) then old(asked) else [];
        var d := Generate(before, kind, reply);
        && score == (if old(started) then old(score) else [])
        && (d.result.Found? ==>
              page == Question(d.result.ex) && pending == Some(d.result.ex)
              && asked == before + [d.result.ex.prompt] && d.result.ex.prompt !in before)
        && (d.result.Exhausted? ==> page == Unavailable && pending == old(pending) && asked == before)
        && (d.result.Raised? ==> page == Failure && pending == old(pending) && asked == before)
    {
      Begin();
      var q, _ := GenerateQuestion(kind, reply);
      match q
      case Found(ex) =>
        pending := Some(ex);
        return Question(ex);
      case Exhausted =>
        return Unavailable;
      case Raised =>
        return Failure;
    }
  }

  /** The percentage shown after a POST is taken over up to eleven
      outcomes, so it can differ from the percentage of the ten outcomes
      stored: one wrong answer followed by ten correct ones shows 90. */
  lemma ShownPercentSpansEleven()
    ensures var before := [0, 1, 1, 1, 1, 1, 1, 1, 1, 1];
      var appended := before + [Point(true)];
      && Percent(appended) == 90
      && Percent(LastN(appended, WindowSize)) == 100
  {
    var ones := [1, 1, 1, 1, 1, 1, 1, 1, 1, 1];
    var appended := [0] + ones;
    assert appended == [0, 1, 1, 1, 1, 1, 1, 1, 1, 1] + [Point(true)];
    SumBounds(ones);
    SumCons(0, ones);
    assert LastN(appended, WindowSize) == ones;
  }
}
