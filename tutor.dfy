/** AI_Tutor.py: the console tutor that parses the service's replies line
    by line into a dictionary, remembers every asked prompt in a set, reads
    the first word of a judgment strictly and stops after nine correct
    answers out of the last ten. */
module Tutor {
  import opened Text
  import opened Quiz
  import opened LineParse
  import opened Score

  // ---------------------------------------------------------------------
  // evaluate_answer

  /** The note put in front of a judgment whose first word is not a verdict. */
  const ReadAsNo: string := "(\U{26A0}\U{FE0F} Přečteno jako NE) "

  /** evaluate_answer(kind, user, reference): an is_correct answer is compared
      without asking the service; any other answer is judged by the first
      word of the service's reply `content`, and a first word that is neither
      ANO nor NE counts as NE. */
  function Evaluate(kind: Kind, user: string, reference: string, content: string): (r: Outcome)
    ensures kind == IsCorrect ==> r.Graded? && r.feedback == []
  {
    if kind == IsCorrect then Graded(NormalizeAnswer(user) == reference, [])
    else
      var fb := Ask(content);
      match FirstWord(fb)
      case None => Failed
      case Some(w) =>
        var first := NormalizeWord(w);
        if IsVerdict(first) then Graded(first == Yes, fb)
        else Graded(false, ReadAsNo + fb)
  }

  /** An is_correct answer needs no reply: the outcome is the same whatever
      the service would say, and the reference is compared as stored. */
  lemma JudgmentIgnoresReply(user: string, reference: string, c1: string, c2: string)
    ensures Evaluate(IsCorrect, user, reference, c1) == Evaluate(IsCorrect, user, reference, c2)
    ensures Evaluate(IsCorrect, user, reference, c1).correct <==> Upper(Strip(user)) == reference
  {
  }

  /** An open answer: the verdict is the first word of the reply; the reply
      is the feedback, marked when its first word was not ANO or NE. */
  lemma OpenAnswer(kind: Kind, user: string, reference: string, ws: string, w: string, rest: string)
    requires kind != IsCorrect
    requires Blank(ws) && IsWord(w) && (rest == [] || rest[0] in Whitespace)
    ensures var content := ws + w + rest;
      Evaluate(kind, user, reference, content)
      == if IsVerdict(NormalizeWord(w)) then Graded(NormalizeWord(w) == Yes, Strip(content))
         else Graded(false, ReadAsNo + Strip(content))
  {
    FirstWordOf(ws, w, rest);
    FirstWordOfAsk(ws + w + rest);
  }

  /** The judgment fails exactly when the reply is blank: split()[0] then
      raises IndexError. */
  lemma OpenAnswerFails(kind: Kind, user: string, reference: string, content: string)
    requires kind != IsCorrect
    ensures Evaluate(kind, user, reference, content).Failed? <==> Blank(content)
  {
    var fb := Ask(content);
    assert Evaluate(kind, user, reference, content).Failed? <==> FirstWord(fb).None?;
    assert FirstWord(fb).None? <==> Blank(fb);
  }

  /** The marker appears exactly when the reply has a first word that is not
      a verdict; a marked answer is always wrong. */
  lemma MarkedIffNoVerdict(kind: Kind, user: string, reference: string, content: string)
    requires kind != IsCorrect && !Blank(content)
    ensures var r := Evaluate(kind, user, reference, content);
      && r.Graded?
      && (r.feedback == ReadAsNo + Strip(content) <==> !IsVerdict(NormalizeWord(FirstWord(content).value)))
      && (r.feedback == ReadAsNo + Strip(content) ==> !r.correct)
  {
    FirstWordOfAsk(content);
    var fb := Strip(content);
    assert |ReadAsNo + fb| != |fb|;
  }

  // ---------------------------------------------------------------------
  // generate_question

  /** One pass of the loop of generate_question, of the given kind, with the
      service's replies numbered from `call`. */
  function Attempt(asked: set<string>, kind: Kind, reply: nat -> string, call: nat): (t: Try)
    ensures t != Abort
    ensures t.Accept? ==> t.ex.kind == kind && t.ex.prompt !in asked
  {
    match kind
    case Translate =>
      var cz := Ask(reply(call));
      var en := Ask(reply(call + 1));
      if cz !in asked then Accept(Exercise(Translate, cz, en, [])) else Skip
    case IsCorrect =>
      var parsed := ParseJudgmentLines(Ask(reply(call)));
      if parsed.Some? && parsed.value.prompt !in asked then Accept(parsed.value) else Skip
    case FixSentence =>
      var parsed := ParseFixLines(Ask(reply(call)));
      if parsed.Some? && parsed.value.prompt !in asked then Accept(parsed.value) else Skip
  }

  /** Attempt i of a call, of kind choose(i), reading the replies from c on. */
  function Tries(asked: set<string>, choose: nat -> Kind, reply: nat -> string): (nat, nat) -> Try
  {
    (i: nat, c: nat) => Attempt(asked, choose(i), reply, c)
  }

  /** One call of generate_question with the prompts asked so far. */
  function Generate(asked: set<string>, choose: nat -> Kind, reply: nat -> string): Draw
  {
    RunTries(Tries(asked, choose, reply), choose, 0, 0)
  }

  /** Attempt i of Tries is the pass of kind choose(i). */
  lemma TriesAt(asked: set<string>, choose: nat -> Kind, reply: nat -> string, i: nat, c: nat)
    ensures Tries(asked, choose, reply)(i, c) == Attempt(asked, choose(i), reply, c)
  {
  }

  /** An attempt accepts exactly the exercise its reply parses to (for
      translate: the sentence and its translation), and only when that
      prompt is new; every other attempt skips. */
  lemma AttemptAcceptsParsed(asked: set<string>, kind: Kind, reply: nat -> string, call: nat, e: Exercise)
    ensures Attempt(asked, kind, reply, call) == Accept(e) <==>
      && e.prompt !in asked
      && match kind
         case Translate => e == Exercise(Translate, Ask(reply(call)), Ask(reply(call + 1)), [])
         case IsCorrect => ParseJudgmentLines(Ask(reply(call))) == Some(e)
         case FixSentence => ParseFixLines(Ask(reply(call))) == Some(e)
  {
  }

  /** A first translate attempt with a new sentence: the exercise is the
      sentence and its translation, after one attempt and two calls. */
  lemma GenerateTranslateFirst(asked: set<string>, choose: nat -> Kind, reply: nat -> string)
    requires choose(0) == Translate && Ask(reply(0)) !in asked
    ensures Generate(asked, choose, reply)
         == Draw(Found(Exercise(Translate, Ask(reply(0)), Ask(reply(1)), [])), 1, 2)
  {
    TriesAt(asked, choose, reply, 0, 0);
  }

  /** A first is_correct attempt whose reply is the requested three lines,
      with a new sentence: that exercise is returned after one call. */
  lemma GenerateJudgmentFirst(asked: set<string>, choose: nat -> Kind, reply: nat -> string,
                              sentence: string, verdict: string, correction: string)
    requires choose(0) == IsCorrect
    requires FieldValue(sentence) && FieldValue(verdict) && FieldValue(correction)
    requires Ask(reply(0)) == SentenceKey + "=" + sentence + "\n" + AnswerKey + "=" + verdict
                              + "\n" + CorrectionKey + "=" + correction
    requires sentence !in asked
    ensures Generate(asked, choose, reply)
         == Draw(Found(Exercise(IsCorrect, sentence, Strip(Upper(verdict)), correction)), 1, 1)
  {
    JudgmentLinesRoundTrip(sentence, verdict, correction);
    TriesAt(asked, choose, reply, 0, 0);
  }

  /** A first fix_sentence attempt whose reply is the requested two lines,
      with a new wrong sentence: that exercise is returned after one call. */
  lemma GenerateFixFirst(asked: set<string>, choose: nat -> Kind, reply: nat -> string,
                         wrong: string, right: string)
    requires choose(0) == FixSentence
    requires FieldValue(wrong) && FieldValue(right)
    requires Ask(reply(0)) == WrongKey + "=" + wrong + "\n" + RightKey + "=" + right
    requires wrong !in asked
    ensures Generate(asked, choose, reply) == Draw(Found(Exercise(FixSentence, wrong, right, [])), 1, 1)
  {
    FixLinesRoundTrip(wrong, right);
    TriesAt(asked, choose, reply, 0, 0);
  }

  /** generate_question makes between one and five attempts and one or two
      service calls per attempt; the parsing never raises; every attempt
      before the last one found nothing new, and None comes only after five
      attempts. */
  lemma GenerateBounds(asked: set<string>, choose: nat -> Kind, reply: nat -> string)
    ensures var d := Generate(asked, choose, reply);
      && 1 <= d.attempts <= MaxAttempts
      && d.attempts <= d.calls <= 2 * d.attempts
      && d.result != Raised
      && (forall i :: 0 <= i < d.attempts - 1 ==> Attempt(asked, choose(i), reply, CallsBefore(choose, i)) == Skip)
      && (d.result.Exhausted? ==> d.attempts == MaxAttempts)
  {
    var tries := Tries(asked, choose, reply);
    var d := Generate(asked, choose, reply);
    var n: nat := d.attempts - 1;
    assert CallsBefore(choose, 0) == 0;
    assert d.calls == CallsBefore(choose, d.attempts) by { RunTriesCalls(tries, choose, 0); }
    assert d.result.Raised? ==> tries(n, CallsBefore(choose, n)) == Abort by { RunTriesLast(tries, choose, 0, 0, d); }
    TriesAt(asked, choose, reply, n, CallsBefore(choose, n));
    assert forall i :: 0 <= i < n ==> tries(i, CallsBefore(choose, i)) == Skip by {
      RunTriesSkipsBefore(tries, choose, 0);
    }
    forall i | 0 <= i < n
      ensures Attempt(asked, choose(i), reply, CallsBefore(choose, i)) == Skip
    {
      TriesAt(asked, choose, reply, i, CallsBefore(choose, i));
    }
  }


  /** A returned prompt was not asked before and comes from the last
      attempt, the first that found a new one. */
  lemma GenerateIsFirstNew(asked: set<string>, choose: nat -> Kind, reply: nat -> string)
    ensures var d := Generate(asked, choose, reply);
      var last := CallsBefore(choose, d.attempts - 1);
      && (d.result.Found? ==>
        d.result.ex.prompt !in asked && d.result.ex.kind == choose(d.attempts - 1)
        && Attempt(asked, choose(d.attempts - 1), reply, last) == Accept(d.result.ex))
  {
    var tries := Tries(asked, choose, reply);
    var d := Generate(asked, choose, reply);
    var n: nat := d.attempts - 1;
    var last := CallsBefore(choose, n);
    assert CallsBefore(choose, 0) == 0;
    assert d.result.Found? ==> tries(n, last) == Accept(d.result.ex) by {
      RunTriesLast(tries, choose, 0, 0, d);
    }
    TriesAt(asked, choose, reply, n, last);
  }


  /** The set asked_questions, shared by all calls of generate_question. */
  class QuestionBank {
    var asked: set<string>

    constructor()
      ensures asked == {}
    {
      asked := {};
    }

    /** generate_question(): up to five attempts; the first new prompt found
        is added to the set and returned. */
    method GenerateQuestion(choose: nat -> Kind, reply: nat -> string) returns (q: Generated, calls: nat)
      modifies this
      ensures var d := Generate(old(asked), choose, reply); q == d.result && calls == d.calls
      ensures q.Found? ==> q.ex.prompt !in old(asked) && asked == old(asked) + {q.ex.prompt}
      ensures !q.Found? ==> asked == old(asked)
    {
      var d := RetryLoop(Tries(asked, choose, reply), choose);
      GenerateIsFirstNew(asked, choose, reply);
      q, calls := d.result, d.calls;
      if q.Found? {
        asked := asked + {q.ex.prompt};
      }
    }
  }

  // ---------------------------------------------------------------------
  // main: score and stop rule

  /** The loop of main ends when the last ten answers hold at least nine
      correct ones. */
  predicate NineOfTen(w: seq<int>)
  {
    |w| == WindowSize && Sum(w) >= 9
  }

  /** The stop rule holds exactly when the window is full and at most one
      of its ten answers was wrong. */
  lemma NineOfTenCounts(w: seq<int>)
    requires Outcomes(w)
    ensures NineOfTen(w) <==> |w| == WindowSize && multiset(w)[0] <= 1
  {
    SumCountsOnes(w);
  }

  /** The bookkeeping after one answer in main: record it, compute the
      percentage to print and decide whether to stop. */
  method Tally(window: ScoreWindow, correct: bool) returns (percent: int, stop: bool)
    requires window.Valid()
    modifies window
    ensures window.Valid() && window.history == old(window.history) + [Point(correct)]
    ensures window.entries == LastN(old(window.entries) + [Point(correct)], WindowSize)
    ensures percent == Percent(window.entries) && 0 <= percent <= 100
    ensures stop <==> NineOfTen(window.entries)
  {
    window.Record(correct);
    percent := window.Percentage();
    WindowPercentBounds(window);
    stop := |window.entries| == WindowSize && Sum(window.entries) >= 9;
  }
}
