/** AI_Tutor_no_streamlit.py: the console tutor that cuts the service's
    replies at field labels, looks for a verdict anywhere in a judgment
    whose first word is not one, and stops after ten correct answers in a
    row. */
module TutorConsole {
  import opened Text
  import opened Quiz
  import opened LabelParse
  import opened Score

  // ---------------------------------------------------------------------
  // evaluate_answer

  /** The note put in front of a judgment in which no word is a verdict. */
  const Undecided: string := "(\U{26A0}\U{FE0F} Nešlo určit ANO/NE) "

  /** The reference of an is_correct exercise as the comparison reads it:
      correct_answer.strip().upper().strip(".,!?"). */
  function NormalizeReference(reference: string): string
  {
    NormalizeWord(Strip(reference))
  }

  /** The verdict the scan settles on: the first word, in reading order,
      that reads as ANO or NE once cleaned. */
  function Verdict(words: seq<string>): (v: Option<string>)
    ensures v.Some? ==> IsVerdict(v.value)
    decreases |words|
  {
    if words == [] then None
    else
      var clean := NormalizeWord(words[0]);
      if IsVerdict(clean) then Some(clean) else Verdict(words[1..])
  }

  /** The word reads as ANO or NE once cleaned. */
  predicate ReadsAsVerdict(word: string)
  {
    IsVerdict(NormalizeWord(word))
  }

  /** The i-th word is the first one, in reading order, that reads as a
      verdict. */
  predicate FirstVerdictAt(words: seq<string>, i: nat)
  {
    && i < |words| && ReadsAsVerdict(words[i])
    && forall j :: 0 <= j < i ==> !ReadsAsVerdict(words[j])
  }

  /** The scan settles on the first word that reads as a verdict. */
  lemma {:induction false} VerdictIsFirst(words: seq<string>, i: nat)
    requires FirstVerdictAt(words, i)
    ensures Verdict(words) == Some(NormalizeWord(words[i]))
    decreases i
  {
    if i > 0 {
      assert !ReadsAsVerdict(words[0]);
      assert forall j :: 0 <= j < i - 1 ==> words[1..][j] == words[j + 1];
      VerdictIsFirst(words[1..], i - 1);
    }
  }

  /** The scan finds nothing exactly when no word reads as a verdict. */
  lemma {:induction false} NoVerdict(words: seq<string>)
    ensures Verdict(words).None? <==> forall j :: 0 <= j < |words| ==> !ReadsAsVerdict(words[j])
    decreases |words|
  {
    if words != [] {
      NoVerdict(words[1..]);
      assert forall j :: 0 < j < |words| ==> words[j] == words[1..][j - 1];
    }
  }

  /** What evaluate_answer returns: an is_correct answer is compared with
      the normalised reference; any other answer takes the first word of
      the judgment that reads as ANO or NE as the verdict, and is wrong,
      with a note, when there is none. */
  function Evaluate(kind: Kind, user: string, reference: string, content: string): Outcome
  {
    if kind == IsCorrect then Graded(NormalizeAnswer(user) == NormalizeReference(reference), [])
    else
      var response := Ask(content);
      var words := Tokens(Strip(response));
      if words == [] then Failed
      else match Verdict(words)
        case None => Graded(false, Undecided + Strip(response))
        case Some(v) => Graded(v == Yes, Strip(response))
  }

  /** evaluate_answer(q_type, user_answer, correct_answer), with the
      service's judgment `content`. */
  method EvaluateAnswer(kind: Kind, user: string, reference: string, content: string) returns (r: Outcome)
    ensures r == Evaluate(kind, user, reference, content)
  {
    if kind == IsCorrect {
      return Graded(NormalizeAnswer(user) == NormalizeReference(reference), []);
    }
    var response := Ask(content);
    var words := Tokens(Strip(response));
    if words == [] {
      return Failed;
    }
    var verdict := ReadVerdict(words);
    match verdict
    case None =>
      return Graded(false, Undecided + Strip(response));
    case Some(v) =>
      return Graded(v == Yes, Strip(response));
  }

  /** The verdict part of evaluate_answer: read the first word and, when it
      is not ANO or NE, scan the words in order for one (the for/else loop). */
  method ReadVerdict(words: seq<string>) returns (v: Option<string>)
    requires words != []
    ensures v == Verdict(words)
  {
    var first := NormalizeWord(words[0]);
    if !IsVerdict(first) {
      var i := 0;
      var clean := first;
      while i < |words| && !IsVerdict(clean)
        invariant 0 <= i <= |words|
        invariant i < |words| ==> clean == NormalizeWord(words[i])
        invariant Verdict(words[i..]) == Verdict(words)
      {
        assert words[i..][1..] == words[i + 1..];
        i := i + 1;
        if i < |words| {
          clean := NormalizeWord(words[i]);
        }
      }
      if i == |words| {
        return None;
      }
      first := clean;
    }
    return Some(first);
  }

  /** An is_correct answer needs no reply: the trimmed, uppercased answer
      is compared with the reference trimmed, uppercased and stripped of
      ".,!?" at both ends, and the feedback is empty. */
  lemma JudgmentIgnoresReply(user: string, reference: string, c1: string, c2: string)
    ensures Evaluate(IsCorrect, user, reference, c1) == Evaluate(IsCorrect, user, reference, c2)
    ensures var r := Evaluate(IsCorrect, user, reference, c1);
      && r.Graded? && r.feedback == []
      && (r.correct <==> Upper(Strip(user)) == StripChars(Upper(Strip(reference)), Punctuation))
  {
  }

  /** The judgment of an open answer fails exactly when the reply is blank:
      words[0] then raises IndexError. */
  lemma OpenAnswerFails(kind: Kind, user: string, reference: string, content: string)
    requires kind != IsCorrect
    ensures Evaluate(kind, user, reference, content).Failed? <==> Blank(content)
  {
    var response := Ask(content);
    StripOfBlank(response);
    TokensEmptyIffBlank(Strip(response));
  }

  /** The verdict of an open answer is the first word of the trimmed reply,
      in reading order, that reads as ANO or NE; the feedback is the
      trimmed reply. */
  lemma ReadsFirstVerdict(kind: Kind, user: string, reference: string, content: string, i: nat)
    requires kind != IsCorrect && FirstVerdictAt(Tokens(Strip(content)), i)
    ensures Evaluate(kind, user, reference, content)
         == Graded(NormalizeWord(Tokens(Strip(content))[i]) == Yes, Strip(content))
  {
    StripIdempotent(content);
    assert Strip(Ask(content)) == Strip(content);
    VerdictIsFirst(Tokens(Strip(content)), i);
  }

  /** When the first word is already a verdict, it decides, as in the
      strict reading. */
  lemma FirstWordDecides(kind: Kind, user: string, reference: string, content: string)
    requires kind != IsCorrect && FirstWord(content).Some? && ReadsAsVerdict(FirstWord(content).value)
    ensures Evaluate(kind, user, reference, content)
         == Graded(NormalizeWord(FirstWord(content).value) == Yes, Strip(content))
  {
    ReadsFirstVerdict(kind, user, reference, content, 0);
  }

  /** The note appears exactly when no word of the reply reads as a
      verdict, and a noted answer is wrong. */
  lemma UndecidedIffNoVerdict(kind: Kind, user: string, reference: string, content: string)
    requires kind != IsCorrect && !Blank(content)
    ensures var r := Evaluate(kind, user, reference, content);
      && r.Graded?
      && (r.feedback == Undecided + Strip(content)
          <==> forall t :: t in Tokens(Strip(content)) ==> !ReadsAsVerdict(t))
      && (r.feedback == Undecided + Strip(content) ==> !r.correct)
  {
    OpenAnswerFails(kind, user, reference, content);
    StripIdempotent(content);
    assert Strip(Ask(content)) == Strip(content);
    var words := Tokens(Strip(content));
    NoVerdict(words);
    assert |Undecided + Strip(content)| != |Strip(content)|;
    assert (forall t :: t in words ==> !ReadsAsVerdict(t))
       <==> (forall j :: 0 <= j < |words| ==> !ReadsAsVerdict(words[j]));
  }

  // ---------------------------------------------------------------------
  // generate_question

  /** One pass of the loop of generate_question, of the given kind, with the
      service's replies numbered from `call`: a prompt already asked, or a
      reply without both labels, moves on to the next pass; a reply whose
      labels are out of order raises. */
  function Attempt(asked: set<string>, kind: Kind, reply: nat -> string, call: nat): (t: Try)
    ensures t.Accept? ==> t.ex.kind == kind && t.ex.prompt !in asked
    ensures t == Abort <==>
      || (kind == IsCorrect && ParseJudgment(Ask(reply(call))).Crashed?)
      || (kind == FixSentence && ParseFix(Ask(reply(call))).Crashed?)
  {
    match kind
    case Translate =>
      var cz := Ask(reply(call));
      var en := Ask(reply(call + 1));
      if cz in asked then Skip else Accept(Exercise(Translate, cz, en, []))
    case IsCorrect =>
      (match ParseJudgment(Ask(reply(call)))
       case NoFields => Skip
       case Crashed => Abort
       case Parsed(ex) => if ex.prompt in asked then Skip else Accept(ex))
    case FixSentence =>
      match ParseFix(Ask(reply(call)))
      case NoFields => Skip
      case Crashed => Abort
      case Parsed(ex) => if ex.prompt in asked then Skip else Accept(ex)
  }

  /** Attempt i of a call, of kind choose(i), reading the replies from c on. */
  function Tries(asked: set<string>, choose: nat -> Kind, reply: nat -> string): (nat, nat) -> Try
  {
    (i: nat, c: nat) => Attempt(asked, choose(i), reply, c)
  }

  /** One call of generate_question with the prompts asked so far. */
  function Generate(asked: set<string>, choose: nat -> Kind, reply: nat -> string): Draw
  {
    RunTries(Tries(asked, choose, reply), choose, 0, 0)
  }

  /** Attempt i of Tries is the pass of kind choose(i). */
  lemma TriesAt(asked: set<string>, choose: nat -> Kind, reply: nat -> string, i: nat, c: nat)
    ensures Tries(asked, choose, reply)(i, c) == Attempt(asked, choose(i), reply, c)
  {
  }

  /** An attempt accepts exactly the exercise its reply parses to (for
      translate: the sentence and its translation), and only when that
      prompt is new. */
  lemma AttemptAcceptsParsed(asked: set<string>, kind: Kind, reply: nat -> string, call: nat, e: Exercise)
    ensures Attempt(asked, kind, reply, call) == Accept(e) <==>
      && e.prompt !in asked
      && match kind
         case Translate => e == Exercise(Translate, Ask(reply(call)), Ask(reply(call + 1)), [])
         case IsCorrect => ParseJudgment(Ask(reply(call))) == Parsed(e)
         case FixSentence => ParseFix(Ask(reply(call))) == Parsed(e)
  {
  }

  /** A first translate attempt with a new sentence: the exercise is the
      sentence and its translation, after one attempt and two calls. */
  lemma GenerateTranslateFirst(asked: set<string>, choose: nat -> Kind, reply: nat -> string)
    requires choose(0) == Translate && Ask(reply(0)) !in asked
    ensures Generate(asked, choose, reply)
         == Draw(Found(Exercise(Translate, Ask(reply(0)), Ask(reply(1)), [])), 1, 2)
  {
    TriesAt(asked, choose, reply, 0, 0);
  }

  /** A first is_correct attempt whose reply is in the requested format,
      after any preamble, with a new sentence: that exercise is returned
      after one call. */
  lemma GenerateJudgmentFirst(asked: set<string>, choose: nat -> Kind, reply: nat -> string,
                              pre: string, sentence: string, verdict: string, correction: string)
    requires choose(0) == IsCorrect
    requires NoEq(sentence) && NoEq(verdict) && NoEq(correction)
    requires Ask(reply(0)) == pre + SentenceLabel + sentence + AnswerLabel + verdict
                              + CorrectionLabel + correction
    requires Strip(sentence) !in asked
    ensures Generate(asked, choose, reply)
         == Draw(Found(Exercise(IsCorrect, Strip(sentence), Upper(Strip(verdict)), Strip(correction))), 1, 1)
  {
    JudgmentRoundTrip(pre, sentence, verdict, correction);
    TriesAt(asked, choose, reply, 0, 0);
  }

  /** A first fix_sentence attempt whose reply is in the requested format,
      after any preamble, with a new wrong sentence. */
  lemma GenerateFixFirst(asked: set<string>, choose: nat -> Kind, reply: nat -> string,
                         pre: string, wrong: string, right: string)
    requires choose(0) == FixSentence
    requires NoEq(wrong) && NoEq(right)
    requires Ask(reply(0)) == pre + WrongLabel + wrong + RightLabel + right
    requires Strip(wrong) !in asked
    ensures Generate(asked, choose, reply)
         == Draw(Found(Exercise(FixSentence, Strip(wrong), Strip(right), [])), 1, 1)
  {
    FixRoundTrip(pre, wrong, right);
    TriesAt(asked, choose, reply, 0, 0);
  }

  /** generate_question makes between one and five attempts and one or two
      service calls per attempt; every attempt before the last one
      found nothing new, and None comes only after five attempts. */
  lemma GenerateBounds(asked: set<string>, choose: nat -> Kind, reply: nat -> string)
    ensures var d := Generate(asked, choose, reply);
      && 1 <= d.attempts <= MaxAttempts
      && d.attempts <= d.calls <= 2 * d.attempts
      && (forall i :: 0 <= i < d.attempts - 1 ==> Attempt(asked, choose(i), reply, CallsBefore(choose, i)) == Skip)
      && (d.result.Exhausted? ==> d.attempts == MaxAttempts)
  {
    var tries := Tries(asked, choose, reply);
    var d := Generate(asked, choose, reply);
    var n: nat := d.attempts - 1;
    assert CallsBefore(choose, 0) == 0;
    assert d.calls == CallsBefore(choose, d.attempts) by { RunTriesCalls(tries, choose, 0); }
    assert forall i :: 0 <= i < n ==> tries(i, CallsBefore(choose, i)) == Skip by {
      RunTriesSkipsBefore(tries, choose, 0);
    }
    forall i | 0 <= i < n
      ensures Attempt(asked, choose(i), reply, CallsBefore(choose, i)) == Skip
    {
      TriesAt(asked, choose, reply, i, CallsBefore(choose, i));
    }
  }


  /** A returned prompt was not asked before and comes from the last
      attempt, the first that found a new one. */
  lemma GenerateIsFirstNew(asked: set<string>, choose: nat -> Kind, reply: nat -> string)
    ensures var d := Generate(asked, choose, reply);
      var last := CallsBefore(choose, d.attempts - 1);
      d.result.Found? ==>
        d.result.ex.prompt !in asked && d.result.ex.kind == choose(d.attempts - 1)
        && Attempt(asked, choose(d.attempts - 1), reply, last) == Accept(d.result.ex)
  {
    var tries := Tries(asked, choose, reply);
    var d := Generate(asked, choose, reply);
    var n: nat := d.attempts - 1;
    var last := CallsBefore(choose, n);
    assert CallsBefore(choose, 0) == 0;
    assert d.result.Found? ==> tries(n, last) == Accept(d.result.ex) by {
      RunTriesLast(tries, choose, 0, 0, d);
    }
    TriesAt(asked, choose, reply, n, last);
  }

  /** An exception comes from the last attempt, whose reply has its labels
      out of place. */
  lemma GenerateRaisesOnCrash(asked: set<string>, choose: nat -> Kind, reply: nat -> string)
    ensures var d := Generate(asked, choose, reply);
      var last := CallsBefore(choose, d.attempts - 1);
      d.result.Raised? ==>
        || (choose(d.attempts - 1) == IsCorrect && ParseJudgment(Ask(reply(last))).Crashed?)
        || (choose(d.attempts - 1) == FixSentence && ParseFix(Ask(reply(last))).Crashed?)
  {
    var tries := Tries(asked, choose, reply);
    var d := Generate(asked, choose, reply);
    var n: nat := d.attempts - 1;
    var last := CallsBefore(choose, n);
    assert CallsBefore(choose, 0) == 0;
    assert d.result.Raised? ==> tries(n, last) == Abort by {
      RunTriesLast(tries, choose, 0, 0, d);
    }
    TriesAt(asked, choose, reply, n, last);
  }

  /** The global set asked_questions. */
  class QuestionBank {
    var asked: set<string>

    constructor()
      ensures asked == {}
    {
      asked := {};
    }

    /** generate_question(): up to five attempts; the first new prompt found
        is added to the set and returned; an exception leaves the set as it
        was. */
    method GenerateQuestion(choose: nat -> Kind, reply: nat -> string) returns (q: Generated, calls: nat)
      modifies this
      ensures var d := Generate(old(asked), choose, reply); q == d.result && calls == d.calls
      ensures q.Found? ==> q.ex.prompt !in old(asked) && asked == old(asked) + {q.ex.prompt}
      ensures !q.Found? ==> asked == old(asked)
    {
      var d := RetryLoop(Tries(asked, choose, reply), choose);
      GenerateIsFirstNew(asked, choose, reply);
      q, calls := d.result, d.calls;
      if q.Found? {
        asked := asked + {q.ex.prompt};
      }
    }
  }

  // ---------------------------------------------------------------------
  // main: score and stop rule

  /** The loop of main ends when the window holds ten answers, all correct. */
  predicate AllTen(w: seq<int>)
  {
    |w| == WindowSize && forall i :: 0 <= i < |w| ==> w[i] == 1
  }

  /** Ten correct answers in a row is a full window at one hundred percent. */
  lemma AllTenIsFullMarks(w: seq<int>)
    requires Outcomes(w)
    ensures AllTen(w) <==> |w| == WindowSize && Percent(w) == 100
  {
    if |w| == WindowSize {
      PercentBounds(w);
    }
  }

  /** The bookkeeping after one answer in main: record it, compute the
      percentage to print and decide whether to stop. */
  method Tally(window: ScoreWindow, correct: bool) returns (percent: int, stop: bool)
    requires window.Valid()
    modifies window
    ensures window.Valid() && window.history == old(window.history) + [Point(correct)]
    ensures window.entries == LastN(old(window.entries) + [Point(correct)], WindowSize)
    ensures percent == Percent(window.entries) && 0 <= percent <= 100
    ensures stop <==> AllTen(window.entries)
  {
    window.Record(correct);
    percent := window.Percentage();
    WindowPercentBounds(window);
    stop := |window.entries| == WindowSize && forall i | 0 <= i < |window.entries| :: window.entries[i] == 1;
  }
}
