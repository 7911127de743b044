/** The "split on label" reply parsers that AI_Tutor_no_streamlit.py and
    AI_Tutor_for_Flask.py share: the reply is cut at fixed field labels such
    as "Věta=" with str.split, and the pieces are trimmed. */
module LabelParse {
  import opened Text
  import opened Quiz

  /** Field labels of the is_correct reply: sentence, verdict, correction. */
  const SentenceLabel: string := SentenceKey + "="
  const AnswerLabel: string := AnswerKey + "="
  const CorrectionLabel: string := CorrectionKey + "="

  /** Field labels of the fix_sentence reply. */
  const WrongLabel: string := WrongKey + "="
  const RightLabel: string := RightKey + "="

  /** How parsing one reply ends: an exercise; the guard on the labels
      failed, so the attempt yields nothing; or an exception (IndexError
      from parts[1], ValueError from unpacking the split on "Správně="). */
  datatype ParseResult = Parsed(ex: Exercise) | NoFields | Crashed

  /** The is_correct branch of generate_question: the sentence is the
      trimmed text after the last "Věta=" up to the next "Odpověď="; the
      verdict and the optional correction come from the text after that. */
  function ParseJudgment(text: string): (r: ParseResult)
    ensures r != NoFields <==> Contains(text, SentenceLabel) && Contains(text, AnswerLabel)
    ensures r.Parsed? ==> r.ex.kind == IsCorrect
  {
    if !(Contains(text, SentenceLabel) && Contains(text, AnswerLabel)) then NoFields
    else SentenceFields(Last(SplitOn(text, SentenceLabel)))
  }

  /** The fields found in the text after the last "Věta=". */
  function SentenceFields(tail: string): (r: ParseResult)
    ensures r != NoFields
    ensures r.Parsed? ==> r.ex.kind == IsCorrect
  {
    var parts := SplitOn(tail, AnswerLabel);
    if |parts| < 2 then Crashed
    else VerdictFields(Strip(parts[0]), parts[1])
  }

  /** The verdict and the optional correction, read from the text after
      "Odpověď=" up to the next one. */
  function VerdictFields(sentence: string, remainder: string): (r: ParseResult)
    ensures r != NoFields
    ensures r.Parsed? ==> r.ex.kind == IsCorrect && r.ex.prompt == sentence
    ensures !Contains(remainder, CorrectionLabel) ==> r.Parsed? && r.ex.correction == sentence
  {
    if Contains(remainder, CorrectionLabel) then
      var pieces := SplitOn(remainder, CorrectionLabel);
      if |pieces| != 2 then Crashed
      else Parsed(Exercise(IsCorrect, sentence, Upper(Strip(pieces[0])), Strip(pieces[1])))
    else
      Parsed(Exercise(IsCorrect, sentence, Upper(Strip(remainder)), sentence))
  }

  /** The fix_sentence branch of generate_question: the wrong sentence is the
      trimmed text after the last "wrong=" up to the next "correct=", the
      correct one the trimmed piece after that. */
  function ParseFix(text: string): (r: ParseResult)
    ensures r != NoFields <==> Contains(text, WrongLabel) && Contains(text, RightLabel)
    ensures r.Parsed? ==> r.ex.kind == FixSentence && r.ex.correction == []
  {
    if !(Contains(text, WrongLabel) && Contains(text, RightLabel)) then NoFields
    else WrongFields(Last(SplitOn(text, WrongLabel)))
  }

  /** The fields found in the text after the last "wrong=". */
  function WrongFields(tail: string): (r: ParseResult)
    ensures r != NoFields
    ensures r.Parsed? ==> r.ex.kind == FixSentence && r.ex.correction == []
  {
    var parts := SplitOn(tail, RightLabel);
    if |parts| < 2 then Crashed
    else Parsed(Exercise(FixSentence, Strip(parts[0]), Strip(parts[1]), []))
  }

  // ---------------------------------------------------------------------
  // Labels

  /** Neither label ends with the other, so no occurrence of one can end
      where the other ends. */
  predicate Distinct(l: string, m: string)
  {
    !EndsWith(l, m) && !EndsWith(m, l)
  }

  lemma LabelsWellFormed()
    ensures Label(SentenceLabel) && Label(AnswerLabel) && Label(CorrectionLabel)
    ensures Label(WrongLabel) && Label(RightLabel)
    ensures Distinct(SentenceLabel, AnswerLabel) && Distinct(SentenceLabel, CorrectionLabel)
    ensures Distinct(AnswerLabel, CorrectionLabel) && Distinct(WrongLabel, RightLabel)
  {
    assert SentenceLabel[|SentenceLabel| - |SentenceLabel|..] != AnswerLabel;
    assert AnswerLabel[|AnswerLabel| - |SentenceLabel|..][0] != SentenceLabel[0];
    assert CorrectionLabel[|CorrectionLabel| - |SentenceLabel|..][0] != SentenceLabel[0];
    assert AnswerLabel[0] != CorrectionLabel[0];
    assert RightLabel[|RightLabel| - |WrongLabel|..][0] != WrongLabel[0];
  }

  lemma DropFromConcat(a: string, sep: string, b: string, k: nat)
    requires k <= |a|
    ensures (a + sep + b)[k..] == a[k..] + sep + b
  {
  }

  /** Whatever precedes it, a tail free of sep that follows sep is the last
      piece of the split on sep. */
  lemma {:induction false} AfterLastOf(a: string, sep: string, b: string)
    requires Label(sep) && !Contains(b, sep)
    ensures Last(SplitOn(a + sep + b, sep)) == b
    decreases |a|
  {
    var s := a + sep + b;
    OccursAtStart(a, sep, b);
    var i := IndexOf(s, sep).value;
    LastSplitStep(s, sep, i);
    if i == |a| {
      DropFromConcat(a, sep, b, |a|);
      assert s[i + |sep|..] == b;
    } else {
      assert i < |a|;
      NoStraddle(a, sep, b, i);
      assert i + |sep| <= |a|;
      var a' := a[i + |sep|..];
      DropFromConcat(a, sep, b, i + |sep|);
      assert s[i + |sep|..] == a' + sep + b;
      AfterLastOf(a', sep, b);
      assert Last(SplitOn(s[i + |sep|..], sep)) == b;
    }
  }

  /** Where an occurrence of sep in x + l + y can start, when x holds no '='
      and the two labels do not end alike: only in y. */
  lemma LandsAfter(x: string, l: string, y: string, sep: string, j: nat)
    requires NoEq(x) && Label(l) && Label(sep) && Distinct(l, sep)
    ensures OccursAt(x + l + y, sep, j) ==> j >= |x| + |l|
  {
    var s := x + l + y;
    var m := |x| + |l|;
    if j < m && j + |sep| <= |s| {
      var e := j + |sep| - 1;
      var w := s[j..j + |sep|];
      assert w[|sep| - 1] == s[e];
      if e < m - 1 {
        if e < |x| {
          assert s[e] == x[e];
        } else {
          assert s[e] == l[e - |x|];
        }
      } else if e == m - 1 {
        if |sep| <= |l| {
          assert w == l[|l| - |sep|..];
        } else {
          assert w[|sep| - |l|..] == l;
        }
      } else {
        assert s[m - 1] == l[|l| - 1];
        assert w[m - 1 - j] == s[m - 1];
      }
    }
  }

  /** Past a value without '=' and another label, sep occurs only if it
      occurs in what follows. */
  lemma SkipLabel(x: string, l: string, y: string, sep: string)
    requires NoEq(x) && Label(l) && Label(sep) && Distinct(l, sep)
    ensures !Contains(y, sep) ==> !Contains(x + l + y, sep)
  {
    var s := x + l + y;
    var m := |x| + |l|;
    if !Contains(y, sep) {
      forall j: nat
        ensures !OccursAt(s, sep, j)
      {
        LandsAfter(x, l, y, sep, j);
        if j >= m && j + |sep| <= |s| {
          assert s == (x + l) + y && s[m..] == y;
          assert s[j..j + |sep|] == s[m..][j - m..j - m + |sep|];
          IndexOfIsFirst(y, sep);
          assert !OccursAt(y, sep, j - m);
        }
      }
    }
  }

  /** An occurrence in b is one in a + b, shifted by |a|. */
  lemma OccursAfter(a: string, b: string, t: string, k: nat)
    requires OccursAt(b, t, k)
    ensures OccursAt(a + b, t, |a| + k)
  {
    assert (a + b)[|a| + k..|a| + k + |t|] == b[k..k + |t|];
  }

  lemma OccursAtStart(a: string, t: string, b: string)
    ensures OccursAt(a + t + b, t, |a|)
    ensures Contains(a + t + b, t) && IndexOf(a + t + b, t).value <= |a|
  {
    assert (a + t + b)[|a|..|a| + |t|] == t;
    OccursContains(a + t + b, t, |a|);
  }

  // ---------------------------------------------------------------------
  // What the parsers make of well-formed replies

  /** Past a preamble and the last "Věta=", the parser reads only the body. */
  lemma JudgmentAfterPreamble(pre: string, body: string)
    requires !Contains(body, SentenceLabel) && Contains(body, AnswerLabel)
    ensures ParseJudgment(pre + SentenceLabel + body) == SentenceFields(body)
  {
    LabelsWellFormed();
    var text := pre + SentenceLabel + body;
    OccursAtStart(pre, SentenceLabel, body);
    var k := IndexOf(body, AnswerLabel).value;
    OccursAfter(pre + SentenceLabel, body, AnswerLabel, k);
    OccursContains(pre + SentenceLabel + body, AnswerLabel, |pre + SentenceLabel| + k);
    AfterLastOf(pre, SentenceLabel, body);
  }

  /** The sentence is the trimmed text before the only "Odpověď=", the
      remainder all after it. */
  lemma SentenceOfBody(sentence: string, rem: string)
    requires NoEq(sentence) && !Contains(rem, AnswerLabel)
    ensures SentenceFields(sentence + AnswerLabel + rem) == VerdictFields(Strip(sentence), rem)
  {
    LabelsWellFormed();
    NoEqFree(sentence, AnswerLabel);
    FirstOccurrence(sentence, AnswerLabel, rem);
  }

  /** A remainder with one "Správně=": the trimmed, upper-cased verdict
      before it and the trimmed correction after it. */
  lemma VerdictWithCorrection(sentence: string, verdict: string, correction: string)
    requires NoEq(verdict) && NoEq(correction)
    ensures VerdictFields(sentence, verdict + CorrectionLabel + correction)
         == Parsed(Exercise(IsCorrect, sentence, Upper(Strip(verdict)), Strip(correction)))
  {
    LabelsWellFormed();
    NoEqFree(verdict, CorrectionLabel);
    FirstOccurrence(verdict, CorrectionLabel, correction);
    NoEqFree(correction, CorrectionLabel);
  }

  /** A remainder with two "Správně=" splits into three pieces. */
  lemma VerdictWithTwoCorrections(sentence: string, verdict: string, c1: string, c2: string)
    requires NoEq(verdict) && NoEq(c1) && NoEq(c2)
    ensures VerdictFields(sentence, verdict + CorrectionLabel + c1 + CorrectionLabel + c2) == Crashed
  {
    LabelsWellFormed();
    var tail := c1 + CorrectionLabel + c2;
    assert verdict + CorrectionLabel + c1 + CorrectionLabel + c2 == verdict + CorrectionLabel + tail;
    NoEqFree(verdict, CorrectionLabel);
    FirstOccurrence(verdict, CorrectionLabel, tail);
    NoEqFree(c1, CorrectionLabel);
    FirstOccurrence(c1, CorrectionLabel, c2);
    NoEqFree(c2, CorrectionLabel);
  }

  /** Where a body holds the three fields in order, the sentence label does
      not occur in it and the answer label occurs exactly once. */
  lemma BodyLabels(sentence: string, verdict: string, correction: string)
    requires NoEq(sentence) && NoEq(verdict) && NoEq(correction)
    ensures !Contains(verdict + CorrectionLabel + correction, SentenceLabel)
    ensures !Contains(verdict + CorrectionLabel + correction, AnswerLabel)
    ensures !Contains(sentence + AnswerLabel + (verdict + CorrectionLabel + correction), SentenceLabel)
    ensures Contains(sentence + AnswerLabel + (verdict + CorrectionLabel + correction), AnswerLabel)
  {
    LabelsWellFormed();
    var rem := verdict + CorrectionLabel + correction;
    NoEqFree(correction, SentenceLabel);
    SkipLabel(verdict, CorrectionLabel, correction, SentenceLabel);
    NoEqFree(correction, AnswerLabel);
    SkipLabel(verdict, CorrectionLabel, correction, AnswerLabel);
    SkipLabel(sentence, AnswerLabel, rem, SentenceLabel);
    OccursAtStart(sentence, AnswerLabel, rem);
  }

  /** The reply format the is_correct prompt asks for, after any preamble:
      the sentence, the verdict and the correction come back trimmed, the
      verdict upper-cased. */
  lemma JudgmentRoundTrip(pre: string, sentence: string, verdict: string, correction: string)
    requires NoEq(sentence) && NoEq(verdict) && NoEq(correction)
    ensures ParseJudgment(pre + SentenceLabel + sentence + AnswerLabel + verdict
                          + CorrectionLabel + correction)
         == Parsed(Exercise(IsCorrect, Strip(sentence), Upper(Strip(verdict)), Strip(correction)))
  {
    var rem := verdict + CorrectionLabel + correction;
    var body := sentence + AnswerLabel + rem;
    assert pre + SentenceLabel + sentence + AnswerLabel + verdict + CorrectionLabel + correction
        == pre + SentenceLabel + body;
    BodyLabels(sentence, verdict, correction);
    JudgmentAfterPreamble(pre, body);
    SentenceOfBody(sentence, rem);
    VerdictWithCorrection(Strip(sentence), verdict, correction);
  }

  /** Without the optional correction field the correction defaults to the
      sentence. */
  lemma JudgmentRoundTripNoCorrection(pre: string, sentence: string, verdict: string)
    requires NoEq(sentence) && NoEq(verdict)
    ensures ParseJudgment(pre + SentenceLabel + sentence + AnswerLabel + verdict)
         == Parsed(Exercise(IsCorrect, Strip(sentence), Upper(Strip(verdict)), Strip(sentence)))
  {
    LabelsWellFormed();
    var body := sentence + AnswerLabel + verdict;
    assert pre + SentenceLabel + sentence + AnswerLabel + verdict == pre + SentenceLabel + body;
    NoEqFree(verdict, SentenceLabel);
    NoEqFree(verdict, AnswerLabel);
    NoEqFree(verdict, CorrectionLabel);
    SkipLabel(sentence, AnswerLabel, verdict, SentenceLabel);
    OccursAtStart(sentence, AnswerLabel, verdict);
    JudgmentAfterPreamble(pre, body);
    SentenceOfBody(sentence, verdict);
  }

  /** Past a preamble and the last "wrong=", the parser reads only the body. */
  lemma FixAfterPreamble(pre: string, body: string)
    requires !Contains(body, WrongLabel) && Contains(body, RightLabel)
    ensures ParseFix(pre + WrongLabel + body) == WrongFields(body)
  {
    LabelsWellFormed();
    OccursAtStart(pre, WrongLabel, body);
    var k := IndexOf(body, RightLabel).value;
    OccursAfter(pre + WrongLabel, body, RightLabel, k);
    OccursContains(pre + WrongLabel + body, RightLabel, |pre + WrongLabel| + k);
    AfterLastOf(pre, WrongLabel, body);
  }

  /** The fix_sentence reply format, after any preamble. */
  lemma FixRoundTrip(pre: string, wrong: string, right: string)
    requires NoEq(wrong) && NoEq(right)
    ensures ParseFix(pre + WrongLabel + wrong + RightLabel + right)
         == Parsed(Exercise(FixSentence, Strip(wrong), Strip(right), []))
  {
    LabelsWellFormed();
    var body := wrong + RightLabel + right;
    assert pre + WrongLabel + wrong + RightLabel + right == pre + WrongLabel + body;
    NoEqFree(right, WrongLabel);
    SkipLabel(wrong, RightLabel, right, WrongLabel);
    OccursAtStart(wrong, RightLabel, right);
    FixAfterPreamble(pre, body);
    NoEqFree(wrong, RightLabel);
    FirstOccurrence(wrong, RightLabel, right);
    NoEqFree(right, RightLabel);
  }

  // ---------------------------------------------------------------------
  // Replies the guards let through and the slicing then rejects

  /** "Odpověď=" somewhere before the last "Věta=" and none after it: both
      labels are present, so the guard passes, and parts[1] raises
      IndexError. */
  lemma JudgmentCrashesWhenAnswerPrecedesSentence(pre: string, b: string)
    requires Contains(pre, AnswerLabel)
    requires !Contains(b, SentenceLabel) && !Contains(b, AnswerLabel)
    ensures ParseJudgment(pre + SentenceLabel + b) == Crashed
  {
    LabelsWellFormed();
    var j := IndexOf(pre, AnswerLabel).value;
    InPrefix(pre, SentenceLabel + b, AnswerLabel, j);
    assert pre + SentenceLabel + b == pre + (SentenceLabel + b);
    OccursContains(pre + SentenceLabel + b, AnswerLabel, j);
    OccursAtStart(pre, SentenceLabel, b);
    AfterLastOf(pre, SentenceLabel, b);
  }

  /** A reply that repeats the sentence field after the verdict, such as
      "Věta=a\nOdpověď=NE\nVěta=b", raises. */
  lemma JudgmentCrashesOnRepeatedSentence(a: string, verdict: string, b: string)
    requires NoEq(b)
    ensures ParseJudgment(SentenceLabel + a + AnswerLabel + verdict + SentenceLabel + b) == Crashed
  {
    LabelsWellFormed();
    var pre := SentenceLabel + a + AnswerLabel + verdict;
    OccursAtStart(SentenceLabel + a, AnswerLabel, verdict);
    NoEqFree(b, SentenceLabel);
    NoEqFree(b, AnswerLabel);
    JudgmentCrashesWhenAnswerPrecedesSentence(pre, b);
  }

  /** Two "Správně=" fields after the verdict: unpacking three pieces into
      two names raises ValueError. */
  lemma JudgmentCrashesOnTwoCorrections(pre: string, sentence: string, verdict: string, c1: string, c2: string)
    requires NoEq(sentence) && NoEq(verdict) && NoEq(c1) && NoEq(c2)
    ensures ParseJudgment(pre + SentenceLabel + sentence + AnswerLabel + verdict
                          + CorrectionLabel + c1 + CorrectionLabel + c2) == Crashed
  {
    LabelsWellFormed();
    var tail := c1 + CorrectionLabel + c2;
    var rem := verdict + CorrectionLabel + tail;
    var body := sentence + AnswerLabel + rem;
    assert pre + SentenceLabel + sentence + AnswerLabel + verdict + CorrectionLabel + c1 + CorrectionLabel + c2
        == pre + SentenceLabel + body;
    assert verdict + CorrectionLabel + c1 + CorrectionLabel + c2 == rem;
    NoEqFree(c2, SentenceLabel);
    NoEqFree(c2, AnswerLabel);
    SkipLabel(c1, CorrectionLabel, c2, SentenceLabel);
    SkipLabel(c1, CorrectionLabel, c2, AnswerLabel);
    SkipLabel(verdict, CorrectionLabel, tail, SentenceLabel);
    SkipLabel(verdict, CorrectionLabel, tail, AnswerLabel);
    SkipLabel(sentence, AnswerLabel, rem, SentenceLabel);
    OccursAtStart(sentence, AnswerLabel, rem);
    JudgmentAfterPreamble(pre, body);
    SentenceOfBody(sentence, rem);
    VerdictWithTwoCorrections(Strip(sentence), verdict, c1, c2);
  }

  /** "correct=" somewhere before the last "wrong=" and none after it: the
      guard passes and parts[1] raises IndexError. */
  lemma FixCrashesWhenRightPrecedesWrong(pre: string, b: string)
    requires Contains(pre, RightLabel)
    requires !Contains(b, WrongLabel) && !Contains(b, RightLabel)
    ensures ParseFix(pre + WrongLabel + b) == Crashed
  {
    LabelsWellFormed();
    var j := IndexOf(pre, RightLabel).value;
    InPrefix(pre, WrongLabel + b, RightLabel, j);
    assert pre + WrongLabel + b == pre + (WrongLabel + b);
    OccursContains(pre + WrongLabel + b, RightLabel, j);
    OccursAtStart(pre, WrongLabel, b);
    AfterLastOf(pre, WrongLabel, b);
  }

  /** A reply that repeats the wrong field after the correct one, such as
      "wrong=a correct=c wrong=b", raises. */
  lemma FixCrashesOnRepeatedWrong(a: string, right: string, b: string)
    requires NoEq(b)
    ensures ParseFix(WrongLabel + a + RightLabel + right + WrongLabel + b) == Crashed
  {
    LabelsWellFormed();
    var pre := WrongLabel + a + RightLabel + right;
    OccursAtStart(WrongLabel + a, RightLabel, right);
    NoEqFree(b, WrongLabel);
    NoEqFree(b, RightLabel);
    FixCrashesWhenRightPrecedesWrong(pre, b);
  }
}
