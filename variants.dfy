/** How the three evaluators and the two stop rules of the console tutors
    relate: where they agree and where they part. */
module Variants {
  import opened Text
  import opened Quiz
  import opened Score
  import Tutor
  import TutorConsole
  import TutorWeb

  /** A judgment whose first word is ANO or NE is read the same way by all
      three programs: same verdict, and the trimmed reply as feedback. */
  lemma EvaluatorsAgreeOnClearVerdict(kind: Kind, user: string, reference: string, content: string)
    requires kind != IsCorrect && FirstWord(content).Some?
    requires IsVerdict(NormalizeWord(FirstWord(content).value))
    ensures var r := Tutor.Evaluate(kind, user, reference, content);
      && r == Graded(NormalizeWord(FirstWord(content).value) == Yes, Strip(content))
      && TutorConsole.Evaluate(kind, user, reference, content) == r
      && TutorWeb.Evaluate(Some(kind), user, reference, content) == r
  {
    FirstWordOfAsk(content);
    TutorConsole.FirstWordDecides(kind, user, reference, content);
    TutorWeb.FirstTokenOnly(Some(kind), user, reference, content);
  }

  /** A judgment whose first word is not a verdict but which says ANO
      further on: AI_Tutor.py grades it wrong with its note, the console
      tutor grades it right, the web tutor grades it wrong without a note. */
  lemma EvaluatorsPartOnLateVerdict(kind: Kind, user: string, reference: string, content: string, i: nat)
    requires kind != IsCorrect && FirstWord(content).Some?
    requires !IsVerdict(NormalizeWord(FirstWord(content).value))
    requires TutorConsole.FirstVerdictAt(Tokens(Strip(content)), i)
    requires NormalizeWord(Tokens(Strip(content))[i]) == Yes
    ensures Tutor.Evaluate(kind, user, reference, content) == Graded(false, Tutor.ReadAsNo + Strip(content))
    ensures TutorConsole.Evaluate(kind, user, reference, content) == Graded(true, Strip(content))
    ensures TutorWeb.Evaluate(Some(kind), user, reference, content) == Graded(false, Strip(content))
  {
    FirstWordOfAsk(content);
    TutorConsole.ReadsFirstVerdict(kind, user, reference, content, i);
    TutorWeb.FirstTokenOnly(Some(kind), user, reference, content);
  }

  /** The word "Tedy" normalises to "TEDY", which is no verdict. */
  lemma NormalizedTedy()
    ensures NormalizeWord("Tedy") == "TEDY"
  {
    var u := Upper("Tedy");
    assert u[0] == 'T' && u[1] == 'E' && u[2] == 'D' && u[3] == 'Y';
    assert u == "TEDY";
    StripFixed("TEDY", Punctuation);
  }

  /** The word "ANO" is its own normal form. */
  lemma NormalizedYes()
    ensures NormalizeWord(Yes) == Yes
  {
    var u := Upper(Yes);
    assert u[0] == 'A' && u[1] == 'N' && u[2] == 'O';
    assert u == Yes;
    StripFixed(Yes, Punctuation);
  }

  /** The reply "Tedy ANO" is already stripped. */
  lemma TedyAnoStripped()
    ensures Strip("Tedy ANO") == "Tedy ANO"
  {
    StripFixed("Tedy ANO", Whitespace);
  }

  /** The words of "Tedy ANO" are "Tedy" and "ANO". */
  lemma TedyAnoWords()
    ensures Tokens("Tedy ANO") == ["Tedy", Yes]
  {
    assert IsWord("Tedy") && IsWord(Yes);
    TokensOfTwo("Tedy", Yes);
    assert "Tedy" + " " + Yes == "Tedy ANO";
  }

  /** "Tedy ANO" ("so, yes"): the three readings of the same reply. */
  lemma LateVerdictExample(kind: Kind, user: string, reference: string)
    requires kind != IsCorrect
    ensures var content := "Tedy ANO";
      && Tutor.Evaluate(kind, user, reference, content) == Graded(false, Tutor.ReadAsNo + content)
      && TutorConsole.Evaluate(kind, user, reference, content) == Graded(true, content)
      && TutorWeb.Evaluate(Some(kind), user, reference, content) == Graded(false, content)
  {
    var content := "Tedy ANO";
    TedyAnoStripped();
    TedyAnoWords();
    NormalizedTedy();
    NormalizedYes();
    var words := Tokens(Strip(content));
    assert TutorConsole.FirstVerdictAt(words, 1);
    EvaluatorsPartOnLateVerdict(kind, user, reference, content, 1);
  }

  /** The all-ten rule of the console tutor is stricter than the
      nine-of-ten rule of AI_Tutor.py. */
  lemma AllTenImpliesNineOfTen(w: seq<int>)
    requires Outcomes(w)
    ensures TutorConsole.AllTen(w) ==> Tutor.NineOfTen(w)
  {
    SumBounds(w);
  }

  /** Nine correct answers and one wrong one stop AI_Tutor.py but not the
      console tutor. */
  lemma NineOfTenDoesNotImplyAllTen()
    ensures var w := [0, 1, 1, 1, 1, 1, 1, 1, 1, 1];
      Tutor.NineOfTen(w) && !TutorConsole.AllTen(w)
  {
    var nine := [1, 1, 1, 1, 1, 1, 1, 1, 1];
    SumBounds(nine);
    assert Sum(nine) == 9;
    SumCons(0, nine);
    var w := [0, 1, 1, 1, 1, 1, 1, 1, 1, 1];
    assert [0] + nine == w;
    assert Sum(w) == 9 && w[0] != 1;
  }
}
