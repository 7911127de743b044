/** The reply parser of AI_Tutor.py: the reply is cut into trimmed,
    non-empty lines, every line holding '=' becomes a key=value entry of a
    dictionary (the first '=' separates them, a later key overrides an
    earlier one), and the exercise is read from the dictionary. */
module LineParse {
  import opened Text
  import opened Quiz

  /** A line as the comprehension keeps it: non-empty, and neither end is
      whitespace, so strip() leaves it as it is. */
  predicate Trimmed(s: string)
  {
    s != [] && s[0] !in Whitespace && s[|s| - 1] !in Whitespace
  }

  lemma TrimmedIsStripped(s: string)
    requires Trimmed(s)
    ensures Strip(s) == s
  {
    StripFixed(s, Whitespace);
  }

  /** The trimmed, non-empty lines of a reply, in order:
      [l.strip() for l in text.splitlines() if l.strip()]. */
  function ContentLines(text: string): (ls: seq<string>)
    ensures forall k :: 0 <= k < |ls| ==> Trimmed(ls[k])
  {
    NonEmptyStripped(Lines(text))
  }

  function NonEmptyStripped(ls: seq<string>): (r: seq<string>)
    ensures |r| <= |ls|
    ensures forall k :: 0 <= k < |r| ==> Trimmed(r[k])
    decreases |ls|
  {
    if ls == [] then []
    else
      var t := Strip(ls[0]);
      var rest := NonEmptyStripped(ls[1..]);
      if t == [] then rest
      else
        assert forall k :: 0 < k < |[t] + rest| ==> ([t] + rest)[k] == rest[k - 1];
        [t] + rest
  }

  /** Lines that are already trimmed and non-empty are kept as they are. */
  lemma {:induction false} NonEmptyStrippedKeeps(ls: seq<string>)
    requires forall k :: 0 <= k < |ls| ==> Trimmed(ls[k])
    ensures NonEmptyStripped(ls) == ls
    decreases |ls|
  {
    if ls != [] {
      TrimmedIsStripped(ls[0]);
      NonEmptyStrippedKeeps(ls[1..]);
      assert ls == [ls[0]] + ls[1..];
    }
  }

  // ---------------------------------------------------------------------
  // key=value entries

  /** line.split("=", 1)[0]: the text before the first '='. */
  function Key(line: string): string
    requires Contains(line, "=")
  {
    line[..IndexOf(line, "=").value]
  }

  /** line.split("=", 1)[1]: everything after the first '='. */
  function Value(line: string): string
    requires Contains(line, "=")
  {
    line[IndexOf(line, "=").value + 1..]
  }

  /** A split with maxsplit 1: the key holds no '=' and key, '=' and value
      make up the line again. */
  lemma KeyValueSplit(line: string)
    requires Contains(line, "=")
    ensures NoEq(Key(line))
    ensures Key(line) + "=" + Value(line) == line
  {
    var i := IndexOf(line, "=").value;
    IndexOfIsFirst(line, "=");
    assert line[i..i + 1] == "=";
    forall j | 0 <= j < i
      ensures line[j] != '='
    {
      assert !OccursAt(line, "=", j);
      assert line[j..j + 1] == [line[j]];
    }
  }

  /** The key and value of a line made of a key without '=', '=' and any
      value (which may hold further '='). */
  lemma KeyValueOf(key: string, value: string)
    requires NoEq(key)
    ensures Contains(key + "=" + value, "=")
    ensures Key(key + "=" + value) == key && Value(key + "=" + value) == value
  {
    var line := key + "=" + value;
    assert Label("=");
    NoEqFree(key, "=");
    FirstOccurrence(key, "=", value);
    assert line[..|key|] == key;
    assert line[|key| + 1..] == value;
  }

  /** The line sets key in the dictionary. */
  predicate Defines(line: string, key: string)
  {
    Contains(line, "=") && Key(line) == key
  }

  /** The dictionary comprehension {k: v for line in lines if "=" in line},
      built from the first line to the last. */
  function Entries(ls: seq<string>): map<string, string>
    decreases |ls|
  {
    if ls == [] then map[]
    else
      var m := Entries(ls[..|ls| - 1]);
      var l := ls[|ls| - 1];
      if Contains(l, "=") then m[Key(l) := Value(l)] else m
  }

  /** A key is in the dictionary exactly when some line defines it. */
  lemma {:induction false} EntriesHasKey(ls: seq<string>, key: string)
    ensures key in Entries(ls) <==> exists i :: 0 <= i < |ls| && Defines(ls[i], key)
    decreases |ls|
  {
    if ls != [] {
      var init := ls[..|ls| - 1];
      EntriesHasKey(init, key);
      if exists i :: 0 <= i < |init| && Defines(init[i], key) {
        var i :| 0 <= i < |init| && Defines(init[i], key);
        assert ls[i] == init[i];
      }
      if exists i :: 0 <= i < |ls| && Defines(ls[i], key) {
        var i :| 0 <= i < |ls| && Defines(ls[i], key);
        if i < |init| {
          assert init[i] == ls[i];
        }
      }
    }
  }

  /** The value of a key is the one on the last line that defines it. */
  lemma {:induction false} LastDefinitionWins(ls: seq<string>, i: nat, key: string)
    requires i < |ls| && Defines(ls[i], key)
    requires forall j :: i < j < |ls| ==> !Defines(ls[j], key)
    ensures key in Entries(ls) && Entries(ls)[key] == Value(ls[i])
    decreases |ls|
  {
    var init := ls[..|ls| - 1];
    if i < |ls| - 1 {
      assert init[i] == ls[i];
      forall j | i < j < |init|
        ensures !Defines(init[j], key)
      {
        assert init[j] == ls[j];
      }
      LastDefinitionWins(init, i, key);
      assert !Defines(ls[|ls| - 1], key);
    }
  }

  // ---------------------------------------------------------------------
  // The exercise read from the dictionary

  /** The is_correct branch of generate_question: both "Věta" and "Odpověď"
      must be keys; the verdict is the value upper-cased then trimmed, and
      the correction defaults to the sentence. */
  function ParseJudgmentLines(text: string): (r: Option<Exercise>)
    ensures r.Some? ==> r.value.kind == IsCorrect
  {
    var data := Entries(ContentLines(text));
    if SentenceKey in data && AnswerKey in data then
      var sentence := data[SentenceKey];
      var correction := if CorrectionKey in data then data[CorrectionKey] else sentence;
      Some(Exercise(IsCorrect, sentence, Strip(Upper(data[AnswerKey])), correction))
    else None
  }

  /** The fix_sentence branch: both "wrong" and "correct" must be keys. */
  function ParseFixLines(text: string): (r: Option<Exercise>)
    ensures r.Some? ==> r.value.kind == FixSentence && r.value.correction == []
  {
    var data := Entries(ContentLines(text));
    if WrongKey in data && RightKey in data then
      Some(Exercise(FixSentence, data[WrongKey], data[RightKey], []))
    else None
  }

  /** The is_correct reply parses exactly when some content line defines
      "Věta" and some content line defines "Odpověď". */
  lemma JudgmentLinesSucceeds(text: string)
    ensures var ls := ContentLines(text);
      ParseJudgmentLines(text).Some?
      <==> ((exists i :: 0 <= i < |ls| && Defines(ls[i], SentenceKey))
           && (exists i :: 0 <= i < |ls| && Defines(ls[i], AnswerKey)))
  {
    EntriesHasKey(ContentLines(text), SentenceKey);
    EntriesHasKey(ContentLines(text), AnswerKey);
  }

  /** The fix_sentence reply parses exactly when some content line defines
      "wrong" and some content line defines "correct". */
  lemma FixLinesSucceeds(text: string)
    ensures var ls := ContentLines(text);
      ParseFixLines(text).Some?
      <==> ((exists i :: 0 <= i < |ls| && Defines(ls[i], WrongKey))
           && (exists i :: 0 <= i < |ls| && Defines(ls[i], RightKey)))
  {
    EntriesHasKey(ContentLines(text), WrongKey);
    EntriesHasKey(ContentLines(text), RightKey);
  }

  /** When a key is defined more than once, the sentence is the value on the
      last "Věta" line. */
  lemma JudgmentSentenceIsLastDefinition(text: string, i: nat)
    requires var ls := ContentLines(text);
      i < |ls| && Defines(ls[i], SentenceKey)
      && (forall j :: i < j < |ls| ==> !Defines(ls[j], SentenceKey))
    requires ParseJudgmentLines(text).Some?
    ensures ParseJudgmentLines(text).value.prompt == Value(ContentLines(text)[i])
  {
    LastDefinitionWins(ContentLines(text), i, SentenceKey);
  }

  // ---------------------------------------------------------------------
  // What the parser makes of replies in the requested format

  /** A field value as the reply format writes it: on one line, and not
      ending in whitespace (leading whitespace after '=' is kept). */
  predicate FieldValue(x: string)
  {
    (forall i :: 0 <= i < |x| ==> x[i] !in LineBreaks) && (x == [] || x[|x| - 1] !in Whitespace)
  }

  /** A field name as the programs use it: non-empty, on one line, without
      '=', and not starting with whitespace. */
  predicate FieldName(key: string)
  {
    key != [] && key[0] !in Whitespace && NoEq(key) && forall i :: 0 <= i < |key| ==> key[i] !in LineBreaks
  }

  lemma FieldNames()
    ensures FieldName(SentenceKey) && FieldName(AnswerKey) && FieldName(CorrectionKey)
    ensures FieldName(WrongKey) && FieldName(RightKey)
    ensures SentenceKey != AnswerKey && SentenceKey != CorrectionKey && AnswerKey != CorrectionKey
    ensures WrongKey != RightKey
  {
    assert SentenceKey[0] != AnswerKey[0] && SentenceKey[0] != CorrectionKey[0];
    assert AnswerKey[0] != CorrectionKey[0] && WrongKey[0] != RightKey[0];
  }

  /** Without "Správně" in the dictionary the correction is the sentence. */
  lemma JudgmentOfTwoEntries(text: string, sentence: string, verdict: string)
    requires Entries(ContentLines(text)) == map[SentenceKey := sentence][AnswerKey := verdict]
    ensures ParseJudgmentLines(text) == Some(Exercise(IsCorrect, sentence, Strip(Upper(verdict)), sentence))
  {
    FieldNames();
  }

  lemma FixOfEntries(text: string, wrong: string, right: string)
    requires Entries(ContentLines(text)) == map[WrongKey := wrong][RightKey := right]
    ensures ParseFixLines(text) == Some(Exercise(FixSentence, wrong, right, []))
  {
    FieldNames();
  }

  /** The exercise read from a dictionary of the three is_correct fields. */
  lemma JudgmentOfEntries(text: string, sentence: string, verdict: string, correction: string)
    requires Entries(ContentLines(text))
          == map[SentenceKey := sentence][AnswerKey := verdict][CorrectionKey := correction]
    ensures ParseJudgmentLines(text) == Some(Exercise(IsCorrect, sentence, Strip(Upper(verdict)), correction))
  {
    FieldNames();
  }

  /** The line key=x survives the trimming and defines key as x. */
  lemma FieldLine(key: string, x: string)
    requires FieldName(key) && FieldValue(x)
    ensures var line := key + "=" + x;
      && (forall i :: 0 <= i < |line| ==> line[i] !in LineBreaks)
      && Trimmed(line) && Defines(line, key) && Value(line) == x
  {
    var line := key + "=" + x;
    KeyValueOf(key, x);
    assert line[0] == key[0];
    assert x != [] ==> line[|line| - 1] == x[|x| - 1];
    forall i | 0 <= i < |line|
      ensures line[i] !in LineBreaks
    {
      if i < |key| {
        assert line[i] == key[i];
      } else if i > |key| {
        assert line[i] == x[i - |key| - 1];
      }
    }
  }

  /** Three field lines joined by line breaks are the content lines. */
  lemma ThreeLines(l1: string, l2: string, l3: string)
    requires Trimmed(l1) && Trimmed(l2) && Trimmed(l3)
    requires forall i :: 0 <= i < |l1| ==> l1[i] !in LineBreaks
    requires forall i :: 0 <= i < |l2| ==> l2[i] !in LineBreaks
    requires forall i :: 0 <= i < |l3| ==> l3[i] !in LineBreaks
    ensures ContentLines(l1 + "\n" + l2 + "\n" + l3) == [l1, l2, l3]
  {
    var text := l1 + "\n" + l2 + "\n" + l3;
    assert text == l1 + "\n" + (l2 + "\n" + l3);
    LinesCons(l1, l2 + "\n" + l3);
    LinesCons(l2, l3);
    LinesOne(l3);
    assert Lines(text) == [l1, l2, l3];
    NonEmptyStrippedKeeps([l1, l2, l3]);
  }

  lemma TwoLines(l1: string, l2: string)
    requires Trimmed(l1) && Trimmed(l2)
    requires forall i :: 0 <= i < |l1| ==> l1[i] !in LineBreaks
    requires forall i :: 0 <= i < |l2| ==> l2[i] !in LineBreaks
    ensures ContentLines(l1 + "\n" + l2) == [l1, l2]
  {
    LinesCons(l1, l2);
    LinesOne(l2);
    assert Lines(l1 + "\n" + l2) == [l1, l2];
    NonEmptyStrippedKeeps([l1, l2]);
  }

  /** The dictionary of three lines that define three different keys. */
  lemma ThreeEntries(l1: string, l2: string, l3: string, k1: string, k2: string, k3: string)
    requires Defines(l1, k1) && Defines(l2, k2) && Defines(l3, k3)
    ensures Entries([l1, l2, l3]) == map[k1 := Value(l1)][k2 := Value(l2)][k3 := Value(l3)]
  {
    TwoEntries(l1, l2, k1, k2);
    assert [l1, l2, l3][..2] == [l1, l2];
    assert Entries([l1, l2, l3]) == Entries([l1, l2])[k3 := Value(l3)];
  }

  lemma TwoEntries(l1: string, l2: string, k1: string, k2: string)
    requires Defines(l1, k1) && Defines(l2, k2)
    ensures Entries([l1, l2]) == map[k1 := Value(l1)][k2 := Value(l2)]
  {
    assert [l1, l2][..1] == [l1];
    assert [l1][..0] == [];
    assert Entries([l1]) == map[][k1 := Value(l1)];
    assert Entries([l1, l2]) == Entries([l1])[k2 := Value(l2)];
  }

  /** The reply the is_correct prompt asks for, one field per line: the
      sentence and the correction come back as written, the verdict
      upper-cased and trimmed. */
  lemma JudgmentLinesRoundTrip(sentence: string, verdict: string, correction: string)
    requires FieldValue(sentence) && FieldValue(verdict) && FieldValue(correction)
    ensures ParseJudgmentLines(SentenceKey + "=" + sentence + "\n" + AnswerKey + "=" + verdict
                               + "\n" + CorrectionKey + "=" + correction)
         == Some(Exercise(IsCorrect, sentence, Strip(Upper(verdict)), correction))
  {
    FieldNames();
    var l1 := SentenceKey + "=" + sentence;
    var l2 := AnswerKey + "=" + verdict;
    var l3 := CorrectionKey + "=" + correction;
    FieldLine(SentenceKey, sentence);
    FieldLine(AnswerKey, verdict);
    FieldLine(CorrectionKey, correction);
    assert SentenceKey + "=" + sentence + "\n" + AnswerKey + "=" + verdict + "\n" + CorrectionKey + "=" + correction
        == l1 + "\n" + l2 + "\n" + l3;
    var text := l1 + "\n" + l2 + "\n" + l3;
    ThreeLines(l1, l2, l3);
    ThreeEntries(l1, l2, l3, SentenceKey, AnswerKey, CorrectionKey);
    JudgmentOfEntries(text, sentence, verdict, correction);
  }

  /** Without the "Správně" line the correction is the sentence. */
  lemma JudgmentLinesWithoutCorrection(sentence: string, verdict: string)
    requires FieldValue(sentence) && FieldValue(verdict)
    ensures ParseJudgmentLines(SentenceKey + "=" + sentence + "\n" + AnswerKey + "=" + verdict)
         == Some(Exercise(IsCorrect, sentence, Strip(Upper(verdict)), sentence))
  {
    FieldNames();
    var l1 := SentenceKey + "=" + sentence;
    var l2 := AnswerKey + "=" + verdict;
    FieldLine(SentenceKey, sentence);
    FieldLine(AnswerKey, verdict);
    assert SentenceKey + "=" + sentence + "\n" + AnswerKey + "=" + verdict == l1 + "\n" + l2;
    TwoLines(l1, l2);
    TwoEntries(l1, l2, SentenceKey, AnswerKey);
    JudgmentOfTwoEntries(l1 + "\n" + l2, sentence, verdict);
  }

  /** The fix_sentence reply format, one field per line. */
  lemma FixLinesRoundTrip(wrong: string, right: string)
    requires FieldValue(wrong) && FieldValue(right)
    ensures ParseFixLines(WrongKey + "=" + wrong + "\n" + RightKey + "=" + right)
         == Some(Exercise(FixSentence, wrong, right, []))
  {
    FieldNames();
    var l1 := WrongKey + "=" + wrong;
    var l2 := RightKey + "=" + right;
    FieldLine(WrongKey, wrong);
    FieldLine(RightKey, right);
    assert WrongKey + "=" + wrong + "\n" + RightKey + "=" + right == l1 + "\n" + l2;
    TwoLines(l1, l2);
    TwoEntries(l1, l2, WrongKey, RightKey);
    FixOfEntries(l1 + "\n" + l2, wrong, right);
  }
}
