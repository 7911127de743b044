# AITutor quiz engine in Dafny

AITutor is a drill for the English present tenses, aimed at Czech learners.
Every round it asks a language-model service for an exercise of one of three
kinds:

- translate a Czech sentence;
- say whether an English sentence is correct (ANO/NE);
- fix a wrong sentence.

It then grades the learner's answer, using the service again for the open
kinds, and keeps a rolling score over the last ten answers. The repository
has three versions of the same engine:

- `AI_Tutor.py`: a console program. It parses replies line by line into a
  dictionary, reads the judgment's first word strictly, and stops after nine
  correct answers out of the last ten.
- `AI_Tutor_no_streamlit.py`: a console program. It cuts replies at field
  labels such as `Věta=`, looks for a verdict anywhere in a judgment, and
  stops after ten correct answers in a row.
- `AI_Tutor_for_Flask.py`: a web page. Its state lives in the user's
  session, and one request either grades an answer (POST) or makes the next
  question (GET).

The model keeps the service out of the picture and treats its replies as
inputs. A `reply: nat -> string` oracle gives the message content of each
service call in a call of `generate_question`, numbered from 0. A
`choose: nat -> Kind` function gives the kind each attempt picks at random.
The Flask version picks the kind once, before its loop (`TutorWeb.Fixed`).
Judging an answer takes the content of the one judgment call as a string.

Modules:

- `Text`: the Python `str` operations the engine relies on: `strip`,
  `upper`, `split()`, `find`/`in`, `split(sep)`, `join` and `splitlines`.
  Each comes with the lemmas the parsers need about it.
- `Quiz`: what the three versions share:
  - the exercise record `(kind, prompt, reference, correction)`;
  - the field names and verdict words;
  - `ask_openai`'s stripping of the reply;
  - the five-attempt loop of `generate_question`, as a function (`RunTries`)
    and as a method (`RetryLoop`).
- `LineParse`: the line-and-dictionary reply parser of `AI_Tutor.py`.
- `LabelParse`: the split-on-label reply parser that the other two versions
  share.
- `Score`: the rolling window (`deque(maxlen=10)`, `score[-10:]`) and the
  percentage.
- `Tutor`, `TutorConsole`, `TutorWeb`: `evaluate_answer`,
  `generate_question` and the main loop or request handler of each version.
- `Variants`: lemmas that compare the versions.

Behaviour of the code that the model keeps, and that a reader might not
expect:

- The label parsers raise on replies that pass their guard but are
  malformed (AI_Tutor_no_streamlit.py:92-99, AI_Tutor_for_Flask.py:67-72),
  and that exception ends the whole call of `generate_question`.
  A wrongly ordered `Odpověď=` or `correct=` raises IndexError; two
  `Správně=` fields raise ValueError. The model has an explicit `Crashed`
  result for this, which becomes `Raised`.
- A blank judgment reply makes `split()[0]` raise IndexError in all three
  versions (AI_Tutor.py:122, AI_Tutor_no_streamlit.py:48-49,
  AI_Tutor_for_Flask.py:43). The model gives that case an explicit
  `Failed` outcome.
- The percentage is truncated by `int(...)`, not rounded (AI_Tutor.py:171,
  AI_Tutor_no_streamlit.py:170, AI_Tutor_for_Flask.py:121).
- After a POST, the Flask version shows the percentage of the list before
  it is cut back to ten, so it covers up to eleven answers
  (`TutorWeb.ShownPercentSpansEleven`).
- The same judgment reply can be graded differently by the three versions
  (`Variants.LateVerdictExample`).

## Model

| member | source | states |
|---|---|---|
| `Text.DropLeadingIsSuffix` | AI_Tutor.py:21 | lstrip removes a prefix made only of stripped characters and keeps the rest of the string |
| `Text.DropTrailingIsPrefix` | AI_Tutor.py:21 | rstrip removes a suffix made only of stripped characters and keeps the rest of the string |
| `Text.StripChars` | AI_Tutor.py:122 | strip(chars) is no longer than its input; neither end of the result is a stripped character |
| `Text.StripIdempotent` | AI_Tutor.py:122 | stripping a second time changes nothing, as when evaluate_answer strips the already stripped reply |
| `Text.StripOfBlank` | AI_Tutor.py:21 | a reply is blank after strip() exactly when it was blank before |
| `Text.Upper` | AI_Tutor.py:75 | upper() keeps the length |
| `Text.Tokens` | AI_Tutor.py:122 | every piece of split() is a non-empty word without whitespace |
| `Text.TokensEmptyIffBlank` | AI_Tutor.py:122 | split() returns no word exactly when the string is blank, the case in which [0] raises |
| `Text.FirstTokenOfStripped` | AI_Tutor.py:122 | after leading whitespace, a word followed by whitespace or the end is the first word of strip().split() |
| `Text.IndexOfIsFirst` | AI_Tutor_no_streamlit.py:92 | find gives the first position where the needle occurs, and None only when it occurs nowhere |
| `Text.SplitOn` | AI_Tutor_no_streamlit.py:93 | split(sep) gives at least one piece; exactly one, the whole string, when sep does not occur |
| `Text.SplitJoin` | AI_Tutor_no_streamlit.py:93 | joining the pieces of split(sep) with sep gives back the string |
| `Text.SplitPiecesFree` | AI_Tutor_no_streamlit.py:93 | no piece of split(sep) contains sep |
| `Text.LastPieceIsTail` | AI_Tutor_no_streamlit.py:93 | split(sep)[-1] is a suffix of the string without sep; when sep occurs, it is preceded by sep |
| `Text.FirstPieceIsHead` | AI_Tutor_no_streamlit.py:93 | split(sep)[0] is a prefix free of sep; when sep occurs, it is followed by sep, and the other pieces are the split of what comes after that sep |
| `Text.Lines` | AI_Tutor.py:71 | no line of splitlines() holds a line break |
| `Quiz.CallsBefore` | AI_Tutor.py:39-55 | the attempts before attempt j use between j and 2j service calls (translate asks twice) |
| `Quiz.RunTries` | AI_Tutor.py:39-98 | the five-attempt loop makes between one and five attempts; it returns None only after all five |
| `Quiz.RetryLoop` | AI_Tutor.py:39-98 | the `for _ in range(5)` loop, run attempt by attempt and counting service calls, gives exactly the result, attempt count and call count of RunTries |
| `Quiz.RunTriesCalls` | AI_Tutor.py:39-98 | attempt i reads the replies from CallsBefore(i) on, and the run's calls are those of the attempts it made |
| `Quiz.RunTriesSkipsBefore` | AI_Tutor.py:39-98 | every attempt before the last one made found nothing new, and an exhausted run skipped all five |
| `Quiz.RunTriesLast` | AI_Tutor.py:39-98 | the last attempt made decides the result: an accepted exercise, an exception, or a skip when all five skipped |
| `Quiz.RunTriesIsFirstDecisive` | AI_Tutor.py:39-98 | all of the above together: the result and position of the first decisive attempt, the skips before it, and the calls used |
| `Quiz.Ask` | AI_Tutor.py:11-21 | ask_openai returns the stripped content, which is blank exactly when the content is |
| `Quiz.FirstWord` | AI_Tutor.py:122 | strip().split()[0] is missing exactly when the reply is blank, and is otherwise a word |
| `Quiz.FirstWordOf` | AI_Tutor.py:122 | the first word of whitespace, then w, then whitespace or nothing, is w |
| `Quiz.FirstWordOfAsk` | AI_Tutor.py:115-122 | stripping inside evaluate_answer after ask_openai stripped changes nothing about the first word |
| `LineParse.ContentLines` | AI_Tutor.py:71 | the kept lines are non-empty and stripped |
| `LineParse.NonEmptyStrippedKeeps` | AI_Tutor.py:71 | lines that are already stripped and non-empty are all kept, in order |
| `LineParse.KeyValueSplit` | AI_Tutor.py:72 | split("=",1) makes a key without '=', and key + "=" + value is the line again |
| `LineParse.KeyValueOf` | AI_Tutor.py:72 | a line key=value whose key has no '=' splits into that key and that value, which may hold further '=' |
| `LineParse.EntriesHasKey` | AI_Tutor.py:72 | a key is in the dictionary exactly when some line with '=' defines it |
| `LineParse.LastDefinitionWins` | AI_Tutor.py:72 | the dictionary holds the value of the last line that defines a key |
| `LineParse.ParseJudgmentLines` | AI_Tutor.py:71-76 | a parsed is_correct reply gives an exercise of kind is_correct |
| `LineParse.ParseFixLines` | AI_Tutor.py:89-93 | a parsed fix_sentence reply gives an exercise of kind fix_sentence with an empty correction |
| `LineParse.JudgmentLinesSucceeds` | AI_Tutor.py:73 | the is_correct reply parses exactly when some line defines "Věta" and some line defines "Odpověď" |
| `LineParse.FixLinesSucceeds` | AI_Tutor.py:91 | the fix_sentence reply parses exactly when some line defines "wrong" and some line defines "correct" |
| `LineParse.JudgmentSentenceIsLastDefinition` | AI_Tutor.py:72-74 | with "Věta" defined more than once, the sentence is the value of the last definition |
| `LineParse.JudgmentLinesRoundTrip` | AI_Tutor.py:61-76 | the three-line reply the prompt asks for parses back into its sentence, its verdict (upper-cased, then stripped) and its correction |
| `LineParse.JudgmentLinesWithoutCorrection` | AI_Tutor.py:76 | without a "Správně" line, the correction is the sentence |
| `LineParse.FixLinesRoundTrip` | AI_Tutor.py:84-93 | the two-line fix_sentence reply parses back into its wrong and correct sentences |
| `LabelParse.ParseJudgment` | AI_Tutor_no_streamlit.py:92-104 | the guard fails exactly when "Věta=" or "Odpověď=" is missing; a parse gives an is_correct exercise |
| `LabelParse.VerdictFields` | AI_Tutor_no_streamlit.py:98-104 | the prompt is the sentence; without "Správně=" the parse succeeds and the correction is the sentence |
| `LabelParse.ParseFix` | AI_Tutor_no_streamlit.py:114-117 | the guard fails exactly when "wrong=" or "correct=" is missing; a parse gives a fix_sentence exercise with an empty correction |
| `LabelParse.AfterLastOf` | AI_Tutor_no_streamlit.py:93 | text after the last label, free of it, is what split(label)[-1] returns, whatever precedes it |
| `LabelParse.JudgmentAfterPreamble` | AI_Tutor_no_streamlit.py:93 | any text before the last "Věta=" is ignored |
| `LabelParse.JudgmentRoundTrip` | AI_Tutor_no_streamlit.py:92-101 | a reply in the requested format, after any preamble, parses into the stripped sentence, the stripped and upper-cased verdict, and the stripped correction |
| `LabelParse.JudgmentRoundTripNoCorrection` | AI_Tutor_no_streamlit.py:102-104 | without "Správně=", the correction is the stripped sentence |
| `LabelParse.FixRoundTrip` | AI_Tutor_no_streamlit.py:113-117 | the fix_sentence format, after any preamble, parses into the stripped wrong and correct sentences |
| `LabelParse.JudgmentCrashesWhenAnswerPrecedesSentence` | AI_Tutor_no_streamlit.py:92-95 | any reply with "Odpověď=" somewhere before its last "Věta=" and none after it passes the guard, and then parts[1] raises |
| `LabelParse.JudgmentCrashesOnRepeatedSentence` | AI_Tutor_no_streamlit.py:92-95 | a reply that repeats "Věta=" after its verdict, such as "Věta=a Odpověď=NE Věta=b" with no '=' in b, raises |
| `LabelParse.JudgmentCrashesOnTwoCorrections` | AI_Tutor_no_streamlit.py:98-99 | after any preamble, two "Správně=" fields make the two-name unpacking raise |
| `LabelParse.FixCrashesWhenRightPrecedesWrong` | AI_Tutor_no_streamlit.py:114-117 | any reply with "correct=" somewhere before its last "wrong=" and none after it passes the guard, and then parts[1] raises |
| `LabelParse.FixCrashesOnRepeatedWrong` | AI_Tutor_no_streamlit.py:114-117 | a reply that repeats "wrong=" after its "correct=" field, with no '=' in the last wrong sentence, raises |
| `Score.LastN` | AI_Tutor_for_Flask.py:113 | score[-n:] has min(len, n) entries and is the suffix of that length |
| `Score.LastNAppend` | AI_Tutor.py:133 | trimming to n before appending keeps the same last n: a deque with maxlen n holds the last n values appended |
| `Score.OutcomesAppend` | AI_Tutor.py:161-169 | appending 1 or 0 keeps a list of outcomes |
| `Score.SumBounds` | AI_Tutor.py:171 | the sum of outcomes lies between 0 and the length, and equals the length exactly when all are 1 |
| `Score.SumCountsOnes` | AI_Tutor.py:175 | the sum of outcomes is the number of ones (correct answers), and the number of zeros (wrong answers) makes up the rest of the length |
| `Score.Percent` | AI_Tutor.py:171 | int(sum/len*100) is the truncated percentage: p·len ≤ 100·sum < (p+1)·len |
| `Score.PercentBounds` | AI_Tutor.py:171 | the percentage lies between 0 and 100, and is 100 exactly when every answer was correct |
| `Score.ScoreWindow.Record` | AI_Tutor.py:161-169 | append to deque(maxlen=10): the window is the last ten of every outcome ever recorded |
| `Score.WindowPercentBounds` | AI_Tutor.py:171 | the window's percentage lies between 0 and 100 |
| `Tutor.Evaluate` | AI_Tutor.py:104-108 | an is_correct answer is graded without a reply, with empty feedback |
| `Tutor.JudgmentIgnoresReply` | AI_Tutor.py:106-108 | an is_correct grade does not depend on the reply: upper(strip(answer)) equals the stored reference |
| `Tutor.OpenAnswer` | AI_Tutor.py:115-126 | an open answer is judged by the reply's first word: ANO is right, NE is wrong, anything else is wrong with the "read as NE" note; the stripped reply is the feedback |
| `Tutor.OpenAnswerFails` | AI_Tutor.py:122 | judging an open answer fails (IndexError) exactly when the reply is blank |
| `Tutor.MarkedIffNoVerdict` | AI_Tutor.py:123-126 | the note appears exactly when the first word is no verdict, and a noted answer is wrong |
| `Tutor.Attempt` | AI_Tutor.py:44-96 | one attempt never raises, and an accepted exercise has the attempt's kind and a new prompt |
| `Tutor.GenerateBounds` | AI_Tutor.py:39-98 | one to five attempts, with one or two calls each; never an exception; all attempts before the last one skipped; None only after five |
| `Tutor.AttemptAcceptsParsed` | AI_Tutor.py:44-96 | an attempt accepts an exercise exactly when its prompt is new and it is what the reply parses to: the two stripped replies for translate, the line parser's result for the other kinds |
| `Tutor.GenerateTranslateFirst` | AI_Tutor.py:44-55 | a first translate attempt with a new sentence returns that sentence and its translation, after one attempt and two calls |
| `Tutor.GenerateJudgmentFirst` | AI_Tutor.py:57-79 | a first is_correct attempt whose reply holds the three requested lines, with a new sentence, returns that sentence, the upper-cased verdict and the correction after one call |
| `Tutor.GenerateFixFirst` | AI_Tutor.py:81-96 | a first fix_sentence attempt whose reply holds the two requested lines, with a new wrong sentence, returns that pair after one call |
| `Tutor.GenerateIsFirstNew` | AI_Tutor.py:53-96 | a returned exercise is new, has the last attempt's kind, and is what that attempt accepted |
| `Tutor.QuestionBank.constructor` | AI_Tutor.py:27 | asked_questions starts empty |
| `Tutor.QuestionBank.GenerateQuestion` | AI_Tutor.py:29-98 | the result is that of Generate on the old set; a found prompt was not asked before and is added; otherwise the set is unchanged |
| `Tutor.NineOfTenCounts` | AI_Tutor.py:175 | the stop rule holds exactly when the window holds ten answers of which at most one (counted as zeros) is wrong |
| `Tutor.Tally` | AI_Tutor.py:161-175 | records the answer in the window, returns the percentage (0 to 100) and stops exactly on nine of ten |
| `TutorConsole.Verdict` | AI_Tutor_no_streamlit.py:49-56 | the scan settles only on a verdict word |
| `TutorConsole.VerdictIsFirst` | AI_Tutor_no_streamlit.py:49-56 | the scan settles on the first word, in reading order, that reads as ANO or NE |
| `TutorConsole.NoVerdict` | AI_Tutor_no_streamlit.py:52-58 | the scan finds nothing exactly when no word reads as a verdict |
| `TutorConsole.ReadVerdict` | AI_Tutor_no_streamlit.py:48-56 | the first-word check and the for/else loop give exactly the verdict the scan defines |
| `TutorConsole.EvaluateAnswer` | AI_Tutor_no_streamlit.py:29-61 | evaluate_answer computed step by step equals Evaluate |
| `TutorConsole.JudgmentIgnoresReply` | AI_Tutor_no_streamlit.py:30-35 | an is_correct grade does not depend on the reply: upper(strip(answer)) equals the reference stripped, upper-cased and stripped of ".,!?"; the feedback is empty |
| `TutorConsole.OpenAnswerFails` | AI_Tutor_no_streamlit.py:48-49 | judging an open answer fails exactly when the reply is blank |
| `TutorConsole.ReadsFirstVerdict` | AI_Tutor_no_streamlit.py:48-61 | the grade is the first verdict word in reading order, and the stripped reply is the feedback |
| `TutorConsole.FirstWordDecides` | AI_Tutor_no_streamlit.py:49-51 | a first word that is a verdict decides, as in the strict reading |
| `TutorConsole.UndecidedIffNoVerdict` | AI_Tutor_no_streamlit.py:57-58 | the "could not determine" note appears exactly when no word reads as a verdict, and a noted answer is wrong |
| `TutorConsole.Attempt` | AI_Tutor_no_streamlit.py:75-121 | an accepted exercise is new and of the attempt's kind; an attempt raises exactly when its reply crashes the label parser |
| `TutorConsole.GenerateBounds` | AI_Tutor_no_streamlit.py:69-122 | one to five attempts, with one or two calls each; all attempts before the last one skipped; None only after five |
| `TutorConsole.AttemptAcceptsParsed` | AI_Tutor_no_streamlit.py:75-121 | an attempt accepts an exercise exactly when its prompt is new and it is what the reply parses to: the two stripped replies for translate, the label parser's result for the other kinds |
| `TutorConsole.GenerateTranslateFirst` | AI_Tutor_no_streamlit.py:75-81 | a first translate attempt with a new sentence returns that sentence and its translation, after one attempt and two calls |
| `TutorConsole.GenerateJudgmentFirst` | AI_Tutor_no_streamlit.py:83-110 | a first is_correct attempt whose reply is in the requested label format after any preamble, with a new sentence, returns the stripped sentence, the upper-cased verdict and the correction after one call |
| `TutorConsole.GenerateFixFirst` | AI_Tutor_no_streamlit.py:112-121 | a first fix_sentence attempt whose reply is in the requested label format after any preamble, with a new wrong sentence, returns the stripped pair after one call |
| `TutorConsole.GenerateIsFirstNew` | AI_Tutor_no_streamlit.py:78-121 | a returned exercise is new, has the last attempt's kind, and is what that attempt accepted |
| `TutorConsole.GenerateRaisesOnCrash` | AI_Tutor_no_streamlit.py:92-117 | an exception comes from the last attempt, an is_correct or fix_sentence reply that crashed its parser |
| `TutorConsole.QuestionBank.constructor` | AI_Tutor_no_streamlit.py:14 | asked_questions starts empty |
| `TutorConsole.QuestionBank.GenerateQuestion` | AI_Tutor_no_streamlit.py:64-122 | the result is that of Generate on the old set; a found prompt is added; None or an exception leaves the set unchanged |
| `TutorConsole.AllTenIsFullMarks` | AI_Tutor_no_streamlit.py:175 | ten correct answers in a row is exactly a full window at 100 percent |
| `TutorConsole.Tally` | AI_Tutor_no_streamlit.py:160-177 | records the answer, returns the percentage (0 to 100) and stops exactly when all ten are correct |
| `TutorWeb.JudgmentIgnoresReply` | AI_Tutor_for_Flask.py:30-33 | an is_correct grade does not depend on the reply: upper(strip(answer)) equals the reference stripped, upper-cased and stripped of ".,!?" |
| `TutorWeb.FirstTokenOnly` | AI_Tutor_for_Flask.py:43-45 | any other answer is right exactly when the first word reads as ANO (NE or a non-verdict is wrong, with no note), and the reply is the feedback |
| `TutorWeb.OpenAnswerFails` | AI_Tutor_for_Flask.py:43 | judging fails exactly when the reply is blank |
| `TutorWeb.Attempt` | AI_Tutor_for_Flask.py:55-90 | an accepted exercise is new and of the attempt's kind; an attempt raises exactly when its reply crashes the label parser |
| `TutorWeb.CallsOfFixedKind` | AI_Tutor_for_Flask.py:50-57 | with the kind chosen once, attempt i reads reply 2i for translate and reply i otherwise |
| `TutorWeb.RunOfTries` | AI_Tutor_for_Flask.py:54-91 | the calls add up over the attempts, and the last attempt gives the exercise or the exception |
| `TutorWeb.RunLastOfTries` | AI_Tutor_for_Flask.py:54-91 | the last attempt made accepted the exercise returned, or raised the exception |
| `TutorWeb.SkipsOfTries` | AI_Tutor_for_Flask.py:54-91 | every attempt before the last one skipped |
| `TutorWeb.GenerateBounds` | AI_Tutor_for_Flask.py:50-91 | one to five attempts, all of the kind chosen before the loop, using exactly FirstReply(kind, attempts) replies; all attempts before the last one skipped; None only after five |
| `TutorWeb.AttemptAcceptsParsed` | AI_Tutor_for_Flask.py:55-90 | an attempt accepts an exercise exactly when its prompt is new and it is what the reply parses to: the two stripped replies for translate, the label parser's result for the other kinds |
| `TutorWeb.GenerateTranslateFirst` | AI_Tutor_for_Flask.py:55-60 | a first translate attempt with a new sentence returns that sentence and its translation, after one attempt and two calls |
| `TutorWeb.GenerateJudgmentFirst` | AI_Tutor_for_Flask.py:62-80 | a first is_correct attempt whose reply is in the requested label format after any preamble, with a new sentence, returns the stripped sentence, the upper-cased verdict and the correction after one call |
| `TutorWeb.GenerateFixFirst` | AI_Tutor_for_Flask.py:82-90 | a first fix_sentence attempt whose reply is in the requested label format after any preamble, with a new wrong sentence, returns the stripped pair after one call |
| `TutorWeb.GenerateIsFirstNew` | AI_Tutor_for_Flask.py:58-90 | a returned exercise is new, has the chosen kind, and is what the last attempt accepted |
| `TutorWeb.GenerateRaisesOnCrash` | AI_Tutor_for_Flask.py:67-87 | an exception comes from the last attempt's reply crashing the parser of the chosen kind |
| `TutorWeb.Session.constructor` | AI_Tutor_for_Flask.py:96 | a new session holds nothing |
| `TutorWeb.Session.Begin` | AI_Tutor_for_Flask.py:96-98 | the first request of a session puts an empty "asked" and "score" into it; later requests keep them |
| `TutorWeb.Session.GenerateQuestion` | AI_Tutor_for_Flask.py:49-91 | the result is that of Generate on the old list; a found prompt, of the chosen kind, is appended; otherwise the list is unchanged |
| `TutorWeb.Session.HandlePost` | AI_Tutor_for_Flask.py:103-124 | grades the answer against the pending question; on success it appends the outcome, shows the percentage of the appended list (0 to 100) and stores its last ten; a failing judgment leaves the score as it was |
| `TutorWeb.Session.HandleGet` | AI_Tutor_for_Flask.py:126-139 | a new question becomes pending and its prompt is appended; None shows the "could not generate" page; an exception fails the request; the score is kept |
| `TutorWeb.ShownPercentSpansEleven` | AI_Tutor_for_Flask.py:112-121 | one wrong answer and then ten right ones shows 90 percent, while the stored window is at 100 |
| `Variants.EvaluatorsAgreeOnClearVerdict` | AI_Tutor_no_streamlit.py:48-61 | when the reply's first word is ANO or NE, all three evaluators give the same grade and feedback |
| `Variants.EvaluatorsPartOnLateVerdict` | AI_Tutor_no_streamlit.py:51-56 | when the first word is no verdict but a later ANO is: AI_Tutor.py grades wrong with its note, the console tutor grades right, and the web tutor grades wrong without a note |
| `Variants.LateVerdictExample` | AI_Tutor.py:122-126 | the reply "Tedy ANO" gets those three different readings |
| `Variants.AllTenImpliesNineOfTen` | AI_Tutor_no_streamlit.py:175 | the all-ten stop rule implies the nine-of-ten one |
| `Variants.NineOfTenDoesNotImplyAllTen` | AI_Tutor.py:175 | nine right answers and one wrong one stop AI_Tutor.py but not the console tutor |

## Left out

- The OpenAI client and `ask_openai`'s request are left out. The service is
  an oracle of message contents, one per call, and only the stripping of the
  reply is modelled. A failing request (a network or API error) is not
  modelled.
- `random.choice` is an input: the kind of each attempt (`choose`, or
  `Fixed` for the web version). The sentence form and tense are left out,
  because they only change the prompt's wording, which is not modelled
  either.
- `print`, `input`, `time.sleep` and the unbounded `while True` of `main`
  are left out. The model covers one round of the loop: generate
  (`GenerateQuestion`), judge (`Evaluate`) and tally (`Tally`). When
  `generate_question` returns None, `main` just tries again.
- Flask is left out: routing, `render_template`, the cookie and
  `secret_key`. `index` is split into `HandlePost` and `HandleGet` over a
  `Session` object. With `app.run(debug=True)`
  (AI_Tutor_for_Flask.py:143) a request that raises is not saved to the
  cookie. The model keeps the one change such a request makes before the
  raise, the start of a session at AI_Tutor_for_Flask.py:96-98. The next
  request would make the same start, so the pages that follow are the same
  either way.
- `Text.Upper` covers ASCII letters only, not Unicode case mapping. The
  verdict words and field names are ASCII once upper-cased.
- `Text.Lines` ends a line at each of `\n`, `\r`, vertical tab and form
  feed. It does not treat `\r\n` as one break, and it does not break at the
  other characters `splitlines()` breaks at (`\x1c`, `\x1d`, `\x1e`,
  `\x85`, `\u2028`, `\u2029`). Splitting `\r\n` in two only adds an empty
  line, which the parser drops. A reply holding one of the other
  separators is cut into fewer lines than Python cuts it.
- `Text.Whitespace` is the six characters space, `\t`, `\n`, `\r`, `\x0b`
  and `\x0c`. Python's `strip()` and `split()` also remove the ASCII
  separators `\x1c` to `\x1f`, `\x85` and the Unicode spaces, which are
  not in it.
- `Score.Percent` is exact integer arithmetic, `100 * k / n` rounded
  down, with no floating-point rounding. The source only applies it to
  lists of 1 to 11 entries: the ten-entry windows, and the Flask score list
  of at most ten entries plus the one just appended. On those lengths
  Python's `int(k / n * 100)` gives the same value. On longer lists the
  two can differ: for 29 of 50, the float formula gives 57 and `Percent`
  gives 58.
- A percentage over an empty window is never computed in the source, and
  `Percent` requires a non-empty list.
- Exceptions are modelled as explicit values (`Outcome.Failed`,
  `Try.Abort`, `Generated.Raised`, `Page.Failure`), with no stack unwinding.
