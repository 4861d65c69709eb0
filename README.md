# Quiz bot answer resolution

A model of the two scripts that fill in an online safety exam with the help
of a language model: `bot_gemini.py` (Gemini, with retries and exception
handlers) and `bot.py` (OpenAI, one call per question, no handler around answering or submission).

Each run of `complete_assessment` does the following:
- clicks the start button;
- reads up to ten question divisions `div_q_1` … `div_q_10`, collecting each question's heading and its stripped option labels;
- gives up when the two collected lists differ in length;
- for each question, asks the model for an answer;
- looks for the first option whose whitespace-free text contains the whitespace-free answer and whose label can be found on the page, and clicks it;
- otherwise clicks a random option;
- finally clicks submit.

The modules are:

- `Text` (`text.dfy`) holds the text helpers:
  - the Python whitespace class (the characters `\s` and `str.strip()` treat as space);
  - `re.sub(r'\s+', '', s)`, `str.strip()` and `standardize_text`;
  - Python's substring test `needle in haystack`.
- `Quiz` (`quiz.dfy`) holds what both scripts share line for line:
  - the collection loop;
  - the option-matching loop with its `found` flag;
  - `random.choice`, and the random fallback with its label search;
  - the data types for picks and run outcomes.
- `Gemini` (`gemini.dfy`) holds the retrying `generate_answer` with its back-off pauses, and the Gemini `complete_assessment`.
- `OpenAI` (`openai.dfy`) holds the single-call `generate_answer` and the OpenAI `complete_assessment`, together with its `answers` list.

The browser, the model and the clock are parameters:
- `extract(n)` is what reading division `n` produced: a heading with its labels, a heading only, or nothing.
- `lookup(div, option)` is what the XPath label search in `div_q_div` returned: found, empty, or raised.
- `replies` gives the model's reply per question and attempt.
- The Gemini pauses are returned as the list of `time.sleep` durations.
- The Gemini run also returns, as a ghost list, what `generate_answer` handed back or raised for each question reached; the OpenAI run returns its own `answers` list.
- The random choice of the fallback or handler that ended an aborted run is returned as a ghost value.
- `startOk` and `submitOk` say whether the start and submit buttons became clickable.

Two behaviours of the scripts worth noting:
- An answer that standardises to the empty string is contained in every option. The scan then clicks the first option that has a label (`Quiz.EmptyAnswerTakesFirstLabelled`). It does not treat this as "no match".
- A run that collected no question at all still goes on to click submit (the ensures on an empty question list in both `CompleteAssessment` methods, `gemini.dfy:426-427` and `openai.dfy:220-221`). It is not marked failed. Likewise, a question with no options is not skipped: `random.choice` raises on it.

## Model

| member | source | states |
|---|---|---|
| Text.IsWhitespace | bot_gemini.py:50 | the characters `\s` matches and `str.strip()` removes, as a table of code-point ranges |
| Text.DeleteWhitespace | bot_gemini.py:50 | `re.sub(r'\s+', '', s)` is no longer than its input; the lemmas below characterise it completely |
| Text.DeleteWhitespaceClean | bot_gemini.py:50 | `re.sub(r'\s+', '', s)` leaves no whitespace character |
| Text.DeleteWhitespaceKeepsCounts | bot_gemini.py:50 | every non-whitespace character occurs in the result exactly as often as in the input |
| Text.DeleteWhitespaceConcat | bot_gemini.py:50 | deleting whitespace distributes over concatenation, so the character order is kept |
| Text.DeleteWhitespaceOfClean | bot.py:35 | text without whitespace is left unchanged |
| Text.DeleteWhitespaceOfBlank | bot.py:35 | text made only of whitespace becomes empty |
| Text.StripStart | bot_gemini.py:25 | the left-stripped string does not start with whitespace and is no longer than the input |
| Text.StripEnd | bot_gemini.py:25 | the right-stripped string does not end with whitespace, keeps a non-blank first character, and is no longer than the input |
| Text.Strip | bot_gemini.py:25 | `str.strip()` leaves neither end whitespace |
| Text.StripStartIsSuffix | bot_gemini.py:25 | left-stripping drops a prefix only |
| Text.StripEndIsPrefix | bot_gemini.py:25 | right-stripping drops a suffix only |
| Text.StripIsInfix | bot_gemini.py:25 | the stripped string is a substring of the original |
| Text.StripStartKeepsContent | bot_gemini.py:94 | left-stripping removes only whitespace |
| Text.StripEndKeepsContent | bot_gemini.py:94 | right-stripping removes only whitespace |
| Text.StripKeepsContent | bot_gemini.py:94 | stripping removes only whitespace: the non-whitespace content is unchanged |
| Text.StripTrimmed | bot.py:80 | stripping a string with no whitespace at either end changes nothing |
| Text.StripIdempotent | bot.py:80 | `answer.strip()` on an already stripped answer changes nothing |
| Text.StandardizeText | bot_gemini.py:49-50 | `standardize_text` equals deleting all whitespace; the final `.strip()` never has anything left to remove |
| Text.StandardizeStrip | bot_gemini.py:94-98 | standardising the stripped answer equals standardising the raw answer |
| Text.StandardizeIdempotent | bot.py:34-35 | standardising twice is standardising once |
| Text.StandardizeKeepsOrder | bot.py:34-35 | standardising distributes over concatenation and maps the empty string to itself |
| Text.StandardizeClean | bot.py:34-35 | text without whitespace is its own standard form |
| Text.Contains | bot_gemini.py:98 | Python's `needle in haystack`: the needle is a prefix of some suffix of the haystack (both directions by `ContainsSlice` and `ContainsAt`) |
| Text.ContainsSlice | bot_gemini.py:98 | every slice of a string is contained in it (Python `in`) |
| Text.ContainsAt | bot_gemini.py:98 | a contained string occurs at some position of the haystack |
| Text.ContainsEmpty | bot_gemini.py:98 | the empty string is contained in every string |
| Quiz.StripAll | bot_gemini.py:78 | one stripped label per option element, in order |
| Quiz.Collected | bot_gemini.py:71-82 | the two lists after visiting ordinals 1..n: a readable division adds its heading, and its stripped labels when they could all be read |
| Quiz.Collect | bot_gemini.py:67-82 | the collection loop over ordinals 1..10 builds exactly the lists `Collected` describes |
| Quiz.CollectedBounds | bot.py:55-67 | there are no more option lists than questions, and no more questions than ordinals visited; each question has one division of origin |
| Quiz.CollectedQuestions | bot_gemini.py:71-82 | question k is the heading of division `Origins[k]`; origins strictly increase; every readable division contributes its heading |
| Quiz.CollectedAligned | bot_gemini.py:74-86 | the lists have equal length exactly when no division raised after its heading was read, and then option list k belongs to the same division as question k |
| Quiz.OriginsFull | bot_gemini.py:71-82 | all n divisions contribute a question exactly when none is unreadable |
| Quiz.OriginsGrow | bot_gemini.py:71-82 | visiting more ordinals never loses a question |
| Quiz.ClickTargetShift | bot_gemini.py:89-99 | collected question k is answered in division k + 1, which is its own division only while divisions 1..k+1 were all readable; otherwise it came from a later division |
| Quiz.ScanFrom | bot_gemini.py:97-103 | the matching loop from a position stops, if at all, at an index from there on |
| Quiz.ScanFromFirstMatch | bot_gemini.py:97-103 | the scan stops at the first option that passes the text test with a non-empty label search, reports a search that raised, and misses only when no option qualifies |
| Quiz.ScanIsFirstMatch | bot.py:83-91 | over a whole option list: a hit is a matching, labelled option; a raise comes from a matching option; no matching option with a non-empty search comes before the stopping point |
| Quiz.Candidate | bot_gemini.py:98 | the text test `standardize_text(formatted_answer) in standardize_text(option)` |
| Quiz.Scan | bot_gemini.py:97-103 | the matching loop over all options of a question, with the standardised answer; characterised by `ScanIsFirstMatch` |
| Quiz.MatchOption | bot_gemini.py:95-103 | the loop with its `found` flag computes the scan, and `found` is set exactly on a hit; a hit's label was found, a fault's search raised |
| Quiz.EmptyAnswerTakesFirstLabelled | bot_gemini.py:94-103 | an answer that standardises to empty selects the first option whose label search is not empty, and misses only when every search is empty |
| Quiz.Follows | bot_gemini.py:94-120 | a pick follows the model's answer: the option the scan hit whenever it hit, and a matched pick only then; a random option only after a miss; the handler's random option only after the matched label search raised or a miss met a label search that can raise |
| Quiz.RandomChoice | bot_gemini.py:107 | `random.choice` returns a member of the list and raises exactly on an empty list |
| Quiz.GuessOption | bot_gemini.py:105-111 | the random fallback chooses an option of the question (none exactly when there is none) and clicks the first label for it: it raises exactly when the list is empty or the chosen option's search raises, and clicks exactly when a label was found |
| Quiz.Clicked | bot_gemini.py:108-110 | the label search for an option followed by `if option_elements: option_elements[0].click()`: no pick when the search raises, a click exactly when a label was found |
| Quiz.GuessRaised | bot_gemini.py:107-110 | clicking a random option raises: the list is empty, or the search for the option chosen raises |
| Gemini.FirstAnswered | bot_gemini.py:22-25 | the attempt returned is below the limit and got an answer |
| Gemini.FirstAnsweredIsFirst | bot_gemini.py:22-25 | no earlier attempt answered, and there is none exactly when no attempt answered |
| Gemini.FirstAnsweredExtends | bot_gemini.py:22-25 | later attempts do not change which answered attempt came first |
| Gemini.Backoff | bot_gemini.py:27-37 | the pause after a failed attempt: `(attempt + 1) * 2` seconds after a quota error, 2 seconds after any other |
| Gemini.RetryWaits | bot_gemini.py:26-37 | one back-off pause after each failed attempt but the last; none once an attempt answered (characterised by `WaitsAt`, `RetryWaitsBounds` and `WaitsTotal`) |
| Gemini.Generates | bot_gemini.py:22-39 | the results `generate_answer` can hand back: the stripped text of the first answered attempt; after the last failed attempt a random option, or an escaping IndexError on an empty list; `None` only when no attempt is allowed |
| Gemini.Waits | bot_gemini.py:26-37 | one pause per failed attempt |
| Gemini.WaitsAt | bot_gemini.py:27-30 | pause a is `(a + 1) * 2` seconds after a quota error and 2 seconds after any other error |
| Gemini.RetryWaitsBounds | bot_gemini.py:26-37 | at most `max_retries - 1` pauses; pause a lasts either 2 or `2 * (a + 1)` seconds, and so between the two |
| Gemini.RunWaits | bot_gemini.py:89-91 | the pauses of the answering loop: the retry pauses of each question in turn |
| Gemini.RunWaitsBounds | bot_gemini.py:26-37 | answering n questions pauses at most 2n times, each pause lasting 2 or 4 seconds (and so between 2 and 4) |
| Gemini.WaitsTotal | bot_gemini.py:26-37 | k pauses take between 2k and k(k+1) seconds, the maximum exactly when every attempt after the first ran out of quota |
| Gemini.DefaultRetryWaits | bot_gemini.py:15 | with the default three attempts a question waits at most 6 seconds, and the pauses are 2 then 4 seconds when every attempt runs out of quota |
| Gemini.GenerateAnswer | bot_gemini.py:15-39 | the retry loop returns the stripped text of the first answered attempt, else a random option after the last attempt (raising on no options); it pauses per the back-off and calls the model once per attempt up to the answered one |
| Gemini.Fallback | bot_gemini.py:33 | the fallback answer is one of the options, or raises on an empty list |
| Gemini.TryAnswer | bot_gemini.py:90-111 | the `try` body: its pick follows the model's answer (a scan hit clicks that option, a guess happens only after a miss); it raises when the model gave no text or the matched label search raised, and only then or when the fallback raised |
| Gemini.Decided | bot_gemini.py:89-120 | the pick of a question follows the answer `generate_answer` handed back, and only the handler's random option is possible when that call raised |
| Gemini.AnswerQuestion | bot_gemini.py:89-120 | the pick follows the model's answer and is an option of the question, and a scan hit always gives the matched pick; the `try` body raises whenever the model gave no text or the matched search raised, and only then or when its fallback raised; exactly then the handler clicks its own random option, and the question fails only when that choice is impossible or its search raises |
| Gemini.DecidedStep | bot_gemini.py:89-91 | answering one more question keeps every pick admissible and following its answer |
| Gemini.AnswerAll | bot_gemini.py:89-120 | answer k is what `generate_answer` handed back for question k, and pick k is admissible in division k + 1 and follows it; the loop stops only at a question whose answer did not hit and whose handler raised too; its pauses are exactly the retry pauses of each question reached, in order, each 2 or 4 seconds |
| Gemini.Abandoned | bot_gemini.py:113-120 | the loop stopped at question k: its answer was handed back, the scan did not hit, and the handler's random click raised |
| Gemini.CompleteAssessment | bot_gemini.py:53-128 | a run fails at the start button exactly when that button is not clickable; it stops on a length mismatch exactly when the collected lists differ; otherwise every pick follows the model's answer for its collected question, an abort happens only where the handler itself raised, the pauses are exactly the retry pauses of the questions reached (2 or 4 seconds each, at most twice as many as questions), and it submits when every question was answered, including when none was collected |
| OpenAI.GenerateAnswer | bot.py:13-24 | the answer exists exactly when the call completed, and it is stripped |
| OpenAI.GenerateAnswerKeepsContent | bot.py:24 | the answer is a substring of the reply with the same non-whitespace content, and stripping it again changes nothing |
| OpenAI.ChooseOption | bot.py:80-100 | the pick follows the answer: a scan hit clicks that option; a raising search at the matched option escapes; after a miss the fallback clicks its random choice, and raises exactly when there is none or its search raises |
| OpenAI.AnsweredStep | bot.py:76-100 | one pass of the loop keeps `answers` equal to the stripped replies, and every pick admissible and following its answer |
| OpenAI.AnswerAll | bot.py:74-100 | every recorded answer is the stripped reply for its question, and every pick is admissible, follows the answer for its question and never comes from a handler; the loop stops only where the model call raised, the matched search raised, or the fallback after a miss raised |
| OpenAI.Halted | bot.py:75-100 | the loop stopped at question k: the model call raised before an answer was recorded, or the answer was recorded and then the matched search or the fallback after a miss raised |
| OpenAI.CompleteAssessment | bot.py:38-106 | like the Gemini run, but any exception ends the run; each pick follows the recorded answer for its collected question; an abort happens only where the model call, the matched search or the fallback raised; a full run has one answer and one pick per question; an unclickable submit button ends it with an error |

## Left out

- The browser (Selenium, ChromeDriver, the login page, `init_browser`, `main` and its outer retry loop) is abstracted into the parameters `extract`, `lookup`, `startOk` and `submitOk`.
- Clicking a label is assumed never to raise. Only the label search can raise in the model.
- The XPath `contains(text(), …)` search is not modelled. Its result per division and option is the parameter `lookup`.
- Prompts and the model calls are not modelled. What each call returns is the parameter `replies`; the question text is sent only in the prompt, so it does not enter the model.
- The three-second page-load pause after the start button and the `WebDriverWait` timeouts are not modelled. The timeouts become `startOk` and `submitOk`.
- Logging and `print` output are not modelled.
- `random.choice` is modelled as any member of the list. Its uniform distribution is not modelled.
- Text.IsWhitespace: the whitespace class is written as an explicit table of code points. It is not derived from the Unicode database.
- OpenAI.CompleteAssessment: an exception escaping the OpenAI run (a model call that raised, an empty option list, a label search that raised, an unclickable submit button) becomes an `Outcome` value. The propagating exception is not modelled.
- Gemini.GenerateAnswer: `max_retries` is a parameter; `NoAnswer` (Python `None`) is returned only when it is 0, which the script never passes.
