/**
  The OpenAI bot (`bot.py`): `generate_answer` makes one chat-completion
  call and strips its content, and `complete_assessment` answers the
  questions with no exception handler, so any exception ends the run.

  The language model is abstract: `replies(i)` is what the call for
  collected question i produced.
 */
module OpenAI {
  import opened Text
  import opened Quiz

  /** What one `ChatCompletion.create` call produced. */
  datatype Completion =
    | Completed(content: string)  // `response['choices'][0]['message']['content']`
    | Error                       // the call raised

  /** `generate_answer(question, options)`: the stripped content of the
      reply; None when the call raised (the exception escapes). */
  function GenerateAnswer(reply: Completion): (r: Option<string>)
    ensures r.Some? <==> reply.Completed?
    ensures r.Some? ==> Trimmed(r.value)
  {
    match reply
    case Completed(content) => Some(Strip(content))
    case Error => None
  }

  /** The answer is a piece of the reply that keeps every non-whitespace
      character of it, and stripping it once more (`answer.strip()` in the
      answering loop) changes nothing. */
  lemma GenerateAnswerKeepsContent(reply: Completion)
    requires reply.Completed?
    ensures var answer := GenerateAnswer(reply).value;
      && Contains(reply.content, answer)
      && DeleteWhitespace(answer) == DeleteWhitespace(reply.content)
      && Strip(answer) == answer
  {
    StripIsInfix(reply.content);
    StripKeepsContent(reply.content);
    StripIdempotent(reply.content);
  }

  /** The matching part of one pass of the answering loop: scan the options
      with `answer.strip()`, fall back to a random option. `pick` is None
      when an exception escapes: the matched option's label search raised,
      or the random fallback, with its random choice `choice`, did. */
  method ChooseOption(div: nat, opts: seq<string>, answer: string, lookup: (nat, string) -> Lookup)
    returns (pick: Option<Pick>, ghost choice: Option<string>)
    ensures opts == [] ==> pick.None?
    ensures pick.None? ==> opts == [] || SomeLabelInvalid(opts, div, lookup)
    ensures pick.Some? ==> Admissible(pick.value, div, opts, lookup) && pick.value.route != Recovered
    ensures Scan(answer, opts, div, lookup).Hit? ==>
      pick == Some(Pick(div, opts[Scan(answer, opts, div, lookup).index], true, Matched))
    ensures Scan(answer, opts, div, lookup).Fault? ==> pick.None?
    ensures pick.Some? && pick.value.route == Guessed ==> Scan(answer, opts, div, lookup).Miss?
    ensures pick.Some? ==> Follows(pick.value, answer, opts, div, lookup)
    ensures Scan(answer, opts, div, lookup).Miss? ==>
      && (choice.None? <==> opts == [])
      && (choice.Some? ==> choice.value in opts && pick == Clicked(div, choice.value, lookup, Guessed))
    ensures pick.None? ==>
      || Scan(answer, opts, div, lookup).Fault?
      || (Scan(answer, opts, div, lookup).Miss? && GuessRaised(opts, div, lookup, choice))
  {
    var formatted := Strip(answer);
    StandardizeStrip(answer);
    var m, found := MatchOption(formatted, opts, div, lookup);
    choice := None;
    if found {
      pick := Some(Pick(div, opts[m.index], true, Matched));
    } else if m.Fault? {
      pick := None;
    } else {
      var chosen;
      pick, chosen := GuessOption(div, opts, lookup, Guessed);
      choice := chosen;
    }
  }

  /** The state of the answering loop of `bot.py` after some questions:
      every answer recorded is the stripped reply for its question, at most
      one question (the one that raised) has an answer but no pick, every
      pick is admissible, follows the answer for its question, and none
      comes from an exception handler. */
  predicate Answered(picks: seq<Pick>, answers: seq<string>, options: seq<seq<string>>,
                     replies: nat -> Completion, lookup: (nat, string) -> Lookup)
  {
    && |picks| <= |answers| <= |options| && |answers| <= |picks| + 1
    && AllAdmissible(picks, options, lookup)
    && (forall k :: 0 <= k < |picks| ==> picks[k].route != Recovered)
    && Recorded(answers, replies)
    && AllFollow(picks, answers, options, lookup)
  }

  /** Answer k is what `generate_answer` made of the reply for question k. */
  predicate Recorded(answers: seq<string>, replies: nat -> Completion) {
    forall k :: 0 <= k < |answers| ==> GenerateAnswer(replies(k)) == Some(answers[k])
  }

  /** Pick k follows answer k. */
  predicate AllFollow(picks: seq<Pick>, answers: seq<string>, options: seq<seq<string>>,
                      lookup: (nat, string) -> Lookup)
    requires |picks| <= |answers| <= |options|
  {
    forall k :: 0 <= k < |picks| ==> Follows(picks[k], answers[k], options[k], k + 1, lookup)
  }

  /** One pass of the answering loop keeps its state: the next answer is
      recorded, and a pick for it (when no exception escaped) is appended. */
  lemma AnsweredStep(picks: seq<Pick>, answers: seq<string>, options: seq<seq<string>>,
                     replies: nat -> Completion, lookup: (nat, string) -> Lookup,
                     answer: string, pick: Option<Pick>)
    requires |picks| == |answers| < |options|
    requires Answered(picks, answers, options, replies, lookup)
    requires GenerateAnswer(replies(|answers|)) == Some(answer)
    requires pick.Some? ==>
      var k := |answers|;
      && Admissible(pick.value, k + 1, options[k], lookup) && pick.value.route != Recovered
      && Follows(pick.value, answer, options[k], k + 1, lookup)
    ensures Answered(picks, answers + [answer], options, replies, lookup)
    ensures pick.Some? ==> Answered(picks + [pick.value], answers + [answer], options, replies, lookup)
  {
    var n, more := |answers|, answers + [answer];
    forall k | 0 <= k < |more|
      ensures GenerateAnswer(replies(k)) == Some(more[k])
    {
      if k < n {
        assert more[k] == answers[k];
      }
    }
    if pick.Some? {
      var picked := picks + [pick.value];
      forall k | 0 <= k < |picked|
        ensures Admissible(picked[k], k + 1, options[k], lookup) && picked[k].route != Recovered
        ensures Follows(picked[k], more[k], options[k], k + 1, lookup)
      {
        if k < n {
          assert picked[k] == picks[k] && more[k] == answers[k];
        }
      }
    }
  }

  /** The answering loop stopped at collected question k: the model call
      raised before anything was recorded, or the answer was recorded and
      then the matched option's label search raised, or the scan missed and
      the random fallback (choosing `choice`) raised. */
  predicate Halted(options: seq<seq<string>>, answers: seq<string>, k: nat, replies: nat -> Completion,
                   lookup: (nat, string) -> Lookup, choice: Option<string>) {
    && k < |options|
    && (|answers| == k ==> replies(k).Error?)
    && (|answers| == k || |answers| == k + 1)
    && (|answers| == k + 1 ==>
          var m := Scan(answers[k], options[k], k + 1, lookup);
          m.Fault? || (m.Miss? && GuessRaised(options[k], k + 1, lookup, choice)))
  }

  /** The answering loop of `bot.py`: each question in turn until one lets
      an exception escape (`complete` is false). `answers` is the list the
      loop builds, one stripped reply per question reached. */
  method AnswerAll(options: seq<seq<string>>, replies: nat -> Completion, lookup: (nat, string) -> Lookup)
    returns (picks: seq<Pick>, complete: bool, answers: seq<string>, ghost choice: Option<string>)
    ensures Answered(picks, answers, options, replies, lookup)
    ensures complete <==> |picks| == |options|
    ensures complete ==> |answers| == |options|
    // This disjunction follows from `Halted`; it is kept as the shorter fact for callers.
    ensures !complete ==>
      var k := |picks|;
      Stuck(options, k, lookup) || (k < |options| && replies(k).Error?)
    ensures !complete ==> Halted(options, answers, |picks|, replies, lookup, choice)
  {
    picks, complete, answers, choice := [], true, [], None;
    for i := 0 to |options|
      invariant |picks| == i == |answers|
      invariant Answered(picks, answers, options, replies, lookup)
    {
      var answer := GenerateAnswer(replies(i));
      if answer.None? {
        complete := false;
        break;
      }
      var pick;
      ghost var chosen;
      pick, chosen := ChooseOption(i + 1, options[i], answer.value, lookup);
      AnsweredStep(picks, answers, options, replies, lookup, answer.value, pick);
      answers := answers + [answer.value];
      if pick.None? {
        complete, choice := false, chosen;
        break;
      }
      picks := picks + [pick.value];
    }
  }

  /** `complete_assessment(driver)` of the OpenAI bot. `startOk` and
      `submitOk` say whether the start and submit buttons became clickable;
      here an unclickable submit button raises out of the function
      (`SubmitFailed`). `choice` is the random choice of the fallback that
      ended an aborted run, if one did. */
  method CompleteAssessment(startOk: bool, extract: nat -> Extraction, replies: nat -> Completion,
                            lookup: (nat, string) -> Lookup, submitOk: bool)
    returns (outcome: Outcome, answers: seq<string>, ghost choice: Option<string>)
    ensures !startOk <==> outcome == StartFailed
    ensures var h := Collected(extract, QuestionSlots);
      && (outcome.CountMismatch? <==> startOk && |h.questions| != |h.options|)
      && (outcome.CountMismatch? ==> outcome == CountMismatch(|h.questions|, |h.options|))
    ensures outcome.StartFailed? || outcome.CountMismatch? ==> answers == []
    ensures var h := Collected(extract, QuestionSlots);
      outcome.Aborted? || outcome.Submitted? || outcome.SubmitFailed? ==>
        |h.options| == |h.questions| && Answered(outcome.picks, answers, h.options, replies, lookup)
    // The first conjunct follows from `Halted`; it is kept as the shorter fact for callers.
    ensures var h := Collected(extract, QuestionSlots);
      outcome.Aborted? ==>
        var k := |outcome.picks|;
        && (Stuck(h.options, k, lookup) || (k < |h.options| && replies(k).Error?))
        && Halted(h.options, answers, k, replies, lookup, choice)
    ensures var h := Collected(extract, QuestionSlots);
      outcome.Submitted? || outcome.SubmitFailed? ==>
        |outcome.picks| == |answers| == |h.questions| && (outcome.Submitted? <==> submitOk)
    ensures startOk && Collected(extract, QuestionSlots).questions == [] ==>
      outcome == (if submitOk then Submitted([]) else SubmitFailed([]))
  {
    answers, choice := [], None;
    if !startOk {
      outcome := StartFailed;
    } else {
      var questions, options := Collect(extract);
      CollectedBounds(extract, QuestionSlots);
      assert Collected(extract, QuestionSlots).options == options;
      if |questions| != |options| {
        outcome := CountMismatch(|questions|, |options|);
      } else {
        var picks, complete;
        picks, complete, answers, choice := AnswerAll(options, replies, lookup);
        if !complete {
          outcome := Aborted(picks);
        } else if submitOk {
          outcome := Submitted(picks);
        } else {
          outcome := SubmitFailed(picks);
        }
      }
    }
  }
}
