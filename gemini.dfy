/**
  The Gemini bot (`bot_gemini.py`): `generate_answer` with its retry loop
  and back-off, and `complete_assessment` with an exception handler around
  each question and around the final submission.

  The language model is abstract: `replies(a)` is what attempt `a`
  (counting from 0) of `generate_content` produced for one question.
  Calls to `time.sleep` are recorded as the list of their durations.
 */
module Gemini {
  import opened Text
  import opened Quiz

  /** What one `generate_content` call produced. */
  datatype Reply =
    | Answered(text: string)  // the response text
    | ResourceExhausted       // the quota error `exceptions.ResourceExhausted`
    | Failed                  // any other exception

  /** What `generate_answer` hands back: a string, Python's `None` (only
      when no attempt is allowed), or an exception escaping it (the
      fallback `random.choice` on an empty option list). */
  datatype Generated = Answer(s: string) | NoAnswer | Raised

  /** The default `max_retries`. */
  const MaxRetries := 3

  /** The first attempt among 0..n-1 that got an answer. */
  function FirstAnswered(replies: nat -> Reply, n: nat): (r: Option<nat>)
    ensures r.Some? ==> r.value < n && replies(r.value).Answered?
  {
    if n == 0 then None
    else
      var earlier := FirstAnswered(replies, n - 1);
      if earlier.Some? then earlier
      else if replies(n - 1).Answered? then Some(n - 1)
      else None
  }

  /** FirstAnswered finds the earliest answered attempt, and finds none
      exactly when no attempt below n answered. */
  lemma {:induction false} FirstAnsweredIsFirst(replies: nat -> Reply, n: nat)
    ensures var r := FirstAnswered(replies, n);
      && (r.Some? ==> forall a :: 0 <= a < r.value ==> !replies(a).Answered?)
      && (r.None? <==> forall a :: 0 <= a < n ==> !replies(a).Answered?)
  {
    if n > 0 {
      FirstAnsweredIsFirst(replies, n - 1);
    }
  }

  /** The pause after failed attempt `attempt`: a quota error waits
      (attempt + 1) * 2 seconds, any other error 2 seconds. */
  function Backoff(reply: Reply, attempt: nat): nat {
    if reply.ResourceExhausted? then (attempt + 1) * 2 else 2
  }

  /** The pauses after the failed attempts 0..k-1. */
  function Waits(replies: nat -> Reply, k: nat): (w: seq<nat>)
    ensures |w| == k
  {
    if k == 0 then [] else Waits(replies, k - 1) + [Backoff(replies(k - 1), k - 1)]
  }

  /** Every pause `generate_answer` takes: one after each failed attempt
      but the last; none once an attempt has answered. */
  function RetryWaits(replies: nat -> Reply, maxRetries: nat): seq<nat> {
    match FirstAnswered(replies, maxRetries)
    case Some(k) => Waits(replies, k)
    case None => if maxRetries == 0 then [] else Waits(replies, maxRetries - 1)
  }

  /** The results `generate_answer` may hand back: the stripped text of the
      first answer, or, when every attempt failed, a random option (or an
      escaping IndexError when there is none); `None` when no attempt is
      allowed at all. */
  predicate Generates(options: seq<string>, replies: nat -> Reply, maxRetries: nat, g: Generated) {
    match FirstAnswered(replies, maxRetries)
    case Some(k) => g == Answer(Strip(replies(k).text))
    case None =>
      if maxRetries == 0 then g == NoAnswer
      else if options == [] then g == Raised
      else g.Answer? && g.s in options
  }

  /** `generate_answer(question, options, max_retries)`: the retry loop. */
  method GenerateAnswer(options: seq<string>, replies: nat -> Reply, maxRetries: nat)
    returns (g: Generated, sleeps: seq<nat>, calls: nat)
    ensures Generates(options, replies, maxRetries, g)
    ensures sleeps == RetryWaits(replies, maxRetries)
    ensures calls <= maxRetries
    ensures FirstAnswered(replies, maxRetries).None? ==> calls == maxRetries
    ensures FirstAnswered(replies, maxRetries).Some? ==> calls == FirstAnswered(replies, maxRetries).value + 1
  {
    sleeps, calls := [], 0;
    var attempt := 0;
    while attempt < maxRetries
      invariant attempt <= maxRetries && calls == attempt
      invariant maxRetries == 0 || attempt < maxRetries
      invariant FirstAnswered(replies, attempt).None?
      invariant sleeps == Waits(replies, attempt)
    {
      calls := calls + 1;
      match replies(attempt) {
        case Answered(text) =>
          FirstAnsweredExtends(replies, attempt + 1, maxRetries);
          g := Answer(Strip(text));
          return;
        case ResourceExhausted =>
          if attempt < maxRetries - 1 {
            sleeps := sleeps + [(attempt + 1) * 2];
          } else {
            g := Fallback(options);
            return;
          }
        case Failed =>
          if attempt < maxRetries - 1 {
            sleeps := sleeps + [2];
          } else {
            g := Fallback(options);
            return;
          }
      }
      attempt := attempt + 1;
    }
    g := NoAnswer;
  }

  /** `random.choice(options)` as the last resort of `generate_answer`. */
  method Fallback(options: seq<string>) returns (g: Generated)
    ensures options == [] ==> g == Raised
    ensures options != [] ==> g.Answer? && g.s in options
  {
    var choice := RandomChoice(options);
    g := if choice.Some? then Answer(choice.value) else Raised;
  }

  /** Once some attempt below n answered, later attempts do not change which
      one came first. */
  lemma {:induction false} FirstAnsweredExtends(replies: nat -> Reply, n: nat, m: nat)
    requires n <= m && FirstAnswered(replies, n).Some?
    ensures FirstAnswered(replies, m) == FirstAnswered(replies, n)
    decreases m
  {
    if n < m {
      FirstAnsweredExtends(replies, n, m - 1);
    }
  }

  /** The pauses after failed attempts: 2 or 2 * (a + 1) seconds after
      attempt a, and one fewer pause than attempts allowed. */
  lemma RetryWaitsBounds(replies: nat -> Reply, maxRetries: nat)
    ensures var w := RetryWaits(replies, maxRetries);
      && |w| <= (if maxRetries == 0 then 0 else maxRetries - 1)
      && (forall a :: 0 <= a < |w| ==> 2 <= w[a] <= 2 * (a + 1))
      && (forall a :: 0 <= a < |w| ==> w[a] == 2 || w[a] == 2 * (a + 1))
  {
    var w := RetryWaits(replies, maxRetries);
    WaitsAt(replies, |w|);
  }

  /** Pause a is the back-off of attempt a. */
  lemma {:induction false} WaitsAt(replies: nat -> Reply, k: nat)
    ensures forall a :: 0 <= a < k ==> Waits(replies, k)[a] == Backoff(replies(a), a)
  {
    if k > 0 {
      WaitsAt(replies, k - 1);
    }
  }

  /** Total of a list of pauses, in seconds. */
  function Total(waits: seq<nat>): nat {
    if waits == [] then 0 else Total(waits[..|waits| - 1]) + waits[|waits| - 1]
  }

  lemma TotalAppend(waits: seq<nat>, w: nat)
    ensures Total(waits + [w]) == Total(waits) + w
  {
    assert (waits + [w])[..|waits|] == waits;
  }

  /** k pauses take at least 2k seconds and at most k(k + 1) seconds, the
      upper bound reached exactly when all k attempts ran out of quota. */
  lemma {:induction false} WaitsTotal(replies: nat -> Reply, k: nat)
    ensures 2 * k <= Total(Waits(replies, k)) <= k * (k + 1)
    ensures Total(Waits(replies, k)) == k * (k + 1) <==> QuotaThroughout(replies, k)
  {
    if k > 0 {
      var earlier, last := Waits(replies, k - 1), Backoff(replies(k - 1), k - 1);
      TotalAppend(earlier, last);
      WaitsTotal(replies, k - 1);
      var t := Total(earlier);
      assert Total(Waits(replies, k)) == t + last;
      assert QuotaThroughout(replies, k) <==>
        QuotaThroughout(replies, k - 1) && (replies(k - 1).ResourceExhausted? || k - 1 == 0);
      StepBounds(t, last, k - 1, replies(k - 1).ResourceExhausted? || k - 1 == 0);
    }
  }

  /** One more pause keeps the bounds: the arithmetic step of WaitsTotal,
      with m = k - 1 pauses before and a pause of at most 2k seconds. */
  lemma StepBounds(t: int, last: int, m: nat, quota: bool)
    requires 2 * m <= t <= m * (m + 1)
    requires 2 <= last <= 2 * (m + 1)
    requires last == 2 * (m + 1) <==> quota
    ensures 2 * (m + 1) <= t + last <= (m + 1) * (m + 2)
    ensures t + last == (m + 1) * (m + 2) <==> t == m * (m + 1) && quota
  {
    assert (m + 1) * (m + 2) == m * (m + 1) + 2 * (m + 1);
  }

  /** Every attempt below k after the first ran out of quota. */
  predicate QuotaThroughout(replies: nat -> Reply, k: nat) {
    forall a :: 0 <= a < k ==> replies(a).ResourceExhausted? || a == 0
  }

  /** With the default three attempts, one question spends at most six
      seconds waiting, and the pauses are 2 then 4 seconds when every
      attempt runs out of quota. */
  lemma DefaultRetryWaits(replies: nat -> Reply)
    ensures Total(RetryWaits(replies, MaxRetries)) <= 6
    ensures (forall a :: 0 <= a < MaxRetries ==> replies(a).ResourceExhausted?) ==>
      RetryWaits(replies, MaxRetries) == [2, 4]
  {
    var first := FirstAnswered(replies, MaxRetries);
    if first.Some? {
      WaitsTotal(replies, first.value);
    } else {
      WaitsTotal(replies, MaxRetries - 1);
    }
  }

  /** The body of the `try` around one question: ask the model, scan the
      options with the stripped answer, fall back to a random option.
      `pick` is None when an exception is raised on the way: the model
      gave no text, the label search of the matched option raised, or the
      random fallback did. */
  method TryAnswer(div: nat, opts: seq<string>, replies: nat -> Reply, lookup: (nat, string) -> Lookup)
    returns (pick: Option<Pick>, g: Generated, sleeps: seq<nat>)
    ensures Generates(opts, replies, MaxRetries, g) && sleeps == RetryWaits(replies, MaxRetries)
    ensures pick.Some? ==> Admissible(pick.value, div, opts, lookup) && pick.value.route != Recovered
    ensures pick.Some? ==> g.Answer? && Follows(pick.value, g.s, opts, div, lookup)
    ensures g.Answer? && Scan(g.s, opts, div, lookup).Hit? ==>
      pick == Some(Pick(div, opts[Scan(g.s, opts, div, lookup).index], true, Matched))
    ensures !g.Answer? || Scan(g.s, opts, div, lookup).Fault? ==> pick.None?
    ensures pick.None? ==>
      || !g.Answer?
      || Scan(g.s, opts, div, lookup).Fault?
      || (Scan(g.s, opts, div, lookup).Miss? && (opts == [] || SomeLabelInvalid(opts, div, lookup)))
  {
    var calls;
    g, sleeps, calls := GenerateAnswer(opts, replies, MaxRetries);
    pick := None;
    if g.Answer? {
      var formatted := Strip(g.s);
      StandardizeStrip(g.s);
      var m, found := MatchOption(formatted, opts, div, lookup);
      if found {
        pick := Some(Pick(div, opts[m.index], true, Matched));
      } else if m.Miss? {
        var choice;
        pick, choice := GuessOption(div, opts, lookup, Guessed);
      }
    }
  }

  /** The pick of one question follows the answer `g` that `generate_answer`
      handed back; when that call raised instead, only the exception
      handler's random option is possible. */
  predicate Decided(pick: Pick, g: Generated, opts: seq<string>, div: nat, lookup: (nat, string) -> Lookup) {
    if g.Answer? then Follows(pick, g.s, opts, div, lookup) else pick.route == Recovered
  }

  /** One question of the answering loop with its exception handler: when
      the `try` body raises (`raised`), click a random option (`rescue`)
      instead; an exception in the handler itself escapes (None). `g` is
      what `generate_answer` handed back. */
  method AnswerQuestion(div: nat, opts: seq<string>, replies: nat -> Reply, lookup: (nat, string) -> Lookup)
    returns (pick: Option<Pick>, g: Generated, sleeps: seq<nat>, ghost raised: bool, ghost rescue: Option<string>)
    ensures Generates(opts, replies, MaxRetries, g) && sleeps == RetryWaits(replies, MaxRetries)
    ensures opts == [] ==> pick.None?
    ensures pick.None? ==> opts == [] || SomeLabelInvalid(opts, div, lookup)
    ensures pick.Some? ==> Admissible(pick.value, div, opts, lookup) && Decided(pick.value, g, opts, div, lookup)
    ensures g.Answer? && Scan(g.s, opts, div, lookup).Hit? ==> pick.Some?
    ensures !g.Answer? || Scan(g.s, opts, div, lookup).Fault? ==> raised
    ensures raised ==>
      || !g.Answer?
      || Scan(g.s, opts, div, lookup).Fault?
      || (Scan(g.s, opts, div, lookup).Miss? && (opts == [] || SomeLabelInvalid(opts, div, lookup)))
    ensures raised <==> pick.None? || pick.value.route == Recovered
    ensures raised ==>
      && (rescue.None? <==> opts == [])
      && (rescue.Some? ==> rescue.value in opts && pick == Clicked(div, rescue.value, lookup, Recovered))
    ensures pick.None? ==> GuessRaised(opts, div, lookup, rescue)
  {
    var tried, answer, waits := TryAnswer(div, opts, replies, lookup);
    g, sleeps := answer, waits;
    raised, rescue := tried.None?, None;
    if tried.Some? {
      pick := tried;
    } else {
      var choice;
      pick, choice := GuessOption(div, opts, lookup, Recovered);
      rescue := choice;
    }
  }

  /** The attempts for collected question i. */
  function Attempts(replies: (nat, nat) -> Reply, i: nat): nat -> Reply {
    (a: nat) => replies(i, a)
  }

  /** Every pause of the answering loop over the first n questions, in
      order: the retry pauses of each question in turn. */
  function RunWaits(replies: (nat, nat) -> Reply, n: nat): seq<nat> {
    if n == 0 then [] else RunWaits(replies, n - 1) + RetryWaits(Attempts(replies, n - 1), MaxRetries)
  }

  /** Answering n questions pauses at most twice per question, each pause
      lasting 2 or 4 seconds. */
  lemma {:induction false} RunWaitsBounds(replies: (nat, nat) -> Reply, n: nat)
    ensures var w := RunWaits(replies, n);
      && |w| <= (MaxRetries - 1) * n
      && (forall j :: 0 <= j < |w| ==> 2 <= w[j] <= 2 * (MaxRetries - 1))
      && (forall j :: 0 <= j < |w| ==> w[j] == 2 || w[j] == 4)
  {
    if n > 0 {
      var earlier, last := RunWaits(replies, n - 1), RetryWaits(Attempts(replies, n - 1), MaxRetries);
      RunWaitsBounds(replies, n - 1);
      RetryWaitsBounds(Attempts(replies, n - 1), MaxRetries);
      var w := earlier + last;
      forall j | 0 <= j < |w|
        ensures 2 <= w[j] <= 2 * (MaxRetries - 1)
        ensures w[j] == 2 || w[j] == 4
      {
        if j >= |earlier| {
          assert w[j] == last[j - |earlier|];
        }
      }
    }
  }

  /** The answering loop stopped at collected question k: its answer was
      handed back, the `try` body raised (the scan did not hit), and the
      handler raised too: no option to choose, or the label search for its
      random choice `rescue` raised. */
  predicate Abandoned(options: seq<seq<string>>, answers: seq<Generated>, k: nat,
                      lookup: (nat, string) -> Lookup, rescue: Option<string>) {
    && k < |options| && |answers| == k + 1
    && !(answers[k].Answer? && Scan(answers[k].s, options[k], k + 1, lookup).Hit?)
    && GuessRaised(options[k], k + 1, lookup, rescue)
  }

  /** The state of the answering loop of `bot_gemini.py`: answer k is what
      `generate_answer` handed back for question k, and pick k follows it. */
  predicate AllDecided(picks: seq<Pick>, answers: seq<Generated>, options: seq<seq<string>>,
                       replies: (nat, nat) -> Reply, lookup: (nat, string) -> Lookup)
    requires |picks| <= |answers| <= |options|
  {
    && (forall k :: 0 <= k < |answers| ==> Generates(options[k], Attempts(replies, k), MaxRetries, answers[k]))
    && (forall k :: 0 <= k < |picks| ==> Decided(picks[k], answers[k], options[k], k + 1, lookup))
  }

  lemma DecidedStep(picks: seq<Pick>, answers: seq<Generated>, options: seq<seq<string>>,
                    replies: (nat, nat) -> Reply, lookup: (nat, string) -> Lookup, g: Generated, pick: Option<Pick>)
    requires |picks| == |answers| < |options|
    requires AllDecided(picks, answers, options, replies, lookup)
    requires Generates(options[|answers|], Attempts(replies, |answers|), MaxRetries, g)
    requires AllAdmissible(picks, options, lookup)
    requires pick.Some? ==>
      var k := |answers|;
      Admissible(pick.value, k + 1, options[k], lookup) && Decided(pick.value, g, options[k], k + 1, lookup)
    ensures AllDecided(picks, answers + [g], options, replies, lookup)
    ensures pick.Some? ==>
      && AllAdmissible(picks + [pick.value], options, lookup)
      && AllDecided(picks + [pick.value], answers + [g], options, replies, lookup)
  {
    var n, more := |answers|, answers + [g];
    forall k | 0 <= k < |more|
      ensures Generates(options[k], Attempts(replies, k), MaxRetries, more[k])
    {
      if k < n {
        assert more[k] == answers[k];
      }
    }
    if pick.Some? {
      var picked := picks + [pick.value];
      forall k | 0 <= k < |picked|
        ensures Admissible(picked[k], k + 1, options[k], lookup)
        ensures Decided(picked[k], more[k], options[k], k + 1, lookup)
      {
        if k < n {
          assert picked[k] == picks[k] && more[k] == answers[k];
        }
      }
    }
  }

  /** `complete_assessment(driver)` of the Gemini bot. `startOk` and
      `submitOk` say whether the start and submit buttons became clickable;
      `replies(i, a)` is attempt a for collected question i. `answers` holds
      what `generate_answer` handed back for each question reached, and
      `rescue` the handler's random choice at the question that ended an
      aborted run. */
  method CompleteAssessment(startOk: bool, extract: nat -> Extraction, replies: (nat, nat) -> Reply,
                            lookup: (nat, string) -> Lookup, submitOk: bool)
    returns (outcome: Outcome, sleeps: seq<nat>, ghost answers: seq<Generated>, ghost rescue: Option<string>)
    ensures !startOk <==> outcome == StartFailed
    ensures var h := Collected(extract, QuestionSlots);
      && (outcome.CountMismatch? <==> startOk && |h.questions| != |h.options|)
      && (outcome.CountMismatch? ==> outcome == CountMismatch(|h.questions|, |h.options|))
    ensures outcome.StartFailed? || outcome.CountMismatch? ==> answers == []
    ensures sleeps == RunWaits(replies, |answers|)
    ensures var h := Collected(extract, QuestionSlots);
      outcome.Aborted? || outcome.Submitted? || outcome.SubmitFailed? ==>
        && |h.options| == |h.questions| && |outcome.picks| <= |answers| <= |h.questions|
        && AllAdmissible(outcome.picks, h.options, lookup)
        && AllDecided(outcome.picks, answers, h.options, replies, lookup)
    // `Stuck` follows from `Abandoned`; it is kept as the shorter fact for callers.
    ensures var h := Collected(extract, QuestionSlots);
      outcome.Aborted? ==>
        Stuck(h.options, |outcome.picks|, lookup) && Abandoned(h.options, answers, |outcome.picks|, lookup, rescue)
    ensures var h := Collected(extract, QuestionSlots);
      outcome.Submitted? || outcome.SubmitFailed? ==>
        |outcome.picks| == |answers| == |h.questions| && (outcome.Submitted? <==> submitOk)
    ensures startOk && Collected(extract, QuestionSlots).questions == [] ==>
      outcome == (if submitOk then Submitted([]) else SubmitFailed([]))
    ensures forall j :: 0 <= j < |sleeps| ==> 2 <= sleeps[j] <= 2 * (MaxRetries - 1)
    ensures forall j :: 0 <= j < |sleeps| ==> sleeps[j] == 2 || sleeps[j] == 4
    ensures |sleeps| <= (MaxRetries - 1) * |Collected(extract, QuestionSlots).questions|
  {
    sleeps, answers, rescue := [], [], None;
    if !startOk {
      outcome := StartFailed;
    } else {
      var questions, options := Collect(extract);
      CollectedBounds(extract, QuestionSlots);
      assert Collected(extract, QuestionSlots).options == options;
      if |questions| != |options| {
        outcome := CountMismatch(|questions|, |options|);
      } else {
        var picks, complete;
        picks, complete, sleeps, answers, rescue := AnswerAll(options, replies, lookup);
        if !complete {
          outcome := Aborted(picks);
        } else if submitOk {
          outcome := Submitted(picks);
        } else {
          outcome := SubmitFailed(picks);
        }
      }
    }
  }

  /** The answering loop `for i, question in enumerate(questions)`: each
      question in turn until one lets an exception escape (`complete` is
      false and `picks` holds the questions answered before it). */
  method AnswerAll(options: seq<seq<string>>, replies: (nat, nat) -> Reply, lookup: (nat, string) -> Lookup)
    returns (picks: seq<Pick>, complete: bool, sleeps: seq<nat>, ghost answers: seq<Generated>,
             ghost rescue: Option<string>)
    ensures |picks| <= |answers| <= |options| && |answers| <= |picks| + 1
    ensures AllAdmissible(picks, options, lookup) && AllDecided(picks, answers, options, replies, lookup)
    ensures complete <==> |picks| == |options|
    ensures complete ==> |answers| == |options|
    // `Stuck` follows from `Abandoned`; it is kept as the shorter fact for callers.
    ensures !complete ==> Stuck(options, |picks|, lookup) && Abandoned(options, answers, |picks|, lookup, rescue)
    ensures sleeps == RunWaits(replies, |answers|)
    ensures forall j :: 0 <= j < |sleeps| ==> 2 <= sleeps[j] <= 2 * (MaxRetries - 1)
    ensures forall j :: 0 <= j < |sleeps| ==> sleeps[j] == 2 || sleeps[j] == 4
    ensures |sleeps| <= (MaxRetries - 1) * |options|
  {
    picks, complete, sleeps, answers, rescue := [], true, [], [], None;
    for i := 0 to |options|
      invariant |picks| == i == |answers|
      invariant AllAdmissible(picks, options, lookup) && AllDecided(picks, answers, options, replies, lookup)
      invariant sleeps == RunWaits(replies, i)
    {
      var ask := Attempts(replies, i);
      var pick, g, waits;
      ghost var raised, choice;
      pick, g, waits, raised, choice := AnswerQuestion(i + 1, options[i], ask, lookup);
      DecidedStep(picks, answers, options, replies, lookup, g, pick);
      sleeps := sleeps + waits;
      answers := answers + [g];
      if pick.None? {
        complete, rescue := false, choice;
        break;
      }
      picks := picks + [pick.value];
    }
    RunWaitsBounds(replies, |answers|);
  }
}
