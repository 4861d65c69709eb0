/**
  The parts of `complete_assessment` that both quiz bots share word for
  word: reading questions and options from the ten question divisions of
  the exam page, scanning the options for the one that matches the
  language model's answer, and picking an option at random.

  The live page is abstract. `extract(n)` says what reading the division
  `div_q_n` produced, and `lookup(div, option)` says what the XPath search
  for a label containing `option` inside `div_q_div` returned.
 */
module Quiz {
  import opened Text

  datatype Option<T> = None | Some(value: T)

  /** Number of question divisions the bots read (`range(1, 11)`). */
  const QuestionSlots := 10

  /** What reading division `div_q_n` produced. */
  datatype Extraction =
    | Extracted(question: string, labels: seq<string>)  // heading and every option label read
    | HeadingOnly(question: string)                     // heading appended, then reading a label raised
    | Unreadable                                         // division or heading missing: nothing appended

  /** Result of searching one division for a label containing an option's text. */
  datatype Lookup =
    | Found    // at least one label: it is clicked
    | Absent   // empty result
    | Invalid  // the search raised (for instance a quote in the option breaks the XPath)

  /** How the clicked or chosen option of one question was reached. */
  datatype Route =
    | Matched    // the scan found a matching, labelled option
    | Guessed    // no match: a random option was chosen
    | Recovered  // answering raised: the except handler chose a random option

  /** The option decided for one collected question, the division searched
      for its label, and whether a label was clicked. */
  datatype Pick = Pick(div: nat, option: string, clicked: bool, route: Route)

  /** How one run of `complete_assessment` ended. */
  datatype Outcome =
    | StartFailed                                 // the start button never became clickable
    | CountMismatch(questions: nat, options: nat) // the lengths of the two lists differ
    | Aborted(picks: seq<Pick>)                   // an exception escaped while answering question |picks|
    | Submitted(picks: seq<Pick>)                 // every question answered, the submit button clicked
    | SubmitFailed(picks: seq<Pick>)              // every question answered, the submit button not clickable

  /** The two parallel lists built by the collection loop. */
  datatype Harvest = Harvest(questions: seq<string>, options: seq<seq<string>>)

  /** `[option.text.strip() for option in option_elements]` */
  function StripAll(labels: seq<string>): (r: seq<string>)
    ensures |r| == |labels|
    ensures forall k :: 0 <= k < |r| ==> r[k] == Strip(labels[k]) && Trimmed(r[k])
  {
    seq(|labels|, k requires 0 <= k < |labels| => Strip(labels[k]))
  }

  /** The lists after the collection loop has visited ordinals 1..n. */
  function Collected(extract: nat -> Extraction, n: nat): Harvest
  {
    if n == 0 then Harvest([], [])
    else
      var h := Collected(extract, n - 1);
      match extract(n)
      case Extracted(q, labels) => Harvest(h.questions + [q], h.options + [StripAll(labels)])
      case HeadingOnly(q) => Harvest(h.questions + [q], h.options)
      case Unreadable => h
  }

  /** The ordinals among 1..n whose heading was read, in visiting order:
      the division each collected question came from. */
  function Origins(extract: nat -> Extraction, n: nat): seq<nat>
  {
    if n == 0 then []
    else if extract(n).Unreadable? then Origins(extract, n - 1)
    else Origins(extract, n - 1) + [n]
  }

  /** The collection loop: ordinals 1 to 10 in turn, appending the heading
      and then the stripped option labels; a failure skips to the next
      ordinal. */
  method Collect(extract: nat -> Extraction) returns (questions: seq<string>, options: seq<seq<string>>)
    ensures Harvest(questions, options) == Collected(extract, QuestionSlots)
  {
    questions, options := [], [];
    for n := 1 to QuestionSlots + 1
      invariant Harvest(questions, options) == Collected(extract, n - 1)
    {
      match extract(n)
      case Extracted(q, labels) =>
        questions := questions + [q];
        options := options + [StripAll(labels)];
      case HeadingOnly(q) =>
        questions := questions + [q];
      case Unreadable =>
    }
  }

  /** `len(options) <= len(questions) <= n`, and each question has exactly
      one division of origin. */
  lemma {:induction false} CollectedBounds(extract: nat -> Extraction, n: nat)
    ensures |Collected(extract, n).options| <= |Collected(extract, n).questions| <= n
    ensures |Origins(extract, n)| == |Collected(extract, n).questions|
  {
    if n > 0 {
      CollectedBounds(extract, n - 1);
    }
  }

  /** Question k was read from division `Origins[k]`; origins rise strictly,
      and every readable ordinal up to n contributed a question. */
  lemma {:induction false} CollectedQuestions(extract: nat -> Extraction, n: nat)
    ensures var h, o := Collected(extract, n), Origins(extract, n);
      && |o| == |h.questions|
      && (forall k :: 0 <= k < |o| ==>
            1 <= o[k] <= n && !extract(o[k]).Unreadable? && h.questions[k] == extract(o[k]).question)
      && (forall k, m :: 0 <= k < m < |o| ==> o[k] < o[m])
      && (forall d :: 1 <= d <= n && !extract(d).Unreadable? ==> d in o)
  {
    CollectedBounds(extract, n);
    if n > 0 {
      CollectedQuestions(extract, n - 1);
    }
  }

  predicate NoHeadingOnly(extract: nat -> Extraction, n: nat) {
    forall d :: 1 <= d <= n ==> !extract(d).HeadingOnly?
  }

  /** The two lists have equal length exactly when no division lost its
      options after its heading was read, and then options[k] comes from the
      same division as questions[k]. */
  lemma {:induction false} CollectedAligned(extract: nat -> Extraction, n: nat)
    ensures var h := Collected(extract, n);
      |h.options| == |h.questions| <==> NoHeadingOnly(extract, n)
    ensures var h, o := Collected(extract, n), Origins(extract, n);
      NoHeadingOnly(extract, n) ==>
        |h.options| == |o| &&
        forall k :: 0 <= k < |o| ==>
          extract(o[k]).Extracted? && h.options[k] == StripAll(extract(o[k]).labels)
  {
    CollectedBounds(extract, n);
    CollectedQuestions(extract, n);
    if n > 0 {
      CollectedAligned(extract, n - 1);
      CollectedBounds(extract, n - 1);
      if extract(n).HeadingOnly? {
        assert !NoHeadingOnly(extract, n);
      } else if !NoHeadingOnly(extract, n - 1) {
        var d :| 1 <= d <= n - 1 && extract(d).HeadingOnly?;
        assert !NoHeadingOnly(extract, n);
      }
    }
  }

  predicate AllReadable(extract: nat -> Extraction, n: nat) {
    forall d :: 1 <= d <= n ==> !extract(d).Unreadable?
  }

  /** Every one of the first n divisions contributed a question exactly
      when none of them was unreadable. */
  lemma {:induction false} OriginsFull(extract: nat -> Extraction, n: nat)
    ensures |Origins(extract, n)| <= n
    ensures |Origins(extract, n)| == n <==> AllReadable(extract, n)
  {
    if n > 0 {
      OriginsFull(extract, n - 1);
      if !AllReadable(extract, n - 1) {
        var d :| 1 <= d <= n - 1 && extract(d).Unreadable?;
        assert !AllReadable(extract, n);
      }
    }
  }

  lemma {:induction false} OriginsGrow(extract: nat -> Extraction, j: nat, n: nat)
    requires j <= n
    ensures |Origins(extract, j)| <= |Origins(extract, n)|
    decreases n
  {
    if j < n {
      OriginsGrow(extract, j, n - 1);
    }
  }

  /** Answers for the k-th collected question are looked for in division
      k + 1, whatever division the question came from: the two agree only
      while none of the divisions 1..k+1 was unreadable, and otherwise the
      question came from a later division than the one searched. */
  lemma {:induction false} ClickTargetShift(extract: nat -> Extraction, n: nat)
    ensures var o := Origins(extract, n);
      forall k :: 0 <= k < |o| ==>
        && k + 1 <= o[k]
        && (o[k] == k + 1 <==> AllReadable(extract, k + 1))
  {
    if n > 0 {
      ClickTargetShift(extract, n - 1);
      if !extract(n).Unreadable? {
        OriginsFull(extract, n - 1);
        var m := |Origins(extract, n - 1)|;
        assert Origins(extract, n)[m] == n;
        if m == n - 1 {
          assert AllReadable(extract, n);
        } else {
          assert !AllReadable(extract, m + 1) by {
            if AllReadable(extract, m + 1) {
              OriginsFull(extract, m + 1);
              OriginsGrow(extract, m + 1, n - 1);
            }
          }
        }
      }
    }
  }

  /** The matcher's text test, `standardize_text(formatted_answer) in
      standardize_text(option)`. */
  predicate Candidate(answer: string, option: string) {
    Contains(StandardizeText(option), StandardizeText(answer))
  }

  /** `standardize_text` of every option, in order. */
  function Keys(opts: seq<string>): (keys: seq<string>)
    ensures |keys| == |opts|
  {
    seq(|opts|, j requires 0 <= j < |opts| => StandardizeText(opts[j]))
  }

  /** The options at positions lo..hi-1 are ones the matching loop walks
      past: the standardised answer `key` is not in their standardised text
      `keys[j]`, or their label search comes back empty. */
  predicate PassedOver(key: string, keys: seq<string>, opts: seq<string>, div: nat,
                       lookup: (nat, string) -> Lookup, lo: nat, hi: nat)
    requires |keys| == |opts| && lo <= hi <= |opts|
  {
    forall j :: lo <= j < hi ==> !Contains(keys[j], key) || lookup(div, opts[j]) == Absent
  }

  /** How the matching loop over one question's options ends. */
  datatype Match =
    | Hit(index: nat)    // options[index] matched and its label was clicked
    | Fault(index: nat)  // options[index] matched and its label search raised
    | Miss               // the loop ran out: no option matched with a label

  /** The matching loop from position `from` on: it stops at the first
      option whose standardised text contains `key` and whose label search
      is not empty (`ScanFromFirstMatch`). */
  function ScanFrom(key: string, keys: seq<string>, opts: seq<string>, div: nat,
                    lookup: (nat, string) -> Lookup, from: nat): (r: Match)
    requires |keys| == |opts| && from <= |opts|
    ensures !r.Miss? ==> from <= r.index < |opts|
    decreases |opts| - from
  {
    if from == |opts| then Miss
    else if Contains(keys[from], key) && lookup(div, opts[from]) == Found then Hit(from)
    else if Contains(keys[from], key) && lookup(div, opts[from]) == Invalid then Fault(from)
    else ScanFrom(key, keys, opts, div, lookup, from + 1)
  }

  /** The scan from `from` ends at the first option from there on that
      passes the text test with a non-empty search, reports whether its
      search raised, and misses only when there is no such option. */
  lemma {:induction false} ScanFromFirstMatch(key: string, keys: seq<string>, opts: seq<string>, div: nat,
                                              lookup: (nat, string) -> Lookup, from: nat)
    requires |keys| == |opts| && from <= |opts|
    ensures var r := ScanFrom(key, keys, opts, div, lookup, from);
      && (r.Hit? ==>
            && Contains(keys[r.index], key) && lookup(div, opts[r.index]) == Found
            && PassedOver(key, keys, opts, div, lookup, from, r.index))
      && (r.Fault? ==>
            && Contains(keys[r.index], key) && lookup(div, opts[r.index]) == Invalid
            && PassedOver(key, keys, opts, div, lookup, from, r.index))
      && (r.Miss? ==> PassedOver(key, keys, opts, div, lookup, from, |opts|))
    decreases |opts| - from
  {
    if from < |opts| {
      ScanFromFirstMatch(key, keys, opts, div, lookup, from + 1);
    }
  }

  /** The matching loop over all options of one question, for the answer
      `answer`, searching division `div_q_div` for labels. */
  function Scan(answer: string, opts: seq<string>, div: nat, lookup: (nat, string) -> Lookup): Match {
    ScanFrom(StandardizeText(answer), Keys(opts), opts, div, lookup, 0)
  }

  /** The scan picks the FIRST option, in list order, that passes the text
      test and has a label; it raises only at such an option whose search
      raises; and it misses exactly when no option passes the text test
      with a non-empty search. */
  lemma ScanIsFirstMatch(answer: string, opts: seq<string>, div: nat, lookup: (nat, string) -> Lookup)
    ensures var r := Scan(answer, opts, div, lookup);
      && (r.Hit? ==> r.index < |opts| && Candidate(answer, opts[r.index]) && lookup(div, opts[r.index]) == Found)
      && (r.Fault? ==> r.index < |opts| && Candidate(answer, opts[r.index]) && lookup(div, opts[r.index]) == Invalid)
      && (forall j :: 0 <= j < |opts| && Candidate(answer, opts[j]) && lookup(div, opts[j]) != Absent ==>
            !r.Miss? && r.index <= j)
  {
    var key, keys := StandardizeText(answer), Keys(opts);
    var r := ScanFrom(key, keys, opts, div, lookup, 0);
    ScanFromFirstMatch(key, keys, opts, div, lookup, 0);
    forall j | 0 <= j < |opts| && Candidate(answer, opts[j]) && lookup(div, opts[j]) != Absent
      ensures !r.Miss? && r.index <= j
    {
      assert Contains(keys[j], key);
    }
  }

  /** The option loop with its `found` flag: walk the options in order and
      click the label of the first one whose standardised text contains the
      standardised answer and whose label search finds something. */
  method MatchOption(answer: string, opts: seq<string>, div: nat, lookup: (nat, string) -> Lookup)
    returns (r: Match, found: bool)
    ensures r == Scan(answer, opts, div, lookup)
    ensures found <==> r.Hit?
    ensures r.Hit? ==> lookup(div, opts[r.index]) == Found
    ensures r.Fault? ==> lookup(div, opts[r.index]) == Invalid
  {
    ghost var key, keys := StandardizeText(answer), Keys(opts);
    found := false;
    r := Miss;
    var k := 0;
    while k < |opts|
      invariant k <= |opts|
      invariant !found && r == Miss
      invariant Scan(answer, opts, div, lookup) == ScanFrom(key, keys, opts, div, lookup, k)
    {
      var option := opts[k];
      if Contains(StandardizeText(option), StandardizeText(answer)) {
        var labels := lookup(div, option);
        if labels == Invalid {
          r := Fault(k);
          return;
        }
        if labels == Found {
          r, found := Hit(k), true;
          break;
        }
      }
      k := k + 1;
    }
  }

  /** The standardised answer is empty (the model replied with nothing but
      whitespace): it is contained in every option, so the scan stops at the
      first option whose label search is not empty. */
  lemma EmptyAnswerTakesFirstLabelled(answer: string, opts: seq<string>, div: nat, lookup: (nat, string) -> Lookup)
    requires StandardizeText(answer) == []
    ensures var r := Scan(answer, opts, div, lookup);
      && (r.Miss? <==> forall j :: 0 <= j < |opts| ==> lookup(div, opts[j]) == Absent)
      && (!r.Miss? ==>
            && r.index < |opts| && lookup(div, opts[r.index]) != Absent
            && forall j :: 0 <= j < r.index ==> lookup(div, opts[j]) == Absent)
  {
    var keys := Keys(opts);
    ScanFromFirstMatch(StandardizeText(answer), keys, opts, div, lookup, 0);
    forall j | 0 <= j < |opts|
      ensures Contains(keys[j], [])
    {
      ContainsEmpty(keys[j]);
    }
  }

  /** Some option's label search raises. */
  predicate SomeLabelInvalid(opts: seq<string>, div: nat, lookup: (nat, string) -> Lookup) {
    exists j :: 0 <= j < |opts| && lookup(div, opts[j]) == Invalid
  }

  /** `random.choice(opts)`: some member of the list, chosen freely here;
      on an empty list Python raises IndexError, shown as None. */
  method RandomChoice(opts: seq<string>) returns (r: Option<string>)
    ensures r.None? <==> opts == []
    ensures r.Some? ==> r.value in opts
  {
    if opts == [] {
      r := None;
    } else {
      assert opts[0] in opts;
      var option :| option in opts;
      r := Some(option);
    }
  }

  /** A decided option for division `div` is one of the question's options
      whose label search did not raise, and it was clicked exactly when the
      search found a label. */
  predicate Admissible(pick: Pick, div: nat, opts: seq<string>, lookup: (nat, string) -> Lookup) {
    && pick.div == div
    && pick.option in opts
    && lookup(div, pick.option) != Invalid
    && (pick.clicked <==> lookup(div, pick.option) == Found)
  }

  /** Clicking the first label for `option` in division `div`: None when
      the label search raises, and a click exactly when it finds a label. */
  function Clicked(div: nat, option: string, lookup: (nat, string) -> Lookup, route: Route): Option<Pick> {
    if lookup(div, option) == Invalid then None
    else Some(Pick(div, option, lookup(div, option) == Found, route))
  }

  /** Clicking a random option raised: there was none to choose from
      (`random.choice` on an empty list), or the label search for the
      option chosen, `choice`, raised. */
  predicate GuessRaised(opts: seq<string>, div: nat, lookup: (nat, string) -> Lookup, choice: Option<string>) {
    opts == [] || (choice.Some? && choice.value in opts && lookup(div, choice.value) == Invalid)
  }

  /** The random fallback: choose an option (`choice`), search division
      `div` for its label and click the first hit. Choosing from an empty
      list or a search that raises lets the exception escape (None). */
  method GuessOption(div: nat, opts: seq<string>, lookup: (nat, string) -> Lookup, route: Route)
    returns (pick: Option<Pick>, choice: Option<string>)
    ensures choice.None? <==> opts == []
    ensures choice.Some? ==> choice.value in opts && pick == Clicked(div, choice.value, lookup, route)
    ensures opts == [] ==> pick.None?
    ensures pick.None? ==> opts == [] || SomeLabelInvalid(opts, div, lookup)
    ensures pick.None? ==> GuessRaised(opts, div, lookup, choice)
    ensures pick.Some? ==> Admissible(pick.value, div, opts, lookup) && pick.value.route == route
  {
    choice := RandomChoice(opts);
    if choice.None? {
      pick := None;
    } else {
      var labels := lookup(div, choice.value);
      if labels == Invalid {
        pick := None;
      } else {
        pick := Some(Pick(div, choice.value, labels == Found, route));
      }
    }
  }

  /** `pick` is what the answering code made of the model's answer `answer`
      for division `div`: the option the scan hit whenever it hit (and only
      then a matched pick), a random option only after a miss, and the
      exception handler's random option only after the scan's label search
      raised or a miss was followed by a random option whose search can
      raise. */
  predicate Follows(pick: Pick, answer: string, opts: seq<string>, div: nat, lookup: (nat, string) -> Lookup) {
    var m := Scan(answer, opts, div, lookup);
    && (m.Hit? ==> pick == Pick(div, opts[m.index], true, Matched))
    && (pick.route == Matched ==> m.Hit?)
    && (pick.route == Guessed ==> m.Miss?)
    && (pick.route == Recovered ==> m.Fault? || (m.Miss? && SomeLabelInvalid(opts, div, lookup)))
  }

  /** Every recorded pick k was decided for collected question k, in
      division k + 1, among that question's options. */
  predicate AllAdmissible(picks: seq<Pick>, options: seq<seq<string>>, lookup: (nat, string) -> Lookup)
    requires |picks| <= |options|
  {
    forall k :: 0 <= k < |picks| ==> Admissible(picks[k], k + 1, options[k], lookup)
  }

  /** What an exception escaping the answering of collected question k
      needs: the question has no options (`random.choice` raises), or
      searching its division for one of its options raises. It is necessary
      for the loop to stop at question k, not sufficient. */
  predicate Stuck(options: seq<seq<string>>, k: nat, lookup: (nat, string) -> Lookup) {
    k < |options| && (options[k] == [] || SomeLabelInvalid(options[k], k + 1, lookup))
  }
}
