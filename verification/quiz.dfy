/**
 The quiz page's step machine: the current step, the answers recorded so
 far, and the answer being edited. Each handler is one atomic transition
 (the 500 ms delay of a single choice is collapsed into it).
 */
module Quiz {
  import opened Base

  /** The question ids in step order, as the quiz data lists them. */
  const QuestionIds: seq<int> := [1, 2, 3, 4, 5, 6, 7, 8, 9, 10, 11, 12, 13, 14, 15, 16, 17]

  /** The index of the last step. */
  const LastStep := |QuestionIds| - 1

  /** `string | string[]`: a typed or chosen text, or the boxes ticked. */
  datatype AnswerValue = Text(s: string) | Choices(xs: seq<string>)

  datatype Answer = Answer(questionId: int, value: AnswerValue)

  datatype QuizState = QuizState(step: nat, answers: seq<Answer>, current: Option<AnswerValue>)

  const Start := QuizState(0, [], None)

  /** The step points at a question. */
  predicate Valid(st: QuizState)
  {
    st.step <= LastStep
  }

  lemma QuestionIdsAscending()
    ensures forall k :: 0 <= k < |QuestionIds| ==> QuestionIds[k] == k + 1
  {
  }

  /** The answer for the current step, when one is being edited. */
  function Recorded(st: QuizState): seq<Answer>
    requires Valid(st)
  {
    if st.current.Some? then [Answer(QuestionIds[st.step], st.current.value)] else []
  }

  /** `handleNext`: record the current answer if there is one; advance and clear it unless on the last step. */
  function HandleNext(st: QuizState): (r: QuizState)
    requires Valid(st)
    ensures Valid(r)
    ensures st.current.None? ==> r.answers == st.answers
    ensures st.current.Some? ==> r.answers == st.answers + [Answer(st.step + 1, st.current.value)]
    ensures st.step < LastStep ==> r.step == st.step + 1 && r.current.None?
    ensures st.step == LastStep ==> r.step == st.step && r.current == st.current
  {
    QuestionIdsAscending();
    var answers := st.answers + Recorded(st);
    if st.step < LastStep then QuizState(st.step + 1, answers, None)
    else st.(answers := answers)
  }

  /**
   `handleSingleChoice(value)`: the choice becomes the current answer; before
   the last step it is then recorded and the quiz moves on, on the last step
   nothing is recorded.
   */
  function HandleSingleChoice(st: QuizState, value: string): (r: QuizState)
    requires Valid(st)
    ensures Valid(r)
    ensures st.step < LastStep ==>
      r == QuizState(st.step + 1, st.answers + [Answer(st.step + 1, Text(value))], None)
    ensures st.step == LastStep ==> r == st.(current := Some(Text(value)))
  {
    QuestionIdsAscending();
    if st.step < LastStep then QuizState(st.step + 1, st.answers + [Answer(QuestionIds[st.step], Text(value))], None)
    else st.(current := Some(Text(value)))
  }

  /** `Array.isArray(currentAnswer) ? [...currentAnswer] : []`. */
  function TickedBoxes(current: Option<AnswerValue>): seq<string>
  {
    if current.Some? && current.value.Choices? then current.value.xs else []
  }

  /** `xs.filter((v) => v !== value)`. */
  function Without(xs: seq<string>, value: string): (r: seq<string>)
    ensures value !in r
    ensures forall x :: x != value ==> (x in r <==> x in xs)
    ensures multiset(r) == multiset(xs)[value := 0]
    ensures value !in xs ==> r == xs
  {
    if |xs| == 0 then []
    else
      assert xs == [xs[0]] + xs[1..];
      var rest := Without(xs[1..], value);
      if xs[0] == value then rest else [xs[0]] + rest
  }

  /** Tick the box if unticked, untick it (every copy) if ticked. */
  function Toggle(xs: seq<string>, value: string): (r: seq<string>)
    ensures value in r <==> value !in xs
    ensures forall x :: x != value ==> (x in r <==> x in xs)
    ensures value !in xs ==> r == xs + [value]
  {
    if value in xs then Without(xs, value) else xs + [value]
  }

  /** Removing a value is a filter: it works piece by piece and keeps the order. */
  lemma {:induction false} WithoutConcat(a: seq<string>, b: seq<string>, value: string)
    ensures Without(a + b, value) == Without(a, value) + Without(b, value)
    decreases |a|
  {
    if |a| == 0 {
      assert a + b == b;
    } else {
      assert (a + b)[1..] == a[1..] + b;
      WithoutConcat(a[1..], b, value);
    }
  }

  /** In a list without duplicates, unticking a box cuts it out where it stands. */
  lemma WithoutAt(xs: seq<string>, k: nat)
    requires Distinct(xs) && k < |xs|
    ensures Without(xs, xs[k]) == xs[..k] + xs[k + 1..]
  {
    var v, a, c := xs[k], xs[..k], xs[k + 1..];
    SplitAround(xs, k);
    UniqueAt(xs, k);
    assert ([v] + c)[1..] == c;
    assert Without([v] + c, v) == c;
    WithoutConcat(a, [v] + c, v);
  }

  lemma SplitAround(xs: seq<string>, k: nat)
    requires k < |xs|
    ensures xs == xs[..k] + ([xs[k]] + xs[k + 1..])
  {
  }

  /** A value of a list without duplicates occurs neither before nor after its own place. */
  lemma UniqueAt(xs: seq<string>, k: nat)
    requires Distinct(xs) && k < |xs|
    ensures xs[k] !in xs[..k] && xs[k] !in xs[k + 1..]
  {
    var a, c := xs[..k], xs[k + 1..];
    forall i | 0 <= i < |a| ensures a[i] != xs[k] { assert a[i] == xs[i]; }
    forall i | 0 <= i < |c| ensures c[i] != xs[k] { assert c[i] == xs[k + 1 + i]; }
  }

  predicate Distinct(xs: seq<string>)
  {
    forall i, j :: 0 <= i < j < |xs| ==> xs[i] != xs[j]
  }

  /** Toggling keeps a list of ticked boxes free of duplicates. */
  lemma ToggleDistinct(xs: seq<string>, value: string)
    requires Distinct(xs)
    ensures Distinct(Toggle(xs, value))
  {
    var r := Toggle(xs, value);
    if value in xs {
      forall i, j | 0 <= i < j < |r| ensures r[i] != r[j] {
        if r[i] == r[j] {
          assert multiset(r)[r[i]] >= 2 by {
            assert r == r[..i] + [r[i]] + r[i + 1..j] + [r[j]] + r[j + 1..];
          }
          MultisetDistinct(xs, r[i]);
          assert false;
        }
      }
    }
  }

  /** In a list without duplicates each value occurs at most once. */
  lemma {:induction false} MultisetDistinct(xs: seq<string>, x: string)
    requires Distinct(xs)
    ensures multiset(xs)[x] <= 1
  {
    if |xs| > 0 {
      assert xs == [xs[0]] + xs[1..];
      MultisetDistinct(xs[1..], x);
      if xs[0] == x {
        assert x !in xs[1..];
      }
    }
  }

  /** Ticking and unticking a box that was not ticked restores the list exactly. */
  lemma ToggleTwiceFromUnticked(xs: seq<string>, value: string)
    requires value !in xs
    ensures Toggle(Toggle(xs, value), value) == xs
  {
    WithoutAppended(xs, value);
  }

  lemma {:induction false} WithoutAppended(xs: seq<string>, value: string)
    requires value !in xs
    ensures Without(xs + [value], value) == xs
  {
    if |xs| == 0 {
      assert [] + [value] == [value];
      assert [value][1..] == [];
    } else {
      assert (xs + [value])[1..] == xs[1..] + [value];
      WithoutAppended(xs[1..], value);
      assert xs == [xs[0]] + xs[1..];
    }
  }

  /** Unticking and ticking again leaves the same boxes ticked. */
  lemma ToggleTwiceSameBoxes(xs: seq<string>, value: string)
    ensures forall x :: x in Toggle(Toggle(xs, value), value) <==> x in xs
  {
  }

  /**
   `handleMultipleChoice(value)`: the current answer becomes a list of boxes
   in which `value` is ticked exactly when it was not, every other box is as
   it was (a non-list answer counts as none ticked), and no box is ticked
   twice if none was before. Nothing is recorded.
   */
  function HandleMultipleChoice(st: QuizState, value: string): (r: QuizState)
    ensures r.step == st.step && r.answers == st.answers
    ensures r.current.Some? && r.current.value.Choices?
    ensures value in r.current.value.xs <==> value !in TickedBoxes(st.current)
    ensures forall x :: x != value ==> (x in r.current.value.xs <==> x in TickedBoxes(st.current))
    ensures Distinct(TickedBoxes(st.current)) ==> Distinct(r.current.value.xs)
    ensures value !in TickedBoxes(st.current) ==> r.current.value.xs == TickedBoxes(st.current) + [value]
    ensures Distinct(TickedBoxes(st.current)) ==>
      forall k :: 0 <= k < |TickedBoxes(st.current)| && TickedBoxes(st.current)[k] == value ==>
        r.current.value.xs == TickedBoxes(st.current)[..k] + TickedBoxes(st.current)[k + 1..]
  {
    ToggleDistinctWhen(TickedBoxes(st.current), value);
    UntickInPlace(TickedBoxes(st.current), value);
    st.(current := Some(Choices(Toggle(TickedBoxes(st.current), value))))
  }

  lemma UntickInPlace(xs: seq<string>, value: string)
    ensures Distinct(xs) ==>
      forall k :: 0 <= k < |xs| && xs[k] == value ==> Toggle(xs, value) == xs[..k] + xs[k + 1..]
  {
    if Distinct(xs) {
      forall k | 0 <= k < |xs| && xs[k] == value
        ensures Toggle(xs, value) == xs[..k] + xs[k + 1..]
      {
        WithoutAt(xs, k);
      }
    }
  }

  lemma ToggleDistinctWhen(xs: seq<string>, value: string)
    ensures Distinct(xs) ==> Distinct(Toggle(xs, value))
  {
    if Distinct(xs) {
      ToggleDistinct(xs, value);
    }
  }

  /**
   The text or number input's `onChange`: the typed text becomes the
   current answer, nothing is recorded, the continue button is enabled, and
   a consistent quiz stays consistent.
   */
  function HandleTextInput(st: QuizState, value: string): (r: QuizState)
    ensures r.step == st.step && r.answers == st.answers && r.current == Some(Text(value))
    ensures CanContinue(r.current)
    ensures Consistent(st) ==> Consistent(r)
  {
    st.(current := Some(Text(value)))
  }

  /** The continue button is enabled unless there is no answer or it is an empty list of boxes. */
  predicate CanContinue(current: Option<AnswerValue>)
  {
    !(current.None? || (current.value.Choices? && |current.value.xs| == 0))
  }

  /** After a toggle the button is enabled exactly when some box is ticked. */
  lemma ContinueAfterToggle(st: QuizState, value: string)
    ensures CanContinue(HandleMultipleChoice(st, value).current) <==> |Toggle(TickedBoxes(st.current), value)| > 0
  {
  }

  /** Any input, even an empty one, enables the button. */
  lemma ContinueAfterTyping(st: QuizState, value: string)
    ensures CanContinue(HandleTextInput(st, value).current)
  {
  }

  /** What the user can do on the page. */
  datatype Event = Next | SingleChoice(choice: string) | MultipleChoice(box: string) | TextInput(text: string)

  function Apply(st: QuizState, e: Event): (r: QuizState)
    requires Valid(st)
    ensures Valid(r)
  {
    match e
    case Next => HandleNext(st)
    case SingleChoice(v) => HandleSingleChoice(st, v)
    case MultipleChoice(v) => HandleMultipleChoice(st, v)
    case TextInput(v) => HandleTextInput(st, v)
  }

  function Run(st: QuizState, es: seq<Event>): (r: QuizState)
    requires Valid(st)
    ensures Valid(r)
    decreases |es|
  {
    if |es| == 0 then st else Run(Apply(st, es[0]), es[1..])
  }

  /**
   The recorded answers only ever grow, belong to the steps reached so far,
   and name their questions in non-decreasing order.
   */
  predicate Consistent(st: QuizState)
  {
    && Valid(st)
    && (forall k :: 0 <= k < |st.answers| ==> 1 <= st.answers[k].questionId <= st.step + 1)
    && (forall i, j :: 0 <= i < j < |st.answers| ==> st.answers[i].questionId <= st.answers[j].questionId)
  }

  lemma ApplyConsistent(st: QuizState, e: Event)
    requires Consistent(st)
    ensures Consistent(Apply(st, e))
    ensures st.answers <= Apply(st, e).answers
    ensures st.step <= Apply(st, e).step
  {
  }

  /** From any consistent state, every sequence of events keeps it consistent and only appends answers. */
  lemma {:induction false} RunConsistent(st: QuizState, es: seq<Event>)
    requires Consistent(st)
    ensures Consistent(Run(st, es))
    ensures st.answers <= Run(st, es).answers
    decreases |es|
  {
    if |es| > 0 {
      ApplyConsistent(st, es[0]);
      RunConsistent(Apply(st, es[0]), es[1..]);
    }
  }

  /** Pressing continue `n` times on the last step records the same answer `n` times. */
  lemma {:induction false} NextOnLastStep(st: QuizState, n: nat)
    requires st.step == LastStep && st.current.Some?
    ensures var r := Run(st, seq(n, _ => Next));
      r.step == LastStep && r.current == st.current
      && st.answers <= r.answers && |r.answers| == |st.answers| + n
      && forall k :: |st.answers| <= k < |r.answers| ==> r.answers[k] == Answer(|QuestionIds|, st.current.value)
    decreases n
  {
    var es := seq(n, _ => Next);
    if n > 0 {
      var s1 := HandleNext(st);
      assert s1.answers == st.answers + [Answer(|QuestionIds|, st.current.value)];
      assert es[1..] == seq(n - 1, _ => Next);
      assert Run(st, es) == Run(s1, es[1..]);
      NextOnLastStep(s1, n - 1);
      var r := Run(st, es);
      forall k | |st.answers| <= k < |r.answers| ensures r.answers[k] == Answer(|QuestionIds|, st.current.value) {
        if k > |st.answers| {
          assert |s1.answers| <= k;
        } else {
          assert s1.answers <= r.answers;
          assert r.answers[k] == s1.answers[k];
        }
      }
    }
  }
}
