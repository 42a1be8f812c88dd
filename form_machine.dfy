/**
 * The submit/reset state machine that the Contact, SignIn and SignUp pages
 * each carry: a record of string fields and a `submitted` flag, updated by
 * input events, by the submit handler, and by the reset callback the submit
 * handler schedules 2000 ms ahead.
 *
 * `PageState`, `Step` and `Run` describe the machine as values; the class
 * `FormPage` holds the same state in mutable fields, and each of its methods
 * is proved to perform one `Step`.
 */
module FormMachine {

  /** Delay, in milliseconds, between a submit and the reset of the page. */
  const ResetDelayMs: nat := 2000

  datatype Option<T> = None | Some(value: T)

  /**
   * The state of one form page: the field values, the `submitted` flag, and
   * the time, in milliseconds, left before the pending reset callback runs.
   */
  datatype PageState<F> = PageState(form: map<F, string>, submitted: bool, resetIn: Option<nat>)

  /** What can happen to a page: a keystroke in one field, a click on submit, time passing. */
  datatype Event<F> = Input(field: F, value: string) | SubmitClicked | TimeElapsed(ms: nat)

  /** What the page renders: the editable form, or the confirmation heading. */
  datatype PageView<F> = FormView(values: map<F, string>) | Confirmation(heading: string)

  /** Every field holding the empty string. */
  function Blank<F>(fields: set<F>): (m: map<F, string>)
    ensures m.Keys == fields
    ensures forall f :: f in m ==> m[f] == ""
  {
    map f | f in fields :: ""
  }

  /** The state a page mounts in. */
  function Initial<F>(fields: set<F>): (s: PageState<F>)
    ensures Inv(fields, s) && FormShown(s)
    ensures forall f :: f in fields ==> f in s.form && s.form[f] == ""
  {
    PageState(Blank(fields), false, None)
  }

  /** The form (and so its inputs and submit button) is rendered only while nothing is submitted. */
  predicate FormShown<F>(s: PageState<F>) {
    !s.submitted
  }

  /**
   * The invariant every page keeps: the record has exactly the page's fields,
   * a reset is pending exactly while the page is submitted, and it is due
   * within the reset delay.
   */
  predicate Inv<F>(fields: set<F>, s: PageState<F>) {
    s.form.Keys == fields
    && (s.submitted <==> s.resetIn.Some?)
    && (s.resetIn.Some? ==> 0 < s.resetIn.value <= ResetDelayMs)
  }

  /** Events the rendered page can produce: input and submit only from the form view. */
  predicate Enabled<F>(fields: set<F>, s: PageState<F>, e: Event<F>) {
    match e
    case Input(f, _) => FormShown(s) && f in fields
    case SubmitClicked => FormShown(s)
    case TimeElapsed(_) => true
  }

  /**
   * One event. Input overwrites one field; submit sets the flag and schedules
   * the reset, with no check of the values; time passing runs the reset once
   * its delay is used up, clearing the flag and every field.
   */
  function Step<F>(fields: set<F>, s: PageState<F>, e: Event<F>): PageState<F>
    requires Enabled(fields, s, e)
  {
    match e
    case Input(f, v) => s.(form := s.form[f := v])
    case SubmitClicked => s.(submitted := true, resetIn := Some(ResetDelayMs))
    case TimeElapsed(ms) =>
      match s.resetIn
      case None => s
      case Some(left) =>
        if ms >= left then PageState(Blank(fields), false, None)
        else s.(resetIn := Some(left - ms))
  }

  /** A run of events, or `None` as soon as one of them is not possible from the view shown. */
  function Run<F>(fields: set<F>, s: PageState<F>, events: seq<Event<F>>): Option<PageState<F>>
    decreases |events|
  {
    if events == [] then Some(s)
    else if !Enabled(fields, s, events[0]) then None
    else Run(fields, Step(fields, s, events[0]), events[1..])
  }

  lemma StepPreservesInv<F>(fields: set<F>, s: PageState<F>, e: Event<F>)
    requires Inv(fields, s) && Enabled(fields, s, e)
    ensures Inv(fields, Step(fields, s, e))
  {
  }

  /** Every state reachable from a valid state is valid. */
  lemma {:induction false} RunPreservesInv<F>(fields: set<F>, s: PageState<F>, events: seq<Event<F>>)
    requires Inv(fields, s)
    requires Run(fields, s, events).Some?
    ensures Inv(fields, Run(fields, s, events).value)
    decreases |events|
  {
    if events != [] {
      StepPreservesInv(fields, s, events[0]);
      RunPreservesInv(fields, Step(fields, s, events[0]), events[1..]);
    }
  }

  /** A run of `a` then `b` is the run of `b` from where `a` ended. */
  lemma {:induction false} RunAppend<F>(fields: set<F>, s: PageState<F>, a: seq<Event<F>>, b: seq<Event<F>>)
    ensures Run(fields, s, a + b) ==
      match Run(fields, s, a)
      case None => None
      case Some(t) => Run(fields, t, b)
    decreases |a|
  {
    if a == [] {
      assert a + b == b;
    } else {
      assert (a + b)[0] == a[0] && (a + b)[1..] == a[1..] + b;
      if Enabled(fields, s, a[0]) {
        RunAppend(fields, Step(fields, s, a[0]), a[1..], b);
      }
    }
  }

  /** An input sets its own field and leaves the other fields, the flag and the timer alone. */
  lemma InputChangesOnlyItsField<F>(fields: set<F>, s: PageState<F>, f: F, v: string)
    requires Inv(fields, s) && FormShown(s) && f in fields
    ensures var t := Step(fields, s, Input(f, v));
      t.form.Keys == fields && t.form[f] == v
      && (forall g :: g in fields && g != f ==> t.form[g] == s.form[g])
      && t.submitted == s.submitted && t.resetIn == s.resetIn
  {
  }

  /** Submit accepts whatever the fields hold, keeps them, and schedules the reset. */
  lemma SubmitKeepsFields<F>(fields: set<F>, s: PageState<F>)
    requires FormShown(s)
    ensures var t := Step(fields, s, SubmitClicked);
      t.submitted && t.form == s.form && t.resetIn == Some(ResetDelayMs)
  {
  }

  /** While submitted, no input and no second submit can happen: the form is not rendered. */
  lemma SubmittedBlocksFormEvents<F>(fields: set<F>, s: PageState<F>, e: Event<F>)
    requires s.submitted
    ensures Enabled(fields, s, e) <==> e.TimeElapsed?
  {
  }

  /** Total time carried by a run of events. */
  function TotalMs<F>(events: seq<Event<F>>): nat {
    if events == [] then 0
    else (if events[0].TimeElapsed? then events[0].ms else 0) + TotalMs(events[1..])
  }

  predicate AllWaits<F>(events: seq<Event<F>>) {
    forall i :: 0 <= i < |events| ==> events[i].TimeElapsed?
  }

  /** Waiting less than the time left keeps the page submitted, with its fields, and counts down. */
  lemma {:induction false} WaitBeforeDeadline<F>(fields: set<F>, s: PageState<F>, waits: seq<Event<F>>)
    requires Inv(fields, s) && s.submitted && AllWaits(waits)
    requires TotalMs(waits) < s.resetIn.value
    ensures Run(fields, s, waits) == Some(s.(resetIn := Some(s.resetIn.value - TotalMs(waits))))
    decreases |waits|
  {
    if waits != [] {
      var t := Step(fields, s, waits[0]);
      assert t == s.(resetIn := Some(s.resetIn.value - waits[0].ms));
      assert AllWaits(waits[1..]) by {
        forall i | 0 <= i < |waits[1..]| ensures waits[1..][i].TimeElapsed? {
          assert waits[1..][i] == waits[i + 1];
        }
      }
      WaitBeforeDeadline(fields, t, waits[1..]);
    }
  }

  /** Once the waits add up to the time left, the page is back in its initial state, and stays there. */
  lemma {:induction false} WaitPastDeadline<F>(fields: set<F>, s: PageState<F>, waits: seq<Event<F>>)
    requires Inv(fields, s) && AllWaits(waits)
    requires s.submitted ==> TotalMs(waits) >= s.resetIn.value
    requires !s.submitted ==> s == Initial(fields)
    ensures Run(fields, s, waits) == Some(Initial(fields))
    decreases |waits|
  {
    if waits != [] {
      var t := Step(fields, s, waits[0]);
      assert AllWaits(waits[1..]) by {
        forall i | 0 <= i < |waits[1..]| ensures waits[1..][i].TimeElapsed? {
          assert waits[1..][i] == waits[i + 1];
        }
      }
      WaitPastDeadline(fields, t, waits[1..]);
    } else {
      assert !s.submitted;
    }
  }

  /** Submit followed by the 2000 ms delay returns to the initial state, whatever was typed. */
  lemma SubmitThenWaitRestoresInitial<F>(fields: set<F>, s: PageState<F>)
    requires Inv(fields, s) && FormShown(s)
    ensures Run(fields, s, [SubmitClicked, TimeElapsed(ResetDelayMs)]) == Some(Initial(fields))
  {
    var t := Step(fields, s, SubmitClicked);
    var events: seq<Event<F>> := [SubmitClicked, TimeElapsed(ResetDelayMs)];
    assert events[1..] == [TimeElapsed(ResetDelayMs)];
    assert Step(fields, t, TimeElapsed(ResetDelayMs)) == Initial(fields);
    assert Run(fields, t, events[1..]) == Run(fields, Initial(fields), []);
  }

  predicate AllInputs<F>(fields: set<F>, events: seq<Event<F>>) {
    forall i :: 0 <= i < |events| ==> events[i].Input? && events[i].field in fields
  }

  /** Typing only ever changes field values: the form stays shown and the invariant holds. */
  lemma {:induction false} TypingKeepsForm<F>(fields: set<F>, s: PageState<F>, inputs: seq<Event<F>>)
    requires Inv(fields, s) && FormShown(s) && AllInputs(fields, inputs)
    ensures Run(fields, s, inputs).Some?
    ensures var t := Run(fields, s, inputs).value; Inv(fields, t) && FormShown(t)
    decreases |inputs|
  {
    if inputs != [] {
      assert AllInputs(fields, inputs[1..]) by {
        forall i | 0 <= i < |inputs[1..]| ensures inputs[1..][i].Input? && inputs[1..][i].field in fields {
          assert inputs[1..][i] == inputs[i + 1];
        }
      }
      TypingKeepsForm(fields, Step(fields, s, inputs[0]), inputs[1..]);
    }
  }

  /**
   * The page's whole cycle: from a freshly mounted page, any typing, then
   * submit, then 2000 ms, leads back to exactly the freshly mounted page.
   */
  lemma FillSubmitWaitRestoresInitial<F>(fields: set<F>, inputs: seq<Event<F>>)
    requires AllInputs(fields, inputs)
    ensures Run(fields, Initial(fields), inputs + [SubmitClicked, TimeElapsed(ResetDelayMs)]) == Some(Initial(fields))
  {
    TypingKeepsForm(fields, Initial(fields), inputs);
    var t := Run(fields, Initial(fields), inputs).value;
    RunAppend(fields, Initial(fields), inputs, [SubmitClicked, TimeElapsed(ResetDelayMs)]);
    SubmitThenWaitRestoresInitial(fields, t);
  }

  /** One form page, with the state held in mutable fields. */
  class FormPage<F(==)> {
    const fields: set<F>
    const confirmation: string
    var form: map<F, string>
    var submitted: bool
    var resetIn: Option<nat>

    function State(): PageState<F>
      reads this
    {
      PageState(form, submitted, resetIn)
    }

    ghost predicate Valid()
      reads this
    {
      Inv(fields, State())
    }

    /** Mounting: every field empty, nothing submitted, no reset pending. */
    constructor (fields: set<F>, confirmation: string)
      ensures Valid() && State() == Initial(fields)
      ensures this.fields == fields && this.confirmation == confirmation
    {
      this.fields := fields;
      this.confirmation := confirmation;
      form := Blank(fields);
      submitted := false;
      resetIn := None;
    }

    /** The render branch: the confirmation exactly while submitted, otherwise the form with its values. */
    function View(): (v: PageView<F>)
      reads this
      ensures v.Confirmation? <==> submitted
      ensures v.Confirmation? ==> v.heading == confirmation
      ensures v.FormView? ==> v.values == form
    {
      if submitted then Confirmation(confirmation) else FormView(form)
    }

    /** `handleInputChange`: overwrite the named field. */
    method Change(f: F, value: string)
      requires Valid() && FormShown(State()) && f in fields
      modifies this
      ensures Valid() && State() == Step(fields, old(State()), Input(f, value))
      ensures form == old(form)[f := value] && submitted == old(submitted) && resetIn == old(resetIn)
    {
      form := form[f := value];
    }

    /** `handleSubmit`: set the flag and schedule the reset; the values are not checked. */
    method Submit()
      requires Valid() && FormShown(State())
      modifies this
      ensures Valid() && State() == Step(fields, old(State()), SubmitClicked)
      ensures submitted && form == old(form) && resetIn == Some(ResetDelayMs)
    {
      submitted := true;
      resetIn := Some(ResetDelayMs);
    }

    /** Time passes; the reset callback runs if its delay is used up. */
    method Elapse(ms: nat)
      requires Valid()
      modifies this
      ensures Valid() && State() == Step(fields, old(State()), TimeElapsed(ms))
      ensures old(resetIn).Some? && ms >= old(resetIn).value ==> State() == Initial(fields)
      ensures old(resetIn).Some? && ms < old(resetIn).value ==>
        submitted && form == old(form) && resetIn == Some(old(resetIn).value - ms)
      ensures old(resetIn).None? ==> State() == old(State())
    {
      match resetIn
      case None =>
      case Some(left) =>
        if ms >= left {
          submitted := false;
          form := Blank(fields);
          resetIn := None;
        } else {
          resetIn := Some(left - ms);
        }
    }
  }
}
