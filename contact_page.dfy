/** The Contact page: the form machine over the fields `name`, `email` and `message`. */
module ContactPage {
  import opened FormMachine

  /** The form's inputs, one per `name` attribute. */
  datatype Field = Name | Email | Message

  const Fields: set<Field> := {Name, Email, Message}

  /** Heading of the confirmation view. */
  const Heading: string := "Thank You!"

  /** The record the page mounts with, and returns to after the reset. */
  const EmptyForm: map<Field, string> := map[Name := "", Email := "", Message := ""]

  lemma InitialIsEmptyForm()
    ensures Initial(Fields) == PageState(EmptyForm, false, None)
  {
    assert Initial(Fields).form == EmptyForm;
  }

  /** Mounting the page: every field empty, the form shown. */
  method Mount() returns (page: FormPage<Field>)
    ensures fresh(page) && page.Valid()
    ensures page.fields == Fields && page.confirmation == Heading
    ensures page.State() == PageState(EmptyForm, false, None)
    ensures page.View() == FormView(EmptyForm)
  {
    page := new FormPage(Fields, Heading);
    InitialIsEmptyForm();
  }

  /**
   * Fill every field, submit, let 1999 ms pass, then one more: the values
   * survive the submit, the confirmation stays up until the full delay has
   * passed, and then the empty form is back.
   */
  method FillSubmitAndWait(name: string, email: string, message: string)
    returns (kept: map<Field, string>, shown: PageView<Field>, almost: PageView<Field>, after: PageView<Field>)
    ensures kept == map[Name := name, Email := email, Message := message]
    ensures shown == Confirmation(Heading) && almost == Confirmation(Heading)
    ensures after == FormView(EmptyForm)
  {
    var page := Mount();
    page.Change(Name, name);
    page.Change(Email, email);
    page.Change(Message, message);
    assert page.form == map[Name := name, Email := email, Message := message];
    page.Submit();
    kept := page.form;
    shown := page.View();
    page.Elapse(ResetDelayMs - 1);
    almost := page.View();
    page.Elapse(1);
    InitialIsEmptyForm();
    after := page.View();
  }
}
