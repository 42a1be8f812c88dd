/** The SignUp page: the form machine over the fields `email` and `password`. */
module SignUpPage {
  import opened FormMachine

  /** The form's inputs, one per `name` attribute. */
  datatype Field = Email | Password

  const Fields: set<Field> := {Email, Password}

  /** Heading of the confirmation view. */
  const Heading: string := "Welcome!"

  /** The record the page mounts with, and returns to after the reset. */
  const EmptyForm: map<Field, string> := map[Email := "", Password := ""]

  lemma InitialIsEmptyForm()
    ensures Initial(Fields) == PageState(EmptyForm, false, None)
  {
    assert Initial(Fields).form == EmptyForm;
  }

  /** Mounting the page: both fields empty, the form shown. */
  method Mount() returns (page: FormPage<Field>)
    ensures fresh(page) && page.Valid()
    ensures page.fields == Fields && page.confirmation == Heading
    ensures page.State() == PageState(EmptyForm, false, None)
    ensures page.View() == FormView(EmptyForm)
  {
    page := new FormPage(Fields, Heading);
    InitialIsEmptyForm();
  }

  /**
   * Fill both fields, submit, let 1999 ms pass, then one more: the values
   * survive the submit, the confirmation stays up until the full delay has
   * passed, and then the empty form is back.
   */
  method FillSubmitAndWait(email: string, password: string)
    returns (kept: map<Field, string>, shown: PageView<Field>, almost: PageView<Field>, after: PageView<Field>)
    ensures kept == map[Email := email, Password := password]
    ensures shown == Confirmation(Heading) && almost == Confirmation(Heading)
    ensures after == FormView(EmptyForm)
  {
    var page := Mount();
    page.Change(Email, email);
    page.Change(Password, password);
    assert page.form == map[Email := email, Password := password];
    page.Submit();
    kept := page.form;
    shown := page.View();
    page.Elapse(ResetDelayMs - 1);
    almost := page.View();
    page.Elapse(1);
    InitialIsEmptyForm();
    after := page.View();
  }
}
