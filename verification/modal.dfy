/**
 The "Add New Todo" form: two controlled fields, an Add button guarded by
 "both fields non-empty", and a Cancel button. The component renders nothing,
 and so accepts no event, while its `isOpen` prop is false.
 */
module Modal {
  import opened Common
  import opened Todos

  /** The component's own state: the two input values. */
  datatype Form = Form(title: string, description: string)

  /** The state of a freshly mounted form. */
  const Blank: Form := Form("", "")

  datatype Event = TypeTitle(text: string) | TypeDescription(text: string) | ClickAdd | ClickCancel

  /** What one event did: the form afterwards, the drafts passed to `onAdd`, whether `onClose` was called. */
  datatype Effect = Effect(form: Form, added: seq<Draft>, closed: bool)

  /** JavaScript truthiness of a string: only the empty string is falsy. */
  predicate Filled(f: Form) {
    |f.title| > 0 && |f.description| > 0
  }

  /** One user event on the form; `None` when the form is not rendered. */
  function Handle(isOpen: bool, f: Form, e: Event): (r: Option<Effect>)
    ensures r.None? <==> !isOpen
    ensures r.Some? ==> |r.value.added| <= 1
    ensures r.Some? && |r.value.added| == 1 ==>
              && e.ClickAdd? && Filled(f)
              && r.value.added[0] == Draft(f.title, f.description)
              && r.value.form == Blank
              && r.value.closed
    ensures r.Some? && e.ClickAdd? && Filled(f) ==> |r.value.added| == 1
    ensures r.Some? && e.ClickAdd? && !Filled(f) ==> r.value == Effect(f, [], false)
    ensures r.Some? && e.ClickCancel? ==> r.value == Effect(f, [], true)
    ensures r.Some? && r.value.closed ==> e.ClickAdd? || e.ClickCancel?
    ensures r.Some? && e.TypeTitle? ==> r.value == Effect(f.(title := e.text), [], false)
    ensures r.Some? && e.TypeDescription? ==> r.value == Effect(f.(description := e.text), [], false)
  {
    if !isOpen then None
    else
      match e
      case TypeTitle(text) => Some(Effect(f.(title := text), [], false))
      case TypeDescription(text) => Some(Effect(f.(description := text), [], false))
      case ClickAdd =>
        if Filled(f) then Some(Effect(Blank, [Draft(f.title, f.description)], true))
        else Some(Effect(f, [], false))
      case ClickCancel => Some(Effect(f, [], true))
  }

  /** Every draft the form hands to `onAdd` has a non-empty title and description. */
  lemma AddedDraftsFilled(isOpen: bool, f: Form, e: Event)
    requires Handle(isOpen, f, e).Some?
    ensures forall d :: d in Handle(isOpen, f, e).value.added ==> |d.title| > 0 && |d.description| > 0
  {
  }

  /** Typing a title and a description into an open form and pressing Add submits exactly them. */
  lemma FillThenAdd(f: Form, title: string, description: string)
    requires |title| > 0 && |description| > 0
    ensures var f1 := Handle(true, f, TypeTitle(title)).value.form;
            var f2 := Handle(true, f1, TypeDescription(description)).value.form;
            Handle(true, f2, ClickAdd) == Some(Effect(Blank, [Draft(title, description)], true))
  {
  }
}
