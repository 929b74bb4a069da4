/** The form page (App.js): a username and password form whose "Save changes" and
    "Submit" actions validate the two fields and report the outcome as toasts through the
    container's `addToast`, plus the inline hints shown under the fields.

    Validation trims both fields and then applies the length thresholds 3 (username) and
    6 (password); lengths are counted in UTF-16 code units, as `String.prototype.length` does. */
module App {
  import opened Toasts
  import opened JsText
  import Container

  const SuccessDuration: int := 3000
  const ErrorDuration: int := 5000

  const UsernameRequired: string := "Username is required"
  const UsernameTooShort: string := "Username must be at least 3 characters"
  const PasswordRequired: string := "Password is required"
  const PasswordTooShort: string := "Password must be at least 6 characters"

  const HintRequired: string := "Required"
  const HintUsernameTooShort: string := "Must be at least 3 characters"
  const HintPasswordTooShort: string := "Must be at least 6 characters"

  const SubmitInvalidMessage: string := "Please fill in the required details"
  const SubmitSuccessMessage: string := "Form submitted successfully"
  const SaveSuccessMessage: string := "Changes saved successfully"

  /** The argument `successToast(message)` passes to `addToast`: a success toast lasting
      `SUCCESS_DURATION`. */
  function SuccessRequest(message: string): (req: Container.ToastRequest)
    ensures req.message == message
    ensures req.kind == Some("success") && req.duration == Some(3000)
  {
    Container.ToastRequest(message, Some("success"), Some(SuccessDuration))
  }

  /** The argument `errorToast(message, duration = ERROR_DURATION)` passes to `addToast`. */
  function ErrorRequest(message: string, duration: int := ErrorDuration): (req: Container.ToastRequest)
    ensures req.message == message
    ensures req.kind == Some("error") && req.duration == Some(duration)
  {
    Container.ToastRequest(message, Some("error"), Some(duration))
  }

  /** The result of `computeValidation()`: `{ valid, errors }`. */
  datatype Validation = Validation(valid: bool, errors: seq<string>)

  predicate IsUsernameMessage(m: string) {
    m == UsernameRequired || m == UsernameTooShort
  }

  predicate IsPasswordMessage(m: string) {
    m == PasswordRequired || m == PasswordTooShort
  }

  /** `computeValidation()` on the current field values. The form is valid exactly when no
      message was collected; at most one username message is collected, followed by at
      most one password message. */
  function ComputeValidation(username: JsString, password: JsString): (r: Validation)
    ensures r.valid <==> r.errors == []
    ensures |r.errors| <= 2
    ensures forall i :: 0 <= i < |r.errors| ==> IsUsernameMessage(r.errors[i]) || IsPasswordMessage(r.errors[i])
    ensures |r.errors| == 2 ==> IsUsernameMessage(r.errors[0]) && IsPasswordMessage(r.errors[1])
  {
    var u := Trim(username);
    var p := Trim(password);
    var fromUsername := if |u| == 0 then [UsernameRequired]
                        else if |u| < 3 then [UsernameTooShort]
                        else [];
    var fromPassword := if |p| == 0 then [PasswordRequired]
                        else if |p| < 6 then [PasswordTooShort]
                        else [];
    var errors := fromUsername + fromPassword;
    Validation(|errors| == 0, errors)
  }

  /** The inline hint under the username field: none once the trimmed username has 3 code
      units, "Required" exactly when it is empty, and "Must be at least 3 characters" for
      1 or 2 code units. */
  function UsernameHint(username: JsString): (h: string)
    ensures h == "" <==> |Trim(username)| >= 3
    ensures h == HintRequired <==> |Trim(username)| == 0
    ensures 1 <= |Trim(username)| < 3 ==> h == HintUsernameTooShort
  {
    var u := Trim(username);
    assert HintRequired[0] != HintUsernameTooShort[0];
    if |u| == 0 then HintRequired
    else if |u| < 3 then HintUsernameTooShort
    else ""
  }

  /** The inline hint under the password field: none once the trimmed password has 6 code
      units, "Required" exactly when it is empty, and "Must be at least 6 characters" for
      1 to 5 code units. */
  function PasswordHint(password: JsString): (h: string)
    ensures h == "" <==> |Trim(password)| >= 6
    ensures h == HintRequired <==> |Trim(password)| == 0
    ensures 1 <= |Trim(password)| < 6 ==> h == HintPasswordTooShort
  {
    var p := Trim(password);
    assert HintRequired[0] != HintPasswordTooShort[0];
    if |p| == 0 then HintRequired
    else if |p| < 6 then HintPasswordTooShort
    else ""
  }

  /** The toasts `handleSubmit` asks for: exactly one, lasting 3000 ms, an error exactly when
      the form is invalid. */
  function SubmitToasts(username: JsString, password: JsString): (reqs: seq<Container.ToastRequest>)
    ensures |reqs| == 1 && reqs[0].duration == Some(3000)
    ensures reqs[0].kind == Some("error") <==> !ComputeValidation(username, password).valid
  {
    if !ComputeValidation(username, password).valid
    then [ErrorRequest(SubmitInvalidMessage, 3000)]
    else [SuccessRequest(SubmitSuccessMessage)]
  }

  /** The toasts `handleSaveChanges` asks for: one error toast per validation message, or
      one success toast. */
  function SaveToasts(username: JsString, password: JsString): (reqs: seq<Container.ToastRequest>)
    ensures 1 <= |reqs| <= 2
    ensures forall i :: 0 <= i < |reqs| ==>
              (reqs[i].kind == Some("error") <==> !ComputeValidation(username, password).valid)
  {
    var v := ComputeValidation(username, password);
    if !v.valid
    then ErrorToasts(v.errors)
    else [SuccessRequest(SaveSuccessMessage)]
  }

  /** The arguments of the `addToast` calls `errors.forEach((msg) => errorToast(msg))` makes. */
  function ErrorToasts(errors: seq<string>): (reqs: seq<Container.ToastRequest>)
    ensures |reqs| == |errors|
    ensures forall i :: 0 <= i < |errors| ==> reqs[i] == ErrorRequest(errors[i])
  {
    seq(|errors|, i requires 0 <= i < |errors| => ErrorRequest(errors[i]))
  }

  /** The records the container appends for a run of `addToast` calls, the `i`-th call
      with the `i`-th of the oracle's ids. */
  function ItemsFor(ids: seq<Id>, reqs: seq<Container.ToastRequest>): (ts: seq<ToastItem>)
    requires |reqs| <= |ids|
    ensures |ts| == |reqs|
  {
    if reqs == [] then []
    else
      var n := |reqs| - 1;
      ItemsFor(ids, reqs[..n]) + [Container.ItemFor(ids[n], reqs[n])]
  }

  /** The oracle's ids `xs` are pairwise different and none of them names a toast of `ts`. */
  predicate FreshIds(xs: seq<Id>, ts: seq<ToastItem>) {
    xs == [] || (xs[0] !in Ids(ts) && xs[0] !in xs[1..] && FreshIds(xs[1..], ts))
  }

  /** Appending a toast whose id is none of `xs` keeps `xs` fresh. */
  lemma {:induction false} FreshAfterAppend(xs: seq<Id>, ts: seq<ToastItem>, t: ToastItem)
    requires FreshIds(xs, ts) && t.id !in xs
    ensures FreshIds(xs, ts + [t])
  {
    IdsAppend(ts, t);
    if xs != [] {
      FreshAfterAppend(xs[1..], ts, t);
    }
  }

  /** The `k`-th `addToast` call of a run appends the record for the `k`-th request with the
      `k`-th oracle id. */
  lemma {:induction false} ItemsForAt(ids: seq<Id>, reqs: seq<Container.ToastRequest>)
    requires |reqs| <= |ids|
    ensures forall k :: 0 <= k < |reqs| ==> ItemsFor(ids, reqs)[k] == Container.ItemFor(ids[k], reqs[k])
  {
    if reqs != [] {
      var n := |reqs| - 1;
      ItemsForAt(ids, reqs[..n]);
    }
  }

  lemma ItemsForExtend(ids: seq<Id>, reqs: seq<Container.ToastRequest>, i: nat)
    requires i < |reqs| <= |ids|
    ensures ItemsFor(ids, reqs[..i + 1]) == ItemsFor(ids, reqs[..i]) + [Container.ItemFor(ids[i], reqs[i])]
  {
    assert reqs[..i + 1][..i] == reqs[..i];
  }

  /** The container's state after a run of `addToast` calls, the `i`-th call with the `i`-th
      of the oracle's ids. */
  function AddedAll(q: Queue, ids: seq<Id>, reqs: seq<Container.ToastRequest>): Queue
    requires |reqs| <= |ids|
  {
    if reqs == [] then q
    else
      var n := |reqs| - 1;
      Container.Added(AddedAll(q, ids, reqs[..n]), ids[n], reqs[n])
  }

  /** A run of `addToast` calls appends exactly the records `ItemsFor` lists, in call order. */
  lemma {:induction false} AddedAllItems(q: Queue, ids: seq<Id>, reqs: seq<Container.ToastRequest>)
    requires |reqs| <= |ids|
    ensures AddedAll(q, ids, reqs).items == q.items + ItemsFor(ids, reqs)
  {
    if reqs != [] {
      var n := |reqs| - 1;
      AddedAllItems(q, ids, reqs[..n]);
    }
  }

  lemma AddedAllExtend(q: Queue, ids: seq<Id>, reqs: seq<Container.ToastRequest>, i: nat)
    requires i < |reqs| <= |ids|
    ensures AddedAll(q, ids, reqs[..i + 1]) == Container.Added(AddedAll(q, ids, reqs[..i]), ids[i], reqs[i])
  {
    var run := reqs[..i + 1];
    assert run != [] && |run| - 1 == i && run[i] == reqs[i];
    assert run[..i] == reqs[..i];
  }

  // ---------------------------------------------------------------------------
  // What the validation decides

  /** "Username is required" is reported exactly when the trimmed username is empty, that
      is, when the field holds only white space, and "Username must be at least 3
      characters" exactly when the trimmed username has 1 or 2 code units. */
  lemma UsernameMessages(username: JsString, password: JsString)
    ensures var errors := ComputeValidation(username, password).errors;
      && (UsernameRequired in errors <==> |Trim(username)| == 0)
      && (UsernameRequired in errors <==> WhitespaceBetween(username, 0, |username|))
      && (UsernameTooShort in errors <==> 1 <= |Trim(username)| <= 2)
  {
    var errors := ComputeValidation(username, password).errors;
    MessagesDiffer();
    assert UsernameRequired in errors ==> errors[0] == UsernameRequired;
    assert UsernameTooShort in errors ==> errors[0] == UsernameTooShort;
  }

  /** "Password is required" is reported exactly when the trimmed password is empty, and
      "Password must be at least 6 characters" exactly when it has 1 to 5 code units. */
  lemma PasswordMessages(username: JsString, password: JsString)
    ensures var errors := ComputeValidation(username, password).errors;
      && (PasswordRequired in errors <==> |Trim(password)| == 0)
      && (PasswordRequired in errors <==> WhitespaceBetween(password, 0, |password|))
      && (PasswordTooShort in errors <==> 1 <= |Trim(password)| <= 5)
  {
    var errors := ComputeValidation(username, password).errors;
    MessagesDiffer();
    assert PasswordRequired in errors ==> errors[|errors| - 1] == PasswordRequired;
    assert PasswordTooShort in errors ==> errors[|errors| - 1] == PasswordTooShort;
  }

  /** The form is valid exactly when the trimmed username has at least 3 code units and the
      trimmed password at least 6. */
  lemma ValidExactly(username: JsString, password: JsString)
    ensures ComputeValidation(username, password).valid <==>
            |Trim(username)| >= 3 && |Trim(password)| >= 6
  {
  }

  /** The four validation messages are different texts. */
  lemma MessagesDiffer()
    ensures UsernameRequired != UsernameTooShort && UsernameRequired != PasswordRequired
    ensures UsernameRequired != PasswordTooShort && UsernameTooShort != PasswordRequired
    ensures UsernameTooShort != PasswordTooShort && PasswordRequired != PasswordTooShort
  {
    assert UsernameRequired[0] != PasswordRequired[0];
    assert UsernameRequired[0] != PasswordTooShort[0];
    assert UsernameTooShort[0] != PasswordRequired[0];
    assert UsernameTooShort[0] != PasswordTooShort[0];
    assert UsernameRequired[9] != UsernameTooShort[9];
    assert PasswordRequired[9] != PasswordTooShort[9];
  }

  /** The inline hints agree with the validation: a field shows no hint exactly when the
      validation reports nothing about it, and shows "Required" exactly when the validation
      reports it as required. */
  lemma HintsAgreeWithValidation(username: JsString, password: JsString)
    ensures var errors := ComputeValidation(username, password).errors;
      && (UsernameHint(username) == "" <==> forall m :: m in errors ==> !IsUsernameMessage(m))
      && (UsernameHint(username) == HintRequired <==> UsernameRequired in errors)
      && (PasswordHint(password) == "" <==> forall m :: m in errors ==> !IsPasswordMessage(m))
      && (PasswordHint(password) == HintRequired <==> PasswordRequired in errors)
  {
    var errors := ComputeValidation(username, password).errors;
    UsernameMessages(username, password);
    PasswordMessages(username, password);
    assert HintRequired != "" && HintUsernameTooShort != "" && HintPasswordTooShort != "";
    assert HintRequired != HintUsernameTooShort by { assert HintRequired[0] != HintUsernameTooShort[0]; }
    assert HintRequired != HintPasswordTooShort by { assert HintRequired[0] != HintPasswordTooShort[0]; }
  }

  // ---------------------------------------------------------------------------
  // What the handlers emit

  /** `handleSubmit` asks for exactly one toast: when the form is invalid an error toast
      "Please fill in the required details" for 3000 ms, otherwise a success toast "Form
      submitted successfully" for 3000 ms. */
  lemma SubmitEmitsOne(username: JsString, password: JsString)
    ensures var reqs := SubmitToasts(username, password);
      && |reqs| == 1
      && reqs[0].duration == Some(3000)
      && (!ComputeValidation(username, password).valid ==>
            reqs[0].message == SubmitInvalidMessage && reqs[0].kind == Some("error"))
      && (ComputeValidation(username, password).valid ==>
            reqs[0].message == SubmitSuccessMessage && reqs[0].kind == Some("success"))
  {
  }

  /** `handleSaveChanges` asks, when the form is invalid, for one or two error toasts, one per
      validation message and in the same order, each lasting 5000 ms; when the form is valid,
      for one success toast "Changes saved successfully" lasting 3000 ms. */
  lemma SaveEmitsPerError(username: JsString, password: JsString)
    ensures var v := ComputeValidation(username, password);
      var reqs := SaveToasts(username, password);
      && 1 <= |reqs| <= 2
      && (!v.valid ==> |reqs| == |v.errors|)
      && (!v.valid ==> forall i :: 0 <= i < |reqs| ==>
            reqs[i].message == v.errors[i] && reqs[i].kind == Some("error") && reqs[i].duration == Some(5000))
      && (v.valid ==> reqs == [Container.ToastRequest(SaveSuccessMessage, Some("success"), Some(3000))])
  {
  }

  // ---------------------------------------------------------------------------
  // The handlers

  /** `successToast(message)`; `id` is the oracle's fresh id for its `addToast` call. */
  method SuccessToast(c: Container.ToastContainer, id: Id, message: string)
    requires c.Valid() && id !in Ids(c.toasts)
    modifies c
    ensures c.Valid()
    ensures c.Model() == Container.Added(old(c.Model()), id, SuccessRequest(message))
    ensures c.toasts == old(c.toasts) + [Container.ItemFor(id, SuccessRequest(message))]
  {
    var _ := c.AddToast(id, SuccessRequest(message));
  }

  /** `errorToast(message, duration = ERROR_DURATION)`; `id` is the oracle's fresh id. */
  method ErrorToast(c: Container.ToastContainer, id: Id, message: string, duration: int := ErrorDuration)
    requires c.Valid() && id !in Ids(c.toasts)
    modifies c
    ensures c.Valid()
    ensures c.Model() == Container.Added(old(c.Model()), id, ErrorRequest(message, duration))
    ensures c.toasts == old(c.toasts) + [Container.ItemFor(id, ErrorRequest(message, duration))]
  {
    var _ := c.AddToast(id, ErrorRequest(message, duration));
  }

  /** `handleSubmit(e)`: validates and issues the one `addToast` call; `id` is the oracle's
      fresh id for it. */
  method HandleSubmit(c: Container.ToastContainer, username: JsString, password: JsString, id: Id)
    requires c.Valid() && id !in Ids(c.toasts)
    modifies c
    ensures c.Valid()
    ensures c.Model() == AddedAll(old(c.Model()), [id], SubmitToasts(username, password))
    ensures c.toasts == old(c.toasts) + ItemsFor([id], SubmitToasts(username, password))
  {
    ghost var start := c.Model();
    var v := ComputeValidation(username, password);
    if !v.valid {
      ghost var req := ErrorRequest(SubmitInvalidMessage, 3000);
      assert [req][..0] == [];
      AddedAllItems(start, [id], [req]);
      ErrorToast(c, id, SubmitInvalidMessage, 3000);
      return;
    }
    ghost var req := SuccessRequest(SubmitSuccessMessage);
    assert [req][..0] == [];
    AddedAllItems(start, [id], [req]);
    SuccessToast(c, id, SubmitSuccessMessage);
  }

  /** `handleSaveChanges()`: validates and issues one `addToast` call per validation message,
      or one for the success toast; `ids` are the oracle's fresh ids, one per call, in call
      order. */
  method HandleSaveChanges(c: Container.ToastContainer, username: JsString, password: JsString, ids: seq<Id>)
    requires c.Valid()
    requires |ids| >= |SaveToasts(username, password)| && FreshIds(ids, c.toasts)
    modifies c
    ensures c.Valid()
    ensures c.Model() == AddedAll(old(c.Model()), ids, SaveToasts(username, password))
    ensures c.toasts == old(c.toasts) + ItemsFor(ids, SaveToasts(username, password))
  {
    ghost var start := c.Model();
    var v := ComputeValidation(username, password);
    if !v.valid {
      EmitErrorToasts(c, v.errors, ids);
      return;
    }
    ghost var req := SuccessRequest(SaveSuccessMessage);
    assert [req][..0] == [];
    AddedAllItems(start, ids, [req]);
    SuccessToast(c, ids[0], SaveSuccessMessage);
  }

  /** `errors.forEach((msg) => errorToast(msg))`. */
  method EmitErrorToasts(c: Container.ToastContainer, errors: seq<string>, ids: seq<Id>)
    requires c.Valid()
    requires |ids| >= |errors| && FreshIds(ids, c.toasts)
    modifies c
    ensures c.Valid()
    ensures c.Model() == AddedAll(old(c.Model()), ids, ErrorToasts(errors))
    ensures c.toasts == old(c.toasts) + ItemsFor(ids, ErrorToasts(errors))
  {
    ghost var start := c.Model();
    var i := 0;
    while i < |errors|
      invariant 0 <= i <= |errors|
      invariant c.Valid()
      invariant c.Model() == AddedAll(start, ids, ErrorToasts(errors)[..i])
      invariant FreshIds(ids[i..], c.toasts)
    {
      EmitErrorToast(c, errors, ids, i, start);
      i := i + 1;
    }
    assert ErrorToasts(errors)[..i] == ErrorToasts(errors);
    AddedAllItems(start, ids, ErrorToasts(errors));
  }

  /** One turn of the `forEach`: the `i`-th message's toast, with the `i`-th oracle id. */
  method EmitErrorToast(c: Container.ToastContainer, errors: seq<string>, ids: seq<Id>, i: nat,
                        ghost start: Queue)
    requires c.Valid()
    requires i < |errors| <= |ids|
    requires c.Model() == AddedAll(start, ids, ErrorToasts(errors)[..i])
    requires FreshIds(ids[i..], c.toasts)
    modifies c
    ensures c.Valid()
    ensures c.Model() == AddedAll(start, ids, ErrorToasts(errors)[..i + 1])
    ensures FreshIds(ids[i + 1..], c.toasts)
  {
    ghost var reqs := ErrorToasts(errors);
    assert reqs[i] == ErrorRequest(errors[i]);
    ghost var item := Container.ItemFor(ids[i], ErrorRequest(errors[i]));
    assert ids[i..][1..] == ids[i + 1..];
    FreshAfterAppend(ids[i + 1..], c.toasts, item);
    AddedAllExtend(start, ids, reqs, i);
    ErrorToast(c, ids[i], errors[i]);
  }
}
