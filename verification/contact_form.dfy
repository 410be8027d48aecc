/**
 * The contact form of the portfolio page: per-field validation of the
 * submitted data into an error map, and the display of that map in the
 * form's error slots.
 */
module ContactForm {
  import opened Wrappers
  import opened JsText
  import opened EmailPattern

  /** The submitted fields; `None` is a field missing from the form data. */
  datatype FormData = FormData(name: Option<string>, email: Option<string>,
                               subject: Option<string>, message: Option<string>)

  datatype Field = Name | Email | Subject | Message

  /** The fields in the order validation inserts them into the error object. */
  const AllFields: seq<Field> := [Name, Email, Subject, Message]

  function Key(f: Field): string {
    match f
    case Name => "name"
    case Email => "email"
    case Subject => "subject"
    case Message => "message"
  }

  function ErrorText(f: Field): string {
    match f
    case Name => "Name must be at least 2 characters long"
    case Email => "Please enter a valid email address"
    case Subject => "Subject must be at least 5 characters long"
    case Message => "Message must be at least 10 characters long"
  }

  /** Id of the element that shows a field's error: `<field>-error`. */
  function ErrorId(f: Field): (id: string)
    ensures id == Key(f) + "-error"
  {
    match f
    case Name => "name-error"
    case Email => "email-error"
    case Subject => "subject-error"
    case Message => "message-error"
  }

  /** A text field is rejected when it is missing or empty (falsy) or the
      `.length` of its trimmed value is below `min`. */
  predicate TooShort(v: Option<string>, min: nat) {
    v.None? || v.value == "" || Length(Trim(v.value)) < min
  }

  /** The e-mail is rejected when missing or empty, or when the untrimmed
      value does not have the shape `A@B.C`. */
  predicate BadEmail(v: Option<string>) {
    v.None? || v.value == "" || !IsEmail(v.value)
  }

  /** What validation rejects, in terms of the values alone: a missing text
      field or one whose trimmed value has fewer UTF-16 code units than its
      minimum (2 for the name, 5 for the subject, 10 for the message), and a
      missing e-mail or one that is not `A@B.C`. */
  ghost predicate Rejected(data: FormData, f: Field) {
    match f
    case Name => data.name.None? || |Units(Trim(data.name.value))| < 2
    case Email => data.email.None? || !IsAtDotAddress(data.email.value)
    case Subject => data.subject.None? || |Units(Trim(data.subject.value))| < 5
    case Message => data.message.None? || |Units(Trim(data.message.value))| < 10
  }

  /** The check the form applies to field `f`. */
  predicate Fails(data: FormData, f: Field) {
    match f
    case Name => TooShort(data.name, 2)
    case Email => BadEmail(data.email)
    case Subject => TooShort(data.subject, 5)
    case Message => TooShort(data.message, 10)
  }

  /** The checks as the form codes them agree with `Rejected`. */
  lemma ChecksMeanRejected(data: FormData, f: Field)
    ensures Fails(data, f) <==> Rejected(data, f)
  {
    match ValueOf(data, f)
    case None =>
    case Some(v) =>
      if f == Email {
        EmailIff(v);
      } else {
        LengthUnits(Trim(v));
      }
  }

  /** `validateForm`'s error object: one entry per rejected field, holding
      that field's fixed message. */
  function FormErrors(data: FormData): map<Field, string> {
    map f | f in {Name, Email, Subject, Message} && Fails(data, f) :: ErrorText(f)
  }

  /** The error object reports exactly the rejected fields, each with its own
      message: each entry depends on its own field only. */
  lemma FormErrorsReport(data: FormData)
    ensures forall f: Field :: f in FormErrors(data) <==> Rejected(data, f)
    ensures forall f | f in FormErrors(data) :: FormErrors(data)[f] == ErrorText(f)
  {
    forall f: Field
      ensures f in FormErrors(data) <==> Rejected(data, f)
    {
      ChecksMeanRejected(data, f);
    }
  }

  /** The submitted value of one field. */
  function ValueOf(data: FormData, f: Field): Option<string> {
    match f
    case Name => data.name
    case Email => data.email
    case Subject => data.subject
    case Message => data.message
  }

  /** Whether a field is reported depends on that field's value alone. */
  lemma ErrorDependsOnOwnField(a: FormData, b: FormData, f: Field)
    requires ValueOf(a, f) == ValueOf(b, f)
    ensures f in FormErrors(a) <==> f in FormErrors(b)
  {
    FormErrorsReport(a);
    FormErrorsReport(b);
  }

  /** A submission whose name, subject and message are present but shorter
      than their minimum, and whose e-mail has no `@`, is reported on all
      four fields. */
  lemma ShortFieldsRejected(d: FormData)
    requires d.name.Some? && Length(d.name.value) < 2
    requires d.email.Some? && '@' !in d.email.value
    requires d.subject.Some? && Length(d.subject.value) < 5
    requires d.message.Some? && Length(d.message.value) < 10
    ensures FormErrors(d).Keys == {Name, Email, Subject, Message}
  {
    TrimShortens(d.name.value);
    TrimShortens(d.subject.value);
    TrimShortens(d.message.value);
    FormErrorsReport(d);
    assert !IsAtDotAddress(d.email.value);
    forall f: Field
      ensures Rejected(d, f)
    {
      match f
      case Name =>
      case Email =>
      case Subject =>
      case Message =>
    }
  }

  lemma LongEnough(v: string, min: nat)
    requires Trimmed(v) && Length(v) >= min
    ensures |Units(Trim(v))| >= min
  {
    TrimKeepsTrimmed(v);
    LengthUnits(v);
  }

  /** A submission whose text fields are long enough and carry no surrounding
      white space, and whose e-mail is `local@host.tld` for runs without
      white space or `@`, has no errors. */
  lemma WellFormedAccepted(d: FormData, local: string, host: string, tld: string)
    requires d.name.Some? && Trimmed(d.name.value) && Length(d.name.value) >= 2
    requires d.email == Some(local + "@" + host + "." + tld)
    requires IsRun(local) && IsRun(host) && IsRun(tld)
    requires d.subject.Some? && Trimmed(d.subject.value) && Length(d.subject.value) >= 5
    requires d.message.Some? && Trimmed(d.message.value) && Length(d.message.value) >= 10
    ensures FormErrors(d) == map[]
  {
    LongEnough(d.name.value, 2);
    LongEnough(d.subject.value, 5);
    LongEnough(d.message.value, 10);
    var s := d.email.value;
    var i := |local|;
    var j := |local| + 1 + |host|;
    assert s[..i] == local;
    assert s[i + 1..j] == host;
    assert s[j + 1..] == tld;
    assert s[i] == '@' && s[j] == '.';
    assert IsAtDotAddress(s);
    FormErrorsReport(d);
    forall f: Field
      ensures !Rejected(d, f)
    {
      match f
      case Name =>
      case Email =>
      case Subject =>
      case Message =>
    }
    assert FormErrors(d).Keys == {};
  }

  // ---------------------------------------------------------------------
  // Displaying the errors

  /** A `.form-error` element: its id, its text and whether it has class `show`. */
  datatype ErrorSlot = ErrorSlot(id: string, text: string, shown: bool)

  /** `document.getElementById(id)` among the slots: the first one with that id. */
  function FirstWithId(slots: seq<ErrorSlot>, id: string): (r: Option<nat>)
    ensures r.Some? ==> r.value < |slots| && slots[r.value].id == id
    ensures r.Some? ==> forall k | 0 <= k < r.value :: slots[k].id != id
    ensures r.None? ==> forall k | 0 <= k < |slots| :: slots[k].id != id
  {
    if slots == [] then None
    else if slots[0].id == id then Some(0)
    else match FirstWithId(slots[1..], id)
      case None => None
      case Some(k) => Some(k + 1)
  }

  /** The field whose error slot has this id, if any. */
  function FieldOfId(id: string): (r: Option<Field>)
    ensures r.Some? ==> ErrorId(r.value) == id
    ensures r.None? ==> forall f: Field :: ErrorId(f) != id
  {
    if id == "name-error" then Some(Name)
    else if id == "email-error" then Some(Email)
    else if id == "subject-error" then Some(Subject)
    else if id == "message-error" then Some(Message)
    else None
  }

  /** Each field's error id leads back to that field. */
  lemma FieldOfErrorId(f: Field)
    ensures FieldOfId(ErrorId(f)) == Some(f)
  {
    match f
    case Name =>
    case Email =>
    case Subject =>
    case Message =>
  }

  /** Slot `j` after `displayFormErrors(errors)`: it shows a reported
      field's message when it is the slot `getElementById` finds for that
      field, and is empty and hidden otherwise. */
  function SlotAfter(slots: seq<ErrorSlot>, errors: map<Field, string>, j: nat): ErrorSlot
    requires j < |slots|
  {
    var f := FieldOfId(slots[j].id);
    if f.Some? && f.value in errors && FirstWithId(slots, slots[j].id) == Some(j)
    then slots[j].(text := errors[f.value], shown := true)
    else slots[j].(text := "", shown := false)
  }

  /** The slots after `displayFormErrors(errors)`. */
  function Displayed(slots: seq<ErrorSlot>, errors: map<Field, string>): (r: seq<ErrorSlot>)
    ensures |r| == |slots|
    ensures forall j | 0 <= j < |r| :: r[j].id == slots[j].id
  {
    seq(|slots|, j requires 0 <= j < |slots| => SlotAfter(slots, errors, j))
  }

  /** The slot found for a field shows exactly when the field is reported, with its message. */
  lemma ShownIffReported(slots: seq<ErrorSlot>, errors: map<Field, string>, f: Field)
    requires FirstWithId(slots, ErrorId(f)).Some?
    ensures var j := FirstWithId(slots, ErrorId(f)).value;
            && (Displayed(slots, errors)[j].shown <==> f in errors)
            && (f in errors ==> Displayed(slots, errors)[j].text == errors[f])
            && (f !in errors ==> Displayed(slots, errors)[j].text == "")
  {
    var j := FirstWithId(slots, ErrorId(f)).value;
    FieldOfErrorId(f);
    assert slots[j].id == ErrorId(f);
    assert FieldOfId(slots[j].id) == Some(f);
  }

  /** A slot that no reported field's lookup finds is cleared. */
  lemma OthersCleared(slots: seq<ErrorSlot>, errors: map<Field, string>, j: nat)
    requires j < |slots|
    requires forall f | f in errors :: FirstWithId(slots, ErrorId(f)) != Some(j)
    ensures !Displayed(slots, errors)[j].shown && Displayed(slots, errors)[j].text == ""
  {
    var f := FieldOfId(slots[j].id);
    if f.Some? && f.value in errors {
      assert ErrorId(f.value) == slots[j].id;
    }
  }

  lemma {:induction false} FirstWithIdSameIds(a: seq<ErrorSlot>, b: seq<ErrorSlot>, id: string)
    requires |a| == |b| && forall k | 0 <= k < |a| :: a[k].id == b[k].id
    ensures FirstWithId(a, id) == FirstWithId(b, id)
  {
    if a != [] {
      FirstWithIdSameIds(a[1..], b[1..], id);
    }
  }

  /** Reporting one more field changes only the slot found for it. */
  lemma DisplayOneMore(orig: seq<ErrorSlot>, before: map<Field, string>, f: Field, msg: string)
    requires f !in before
    ensures var at := FirstWithId(orig, ErrorId(f));
            var d := Displayed(orig, before);
            Displayed(orig, before[f := msg]) ==
              if at.Some? then d[at.value := d[at.value].(text := msg, shown := true)] else d
  {
    var at := FirstWithId(orig, ErrorId(f));
    var d := Displayed(orig, before);
    var e := Displayed(orig, before[f := msg]);
    var want := if at.Some? then d[at.value := d[at.value].(text := msg, shown := true)] else d;
    forall j | 0 <= j < |orig|
      ensures e[j] == want[j]
    {
      var g := FieldOfId(orig[j].id);
      if g == Some(f) {
        assert orig[j].id == ErrorId(f);
        assert FirstWithId(orig, orig[j].id) == at;
      } else {
        assert SlotAfter(orig, before[f := msg], j) == SlotAfter(orig, before, j);
      }
    }
  }

  /** `getElementById` over the slot array. */
  method FindSlot(slots: array<ErrorSlot>, id: string) returns (r: Option<nat>)
    ensures r == FirstWithId(slots[..], id)
  {
    var j := 0;
    while j < slots.Length && slots[j].id != id
      invariant 0 <= j <= slots.Length
      invariant forall k | 0 <= k < j :: slots[k].id != id
    {
      j := j + 1;
    }
    r := if j < slots.Length then Some(j) else None;
  }

  /** The entries of `errors` for the fields in `done`. */
  function Restrict(errors: map<Field, string>, done: seq<Field>): map<Field, string> {
    map f | f in errors && f in done :: errors[f]
  }

  /** Taking one more field of `AllFields` adds that field's entry, if any. */
  lemma RestrictStep(errors: map<Field, string>, i: nat)
    requires i < |AllFields|
    ensures AllFields[i] in errors ==>
              Restrict(errors, AllFields[..i + 1]) == Restrict(errors, AllFields[..i])[AllFields[i] := errors[AllFields[i]]]
    ensures AllFields[i] !in errors ==>
              Restrict(errors, AllFields[..i + 1]) == Restrict(errors, AllFields[..i])
    ensures AllFields[i] !in Restrict(errors, AllFields[..i])
  {
    assert AllFields[..i + 1] == AllFields[..i] + [AllFields[i]];
  }

  /** Every field is in `AllFields`, so restricting to all of them keeps everything. */
  lemma RestrictAll(errors: map<Field, string>)
    ensures Restrict(errors, AllFields) == errors
  {
    forall f: Field
      ensures f in AllFields
    {
      match f
      case Name => assert AllFields[0] == f;
      case Email => assert AllFields[1] == f;
      case Subject => assert AllFields[2] == f;
      case Message => assert AllFields[3] == f;
    }
  }

  /** With nothing reported, every slot is cleared. */
  lemma DisplayNothing(orig: seq<ErrorSlot>)
    ensures Displayed(orig, map[]) == seq(|orig|, k requires 0 <= k < |orig| => orig[k].(text := "", shown := false))
  {
  }

  /** Shows `msg` in the slot `getElementById` finds for `f`, if any. */
  method ShowError(slots: array<ErrorSlot>, ghost orig: seq<ErrorSlot>, ghost before: map<Field, string>,
                   f: Field, msg: string)
    requires f !in before && slots[..] == Displayed(orig, before)
    modifies slots
    ensures slots[..] == Displayed(orig, before[f := msg])
  {
    ghost var cur := slots[..];
    DisplayOneMore(orig, before, f, msg);
    FirstWithIdSameIds(cur, orig, ErrorId(f));
    var at := FindSlot(slots, ErrorId(f));
    if at.Some? {
      slots[at.value] := slots[at.value].(text := msg, shown := true);
      assert slots[..] == cur[at.value := cur[at.value].(text := msg, shown := true)];
    }
  }

  /** `displayFormErrors`: clear every slot, then show each reported field's
      message in the slot its id designates. */
  method DisplayFormErrors(slots: array<ErrorSlot>, errors: map<Field, string>)
    modifies slots
    ensures slots[..] == Displayed(old(slots[..]), errors)
  {
    ghost var orig := slots[..];
    var j := 0;
    while j < slots.Length
      invariant 0 <= j <= slots.Length
      invariant forall k | 0 <= k < j :: slots[k] == orig[k].(text := "", shown := false)
      invariant forall k | j <= k < slots.Length :: slots[k] == orig[k]
    {
      slots[j] := slots[j].(text := "", shown := false);
      j := j + 1;
    }
    DisplayNothing(orig);
    assert Restrict(errors, AllFields[..0]) == map[];
    var i := 0;
    while i < |AllFields|
      invariant 0 <= i <= |AllFields|
      invariant slots[..] == Displayed(orig, Restrict(errors, AllFields[..i]))
    {
      var f := AllFields[i];
      RestrictStep(errors, i);
      if f in errors {
        ShowError(slots, orig, Restrict(errors, AllFields[..i]), f, errors[f]);
      }
      i := i + 1;
    }
    assert AllFields[..i] == AllFields;
    RestrictAll(errors);
  }

  /** `validateForm`: report the errors in the slots, and accept the form
      exactly when there is none. */
  method ValidateForm(data: FormData, slots: array<ErrorSlot>) returns (ok: bool)
    modifies slots
    ensures ok <==> FormErrors(data) == map[]
    ensures ok <==> forall f: Field :: !Rejected(data, f)
    ensures slots[..] == Displayed(old(slots[..]), FormErrors(data))
  {
    FormErrorsReport(data);
    var errors := FormErrors(data);
    DisplayFormErrors(slots, errors);
    ok := |errors.Keys| == 0;
  }
}
