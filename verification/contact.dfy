/** The contact form: a four-field record updated on every keystroke and
    cleared when the form is submitted. The send itself is only simulated
    by the component (a confirmation toast), so there is no request, no
    in-flight flag and no failure path to model. */
module Contact {
  import opened Common

  /** The keys of the form record. */
  datatype Field = Name | Email | Subject | Message

  /** The form record `{ name, email, subject, message }`. */
  datatype FormData = FormData(name: string, email: string, subject: string, message: string)

  /** The form on mount, and after every submit. */
  function EmptyForm(): (f: FormData)
    ensures forall k: Field :: Get(f, k) == ""
  {
    FormData("", "", "", "")
  }

  /** The record key a field is stored under (the inputs' `name`). */
  function FieldName(k: Field): string {
    match k
    case Name => "name"
    case Email => "email"
    case Subject => "subject"
    case Message => "message"
  }

  /** The field an input's `name` attribute designates, if any. */
  function FieldOf(key: string): (r: Option<Field>)
    ensures r.Some? ==> FieldName(r.value) == key
    ensures r.None? ==> forall k: Field :: FieldName(k) != key
  {
    if key == "name" then Some(Name)
    else if key == "email" then Some(Email)
    else if key == "subject" then Some(Subject)
    else if key == "message" then Some(Message)
    else None
  }

  /** Every field's key leads back to that field. */
  lemma FieldNameRoundTrip(k: Field)
    ensures FieldOf(FieldName(k)) == Some(k)
  {
  }

  /** The `name` attributes of the form's inputs, in form order. They are
      distinct and are exactly the four record keys. */
  function InputNames(): (ns: seq<string>)
    ensures Distinct(ns)
    ensures forall i :: 0 <= i < |ns| ==> FieldOf(ns[i]).Some?
    ensures forall k: Field :: FieldName(k) in ns
  {
    ["name", "email", "subject", "message"]
  }

  function Get(f: FormData, k: Field): string {
    match k
    case Name => f.name
    case Email => f.email
    case Subject => f.subject
    case Message => f.message
  }

  /** `handleInputChange`: `{ ...formData, [name]: value }`. */
  function HandleInputChange(f: FormData, k: Field, value: string): (r: FormData)
    ensures Get(r, k) == value
    ensures forall other: Field :: other != k ==> Get(r, other) == Get(f, other)
  {
    match k
    case Name => f.(name := value)
    case Email => f.(email := value)
    case Subject => f.(subject := value)
    case Message => f.(message := value)
  }

  /** The change handler as the inputs call it, with the event's target
      name; every input carries one of the four keys. */
  function HandleInputEvent(f: FormData, targetName: string, value: string): (r: FormData)
    requires targetName in InputNames()
    ensures FieldOf(targetName).Some? && Get(r, FieldOf(targetName).value) == value
    ensures forall other: Field :: FieldName(other) != targetName ==> Get(r, other) == Get(f, other)
  {
    HandleInputChange(f, FieldOf(targetName).value, value)
  }

  /** Writing a field twice keeps only the second value. */
  lemma LastWriteWins(f: FormData, k: Field, v1: string, v2: string)
    ensures HandleInputChange(HandleInputChange(f, k, v1), k, v2) == HandleInputChange(f, k, v2)
  {
  }

  /** Edits to different fields do not interfere. */
  lemma DistinctFieldsCommute(f: FormData, k1: Field, k2: Field, v1: string, v2: string)
    requires k1 != k2
    ensures HandleInputChange(HandleInputChange(f, k1, v1), k2, v2) ==
            HandleInputChange(HandleInputChange(f, k2, v2), k1, v1)
  {
  }

  /** Writing back a field's current value changes nothing. */
  lemma RewriteIsNoOp(f: FormData, k: Field)
    ensures HandleInputChange(f, k, Get(f, k)) == f
  {
  }

  /** `handleSubmit`: the fields are reset whatever they held. */
  function HandleSubmit(f: FormData): (r: FormData)
    ensures forall k: Field :: Get(r, k) == ""
    ensures r == EmptyForm()
  {
    EmptyForm()
  }

  /** Submitting twice leaves the same state as submitting once. */
  lemma SubmitIdempotent(f: FormData)
    ensures HandleSubmit(HandleSubmit(f)) == HandleSubmit(f)
  {
  }

  /** The browser only fires the submit handler when every `required`
      field is non-empty and the `type="email"` field passes the browser's
      own address check, which is a parameter here. */
  predicate MaySubmit(f: FormData, emailAccepted: bool) {
    f.name != "" && f.email != "" && f.subject != "" && f.message != "" && emailAccepted
  }

  /** Pressing "Send Message": either the browser blocks the submit and the
      fields stay, or the handler runs and clears them. */
  function PressSend(f: FormData, emailAccepted: bool): (r: (FormData, bool))
    ensures r.1 <==> (forall k: Field :: Get(f, k) != "") && emailAccepted
    ensures r.1 ==> forall k: Field :: Get(r.0, k) == ""
    ensures !r.1 ==> r.0 == f
  {
    assert (forall k: Field :: Get(f, k) != "") ==>
      Get(f, Name) != "" && Get(f, Email) != "" && Get(f, Subject) != "" && Get(f, Message) != "";
    if MaySubmit(f, emailAccepted) then (HandleSubmit(f), true) else (f, false)
  }
}
