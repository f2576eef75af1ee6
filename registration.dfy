/**
 * The registration page (src/Student/Registration.jsx): the form state, the
 * change handler that filters what may be typed into the contact number,
 * the `allFilled` gate that enables the REGISTER button, and the body the
 * page posts to the register route.
 */
module Registration {
  import opened Wrappers
  import opened Text
  import opened Validation
  import opened Rooms

  /** `formData`. */
  datatype FormData = FormData(
    fullName: string,
    contactNumber: string,
    email: string,
    residence: string,
    block: string,
    password: string,
    confirmPassword: string)

  /** The initial `formData`: every field empty. */
  const EmptyForm: FormData := FormData("", "", "", "", "", "", "")

  /** The `name` attribute of each input. */
  datatype Field = FullName | ContactNumber | Email | Residence | Block | Password | ConfirmPassword

  function Get(f: FormData, field: Field): string {
    match field
    case FullName => f.fullName
    case ContactNumber => f.contactNumber
    case Email => f.email
    case Residence => f.residence
    case Block => f.block
    case Password => f.password
    case ConfirmPassword => f.confirmPassword
  }

  /**
   * `/^\d{0,10}$/.test(value)`: at most ten ASCII digits and nothing else.
   * What passes is at most ten code units long, and once it is ten long it
   * passes the server's contact number check.
   */
  function ContactInputOk(value: string): (ok: bool)
    ensures ok ==> Utf16Length(value) == |value| <= 10
    ensures ok && Utf16Length(value) == 10 ==> ValidContactNumber(value)
    ensures value == [] ==> ok
  {
    DigitsUtf16LengthIfAll(value);
    |value| <= 10 && AllDigits(value)
  }

  /** Digits are one code unit each. */
  lemma DigitsUtf16LengthIfAll(value: string)
    ensures AllDigits(value) ==> Utf16Length(value) == |value|
  {
    if AllDigits(value) {
      DigitsUtf16Length(value);
    }
  }

  /** `{ ...prev, [name]: value }`. */
  function Set(f: FormData, field: Field, value: string): FormData {
    match field
    case FullName => f.(fullName := value)
    case ContactNumber => f.(contactNumber := value)
    case Email => f.(email := value)
    case Residence => f.(residence := value)
    case Block => f.(block := value)
    case Password => f.(password := value)
    case ConfirmPassword => f.(confirmPassword := value)
  }

  /**
   * `handleChange`: a contact number is taken only when it passes the
   * filter; any other field takes the value as typed. Nothing else changes.
   */
  function HandleChange(f: FormData, field: Field, value: string): (g: FormData)
    ensures field == ContactNumber && !ContactInputOk(value) ==> g == f
    ensures field != ContactNumber || ContactInputOk(value) ==> Get(g, field) == value
    ensures forall other :: other != field ==> Get(g, other) == Get(f, other)
  {
    if field == ContactNumber && !ContactInputOk(value) then f else Set(f, field, value)
  }

  /** A change keeps the contact number a string of at most ten digits. */
  lemma HandleChangeKeepsContact(f: FormData, field: Field, value: string)
    requires ContactInputOk(f.contactNumber)
    ensures ContactInputOk(HandleChange(f, field, value).contactNumber)
  {
    assert HandleChange(f, field, value).contactNumber == Get(HandleChange(f, field, value), ContactNumber);
  }

  /** One input event. */
  datatype Edit = Edit(field: Field, value: string)

  /** The form after a sequence of input events, starting from `f`. */
  function Replay(f: FormData, edits: seq<Edit>): FormData
    decreases |edits|
  {
    if edits == [] then f
    else Replay(HandleChange(f, edits[0].field, edits[0].value), edits[1..])
  }

  /** Whatever is typed, from the empty form on the contact number is at most ten digits. */
  lemma {:induction false} ReplayKeepsContact(f: FormData, edits: seq<Edit>)
    requires ContactInputOk(f.contactNumber)
    ensures ContactInputOk(Replay(f, edits).contactNumber)
    decreases |edits|
  {
    if edits != [] {
      HandleChangeKeepsContact(f, edits[0].field, edits[0].value);
      ReplayKeepsContact(HandleChange(f, edits[0].field, edits[0].value), edits[1..]);
    }
  }

  /** JavaScript's truthiness of `s.trim()`. */
  predicate Filled(s: string) {
    Trim(s) != []
  }

  /**
   * `allFilled`: the six text fields are not blank, the contact number
   * has ten code units and the two passwords are equal. A form that passes
   * it has every field the register handler demands.
   */
  function AllFilled(f: FormData): (ok: bool)
    ensures ok ==> AllGiven(ToBody(f))
    ensures ok ==> f.password == f.confirmPassword && f.confirmPassword != []
  {
    && Filled(f.fullName)
    && Utf16Length(f.contactNumber) == 10
    && Filled(f.email)
    && Filled(f.residence)
    && Filled(f.block)
    && Filled(f.password)
    && Filled(f.confirmPassword)
    && f.password == f.confirmPassword
  }

  /** The body `api.post` sends; the confirmation field is ignored by the handler. */
  function ToBody(f: FormData): (b: RegisterBody)
    ensures b.fullName == Some(f.fullName) && b.contactNumber == Some(f.contactNumber) && b.email == Some(f.email)
    ensures b.residence == Some(f.residence) && b.block == Some(f.block) && b.password == Some(f.password)
  {
    RegisterBody(Some(f.fullName), Some(f.contactNumber), Some(f.email), Some(f.residence), Some(f.block), Some(f.password))
  }

  /**
   * A form the gate lets through passes the server's presence and contact
   * number checks; with the password input's six-character minimum it also
   * passes the strength check, so only the email and the duplicate check
   * remain.
   */
  lemma GateMeetsServerChecks(f: FormData)
    requires ContactInputOk(f.contactNumber) && AllFilled(f)
    ensures CheckRegistration(ToBody(f)) != Some(MissingField)
    ensures CheckRegistration(ToBody(f)) != Some(InvalidContact)
    ensures Utf16Length(f.password) >= 6 ==> CheckRegistration(ToBody(f)) != Some(WeakPassword)
  {
  }

  /** A string whose first character is not white space is filled. */
  lemma StartsFilled(s: string)
    requires s != [] && !IsSpace(s[0])
    ensures Filled(s)
  {
    TrimEmptyIffBlank(s);
  }

  /**
   * The gate itself does not check the password's length: a form whose text
   * fields all hold the same short non-blank string, with ten characters of
   * contact number, enables the button although the server refuses its
   * password.
   */
  lemma GateAllowsShortPassword(x: string, contact: string)
    requires x != [] && !IsSpace(x[0]) && Utf16Length(x) < 6 && Utf16Length(contact) == 10
    ensures AllFilled(FormData(x, contact, x, x, x, x, x))
    ensures !ValidatePassword(Some(x))
  {
    StartsFilled(x);
  }

  /** The residences the form's select offers. */
  const FormResidences: seq<string> := ["Dinaleding", "Malema", "Kutlwanong", "Meloding"]

  /** Which of the form's residences starts with `p`. */
  function ResidenceByPrefix(p: string): string {
    if p == "Di" then "Dinaleding"
    else if p == "Ma" then "Malema"
    else if p == "Ku" then "Kutlwanong"
    else "Meloding"
  }

  /** The first two letters tell the form's residences apart. */
  lemma PrefixIdentifiesResidence(r: string)
    requires r in FormResidences
    ensures |r| >= 2 && ResidenceByPrefix(r[..2]) == r
  {
    if r == "Dinaleding" {
      assert r[..2] == "Di";
    } else if r == "Malema" {
      assert r[..2] == "Ma";
    } else if r == "Kutlwanong" {
      assert r[..2] == "Ku";
    } else {
      assert r[..2] == "Me";
    }
  }

  /** The residences of the form never share a room, whatever the blocks. */
  lemma FormResidenceRoomsDistinct(r1: string, b1: string, r2: string, b2: string)
    requires r1 in FormResidences && r2 in FormResidences
    requires StudentRoom(r1, b1) == StudentRoom(r2, b2)
    ensures r1 == r2 && b1 == b2
  {
    PrefixIdentifiesResidence(r1);
    PrefixIdentifiesResidence(r2);
    var room := StudentRoom(r1, b1);
    assert r1[..2] == room[10..12] == r2[..2];
    StudentRoomInjectiveForEqualLengths(r1, b1, r2, b2);
  }

  class RegistrationPage {
    var formData: FormData
    var isFormValid: bool
    var loading: bool

    /** The effect has run for the current form, and the contact number passed the filter. */
    ghost predicate Valid()
      reads this
    {
      ContactInputOk(formData.contactNumber) && isFormValid == AllFilled(formData)
    }

    constructor ()
      ensures Valid()
      ensures formData == EmptyForm && !isFormValid && !loading
    {
      formData, isFormValid, loading := EmptyForm, false, false;
      assert |EmptyForm.contactNumber| == 0;
    }

    /** An input event, then the effect that recomputes `isFormValid`. */
    method Change(field: Field, value: string)
      requires Valid()
      modifies this
      ensures Valid()
      ensures formData == HandleChange(old(formData), field, value)
      ensures isFormValid == AllFilled(formData) && loading == old(loading)
    {
      HandleChangeKeepsContact(formData, field, value);
      formData := HandleChange(formData, field, value);
      isFormValid := AllFilled(formData);
    }

    /** `disabled={!isFormValid || loading}`. */
    function SubmitDisabled(): (d: bool)
      reads this
      requires Valid()
      ensures d <==> !AllFilled(formData) || loading
    {
      !isFormValid || loading
    }

    /**
     * `handleRegister` up to the request: the button is enabled, the page
     * starts loading and posts the form.
     */
    method Submit() returns (body: Option<RegisterBody>)
      requires Valid()
      modifies this
      ensures Valid()
      ensures old(SubmitDisabled()) ==> body == None && loading == old(loading)
      ensures !old(SubmitDisabled()) ==> body == Some(ToBody(formData)) && loading
      ensures formData == old(formData) && isFormValid == old(isFormValid)
    {
      if SubmitDisabled() {
        return None;
      }
      StartLoading();
      body := Some(ToBody(formData));
    }

    /** `setLoading(true)`. */
    method StartLoading()
      requires Valid()
      modifies this
      ensures Valid()
      ensures loading && formData == old(formData) && isFormValid == old(isFormValid)
    {
      loading := true;
    }

    /** The `finally` of `handleRegister`. */
    method Finish()
      requires Valid()
      modifies this
      ensures Valid()
      ensures !loading && formData == old(formData) && isFormValid == old(isFormValid)
    {
      loading := false;
    }
  }
}
