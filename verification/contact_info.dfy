/** The value logic of the contact-info question: five text slots (first
    name, last name, email, phone, company), how an edit rewrites them, how
    they are normalised on submit, which inputs are required, and how the
    phone input is validated against the selected country code. */
module ContactInfo {
  import opened Wrappers
  import opened Text

  datatype FieldId = FirstName | LastName | Email | Phone | Company

  /** What the question's settings say about one field. */
  datatype FieldSettings = FieldSettings(show: bool, required: bool)

  /** The part of a contact-info question the value logic reads. */
  datatype ContactQuestion = ContactQuestion(
    required: bool,
    firstName: FieldSettings,
    lastName: FieldSettings,
    email: FieldSettings,
    phone: FieldSettings,
    company: FieldSettings)

  /** The fields in slot order. */
  const FieldOrder: seq<FieldId> := [FirstName, LastName, Email, Phone, Company]

  /** The slot of a field. */
  function IndexOf(f: FieldId): (i: nat)
    ensures i < |FieldOrder| && FieldOrder[i] == f
  {
    match f
    case FirstName => 0
    case LastName => 1
    case Email => 2
    case Phone => 3
    case Company => 4
  }

  lemma EverySlotHasItsField(i: nat)
    requires i < |FieldOrder|
    ensures IndexOf(FieldOrder[i]) == i
  {
  }

  function Settings(q: ContactQuestion, f: FieldId): FieldSettings
  {
    match f
    case FirstName => q.firstName
    case LastName => q.lastName
    case Email => q.email
    case Phone => q.phone
    case Company => q.company
  }

  /** `safeValue`: the stored answer when there is one, else five empty slots. */
  function SafeValue(value: Option<seq<string>>): (v: seq<string>)
    ensures value.Some? ==> v == value.value
    ensures value.None? ==> |v| == |FieldOrder| && forall i :: 0 <= i < |v| ==> v[i] == ""
  {
    match value
    case Some(stored) => stored
    case None => ["", "", "", "", ""]
  }

  /** `safeValue[i] || ""`: a slot the answer does not have reads as empty. */
  function Slot(v: seq<string>, i: nat): string
  {
    if i < |v| then v[i] else ""
  }

  /** `handleChange(fieldId, fieldValue)`: the new five-slot answer after the
      user types `x` into field `f`. */
  function HandleChange(q: ContactQuestion, v: seq<string>, f: FieldId, x: string): (r: seq<string>)
    ensures |r| == |FieldOrder|
    ensures r[IndexOf(f)] == x
    ensures forall g :: g != f && Settings(q, g).show ==> r[IndexOf(g)] == Slot(v, IndexOf(g))
    ensures forall g :: g != f && !Settings(q, g).show ==> r[IndexOf(g)] == ""
  {
    seq(|FieldOrder|, i requires 0 <= i < |FieldOrder| =>
      var field := FieldOrder[i];
      if field == f then x
      else if Settings(q, field).show then Slot(v, i)
      else "")
  }

  predicate AllShown(q: ContactQuestion)
  {
    forall f :: Settings(q, f).show
  }

  /** With every field shown and a full answer, an edit replaces one slot and nothing else. */
  lemma ChangeIsPointUpdate(q: ContactQuestion, v: seq<string>, f: FieldId, x: string)
    requires AllShown(q) && |v| == |FieldOrder|
    ensures HandleChange(q, v, f, x) == v[IndexOf(f) := x]
  {
    var r := HandleChange(q, v, f, x);
    forall i | 0 <= i < |FieldOrder|
      ensures r[i] == v[IndexOf(f) := x][i]
    {
      EverySlotHasItsField(i);
    }
  }

  /** Repeating an edit changes nothing. */
  lemma ChangeIdempotent(q: ContactQuestion, v: seq<string>, f: FieldId, x: string)
    ensures HandleChange(q, HandleChange(q, v, f, x), f, x) == HandleChange(q, v, f, x)
  {
    var once := HandleChange(q, v, f, x);
    var twice := HandleChange(q, once, f, x);
    forall i | 0 <= i < |FieldOrder|
      ensures twice[i] == once[i]
    {
      EverySlotHasItsField(i);
    }
  }

  /** Edits of two different shown fields can be made in either order. */
  lemma ChangesOfShownFieldsCommute(q: ContactQuestion, v: seq<string>, f: FieldId, x: string, g: FieldId, y: string)
    requires f != g && Settings(q, f).show && Settings(q, g).show
    ensures HandleChange(q, HandleChange(q, v, f, x), g, y) == HandleChange(q, HandleChange(q, v, g, y), f, x)
  {
    var left := HandleChange(q, HandleChange(q, v, f, x), g, y);
    var right := HandleChange(q, HandleChange(q, v, g, y), f, x);
    forall i | 0 <= i < |FieldOrder|
      ensures left[i] == right[i]
    {
      EverySlotHasItsField(i);
    }
  }

  /** Reading `.id` of `fields[index]` when there is no such field throws. */
  datatype SubmitError = NoFieldAt(index: nat)

  /** The test `safeValue.length === 5 && safeValue.every(item => item.trim() === "")`. */
  predicate ContainsAllEmptyStrings(v: seq<string>)
  {
    |v| == 5 && forall i :: 0 <= i < |v| ==> Trim(v[i]) == []
  }

  /** The answer `handleSubmit` hands on: the phone slot gets the selected
      country code in front of it, and an answer of five blank slots becomes
      the empty list. An answer longer than the five fields throws. */
  function Submit(v: seq<string>, code: string): (r: Result<seq<string>, SubmitError>)
    ensures r.Failure? <==> |v| > |FieldOrder|
    ensures r.Success? && |v| == 5 && (forall i :: 0 <= i < |v| ==> IsBlank(v[i])) ==> r.value == []
    ensures r.Success? && !(|v| == 5 && forall i :: 0 <= i < |v| ==> IsBlank(v[i])) ==>
              && |r.value| == |v|
              && (forall i :: 0 <= i < |v| && i != IndexOf(Phone) ==> r.value[i] == v[i])
              && (IndexOf(Phone) < |v| ==> r.value[IndexOf(Phone)] == code + " " + v[IndexOf(Phone)])
  {
    forall i | 0 <= i < |v| {
      TrimEmptyIffBlank(v[i]);
    }
    if |v| > |FieldOrder| then Failure(NoFieldAt(|FieldOrder|))
    else
      var finalValues := seq(|v|, i requires 0 <= i < |v| =>
        if FieldOrder[i] == Phone then code + " " + v[i] else v[i]);
      if ContainsAllEmptyStrings(v) then Success([]) else Success(finalValues)
  }

  /** The submitted answer is the empty list exactly when the stored answer
      is five blank slots, or is itself empty. */
  lemma SubmitEmptyIff(v: seq<string>, code: string)
    ensures Submit(v, code) == Success([]) <==>
              v == [] || (|v| == 5 && forall i :: 0 <= i < |v| ==> IsBlank(v[i]))
  {
    forall i | 0 <= i < |v| {
      TrimEmptyIffBlank(v[i]);
    }
  }

  /** An answer produced by an edit always has five slots, so submitting it never throws. */
  lemma SubmitAfterChangeSucceeds(q: ContactQuestion, v: seq<string>, f: FieldId, x: string, code: string)
    ensures Submit(HandleChange(q, v, f, x), code).Success?
  {
  }

  /** Is every field in `fs` optional? */
  function EveryOptional(q: ContactQuestion, fs: seq<FieldId>): (b: bool)
    ensures b <==> forall i :: 0 <= i < |fs| ==> !Settings(q, fs[i]).required
  {
    if fs == [] then true else !Settings(q, fs[0]).required && EveryOptional(q, fs[1..])
  }

  /** `fields.filter(f => f.show)`. */
  function ShownOf(q: ContactQuestion, fs: seq<FieldId>): (r: seq<FieldId>)
    ensures forall g :: g in r <==> g in fs && Settings(q, g).show
  {
    if fs == [] then []
    else (if Settings(q, fs[0]).show then [fs[0]] else []) + ShownOf(q, fs[1..])
  }

  /** `isFieldRequired()` of field `f`: its own flag, or else the question is
      required and no shown field is required. */
  function IsFieldRequired(q: ContactQuestion, f: FieldId): (r: bool)
    ensures r <==> Settings(q, f).required ||
                   (q.required && forall g :: Settings(q, g).show ==> !Settings(q, g).required)
  {
    var shown := ShownOf(q, FieldOrder);
    assert forall g :: g in shown <==> Settings(q, g).show by {
      forall g ensures g in FieldOrder {
        assert FieldOrder[IndexOf(g)] == g;
      }
    }
    if Settings(q, f).required then true
    else if EveryOptional(q, shown) && q.required then true
    else false
  }

  /** A required question with at least one shown field always asks for
      at least one of its shown fields. */
  lemma RequiredQuestionRequiresAShownField(q: ContactQuestion, f: FieldId)
    requires q.required && Settings(q, f).show
    ensures exists g :: Settings(q, g).show && IsFieldRequired(q, g)
  {
    if !IsFieldRequired(q, f) {
      var g :| Settings(q, g).show && Settings(q, g).required;
      assert IsFieldRequired(q, g);
    }
  }

  /** For an optional question each field keeps its own flag. */
  lemma OptionalQuestionKeepsFieldFlags(q: ContactQuestion, f: FieldId)
    requires !q.required
    ensures IsFieldRequired(q, f) == Settings(q, f).required
  {
  }

  /** The two `pattern` attributes of the phone input. */
  datatype PhonePattern =
    | PlusThenDigits  // ^\+[0-9]+$ : no country selected, the number carries its own code
    | DigitsOnly      // ^[0-9]+$  : a country is selected, digits only

  function PatternFor(code: string): (p: PhonePattern)
    ensures p == PlusThenDigits <==> code == ""
  {
    if code == "" then PlusThenDigits else DigitsOnly
  }

  predicate IsDigit(c: char)
  {
    '0' <= c <= '9'
  }

  /** A non-empty run of decimal digits, `[0-9]+`. */
  predicate AllDigits(t: string)
  {
    |t| >= 1 && forall i :: 0 <= i < |t| ==> IsDigit(t[i])
  }

  /** Does the whole input match the pattern? `^\+[0-9]+$` accepts exactly a
      '+' followed by a run of digits, `^[0-9]+$` exactly a run of digits. */
  function Matches(p: PhonePattern, s: string): (b: bool)
    ensures p == PlusThenDigits ==> (b <==> |s| >= 1 && s[0] == '+' && AllDigits(s[1..]))
    ensures p == DigitsOnly ==> (b <==> AllDigits(s))
  {
    assert |s| >= 1 ==> forall i :: 1 <= i < |s| ==> s[1..][i - 1] == s[i];
    match p
    case PlusThenDigits => |s| >= 2 && s[0] == '+' && forall i :: 1 <= i < |s| ==> IsDigit(s[i])
    case DigitsOnly => AllDigits(s)
  }

  /** Without a selected country a valid phone is a '+' followed by a valid
      digits-only phone. */
  lemma PlusPatternIsPlusThenDigitsPattern(s: string)
    ensures Matches(PlusThenDigits, s) <==> |s| >= 1 && s[0] == '+' && Matches(DigitsOnly, s[1..])
  {
  }

  /** No input is valid both with and without a selected country. */
  lemma PatternsDisjoint(s: string)
    ensures !(Matches(PlusThenDigits, s) && Matches(DigitsOnly, s))
  {
  }

  /** The country selector's state: the button text and the selected code. */
  datatype PhoneCountry = PhoneCountry(buttonText: string, code: string)

  /** Before any selection the button reads "click..." and no code is set. */
  const InitialPhoneCountry: PhoneCountry := PhoneCountry("click...", "")

  /** `handleCountryCodeChange(flag, code)`. */
  function SelectCountry(flag: string, code: string): (p: PhoneCountry)
    ensures p.code == code
    ensures |p.buttonText| == |flag| + 1 + |code|
    ensures p.buttonText[..|flag|] == flag && p.buttonText[|flag|] == ' '
    ensures p.buttonText[|flag| + 1..] == p.code
  {
    PhoneCountry(flag + " " + code, code)
  }

  /** The pattern follows the selection: initially, and after the empty
      selection that Enter on an empty search makes, a '+' is required;
      after choosing a country with a code, digits only. */
  lemma PatternFollowsSelection(flag: string, code: string)
    ensures PatternFor(InitialPhoneCountry.code) == PlusThenDigits
    ensures PatternFor(SelectCountry("", "").code) == PlusThenDigits
    ensures code != "" ==> PatternFor(SelectCountry(flag, code).code) == DigitsOnly
  {
  }
}
