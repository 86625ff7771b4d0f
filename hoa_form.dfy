/**
 * The HOA information dialog shown before an upload: the form fields, the
 * validator that collects one error per failing rule, and the payload handed to
 * the upload flow when the form is valid.
 */
module HoaForm {
  import opened Text

  /** The form state. */
  datatype HoaInfo = HoaInfo(
    name: string,
    city: string,
    state: string,
    zipcode: string,
    documentType: string,
    customDocumentName: string)

  const EmptyInfo := HoaInfo("", "", "", "", "", "")

  /** The values the document-type select can emit. */
  const DocumentTypes: seq<string> := ["ccr", "rules", "bylaws", "other"]

  /** The values the state select can emit. */
  const UsStates: seq<string> := [
    "AL", "AK", "AZ", "AR", "CA", "CO", "CT", "DE", "FL", "GA",
    "HI", "ID", "IL", "IN", "IA", "KS", "KY", "LA", "ME", "MD",
    "MA", "MI", "MN", "MS", "MO", "MT", "NE", "NV", "NH", "NJ",
    "NM", "NY", "NC", "ND", "OH", "OK", "OR", "PA", "RI", "SC",
    "SD", "TN", "TX", "UT", "VT", "VA", "WA", "WV", "WI", "WY"]

  // ---------------------------------------------------------------------------
  // Validation
  // ---------------------------------------------------------------------------

  predicate IsDigit(c: char) {
    '0' <= c <= '9'
  }

  /** `zipcode.match(/^\d{5}$/)`: the whole string is five ASCII digits. */
  predicate IsZip(z: string) {
    |z| == 5 && forall k :: 0 <= k < |z| ==> IsDigit(z[k])
  }

  /** The fields a rule can fail on; each is the key of its error entry. */
  datatype Field = Name | DocumentType | CustomDocumentName | City | State | Zipcode {
    /** The key under which the error is stored. */
    function Key(): string {
      match this
      case Name => "name"
      case DocumentType => "documentType"
      case CustomDocumentName => "customDocumentName"
      case City => "city"
      case State => "state"
      case Zipcode => "zipcode"
    }

    /** The message stored under the key. */
    function Message(): string {
      match this
      case Name => "HOA Name is required"
      case DocumentType => "Document Type is required"
      case CustomDocumentName => "Document Name is required"
      case City => "City is required"
      case State => "State is required"
      case Zipcode => "Valid ZIP Code is required"
    }
  }

  /** Whether the rule for a field fails; each rule looks only at its own fields. */
  predicate Fails(info: HoaInfo, f: Field) {
    match f
    case Name => IsBlank(info.name)
    case DocumentType => info.documentType == ""
    case CustomDocumentName => info.documentType == "other" && IsBlank(info.customDocumentName)
    case City => IsBlank(info.city)
    case State => info.state == ""
    case Zipcode => !IsZip(info.zipcode)
  }

  /** Different rules store their errors under different keys, so no error
      overwrites another. */
  lemma KeysDistinct(f: Field, g: Field)
    requires f != g
    ensures f.Key() != g.Key()
  {
  }

  /** The errors of a form: one entry, with its message, for every failing rule. */
  function Errors(info: HoaInfo): map<Field, string> {
    map f: Field | Fails(info, f) :: f.Message()
  }

  /** The form passes when every rule holds. */
  predicate AllRulesHold(info: HoaInfo) {
    && !IsBlank(info.name)
    && info.documentType != ""
    && !(info.documentType == "other" && IsBlank(info.customDocumentName))
    && !IsBlank(info.city)
    && info.state != ""
    && IsZip(info.zipcode)
  }

  /** `validateForm`'s dictionary, built by one conditional insert per rule. */
  method CollectErrors(info: HoaInfo) returns (newErrors: map<Field, string>)
    ensures newErrors == Errors(info)
  {
    newErrors := map[];
    ghost var built := newErrors;
    if IsBlank(info.name) {
      newErrors := newErrors[Name := "HOA Name is required"];
    }
    built := CheckRule(info, built, Name);
    if info.documentType == "" {
      newErrors := newErrors[DocumentType := "Document Type is required"];
    }
    built := CheckRule(info, built, DocumentType);
    if info.documentType == "other" && IsBlank(info.customDocumentName) {
      newErrors := newErrors[CustomDocumentName := "Document Name is required"];
    }
    built := CheckRule(info, built, CustomDocumentName);
    if IsBlank(info.city) {
      newErrors := newErrors[City := "City is required"];
    }
    built := CheckRule(info, built, City);
    if info.state == "" {
      newErrors := newErrors[State := "State is required"];
    }
    built := CheckRule(info, built, State);
    if !IsZip(info.zipcode) {
      newErrors := newErrors[Zipcode := "Valid ZIP Code is required"];
    }
    built := CheckRule(info, built, Zipcode);
    assert newErrors == built;
    RulesInOrder(info);
  }

  /** One conditional insert: the rule's message under its key when the rule fails. */
  function CheckRule(info: HoaInfo, m: map<Field, string>, f: Field): map<Field, string> {
    if Fails(info, f) then m[f := f.Message()] else m
  }

  /** Every entry holds its own field's message. */
  predicate Labelled(m: map<Field, string>) {
    forall f :: f in m ==> m[f] == f.Message()
  }

  /** One insert adds at most its own key and keeps every entry labelled. */
  lemma CheckRuleFacts(info: HoaInfo, m: map<Field, string>, f: Field)
    ensures forall g :: g in CheckRule(info, m, f) <==> g in m || (g == f && Fails(info, f))
    ensures Labelled(m) ==> Labelled(CheckRule(info, m, f))
  {
  }

  /** Applying the six rules in the validator's order yields the rule errors. */
  lemma RulesInOrder(info: HoaInfo)
    ensures CheckRule(info, CheckRule(info, CheckRule(info, CheckRule(info, CheckRule(info,
              CheckRule(info, map[], Name), DocumentType), CustomDocumentName), City), State), Zipcode)
            == Errors(info)
  {
    var m1 := CheckRule(info, map[], Name);
    var m2 := CheckRule(info, m1, DocumentType);
    var m3 := CheckRule(info, m2, CustomDocumentName);
    var m4 := CheckRule(info, m3, City);
    var m5 := CheckRule(info, m4, State);
    var m := CheckRule(info, m5, Zipcode);
    CheckRuleFacts(info, map[], Name);
    CheckRuleFacts(info, m1, DocumentType);
    CheckRuleFacts(info, m2, CustomDocumentName);
    CheckRuleFacts(info, m3, City);
    CheckRuleFacts(info, m4, State);
    CheckRuleFacts(info, m5, Zipcode);
    forall f: Field ensures f in m <==> Fails(info, f) {
      match f
      case Name =>
      case DocumentType =>
      case CustomDocumentName =>
      case City =>
      case State =>
      case Zipcode =>
    }
    assert m.Keys == Errors(info).Keys;
  }

  /** Each failing rule contributes exactly its own key, and no other key appears. */
  lemma ErrorKeys(info: HoaInfo)
    ensures Name in Errors(info) <==> IsBlank(info.name)
    ensures DocumentType in Errors(info) <==> info.documentType == ""
    ensures CustomDocumentName in Errors(info) <==>
              info.documentType == "other" && IsBlank(info.customDocumentName)
    ensures City in Errors(info) <==> IsBlank(info.city)
    ensures State in Errors(info) <==> info.state == ""
    ensures Zipcode in Errors(info) <==> !IsZip(info.zipcode)
  {
  }

  /** `validateForm` returns true exactly when every rule holds. */
  lemma NoErrorsIffValid(info: HoaInfo)
    ensures |Errors(info)| == 0 <==> AllRulesHold(info)
  {
    ErrorKeys(info);
    if |Errors(info)| == 0 {
      assert Errors(info).Keys == {};
    } else {
      var k :| k in Errors(info);
    }
  }

  /** The rules do not interact: the verdict of a rule changes only with its own fields. */
  lemma RulesIndependent(a: HoaInfo, b: HoaInfo, f: Field)
    requires f == Name ==> a.name == b.name
    requires f == DocumentType ==> a.documentType == b.documentType
    requires f == CustomDocumentName ==>
               a.documentType == b.documentType && a.customDocumentName == b.customDocumentName
    requires f == City ==> a.city == b.city
    requires f == State ==> a.state == b.state
    requires f == Zipcode ==> a.zipcode == b.zipcode
    ensures f in Errors(a) <==> f in Errors(b)
  {
  }

  /** The ZIP rule is a whole-string match: padding or a wrong length fails it. */
  lemma ZipIsWholeString(z: string)
    requires IsZip(z)
    ensures !IsZip(" " + z) && !IsZip(z + " ") && !IsZip(z[..4]) && !IsZip(z + "0")
  {
    assert (" " + z)[0] == ' ';
  }

  // ---------------------------------------------------------------------------
  // The submission payload
  // ---------------------------------------------------------------------------

  datatype Location = Location(city: string, state: string, zipcode: string)
  datatype Submission = Submission(name: string, location: Location, docName: string)

  /** The document name: the custom name when it is non-empty (`||` on strings),
      the selected type code otherwise. */
  function DocName(info: HoaInfo): string {
    if info.customDocumentName != "" then info.customDocumentName else info.documentType
  }

  /** The arguments `handleSubmit` passes to `onSubmit`. As written, the location's
      state is filled from the raw city input, not from the selected state. */
  function SubmissionPayload(info: HoaInfo): Submission {
    Submission(
      Trim(info.name),
      Location(Trim(info.city), info.city, info.zipcode),
      DocName(info))
  }

  /** The form invariant the dialog keeps: both selects hold one of their options
      or nothing, and a custom name exists only for the "other" type. */
  predicate FormInvariant(info: HoaInfo) {
    && (info.documentType == "" || info.documentType in DocumentTypes)
    && (info.state == "" || info.state in UsStates)
    && (info.documentType != "other" ==> info.customDocumentName == "")
  }

  /** What a valid form submits: a non-empty name and city, the ZIP as typed (five
      digits), and as document name the type code, or for "other" the custom name. */
  lemma ValidPayload(info: HoaInfo)
    requires FormInvariant(info) && AllRulesHold(info)
    ensures var s := SubmissionPayload(info);
            && s.name != "" && s.location.city != ""
            && IsZip(s.location.zipcode) && s.location.zipcode == info.zipcode
            && s.location.state == info.city
            && (info.documentType != "other" ==> s.docName == info.documentType && s.docName in DocumentTypes)
            && (info.documentType == "other" ==> s.docName == info.customDocumentName && !IsBlank(s.docName))
  {
    TrimEmptyIffBlank(info.name);
    TrimEmptyIffBlank(info.city);
  }

  /** The selected state never reaches the payload: a valid Texas form submits its
      city as the state. */
  lemma StateTakenFromCity()
    ensures var info := HoaInfo("Oak Hill", "Austin", "TX", "78701", "ccr", "");
            && FormInvariant(info) && AllRulesHold(info)
            && SubmissionPayload(info).location.state == "Austin" != info.state
  {
    var info := HoaInfo("Oak Hill", "Austin", "TX", "78701", "ccr", "");
    assert info.state == UsStates[42];
    assert info.documentType == DocumentTypes[0];
    NonBlankWord("Oak Hill");
    NonBlankWord("Austin");
    assert IsZip(info.zipcode);
  }

  lemma NonBlankWord(s: string)
    requires s != [] && !IsJsWhitespace(s[0])
    ensures !IsBlank(s)
  {
  }

  // ---------------------------------------------------------------------------
  // The dialog
  // ---------------------------------------------------------------------------

  /** What `handleSubmit` calls on its props, in order. */
  datatype Callback = OnSubmit(submission: Submission) | OnClose

  class HoaInfoDialog {
    var info: HoaInfo
    var errors: map<Field, string>

    ghost predicate Valid()
      reads this
    {
      FormInvariant(info)
    }

    constructor ()
      ensures Valid() && info == EmptyInfo && errors == map[]
    {
      info := EmptyInfo;
      errors := map[];
    }

    method SetName(v: string)
      requires Valid()
      modifies this
      ensures Valid() && info == old(info).(name := v) && errors == old(errors)
    {
      info := info.(name := v);
    }

    method SetCity(v: string)
      requires Valid()
      modifies this
      ensures Valid() && info == old(info).(city := v) && errors == old(errors)
    {
      info := info.(city := v);
    }

    method SetZipcode(v: string)
      requires Valid()
      modifies this
      ensures Valid() && info == old(info).(zipcode := v) && errors == old(errors)
    {
      info := info.(zipcode := v);
    }

    /** The state select emits only one of its options. */
    method SelectState(v: string)
      requires Valid()
      modifies this
      ensures Valid() && errors == old(errors)
      ensures info == if v in UsStates then old(info).(state := v) else old(info)
    {
      if v in UsStates {
        info := info.(state := v);
      }
    }

    /** Changing the document type clears the custom document name. */
    method SelectDocumentType(v: string)
      requires Valid()
      modifies this
      ensures Valid() && errors == old(errors)
      ensures info == if v in DocumentTypes
                      then old(info).(documentType := v, customDocumentName := "")
                      else old(info)
    {
      if v in DocumentTypes {
        info := info.(documentType := v, customDocumentName := "");
      }
    }

    /** The custom-name input is rendered only for the "other" type. */
    method SetCustomDocumentName(v: string)
      requires Valid()
      modifies this
      ensures Valid() && errors == old(errors)
      ensures info == if old(info).documentType == "other"
                      then old(info).(customDocumentName := v)
                      else old(info)
    {
      if info.documentType == "other" {
        info := info.(customDocumentName := v);
      }
    }

    /** `validateForm`: publish the collected errors and report whether there are none. */
    method ValidateForm() returns (ok: bool)
      requires Valid()
      modifies this
      ensures Valid() && info == old(info)
      ensures errors == Errors(info)
      ensures ok <==> AllRulesHold(info)
    {
      var newErrors := CollectErrors(info);
      errors := newErrors;
      NoErrorsIffValid(info);
      ok := |newErrors| == 0;
    }

    /** `handleSubmit`: on a valid form, `onSubmit` with the payload and then
        `onClose`; on an invalid one, no call at all. */
    method HandleSubmit() returns (calls: seq<Callback>)
      requires Valid()
      modifies this
      ensures Valid() && info == old(info) && errors == Errors(info)
      ensures calls == if AllRulesHold(info) then [OnSubmit(SubmissionPayload(info)), OnClose] else []
    {
      var ok := ValidateForm();
      if ok {
        calls := [OnSubmit(SubmissionPayload(info)), OnClose];
      } else {
        calls := [];
      }
    }
  }
}
