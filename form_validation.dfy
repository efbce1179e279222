/** `validateStartupForm`: per-field checks of a startup submission. */
module FormValidation {
  import opened Wrappers
  import opened JsString

  datatype StartupFormData = StartupFormData(title: string, description: string, category: string, pitch: string)

  datatype Field = Title | Description | Category | Pitch

  /** `isValid` and the map from failing field to its one message. */
  datatype ValidationResult = ValidationResult(isValid: bool, errors: map<Field, string>)

  /** A length bound on `value.length` and the message given when it is violated. */
  datatype Bound = Bound(limit: nat, message: string)

  /** A field's checks: required, a minimum length and an optional maximum length. */
  datatype Rule = Rule(required: string, min: Bound, max: Option<Bound>)

  /** The rule table: title 3..100, description 20..500, category 3..20, pitch at least 10. */
  function RuleFor(f: Field): Rule {
    match f
    case Title =>
      Rule("Title is required",
           Bound(3, "Title must be at least 3 characters"),
           Some(Bound(100, "Title must not exceed 100 characters")))
    case Description =>
      Rule("Description is required",
           Bound(20, "Description must be at least 20 characters"),
           Some(Bound(500, "Description must not exceed 500 characters")))
    case Category =>
      Rule("Category is required",
           Bound(3, "Category must be at least 3 characters"),
           Some(Bound(20, "Category must not exceed 20 characters")))
    case Pitch =>
      Rule("Pitch is required",
           Bound(10, "Pitch must be at least 10 characters"),
           None)
  }

  function ValueOf(data: StartupFormData, f: Field): string {
    match f
    case Title => data.title
    case Description => data.description
    case Category => data.category
    case Pitch => data.pitch
  }

  /** `!value || value.trim().length === 0`: every character is whitespace (see `BlankIffTrimmedEmpty`). */
  predicate IsBlank(value: string) {
    forall i :: 0 <= i < |value| ==> IsJsWhitespace(value[i])
  }

  /** Blank is the source's test: the trimmed value has length zero. */
  lemma BlankIffTrimmedEmpty(value: string)
    ensures IsBlank(value) <==> Utf16Length(Trim(value)) == 0
  {
    TrimEmptyIffAllWhitespace(value);
    Utf16LengthBounds(Trim(value));
  }

  /**
   * The message a rule gives a value: the first failing check of required,
   * then too short, then too long; None when all pass. Lengths are of the
   * untrimmed value, in UTF-16 code units.
   */
  function FieldError(rule: Rule, value: string): Option<string> {
    if IsBlank(value) then Some(rule.required)
    else if Utf16Length(value) < rule.min.limit then Some(rule.min.message)
    else if rule.max.Some? && Utf16Length(value) > rule.max.value.limit then Some(rule.max.value.message)
    else None
  }

  /** What a rule accepts, stated without the order of the checks. */
  predicate Acceptable(rule: Rule, value: string) {
    (exists i :: 0 <= i < |value| && !IsJsWhitespace(value[i]))
    && rule.min.limit <= Utf16Length(value)
    && (rule.max.Some? ==> Utf16Length(value) <= rule.max.value.limit)
  }

  /** A field passes exactly when its value is acceptable. */
  lemma FieldErrorNoneIffAcceptable(rule: Rule, value: string)
    ensures FieldError(rule, value) == None <==> Acceptable(rule, value)
  {
  }

  /** A rule whose messages tell its three checks apart. */
  predicate DistinctMessages(rule: Rule) {
    rule.required != rule.min.message
    && (rule.max.Some? ==>
          rule.required != rule.max.value.message && rule.min.message != rule.max.value.message)
  }

  /** Every rule of the table tells its checks apart. */
  lemma RuleTableDistinct(f: Field)
    ensures DistinctMessages(RuleFor(f))
  {
    match f
    case Title => TitleMessagesDistinct();
    case Description => DescriptionMessagesDistinct();
    case Category => CategoryMessagesDistinct();
    case Pitch => PitchMessagesDistinct();
  }

  lemma TitleMessagesDistinct()
    ensures DistinctMessages(RuleFor(Title))
  {
    var r := RuleFor(Title);
    assert |r.required| == 17 && |r.min.message| == 35 && |r.max.value.message| == 36;
  }

  lemma DescriptionMessagesDistinct()
    ensures DistinctMessages(RuleFor(Description))
  {
    var r := RuleFor(Description);
    assert |r.required| == 23 && |r.min.message| == 42 && |r.max.value.message| == 42;
    assert r.min.message[17] == 'b' && r.max.value.message[17] == 'n';
  }

  lemma CategoryMessagesDistinct()
    ensures DistinctMessages(RuleFor(Category))
  {
    var r := RuleFor(Category);
    assert |r.required| == 20 && |r.min.message| == 38 && |r.max.value.message| == 38;
    assert r.min.message[14] == 'b' && r.max.value.message[14] == 'n';
  }

  lemma PitchMessagesDistinct()
    ensures DistinctMessages(RuleFor(Pitch))
  {
    var r := RuleFor(Pitch);
    assert |r.required| == 17 && |r.min.message| == 36;
  }

  /**
   * The message a field gets names the first failing check: required for a
   * blank value, too short for a non-blank short one, too long for a
   * non-blank one that is long enough but over the maximum.
   */
  lemma MessageNamesFirstFailure(f: Field, value: string)
    ensures FieldError(RuleFor(f), value) == Some(RuleFor(f).required) <==> IsBlank(value)
    ensures (FieldError(RuleFor(f), value) == Some(RuleFor(f).min.message))
              <==> (!IsBlank(value) && Utf16Length(value) < RuleFor(f).min.limit)
    ensures RuleFor(f).max.Some? ==>
              (FieldError(RuleFor(f), value) == Some(RuleFor(f).max.value.message)
               <==> !IsBlank(value) && RuleFor(f).min.limit <= Utf16Length(value)
                    && Utf16Length(value) > RuleFor(f).max.value.limit)
  {
    RuleTableDistinct(f);
  }

  /** The four fields, in the order the source checks them. */
  const AllFields: set<Field> := {Title, Description, Category, Pitch}

  /** The error map `validateStartupForm` is to produce: one entry per failing field. */
  function ExpectedErrors(data: StartupFormData): map<Field, string> {
    map f | f in AllFields && FieldError(RuleFor(f), ValueOf(data, f)).Some?
      :: FieldError(RuleFor(f), ValueOf(data, f)).value
  }

  /** A field has an entry exactly when its value is not acceptable. */
  lemma EntryIffNotAcceptable(data: StartupFormData, f: Field)
    ensures f in ExpectedErrors(data) <==> !Acceptable(RuleFor(f), ValueOf(data, f))
  {
    FieldErrorNoneIffAcceptable(RuleFor(f), ValueOf(data, f));
    assert f in AllFields by {
      match f
      case Title =>
      case Description =>
      case Category =>
      case Pitch =>
    }
  }

  /** The form is valid, that is the map is empty, exactly when every field is acceptable. */
  lemma NoErrorsIffAllAcceptable(data: StartupFormData)
    ensures |ExpectedErrors(data)| == 0 <==> forall f: Field :: Acceptable(RuleFor(f), ValueOf(data, f))
  {
    var m := ExpectedErrors(data);
    if forall f: Field :: Acceptable(RuleFor(f), ValueOf(data, f)) {
      forall f: Field ensures f !in m {
        EntryIffNotAcceptable(data, f);
      }
      assert m.Keys == {};
    } else {
      var f: Field :| !Acceptable(RuleFor(f), ValueOf(data, f));
      EntryIffNotAcceptable(data, f);
      assert f in m.Keys;
    }
  }

  /** A field's entry depends on that field's value alone. */
  lemma ErrorsFieldwise(d1: StartupFormData, d2: StartupFormData, f: Field)
    requires ValueOf(d1, f) == ValueOf(d2, f)
    ensures f in ExpectedErrors(d1) <==> f in ExpectedErrors(d2)
    ensures f in ExpectedErrors(d1) ==> ExpectedErrors(d1)[f] == ExpectedErrors(d2)[f]
  {
  }

  /** When every field fails, the map has exactly the four fields as keys. */
  lemma AllFieldsFail(data: StartupFormData)
    requires forall f: Field :: !Acceptable(RuleFor(f), ValueOf(data, f))
    ensures ExpectedErrors(data).Keys == AllFields
    ensures |ExpectedErrors(data)| == 4
  {
    var keys := ExpectedErrors(data).Keys;
    EntryIffNotAcceptable(data, Title);
    EntryIffNotAcceptable(data, Description);
    EntryIffNotAcceptable(data, Category);
    EntryIffNotAcceptable(data, Pitch);
    assert AllFields <= keys;
    assert keys == AllFields;
    FourFields();
    assert |ExpectedErrors(data)| == |keys|;
  }

  lemma FourFields()
    ensures |AllFields| == 4
  {
    assert AllFields == {Title} + {Description} + {Category} + {Pitch};
  }

  /** `errors` after the checks of field `f` have run on it. */
  function WithFieldChecked(errors: map<Field, string>, f: Field, value: string): map<Field, string> {
    var e := FieldError(RuleFor(f), value);
    if e.Some? then errors[f := e.value] else errors
  }

  /** The map after the title, description, category and pitch checks have run in that order. */
  function CheckedInOrder(data: StartupFormData): map<Field, string> {
    var afterTitle := WithFieldChecked(map[], Title, data.title);
    var afterDescription := WithFieldChecked(afterTitle, Description, data.description);
    var afterCategory := WithFieldChecked(afterDescription, Category, data.category);
    WithFieldChecked(afterCategory, Pitch, data.pitch)
  }

  /** A later check leaves the entries of the other fields alone. */
  lemma CheckLeavesOthers(errors: map<Field, string>, f: Field, value: string, g: Field)
    requires g != f
    ensures g in WithFieldChecked(errors, f, value) <==> g in errors
    ensures g in errors ==> WithFieldChecked(errors, f, value)[g] == errors[g]
  {
  }

  /** Field `f`'s entry after the four checks is the one its own check made. */
  lemma CheckedInOrderAt(data: StartupFormData, f: Field)
    ensures f in CheckedInOrder(data) <==> FieldError(RuleFor(f), ValueOf(data, f)).Some?
    ensures f in CheckedInOrder(data) ==> CheckedInOrder(data)[f] == FieldError(RuleFor(f), ValueOf(data, f)).value
  {
    var afterTitle := WithFieldChecked(map[], Title, data.title);
    var afterDescription := WithFieldChecked(afterTitle, Description, data.description);
    var afterCategory := WithFieldChecked(afterDescription, Category, data.category);
    match f
    case Title =>
      CheckLeavesOthers(afterTitle, Description, data.description, Title);
      CheckLeavesOthers(afterDescription, Category, data.category, Title);
      CheckLeavesOthers(afterCategory, Pitch, data.pitch, Title);
    case Description =>
      CheckLeavesOthers(afterDescription, Category, data.category, Description);
      CheckLeavesOthers(afterCategory, Pitch, data.pitch, Description);
    case Category =>
      CheckLeavesOthers(afterCategory, Pitch, data.pitch, Category);
    case Pitch =>
  }

  /** Checking the four fields one after another yields the expected map. */
  lemma ChecksInSequence(data: StartupFormData)
    ensures CheckedInOrder(data) == ExpectedErrors(data)
  {
    var m, x := CheckedInOrder(data), ExpectedErrors(data);
    forall f: Field ensures (f in m <==> f in x) && (f in m ==> m[f] == x[f]) {
      CheckedInOrderAt(data, f);
      EntryIffNotAcceptable(data, f);
      FieldErrorNoneIffAcceptable(RuleFor(f), ValueOf(data, f));
    }
    assert m.Keys == x.Keys;
  }

  /**
   * One field's if-chain: the required check, then the minimum length,
   * then the maximum length, recording the first failure's message.
   */
  method CheckField(errors: map<Field, string>, f: Field, value: string) returns (updated: map<Field, string>)
    ensures updated == WithFieldChecked(errors, f, value)
  {
    var rule := RuleFor(f);
    updated := errors;
    if IsBlank(value) {
      updated := errors[f := rule.required];
    } else if Utf16Length(value) < rule.min.limit {
      updated := errors[f := rule.min.message];
    } else if rule.max.Some? && Utf16Length(value) > rule.max.value.limit {
      updated := errors[f := rule.max.value.message];
    }
  }

  /** Checks the four fields one after another into a fresh error map, as the source does. */
  method ValidateStartupForm(data: StartupFormData) returns (result: ValidationResult)
    ensures result.errors == ExpectedErrors(data)
    ensures result.isValid <==> |result.errors| == 0
    ensures result.isValid <==> forall f: Field :: Acceptable(RuleFor(f), ValueOf(data, f))
  {
    var errors: map<Field, string> := map[];
    errors := CheckField(errors, Title, data.title);
    errors := CheckField(errors, Description, data.description);
    errors := CheckField(errors, Category, data.category);
    errors := CheckField(errors, Pitch, data.pitch);
    ChecksInSequence(data);
    NoErrorsIffAllAcceptable(data);
    result := ValidationResult(|errors| == 0, errors);
  }
}
