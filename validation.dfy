/**
 * The checks at the top of the `check_symptoms` handler, in the order the handler makes
 * them: the model must be configured, the body must be a non-empty dict holding the three
 * fields, the symptoms must be a str that is not blank, and the age and the gender must
 * be truthy. Python evaluates each condition lazily, and some of them raise on a body of
 * the wrong shape before any answer is built; the verdict says which way the handler leaves.
 */
module Validation {
  import opened Wrappers
  import opened Text
  import opened Json

  const NotConfiguredMessage: string := "Gemini API is not configured. Please check server logs."
  const MissingFieldsMessage: string := "Invalid input. 'symptoms', 'age', and 'gender' fields are required."
  const EmptyFieldsMessage: string := "All fields are required."

  /** How the checks end. */
  datatype Verdict =
    /** The handler answers `{"error": message}` with this status. */
    | Reject(status: int, message: string)
    /** An exception escapes the handler (Flask then answers with its own status 500 page). */
    | Crash
    /** The checks pass; these are the values the rest of the handler works with. */
    | Accepted(symptoms: string, age: Json, gender: Json)

  /**
   * `'symptoms' not in data or 'age' not in data or 'gender' not in data`, left to right:
   * `Some(true)` when a field is missing, `None` when a test raises.
   */
  function AnyMissing(data: Json): Option<bool>
  {
    match Member(data, "symptoms")
    case None => None
    case Some(hasSymptoms) =>
      if !hasSymptoms then Some(true)
      else
        match Member(data, "age")
        case None => None
        case Some(hasAge) =>
          if !hasAge then Some(true)
          else
            match Member(data, "gender")
            case None => None
            case Some(hasGender) => Some(!hasGender)
  }

  /** The verdict of the checks, given whether the model is configured and the decoded body. */
  function Validate(configured: bool, data: Json): Verdict
  {
    if !configured then Reject(500, NotConfiguredMessage)
    else if !Truthy(data) then Reject(400, MissingFieldsMessage)
    else
      match AnyMissing(data)
      case None => Crash
      case Some(missing) =>
        if missing then Reject(400, MissingFieldsMessage)
        else
          match (Subscript(data, "symptoms"), Subscript(data, "age"), Subscript(data, "gender"))
          case (Some(symptoms), Some(age), Some(gender)) =>
            if !symptoms.JStr? then Crash
            else if Strip(symptoms.s) == [] then Reject(400, EmptyFieldsMessage)
            else if !Truthy(age) then Reject(400, EmptyFieldsMessage)
            else if !Truthy(gender) then Reject(400, EmptyFieldsMessage)
            else Accepted(symptoms.s, age, gender)
          case _ => Crash
  }

  /** A dict that holds the three fields. */
  predicate HasFields(data: Json)
  {
    data.JObj? && "symptoms" in data.fields && "age" in data.fields && "gender" in data.fields
  }

  /** The body the handler goes on with: a dict whose symptoms are a non-blank str and whose age and gender are truthy. */
  predicate Acceptable(data: Json)
  {
    HasFields(data) && data.fields["symptoms"].JStr? && !IsBlank(data.fields["symptoms"].s)
    && Truthy(data.fields["age"]) && Truthy(data.fields["gender"])
  }

  /** The configuration is checked before anything else: without it every body gets status 500. */
  lemma NotConfiguredFirst(data: Json)
    ensures Validate(false, data) == Reject(500, NotConfiguredMessage)
  {
  }

  /**
   * The checks let a request through exactly when the model is configured and the body
   * is acceptable, and then hand on the body's own three values.
   */
  lemma {:induction false} AcceptedIff(configured: bool, data: Json)
    ensures Validate(configured, data).Accepted? <==> configured && Acceptable(data)
    ensures Validate(configured, data).Accepted? ==>
      Validate(configured, data)
        == Accepted(data.fields["symptoms"].s, data.fields["age"], data.fields["gender"])
  {
    AcceptedShape(configured, data);
    AcceptableAccepted(configured, data);
  }

  /** On a dict the membership tests never raise, and they find a field missing exactly when one is. */
  lemma FieldsPresent(data: Json)
    requires data.JObj?
    ensures AnyMissing(data) == Some(!HasFields(data))
  {
  }

  /** A body that gets through is acceptable, and its own values are handed on. */
  lemma AcceptedShape(configured: bool, data: Json)
    ensures Validate(configured, data).Accepted? ==>
      configured && Acceptable(data)
      && Validate(configured, data)
           == Accepted(data.fields["symptoms"].s, data.fields["age"], data.fields["gender"])
  {
    if Validate(configured, data).Accepted? {
      assert Subscript(data, "symptoms").Some?;
      StripEmptyIff(data.fields["symptoms"].s);
    }
  }

  /** An acceptable body gets through. */
  lemma AcceptableAccepted(configured: bool, data: Json)
    ensures configured && Acceptable(data) ==> Validate(configured, data).Accepted?
  {
    if configured && Acceptable(data) {
      FieldsPresent(data);
      StripEmptyIff(data.fields["symptoms"].s);
    }
  }

  /**
   * A dict body is never a crash unless its symptoms are not a str; every other outcome is
   * a status 400 or 500 answer with the handler's message.
   */
  lemma {:induction false} DictOutcomes(configured: bool, data: Json)
    requires configured && data.JObj?
    ensures Validate(configured, data) == Crash <==> HasFields(data) && !data.fields["symptoms"].JStr?
    ensures Validate(configured, data).Reject? <==>
      !Truthy(data) || !HasFields(data) || (data.fields["symptoms"].JStr? && !Acceptable(data))
    ensures Validate(configured, data).Reject? ==> Validate(configured, data).status == 400
    ensures Validate(configured, data) == Reject(400, MissingFieldsMessage) <==> !HasFields(data)
  {
    AcceptedIff(configured, data);
    if !Truthy(data) {
      assert "symptoms" !in data.fields;
    }
  }

  /**
   * A body that is not a dict never gets through. `None`, an empty list or str and a false
   * or zero value are turned away with status 400; any other number or bool, and a list or
   * str that passes the membership tests, make the handler raise.
   */
  lemma {:induction false} NonDictOutcomes(configured: bool, data: Json)
    requires configured && !data.JObj?
    ensures !Validate(configured, data).Accepted?
    ensures !Truthy(data) ==> Validate(configured, data) == Reject(400, MissingFieldsMessage)
    ensures Truthy(data) && (data.JBool? || data.JNum?) ==> Validate(configured, data) == Crash
    ensures Validate(configured, data) == Crash <==> Truthy(data) && AnyMissing(data) != Some(true)
  {
  }
}
