/** validate_email.py: the email shape check plus an optional suffix check,
    reported as a (result code, remarks) pair. */
module ValidateEmail {
  import opened Values
  import opened EmailPattern

  // Result codes.
  const RESULT_UNDEFINED := 0
  const RESULT_SUCCESS := 1
  const RESULT_FAILED_VALIDATION := 2
  const RESULT_EMAIL_DOES_NOT_END_WITH_SPECIFIC_VALUE := 3
  const RESULT_GIVEN_EMAIL_END_WITH_IS_NOT_STRING := 4

  // Remarks.
  const REMARKS_UNDEFINED := ""
  const REMARKS_SUCCESS := "Success."
  const REMARKS_FAILED_VALIDATION := "Email failed the validation checks."
  const REMARKS_EMAIL_DOES_NOT_END_WITH_SPECIFIED_VALUE := "Email does not end with the specified value."
  const REMARKS_GIVEN_EMAIL_END_WITH_IS_NOT_STRING :=
    "The given argument to check if the email ends with a suffix is not an instance of a String. Unable to validate."

  /** Python's `s.endswith(suffix)` */
  predicate EndsWith(s: string, suffix: string) {
    |suffix| <= |s| && s[|s| - |suffix|..] == suffix
  }

  /** The remarks of a suffix mismatch: the fixed remark, then the email and
      the required suffix, each in square brackets. */
  function SuffixMismatchRemarks(email: string, suffix: string): (r: string) {
    REMARKS_EMAIL_DOES_NOT_END_WITH_SPECIFIED_VALUE + " [" + email + "] does not end with [" + suffix + "]"
  }

  /** `validate_email(email, ends_with)`. The result code is decided by the
      pattern first; only a matching email looks at `ends_with`, which may be
      None, a string, or (under dynamic typing) anything else. */
  function ValidateEmail(email: string, endsWith: Value := NoneV): (r: (int, string))
    ensures r.0 in {RESULT_SUCCESS, RESULT_FAILED_VALIDATION,
                    RESULT_EMAIL_DOES_NOT_END_WITH_SPECIFIC_VALUE, RESULT_GIVEN_EMAIL_END_WITH_IS_NOT_STRING}
    ensures r.0 == RESULT_FAILED_VALIDATION <==> !Matches(email)
    ensures !Matches(email) ==> r.1 == REMARKS_FAILED_VALIDATION
    ensures r.0 == RESULT_SUCCESS <==>
              Matches(email) && (endsWith.NoneV? || (endsWith.Str? && EndsWith(email, endsWith.s)))
    ensures r.0 == RESULT_SUCCESS ==> r.1 == REMARKS_SUCCESS
    ensures r.0 == RESULT_EMAIL_DOES_NOT_END_WITH_SPECIFIC_VALUE <==>
              Matches(email) && endsWith.Str? && !EndsWith(email, endsWith.s)
    ensures r.0 == RESULT_EMAIL_DOES_NOT_END_WITH_SPECIFIC_VALUE ==>
              r.1 == SuffixMismatchRemarks(email, endsWith.s)
    ensures r.0 == RESULT_GIVEN_EMAIL_END_WITH_IS_NOT_STRING <==>
              Matches(email) && !endsWith.NoneV? && !IsString(endsWith)
    ensures r.0 == RESULT_GIVEN_EMAIL_END_WITH_IS_NOT_STRING ==> r.1 == REMARKS_GIVEN_EMAIL_END_WITH_IS_NOT_STRING
    ensures r.0 != RESULT_UNDEFINED
  {
    if Matches(email) then
      match endsWith
      case NoneV => (RESULT_SUCCESS, REMARKS_SUCCESS)
      case Str(suffix) =>
        if EndsWith(email, suffix) then (RESULT_SUCCESS, REMARKS_SUCCESS)
        else (RESULT_EMAIL_DOES_NOT_END_WITH_SPECIFIC_VALUE, SuffixMismatchRemarks(email, suffix))
      case _ => (RESULT_GIVEN_EMAIL_END_WITH_IS_NOT_STRING, REMARKS_GIVEN_EMAIL_END_WITH_IS_NOT_STRING)
    else
      (RESULT_FAILED_VALIDATION, REMARKS_FAILED_VALIDATION)
  }

  /** `s.endswith(t)` holds exactly when `s` is some string followed by `t`. */
  lemma EndsWithIffConcat(s: string, t: string)
    ensures EndsWith(s, t) <==> exists p :: s == p + t
  {
    if EndsWith(s, t) {
      var p := s[..|s| - |t|];
      assert s == p + t;
    }
    if exists p :: s == p + t {
      var p :| s == p + t;
      assert s[|s| - |t|..] == t;
    }
  }

  /** The empty suffix is a suffix of every string, so with `ends_with = ""`
      the verdict depends on the pattern alone. */
  lemma EmptySuffixOnlyPattern(email: string)
    ensures ValidateEmail(email, Str("")) == ValidateEmail(email, NoneV)
  {
    assert email[|email|..] == "";
  }

  /** A suffix mismatch names the offending email and the required suffix verbatim. */
  lemma MismatchRemarksNameBoth(email: string, suffix: string)
    requires ValidateEmail(email, Str(suffix)).0 == RESULT_EMAIL_DOES_NOT_END_WITH_SPECIFIC_VALUE
    ensures exists p, q :: ValidateEmail(email, Str(suffix)).1 == p + email + q
    ensures exists p, q :: ValidateEmail(email, Str(suffix)).1 == p + suffix + q
  {
    var r := ValidateEmail(email, Str(suffix)).1;
    var head := REMARKS_EMAIL_DOES_NOT_END_WITH_SPECIFIED_VALUE + " [";
    assert r == head + email + ("] does not end with [" + suffix + "]");
    assert r == (head + email + "] does not end with [") + suffix + "]";
  }

  /** Any email of the form `local@label.tld` with well-shaped parts passes
      when no suffix is required, or when the required suffix is `label.tld`. */
  lemma WellShapedEmailSucceeds(local: string, host: string, tld: string)
    requires IsLocalPart(local) && IsLabel(host) && IsFinalLabel(tld)
    ensures ValidateEmail(local + "@" + host + "." + tld, NoneV) == (RESULT_SUCCESS, REMARKS_SUCCESS)
    ensures ValidateEmail(local + "@" + host + "." + tld, Str(host + "." + tld)) == (RESULT_SUCCESS, REMARKS_SUCCESS)
  {
    var email := local + "@" + host + "." + tld;
    BuildAccepted(local, host, tld);
    assert email == (local + "@") + (host + "." + tld);
    EndsWithIffConcat(email, host + "." + tld);
  }

  /** Emails with no `@`, or with no `.` after the `@`, fail validation
      whatever suffix is given. */
  lemma MalformedEmailFails(email: string, endsWith: Value)
    requires '@' !in email || forall i, j :: 0 <= i < j < |email| && email[i] == '@' ==> email[j] != '.'
    ensures ValidateEmail(email, endsWith) == (RESULT_FAILED_VALIDATION, REMARKS_FAILED_VALIDATION)
  {
    if '@' !in email {
      NoAtRejected(email);
    } else {
      NoDotAfterAtRejected(email);
    }
  }
}
