/** extract_email_from_headers.py: read the email header of the current
    request into the session store and report a (result, remarks, email)
    triple; on failure, clear the session entry and optionally put a fallback
    email in its place. The request's header mapping, which the source obtains
    from the host framework, is a parameter here. */
module ExtractEmail {
  import opened Values
  import opened SessionStore

  // Defaults.
  const SESSION_STATE_KEY := "user_email"
  const EMAIL_HEADER := "X-Email"
  const EMAIL_UNDEFINED := "undefined"

  // Result codes.
  const RESULT_UNDEFINED := 0
  const RESULT_SUCCESS := 1
  const RESULT_FAILURE_UNSPECIFIED := 2
  const RESULT_NO_EMAIL_HEADER_IN_REQUEST := 3
  const RESULT_GIVEN_EMAIL_HEADER_KEY_IS_NONE := 4
  const RESULT_GIVEN_EMAIL_HEADER_KEY_IS_NOT_STRING := 5

  // Remarks.
  const REMARKS_UNDEFINED := ""
  const REMARKS_SUCCESS := "Success."
  const REMARKS_FAILURE_UNSPECIFIED := "Unspecified failure."
  const REMARKS_NO_EMAIL_HEADER_IN_REQUEST := "No email header in the Request."
  const REMARKS_GIVEN_EMAIL_HEADER_KEY_IS_NONE := "The given email header key to search for is the null object \"None\"."
  const REMARKS_GIVEN_EMAIL_HEADER_KEY_IS_NOT_STRING := "The given email header key to search for is not a string."
  const REMARKS_UNABLE_TO_SET_DEFAULT_ON_FAILURE := "Unable to set default email on failure."

  /** The returned triple */
  datatype Extraction = Extraction(result: int, remarks: string, email: string)

  /** The remark a failure code carries before any fallback note is appended */
  function FailureRemarks(result: int): (r: string) {
    if result == RESULT_NO_EMAIL_HEADER_IN_REQUEST then REMARKS_NO_EMAIL_HEADER_IN_REQUEST
    else REMARKS_GIVEN_EMAIL_HEADER_KEY_IS_NOT_STRING
  }

  /** The header look-up, before failure handling: a string key present in
      the headers succeeds; a string key that is absent reports no header;
      any other key (None included) reports a key that is not a string. */
  function Lookup(headers: map<string, string>, headerKey: Value): (x: Extraction)
    ensures x.result == RESULT_SUCCESS <==> headerKey.Str? && headerKey.s in headers
    ensures x.result == RESULT_SUCCESS ==> x.email == headers[headerKey.s]
    ensures x.result == RESULT_NO_EMAIL_HEADER_IN_REQUEST <==> headerKey.Str? && headerKey.s !in headers
    ensures x.result == RESULT_GIVEN_EMAIL_HEADER_KEY_IS_NOT_STRING <==> !IsString(headerKey)
    ensures x.result != RESULT_SUCCESS ==> x.email == EMAIL_UNDEFINED && x.remarks == FailureRemarks(x.result)
  {
    match headerKey
    case Str(k) =>
      if k in headers then Extraction(RESULT_SUCCESS, REMARKS_SUCCESS, headers[k])
      else Extraction(RESULT_NO_EMAIL_HEADER_IN_REQUEST, REMARKS_NO_EMAIL_HEADER_IN_REQUEST, EMAIL_UNDEFINED)
    case _ =>
      Extraction(RESULT_GIVEN_EMAIL_HEADER_KEY_IS_NOT_STRING, REMARKS_GIVEN_EMAIL_HEADER_KEY_IS_NOT_STRING, EMAIL_UNDEFINED)
  }

  /** The triple `extract_email_from_headers` returns. */
  function ExtractOutcome(headers: map<string, string>, headerKey: Value, fallback: Value): (x: Extraction)
    ensures x.result in {RESULT_SUCCESS, RESULT_NO_EMAIL_HEADER_IN_REQUEST, RESULT_GIVEN_EMAIL_HEADER_KEY_IS_NOT_STRING}
    ensures x.result != RESULT_GIVEN_EMAIL_HEADER_KEY_IS_NONE
    ensures x.result == RESULT_SUCCESS <==> headerKey.Str? && headerKey.s in headers
    ensures x.result == RESULT_SUCCESS ==> x.email == headers[headerKey.s] && x.remarks == REMARKS_SUCCESS
    ensures x.result == RESULT_NO_EMAIL_HEADER_IN_REQUEST <==> headerKey.Str? && headerKey.s !in headers
    ensures x.result == RESULT_GIVEN_EMAIL_HEADER_KEY_IS_NOT_STRING <==> !IsString(headerKey)
    ensures x.result != RESULT_SUCCESS ==>
              x.email == (if fallback.Str? then fallback.s else EMAIL_UNDEFINED)
    ensures x.result != RESULT_SUCCESS ==>
              x.remarks == if fallback.NoneV? || fallback.Str? then FailureRemarks(x.result)
                           else FailureRemarks(x.result) + " " + REMARKS_UNABLE_TO_SET_DEFAULT_ON_FAILURE
  {
    var found := Lookup(headers, headerKey);
    if found.result == RESULT_SUCCESS then found
    else
      match fallback
      case NoneV => found
      case Str(f) => found.(email := f)
      case _ => found.(remarks := found.remarks + " " + REMARKS_UNABLE_TO_SET_DEFAULT_ON_FAILURE)
  }

  /** The session store after `extract_email_from_headers`. */
  function ExtractSession(entries: map<Value, Value>, headers: map<string, string>, headerKey: Value,
                          sessionKey: Value, fallback: Value): (m: map<Value, Value>)
    ensures m - {sessionKey} == entries - {sessionKey}
    ensures sessionKey in m <==>
              ExtractOutcome(headers, headerKey, fallback).result == RESULT_SUCCESS || fallback.Str?
    ensures sessionKey in m ==> m[sessionKey] == Str(ExtractOutcome(headers, headerKey, fallback).email)
  {
    var found := Lookup(headers, headerKey);
    if found.result == RESULT_SUCCESS then entries[sessionKey := Str(found.email)]
    else if fallback.Str? then (entries - {sessionKey})[sessionKey := fallback]
    else entries - {sessionKey}
  }

  /** `extract_email_from_headers(session_state, header_key, session_state_key,
      set_email_on_failure)`, step by step as the source runs it: a None key
      first records code 4, which the "not a string" test then overwrites with
      code 5; the look-up runs only when neither was recorded; every code but
      success then clears the session entry and applies the fallback. */
  method ExtractEmailFromHeaders(session: SessionState, headers: map<string, string>,
                                 headerKey: Value := Str(EMAIL_HEADER),
                                 sessionKey: Value := Str(SESSION_STATE_KEY),
                                 setEmailOnFailure: Value := NoneV)
    returns (result: int, remarks: string, email: string)
    modifies session
    ensures Extraction(result, remarks, email) == ExtractOutcome(headers, headerKey, setEmailOnFailure)
    ensures session.entries == ExtractSession(old(session.entries), headers, headerKey, sessionKey, setEmailOnFailure)
  {
    email := EMAIL_UNDEFINED;
    result := RESULT_UNDEFINED;
    remarks := REMARKS_UNDEFINED;

    if headerKey.NoneV? {
      result := RESULT_GIVEN_EMAIL_HEADER_KEY_IS_NONE;
      remarks := REMARKS_GIVEN_EMAIL_HEADER_KEY_IS_NONE;
    }

    if !IsString(headerKey) {
      result := RESULT_GIVEN_EMAIL_HEADER_KEY_IS_NOT_STRING;
      remarks := REMARKS_GIVEN_EMAIL_HEADER_KEY_IS_NOT_STRING;
    }

    if result !in {RESULT_GIVEN_EMAIL_HEADER_KEY_IS_NONE, RESULT_GIVEN_EMAIL_HEADER_KEY_IS_NOT_STRING} {
      if headerKey.s in headers {
        email := headers[headerKey.s];
        session.Set(sessionKey, Str(email));
        result := RESULT_SUCCESS;
        remarks := REMARKS_SUCCESS;
      } else {
        result := RESULT_NO_EMAIL_HEADER_IN_REQUEST;
        remarks := REMARKS_NO_EMAIL_HEADER_IN_REQUEST;
        email := EMAIL_UNDEFINED;
      }
    }

    if result in {RESULT_UNDEFINED, RESULT_FAILURE_UNSPECIFIED, RESULT_NO_EMAIL_HEADER_IN_REQUEST,
                  RESULT_GIVEN_EMAIL_HEADER_KEY_IS_NONE, RESULT_GIVEN_EMAIL_HEADER_KEY_IS_NOT_STRING} {
      var _ := session.Pop(sessionKey, NoneV);
      if !setEmailOnFailure.NoneV? {
        if IsString(setEmailOnFailure) {
          email := setEmailOnFailure.s;
          session.Set(sessionKey, Str(email));
        } else {
          remarks := remarks + " " + REMARKS_UNABLE_TO_SET_DEFAULT_ON_FAILURE;
        }
      }
    }
  }

  /** A None header key takes the "not a string" path: code 5 with its
      remark, never code 4, and no header value reaches the session. */
  lemma NoneHeaderKeyIsNotString(entries: map<Value, Value>, headers: map<string, string>,
                                 sessionKey: Value, fallback: Value)
    ensures ExtractOutcome(headers, NoneV, fallback).result == RESULT_GIVEN_EMAIL_HEADER_KEY_IS_NOT_STRING
    ensures sessionKey in ExtractSession(entries, headers, NoneV, sessionKey, fallback) <==> fallback.Str?
  {
  }

  /** A failed extraction never leaves a stale value behind: the entry is
      gone, or holds the string fallback that was returned. */
  lemma FailureClearsStaleEntry(entries: map<Value, Value>, headers: map<string, string>, headerKey: Value,
                                sessionKey: Value, fallback: Value)
    requires ExtractOutcome(headers, headerKey, fallback).result != RESULT_SUCCESS
    ensures var m := ExtractSession(entries, headers, headerKey, sessionKey, fallback);
            if fallback.Str? then sessionKey in m && m[sessionKey] == fallback else sessionKey !in m
  {
  }

  /** Extraction is idempotent on the session store: running it again with
      the same arguments changes nothing. */
  lemma ExtractSessionIdempotent(entries: map<Value, Value>, headers: map<string, string>, headerKey: Value,
                                 sessionKey: Value, fallback: Value)
    ensures var m := ExtractSession(entries, headers, headerKey, sessionKey, fallback);
            ExtractSession(m, headers, headerKey, sessionKey, fallback) == m
  {
  }
}
