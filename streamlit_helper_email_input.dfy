/** streamlit_helper_email_input.py: before rendering a text input bound to a
    session key, make sure the session holds an email for that key (keep an
    existing entry; otherwise extract it from the request headers and, if
    asked, validate it, replacing it with the fallback when it fails), then
    render the widget and return what it returns. The widget itself belongs
    to the host UI framework and is a function parameter here. */
module EmailInputHelper {
  import opened Values
  import opened SessionStore
  import ExtractEmail
  import ValidateEmail

  // The source imports a name `SUCCESS` from both modules, which define only
  // `RESULT_SUCCESS`; these are the constants evidently meant.
  const EXTRACT_SUCCESS := ExtractEmail.RESULT_SUCCESS
  const VALIDATE_SUCCESS := ValidateEmail.RESULT_SUCCESS

  const EMPTY_STRING := ""

  /** The display options passed through to the widget unchanged */
  datatype WidgetOptions = WidgetOptions(
    maxChars: Value, kind: Value, help: Value, autocomplete: Value,
    onChange: Value, args: Value, kwargs: Value,
    placeholder: Value, disabled: bool, labelVisibility: Value)

  /** The defaults of the source's signature */
  const DEFAULT_OPTIONS := WidgetOptions(
    NoneV, Str("default"), NoneV, NoneV,
    NoneV, NoneV, NoneV,
    NoneV, false, Str("visible"))

  /** Where the widget goes: the page (`streamlit.text_input`) or a given
      container (`container.text_input`) */
  datatype RenderTarget = Page | InContainer(container: Value)

  /** One call of the host's text-input primitive */
  datatype TextInputCall = TextInputCall(target: RenderTarget, labelText: Value, value: Value, key: Value,
                                         options: WidgetOptions)

  /** The session store as the helper leaves it just before rendering. */
  function PreRenderSession(entries: map<Value, Value>, headers: map<string, string>, sessionKey: Value,
                            headerKey: Value, fallback: Value, validate: bool, emailEndsWith: Value)
    : (m: map<Value, Value>)
    ensures sessionKey in entries ==> m == entries
    ensures m - {sessionKey} == entries - {sessionKey}
    ensures sessionKey !in entries && ExtractEmail.ExtractOutcome(headers, headerKey, fallback).result != EXTRACT_SUCCESS ==>
              m == ExtractEmail.ExtractSession(entries, headers, headerKey, sessionKey, fallback)
    ensures sessionKey !in entries && ExtractEmail.ExtractOutcome(headers, headerKey, fallback).result == EXTRACT_SUCCESS ==>
              sessionKey in m &&
              m[sessionKey] == if validate && ValidateEmail.ValidateEmail(headers[headerKey.s], emailEndsWith).0 != VALIDATE_SUCCESS
                               then fallback
                               else Str(headers[headerKey.s])
  {
    if sessionKey in entries then entries
    else
      var extracted := ExtractEmail.ExtractOutcome(headers, headerKey, fallback);
      var after := ExtractEmail.ExtractSession(entries, headers, headerKey, sessionKey, fallback);
      if extracted.result == EXTRACT_SUCCESS && validate
         && ValidateEmail.ValidateEmail(extracted.email, emailEndsWith).0 != VALIDATE_SUCCESS
      then after[sessionKey := fallback]
      else after
  }

  /** The render target the source picks for a `container` argument */
  function TargetOf(container: Value): (t: RenderTarget)
    ensures t == Page <==> container.NoneV?
    ensures t.InContainer? ==> t.container == container
  {
    if !container.NoneV? then InContainer(container) else Page
  }

  /** `streamlit_helper_email_input(session_state, container, label, value, ...,
      session_state_key, ..., header_key, ..., set_email_on_failure,
      validate_email, email_ends_with)`. The widget is rendered with the
      session key as its key and the caller's `value`; whatever it returns
      is returned. */
  method StreamlitHelperEmailInput(session: SessionState, headers: map<string, string>,
                                   textInput: (TextInputCall, map<Value, Value>) -> Value,
                                   container: Value := NoneV,
                                   labelText: Value := Str(EMPTY_STRING),
                                   value: Value := Str(EMPTY_STRING),
                                   sessionKey: Value := NoneV,
                                   options: WidgetOptions := DEFAULT_OPTIONS,
                                   headerKey: Value := Str(ExtractEmail.EMAIL_HEADER),
                                   setEmailOnFailure: Value := NoneV,
                                   validateEmail: bool := true,
                                   emailEndsWith: Value := NoneV)
    returns (text: Value)
    modifies session
    ensures session.entries == PreRenderSession(old(session.entries), headers, sessionKey, headerKey,
                                                setEmailOnFailure, validateEmail, emailEndsWith)
    ensures text == textInput(TextInputCall(TargetOf(container), labelText, value, sessionKey, options), session.entries)
  {
    if session.Contains(sessionKey) {
      // An entry is already there, possibly typed in by the user: keep it.
    } else {
      var result, remarks, email :=
        ExtractEmail.ExtractEmailFromHeaders(session, headers, headerKey, sessionKey, setEmailOnFailure);
      if result == EXTRACT_SUCCESS {
        if validateEmail {
          var stored := session.Get(sessionKey);
          var verdict := ValidateEmail.ValidateEmail(stored.s, emailEndsWith);
          if verdict.0 != VALIDATE_SUCCESS {
            session.Set(sessionKey, setEmailOnFailure);
          }
        }
      }
    }

    var call := TextInputCall(TargetOf(container), labelText, value, sessionKey, options);
    text := textInput(call, session.entries);
  }

  /** A second pass with the same arguments leaves the session as the first
      left it, so the widget is seeded from the same entry both times. */
  lemma PreRenderIdempotent(entries: map<Value, Value>, headers: map<string, string>,
                                               sessionKey: Value, headerKey: Value, fallback: Value,
                                               validate: bool, emailEndsWith: Value)
    ensures var m := PreRenderSession(entries, headers, sessionKey, headerKey, fallback, validate, emailEndsWith);
            PreRenderSession(m, headers, sessionKey, headerKey, fallback, validate, emailEndsWith) == m
  {
    var m := PreRenderSession(entries, headers, sessionKey, headerKey, fallback, validate, emailEndsWith);
    if sessionKey !in m {
      ExtractEmail.ExtractSessionIdempotent(entries, headers, headerKey, sessionKey, fallback);
    }
  }

  /** The fallback is stored as given on a failed extraction, whether or not
      it is itself a valid email: it is never validated. */
  lemma FallbackNotValidated(entries: map<Value, Value>, headers: map<string, string>, sessionKey: Value,
                             headerKey: Value, fallback: string, emailEndsWith: Value)
    requires sessionKey !in entries
    requires ExtractEmail.ExtractOutcome(headers, headerKey, Str(fallback)).result != EXTRACT_SUCCESS
    ensures var m := PreRenderSession(entries, headers, sessionKey, headerKey, Str(fallback), true, emailEndsWith);
            sessionKey in m && m[sessionKey] == Str(fallback)
  {
  }

  /** When the extracted email fails validation and there is no fallback,
      the session key is left present with value None rather than removed. */
  lemma InvalidEmailWithoutFallbackLeavesNone(entries: map<Value, Value>, headers: map<string, string>,
                                              sessionKey: Value, headerKey: Value, emailEndsWith: Value)
    requires sessionKey !in entries
    requires headerKey.Str? && headerKey.s in headers
    requires ValidateEmail.ValidateEmail(headers[headerKey.s], emailEndsWith).0 != VALIDATE_SUCCESS
    ensures var m := PreRenderSession(entries, headers, sessionKey, headerKey, NoneV, true, emailEndsWith);
            sessionKey in m && m[sessionKey] == NoneV
  {
  }
}
