# extract-email-from-http-header, modelled in Dafny

The package reads a user's email address from an HTTP request header into a
web app's session store, checks it against an email-shape regular expression
and an optional required suffix, and seeds a text-input widget bound to the
session entry. Three functions do the work, and this model covers each:

- `validate_email(email, ends_with)` (module `ValidateEmail`, with the regular
  expression in `EmailPattern`). It is a pure classifier returning
  `(result, remarks)` with result codes 1 to 4. The pattern
  `^[\w\-\.]+@([\w\-]+\.)+[\w\-]{2,4}$` is hand-coded as recursive predicates,
  with greedy runs (`Span`). The domain matcher is proved equivalent to a
  declarative reading that splits the domain at every `.` (`MatchesDomainIff`).
  For the whole pattern both directions are proved: an accepted string is a
  local part, one `@` and such a domain (`AcceptedShape`), and every such
  string is accepted (`ShapeAccepted`). Python's `$` is modelled exactly: it
  also matches just before one final newline (`TrailingNewline`).
- `extract_email_from_headers(session_state, header_key, session_state_key,
  set_email_on_failure)` (module `ExtractEmail`). This is an imperative method
  on the session store (class `SessionStore.SessionState`, a mutable
  `map<Value, Value>`). It follows the source step by step: a `None` header key
  first records code 4, and the "not a string" test then overwrites it with
  code 5. The method is proved equal to two specification functions: the
  returned triple (`ExtractOutcome`) and the new session (`ExtractSession`).
- `streamlit_helper_email_input(...)` (module `EmailInputHelper`). This covers
  the session pre-step (keep an existing entry; otherwise extract and, when
  asked, validate; replace a failing email with the fallback) and then one
  call of the host's text-input primitive. That call is a function parameter
  that sees the call arguments and the session. Its result is returned
  unchanged.

Python's dynamic typing of `header_key`, `set_email_on_failure`, `ends_with`
and session keys and values is the datatype `Values.Value` =
`NoneV | Str | Int | Object`. This keeps every `is None` and
`isinstance(_, str)` branch of the source.

Facts about the code that the model states explicitly:

- The helper extracts directly into the widget's own session key, validates
  before rendering, and stores no outcome record
  (streamlit_helper_email_input.py:39-59).
- A `None` header key never yields code 4. Code 4 is assigned at
  extract_email_from_headers.py:50 and overwritten with code 5 at line 56, so
  the result is 5. `ExtractOutcome` states that code 4 is never returned.
- The session can end up holding a value that is not a valid email. A string
  fallback is stored without being validated (`FallbackNotValidated`). `None`
  is stored when the extracted email fails validation and no fallback was
  given (`InvalidEmailWithoutFallbackLeavesNone`).
- The helper imports `SUCCESS` from both modules, which define only
  `RESULT_SUCCESS`, so as shipped the import fails. The model uses the
  evidently intended constant 1 for both checks (`EXTRACT_SUCCESS`,
  `VALIDATE_SUCCESS`). It reads the identity comparisons `is` / `is not` on
  these small integers as equality.

## Model

| member | source | states |
|---|---|---|
| `EmailPattern.Span` | extract_email_from_http_header/validate_email.py:5 | a greedy character-class run: its length is at most the input's, every character before it is in the class, and the next character (if any) is not |
| `EmailPattern.MatchesDomain` | extract_email_from_http_header/validate_email.py:5 | the domain part `([\w\-]+\.)+[\w\-]{2,4}` matching a whole string: a label runs to the first `.`, and what follows is either a 2 to 4 character final label or another such domain |
| `EmailPattern.MatchesWhole` | extract_email_from_http_header/validate_email.py:5 | the whole pattern matching a whole string: a non-empty `[\w\-\.]` run that stops at an `@`, followed by a domain |
| `EmailPattern.Matches` | extract_email_from_http_header/validate_email.py:40 | `re.match(REGULAR_EXPRESSION, email)` succeeds: the string matches the whole pattern, or it ends in one newline and the string without that newline does (Python's `$`) |
| `EmailPattern.MatchesDomainIff` | extract_email_from_http_header/validate_email.py:5 | the matcher for `([\w\-]+\.)+[\w\-]{2,4}` accepts a string exactly when splitting it at `.` gives at least two pieces, all but the last non-empty over `[\w\-]`, the last 2 to 4 such characters |
| `EmailPattern.DomainCharacters` | extract_email_from_http_header/validate_email.py:5 | a matched domain consists only of `[\w\-]` characters and `.`, and contains at least one `.` |
| `EmailPattern.AcceptedShape` | extract_email_from_http_header/validate_email.py:5 | a string the whole pattern accepts has exactly one `@`, a non-empty local part over `[\w\-\.]` before it, and after it a domain that contains a `.` and has the dot-separated label shape |
| `EmailPattern.ShapeAccepted` | extract_email_from_http_header/validate_email.py:5 | every string made of a non-empty `[\w\-\.]` local part, `@`, and a domain whose dot-separated pieces are labels ending in a 2 to 4 character final label is accepted |
| `EmailPattern.TrailingNewline` | extract_email_from_http_header/validate_email.py:5 | a string ending in a newline is accepted exactly when the string without it matches the whole pattern (Python's `$`) |
| `EmailPattern.NoAtRejected` | extract_email_from_http_header/validate_email.py:5 | a string without `@` is rejected |
| `EmailPattern.DotAfterAt` | extract_email_from_http_header/validate_email.py:5 | every accepted string has a `.` somewhere after an `@` |
| `EmailPattern.NoDotAfterAtRejected` | extract_email_from_http_header/validate_email.py:5 | a string with no `.` after any `@` is rejected |
| `EmailPattern.BuildAccepted` | extract_email_from_http_header/validate_email.py:5 | `local@label.tld` is accepted whenever the local part, label and final label have the pattern's shapes |
| `ValidateEmail.ValidateEmail` | extract_email_from_http_header/validate_email.py:26-85 | the code is always one of 1 to 4, never 0. It is 2 with the failed-validation remark exactly when the pattern does not match, whatever the suffix argument. It is 1 with "Success." exactly when the email matches and the suffix is None or a string it ends with. It is 3 exactly when the email matches and a string suffix is not a suffix, and then the remarks are the fixed remark followed by ` [email] does not end with [suffix]`. It is 4 with its remark exactly when the email matches and the suffix is neither None nor a string |
| `ValidateEmail.EndsWith` | extract_email_from_http_header/validate_email.py:59 | `email.endswith(suffix)`: the suffix is no longer than the email and equals its last characters |
| `ValidateEmail.EndsWithIffConcat` | extract_email_from_http_header/validate_email.py:59 | `email.endswith(s)` holds exactly when the email is some string followed by `s` |
| `ValidateEmail.EmptySuffixOnlyPattern` | extract_email_from_http_header/validate_email.py:55-63 | with suffix `""` the verdict equals the verdict with no suffix, so every matching email succeeds |
| `ValidateEmail.MismatchRemarksNameBoth` | extract_email_from_http_header/validate_email.py:65-69 | a suffix-mismatch remark contains the email and the required suffix verbatim |
| `ValidateEmail.WellShapedEmailSucceeds` | extract_email_from_http_header/validate_email.py:40-63 | an email `local@label.tld` with well-shaped parts yields `(1, "Success.")` with no suffix, and also with suffix `label.tld` |
| `ValidateEmail.MalformedEmailFails` | extract_email_from_http_header/validate_email.py:40-82 | an email with no `@`, or with no `.` after the `@`, yields `(2, "Email failed the validation checks.")` whatever the suffix argument |
| `SessionStore.SessionState.Get` | extract_email_from_http_header/streamlit_helper_email_input.py:55 | reading a present session key yields its value |
| `SessionStore.SessionState.Set` | extract_email_from_http_header/extract_email_from_headers.py:69 | assignment binds the key to the value and leaves every other entry unchanged |
| `SessionStore.SessionState.Pop` | extract_email_from_http_header/extract_email_from_headers.py:109 | `pop(key, default)` removes the key if present, leaves every other entry, returns the old value or the default, and never fails on a missing key |
| `ExtractEmail.Lookup` | extract_email_from_http_header/extract_email_from_headers.py:46-82 | the header look-up before failure handling: code 1 with the header's value exactly for a string key present in the headers; code 3 exactly for a string key that is absent; code 5 exactly for a key that is not a string, None included; every failure carries the email "undefined" and its code's remark |
| `ExtractEmail.ExtractOutcome` | extract_email_from_http_header/extract_email_from_headers.py:32-127 | the code is always 1, 3 or 5, never 4. It is 1 exactly for a string key present in the headers, and then the email is that header's value and the remarks "Success.". It is 3 exactly for a string key absent from the headers. It is 5 exactly for a key that is not a string, None included. On failure the email is the string fallback or else "undefined". On failure the remarks are the failure's remark, with " Unable to set default email on failure." appended exactly when the fallback is neither None nor a string |
| `ExtractEmail.ExtractSession` | extract_email_from_http_header/extract_email_from_headers.py:46-119 | every entry other than the session key is unchanged. The key is present afterwards exactly when extraction succeeded or the fallback is a string, whether or not it was present before. When present it holds the returned email |
| `ExtractEmail.ExtractEmailFromHeaders` | extract_email_from_http_header/extract_email_from_headers.py:32-127 | the step-by-step method (code 4 written then overwritten, the look-up guarded by the result so far, cleanup by pop for every non-success code, then the fallback) returns `ExtractOutcome` and leaves the session as `ExtractSession` |
| `ExtractEmail.NoneHeaderKeyIsNotString` | extract_email_from_http_header/extract_email_from_headers.py:46-60 | a None header key yields code 5 and no header value reaches the session: the key is present afterwards only if the fallback is a string |
| `ExtractEmail.FailureClearsStaleEntry` | extract_email_from_http_header/extract_email_from_headers.py:84-119 | after a failure the session key holds the string fallback, or is absent, never a stale earlier value |
| `ExtractEmail.ExtractSessionIdempotent` | extract_email_from_http_header/extract_email_from_headers.py:63-119 | running the extraction a second time with the same arguments leaves the session unchanged |
| `EmailInputHelper.PreRenderSession` | extract_email_from_http_header/streamlit_helper_email_input.py:39-59 | an existing entry leaves the session unchanged and nothing is extracted. Only the session key is ever touched. A failed extraction leaves exactly what the extraction left, and the fallback is not validated. After a successful extraction the key holds the header value, unless validation is on and the validator rejects that value with the given suffix; then the key holds the fallback as given, None included |
| `EmailInputHelper.TargetOf` | extract_email_from_http_header/streamlit_helper_email_input.py:72-104 | the widget goes on the page exactly when `container` is None, and otherwise into that container |
| `EmailInputHelper.StreamlitHelperEmailInput` | extract_email_from_http_header/streamlit_helper_email_input.py:16-107 | the session before the widget call is `PreRenderSession` of the old session, and the widget is called with that session. The value validated is the one just stored in the session. The widget is called with key = session key and the caller's `value`, label and options unchanged, and its result is returned. The session afterwards is the one the widget was called with, because the widget's own writes are not modelled |
| `EmailInputHelper.PreRenderIdempotent` | extract_email_from_http_header/streamlit_helper_email_input.py:39-59 | a second call with the same arguments leaves the session as the first call left it, so the widget sees the same entry both times |
| `EmailInputHelper.FallbackNotValidated` | extract_email_from_http_header/streamlit_helper_email_input.py:48-49 | on a failed extraction a string fallback is stored as given, with validation on, whether or not it is a valid email |
| `EmailInputHelper.InvalidEmailWithoutFallbackLeavesNone` | extract_email_from_http_header/streamlit_helper_email_input.py:52-59 | for any header map holding a string header key, when that header's email fails validation and no fallback is given, the session key stays present with value None rather than being removed |

## Left out

- Reading the request headers (`_get_websocket_headers()`, extract_email_from_headers.py:43) is host I/O. The header mapping is a parameter. The case where the host returns no mapping at all (outside a session) is not modelled.
- The text-input widget (`streamlit.text_input` / `container.text_input`) is host UI code. It is a function parameter of the helper that receives the call's arguments and the session. Its result is unconstrained.
- StreamlitHelperEmailInput: the widget's own writes to the session are not modelled. A keyed host widget keeps its value in the session under its key, but the model's widget is a pure function of its call and the session, so the method's contract states the session as it was just before the widget call.
- `\w` is approximated by the ASCII word characters (letters, digits, `_`). Python matches Unicode letters and digits too, so the model rejects some non-ASCII emails that Python accepts.
- `validate_email` receives its email as a string. Its one caller (streamlit_helper_email_input.py:55) passes the session entry that extract_email_from_headers.py:69 has just set to the header's string value. Python raises a `TypeError` on a non-string email, and that is not modelled.
- The broken `SUCCESS` imports (streamlit_helper_email_input.py:5-7) and the package `__init__.py` that imports those modules are not modelled as an import failure. The intended constant `RESULT_SUCCESS = 1` is used instead.
- The `OUTPUT_INDEX_*` constants only name tuple positions. The model uses a tuple and a named datatype instead.
- Python's hashing equalities between keys of different types (such as `1 == True`) are not modelled. Session keys of different `Value` variants are distinct.
- The packaging files (`__init__.py` metadata, `setup.py`) carry no logic and are not part of this model.
