# Health-telemetry ingestion server, modelled in Dafny

The server accepts readings (heart rate, fall flag, patient id) that a sensor POSTs to `/update`. The body may be Base64 or plain text. The handler decodes it, parses it as JSON with lenient per-field defaults, and decides whether the reading is critical (fall flag 1 and heart rate above 100). It keeps three in-memory lists, each trimmed oldest-first to a fixed size:
- raw submissions, up to 50;
- processed readings, up to 100;
- critical alerts, up to 50.

`/data`, `/critical-alerts`, `/raw-data` and `/test` read those lists.

The model is functional. The state is an immutable `App.Store` of three sequences. One request is the pure step `App.Ingest(libs, store, request, now)`, which returns the new store and the response. It is `App.Process` followed by `App.Apply`:
- `App.Process` turns the request into an outcome without looking at the store. The outcome is the raw record plus the reading and alert, if any, or a crash. `App.Process` itself has two parts. `App.RequestInfo` builds the record from the request. `App.Interpret` handles the text `decode_data` returned.
- `App.Apply` appends the outcome to the lists.

The clock reading `now` is a parameter. The library routines the handler calls are the function-typed fields of `App.Libs`:

- UTF-8 decoding with `errors='ignore'`;
- strict UTF-8 decoding;
- `json.loads`;
- `str()` of a value.

Base64 is modelled concretely: `Base64.Decode` is CPython's non-validating `binascii.a2b_base64` as `base64.b64decode(str)` reaches it. A non-ASCII character raises. Characters outside the RFC 4648 section 4 alphabet are skipped before the padding logic. A `=` in the first two positions of a quantum is skipped, so `Q===QQ==` decodes to the two bytes 65 and 4. A `=` run ends the input once the quantum is complete, that is, at the third or fourth position. A dangling partial quantum raises. `Base64.Encode` is its RFC 4648 partner, used for the round-trip lemmas.

Files and modules:
- `results.dfy` (`Results`): `Option` and `Result`, standing in for `None` and exceptions.
- `pystr.dfy` (`PyStr`): `str.strip` with Python's whitespace set, `startswith`, and element 0 of `split`.
- `base64.dfy` (`Base64`): the decoder, the encoder and their lemmas.
- `json.dfy` (`JsonValue`): the parsed JSON value, `dict.get`, and Python's `==` and `>` against an integer, including `True == 1` and the `TypeError` on non-numbers.
- `retention.dfy` (`Retention`): append-then-drop-the-oldest-once, and the "last N" reference definition.
- `app.dfy` (`App`): `decode_data`, `is_critical_condition`, the `/update` step, and the read views.
- `app_properties.dfy` (`AppProperties`): what one request does, stated against the request.
- `history.dfy` (`History`): runs of many requests, and what the listings hold afterwards. A run is shown to be the replay of its requests' outcomes, and the list lemmas are stated over outcomes.

## Behaviour of the code worth knowing

- **Plain text does not always pass through.** The handler's comment at `server/app.py:22` says a body that is not Base64 is probably plain text, and the fallback returns it stripped. But `b64decode` runs first in non-validating mode, and the fallback runs only when it raises. Some plain JSON is accepted as Base64 and turned into garbage. That happens when the text meets all of these conditions:
  - it is ASCII, since a non-ASCII character makes `b64decode` raise;
  - it has no `=`;
  - its alphabet characters (letters, digits, `+`, `/`) number a multiple of 4;
  - it holds at least one character outside the alphabet.

  `AppProperties.MostlyNoiseIsMisread` proves this for every such text. `AppProperties.PlainReadingMisread` proves it for the reading `{"heart_rate":120,"fall":1,"patient_id":"P1"}` sent as plain text: 28 of its 45 characters are alphabet characters.
- **Non-ASCII padding turns a Base64 body back into its encoded text.** `str.strip` removes every Unicode whitespace character, both on the decoded text at line 19 and in the fallback's `enc_data.strip()` at line 23, but `b64decode` at line 17 raises on any non-ASCII character before that. A Base64 body padded with a no-break space (U+00A0), a line separator (U+2028) or an ideographic space (U+3000) therefore takes the fallback at line 23, whose `enc_data.strip()` removes the padding and returns the Base64 text itself, still encoded. `AppProperties.NonAsciiPaddingKeepsEncoding` proves this for any such padding. `AppProperties.NoBreakSpaceBeforeEncoding` proves it for `"\u00a0QQ=="`, which comes back as `"QQ=="`. Only ASCII padding is skipped by the decoder.
- **A non-numeric heart rate is not replaced by the default.** `dict.get` (lines 83-85) supplies 0 only when the key is absent; any value the JSON holds is kept. If the fall flag equals 1 and the heart rate is not a number, `heart_rate > 100` (line 27) raises `TypeError`.
- **Two exceptions escape the handler.** The `try` at line 81 catches only `json.JSONDecodeError`. Two other exceptions escape:
  - a JSON value that is not an object (`AttributeError` on `.get`, line 83);
  - the `TypeError` above.

  Both are raised before any list is touched, and Flask answers with a server error. The model returns `InternalServerError` and leaves the store unchanged.

## Model

| member | source | states |
|---|---|---|
| `PyStr.Strip` | server/app.py:19-23 | the stripped text has no surrounding whitespace and is the slice between a whitespace prefix and a whitespace suffix of the input |
| `PyStr.StripPadded` | server/app.py:19-23 | stripping any whitespace-padded trimmed text yields exactly that text |
| `PyStr.Before` | server/app.py:66-67 | the user name is the prefix before the first ':' and holds no ':'; it is the whole text when there is no separator |
| `Base64.DecodeFrom` | server/app.py:17 | one pass of non-validating `a2b_base64` over the rest of the input: the bytes decoded so far are only ever extended; what it decodes is stated by the `Base64` lemmas below |
| `Base64.Decode` | server/app.py:17 | `b64decode` of a string: a non-ASCII character raises, and the output has at most one byte per alphabet character |
| `Base64.RoundTrip` | server/app.py:17 | `b64decode` of an RFC 4648 encoding returns the encoded bytes |
| `Base64.IgnoresNonAlphabet` | server/app.py:17 | non-validating decoding gives the same result as decoding only the alphabet and `=` characters |
| `Base64.UnpaddedText` | server/app.py:17 | ASCII text without `=` decodes exactly when its alphabet characters number a multiple of 4 |
| `Base64.EncodedWithNoise` | server/app.py:17 | Base64 text with ASCII whitespace or other ASCII characters outside the alphabet and `=` around it still decodes to its bytes |
| `Base64.DecodedLength` | server/app.py:17 | decoding yields at most one byte per alphabet character |
| `App.DecodeData` | server/app.py:13-23 | `decode_data` never fails, and its result never starts or ends with whitespace |
| `AppProperties.DecodeDataOfEncoded` | server/app.py:13-19 | a Base64 body, even with ASCII whitespace or other ASCII characters outside the alphabet and `=` around it, yields the UTF-8 text of its bytes, trimmed |
| `AppProperties.DecodeDataOfPlainText` | server/app.py:20-23 | text `b64decode` rejects (non-ASCII, or unpadded with a bad count) comes back as the input, trimmed |
| `AppProperties.NonAsciiPaddingKeepsEncoding` | server/app.py:15-23 | a Base64 text padded with whitespace that holds a non-ASCII character makes `b64decode` raise, and `decode_data` returns the Base64 text itself |
| `AppProperties.NoBreakSpaceBeforeEncoding` | server/app.py:15-23 | `"QQ=="` preceded by a no-break space comes back from `decode_data` as `"QQ=="`, not as "A" |
| `AppProperties.MostlyNoiseIsMisread` | server/app.py:15-19 | plain ASCII text with a multiple-of-4 count of alphabet characters, no `=` and any other character is taken as Base64, so it cannot come back unchanged |
| `AppProperties.PlainReadingCount` | server/app.py:17 | the plain JSON reading meets the premises of the previous row |
| `AppProperties.PlainReadingMisread` | server/app.py:15-23 | the reading `{"heart_rate":120,"fall":1,"patient_id":"P1"}` sent as plain text is accepted by `b64decode`, and `decode_data` does not return it unchanged |
| `JsonValue.Get` | server/app.py:83-85 | `dict.get` with a default; it has no contract of its own, and `AppProperties.ObjectFieldsDefault` states each field's default |
| `JsonValue.EqualsInt` | server/app.py:27 | Python's `value == n`: true exactly for the integer `n`, the float equal to `n`, and `True` or `False` when `n` is 1 or 0; never an error |
| `JsonValue.GreaterThan` | server/app.py:27 | Python's `value > 100` is defined exactly for numbers and booleans and raises otherwise; on integers it is the integer comparison |
| `App.IsCriticalCondition` | server/app.py:25-27 | `is_critical_condition` on integers; it has no contract of its own, and `App.CriticalCheck` states that it agrees with the rule applied to integer JSON values |
| `App.CriticalCheck` | server/app.py:25-27 | the rule fires exactly when the fall flag equals 1 and the heart rate is a number above 100; it raises `TypeError` exactly when the flag equals 1 and the heart rate is not a number; on integers it agrees with `is_critical_condition`; a default (0) heart rate or fall flag never fires |
| `App.Header` | server/app.py:59-63 | `request.headers.get(name, default)`; it has no contract of its own. `App.RequestInfo` states it through the content type, which is the header or "unknown", and through the auth user, which is present exactly when the Authorization header exists and starts with "Basic " |
| `PyStr.StartsWith` | server/app.py:64 | `auth_header.startswith("Basic ")`; it has no contract of its own. `App.AuthUser` states that `auth_user` is recorded exactly when it holds |
| `App.AuthUser` | server/app.py:62-71 | `auth_user` is recorded exactly when the header starts with "Basic ", and it is either the sentinel or a name without ':' |
| `AppProperties.AuthOfCredentials` | server/app.py:63-68 | for the Base64 of UTF-8 credentials holding a ':', the user is the text before the first ':', whatever follows after a space |
| `AppProperties.AuthWithoutColon` | server/app.py:66-71 | credentials without ':' record "decode_failed" |
| `AppProperties.AuthWithBadUtf8` | server/app.py:66-71 | credentials that are not UTF-8 record "decode_failed" |
| `AppProperties.AuthWithBadBase64` | server/app.py:66-71 | a token `b64decode` rejects records "decode_failed" |
| `Retention.Push` | server/app.py:117-121 | append then pop the front at most once: from within the cap, the result is the last `cap` elements of `old + [x]`, in order, and ends with `x` |
| `Retention.LastNAppend` | server/app.py:125-127 | trimming to the last N and then appending and trimming again equals appending everything and trimming once |
| `App.DecodedText` | server/app.py:49-74 | the text `decode_data` recovers from the body read with `errors='ignore'` never starts or ends with whitespace; when `b64decode` rejects the body text, it is that text stripped |
| `App.RequestInfo` | server/app.py:49-71 | the record built before decoding carries the request's time, headers and body length; the content type, defaulting to "unknown"; and an auth user exactly when the Authorization header starts with "Basic ". No decode or parse key is set yet |
| `App.Interpret` | server/app.py:74-143 | handling the decoded text keeps the request part of the record. It sets `decoded` exactly for non-empty text, `decoding_failed` exactly for empty text and `json_error` exactly for a JSON syntax error. A reading is produced exactly when parsing succeeds, stamped with the time and holding the text. An alert is produced exactly for a critical reading, and it is that reading's alert. A crash needs text that `json.loads` accepted |
| `App.Process` | server/app.py:42-143 | everything `update` computes before the appends; it has no contract of its own. `App.RequestInfo` and `App.Interpret` state its parts, and `AppProperties.RawRecordDescribesRequest` and `App.Ingest` state its effect |
| `App.AlertFor` | server/app.py:107-115 | the `critical_alert` record; it has no contract of its own, and `AppProperties.AlertIffCritical` states that it copies the reading's time, heart rate, fall flag and patient with "CRITICAL", "HIGH" and the message |
| `App.Apply` | server/app.py:101-164 | appending an outcome keeps every list within its cap; a crash answers with a server error and leaves the state unchanged; otherwise the record, the reading and the alert (when present) are each pushed to their list; the response counts are the new list lengths; `decoding_successful` is the stored record's `parsing_success` |
| `App.Ingest` | server/app.py:40-164 | the step keeps every list within its cap; a crash leaves the state unchanged; the response counts are the new list lengths; `decoding_successful` is the stored record's `parsing_success` |
| `AppProperties.RawRecordDescribesRequest` | server/app.py:49-78 | every request that does not crash pushes one raw record with the request's time, headers, body length, content type (default "unknown"), auth user and decoded text (present only when non-empty) |
| `AppProperties.AlertIffCritical` | server/app.py:92-121 | an alert is pushed exactly when the decoded text is non-empty, parses as an object and satisfies the rule; the alert copies the new reading, which is flagged critical, and carries the same timestamp, "CRITICAL", "HIGH" and the message; otherwise the alerts are unchanged and the response is not critical |
| `AppProperties.FailureTouchesOnlyRaw` | server/app.py:135-146 | empty decoded text or a JSON syntax error leaves readings and alerts unchanged and pushes one raw record that says parsing failed; the response reports failure and no criticality |
| `AppProperties.NonObjectCrashes` | server/app.py:82-83 | decoded text that parses as a JSON value other than an object ends the request with `AttributeError` and an unchanged state |
| `AppProperties.ObjectFieldsDefault` | server/app.py:82-101 | for decoded text that parses as a JSON object, each field defaults on its own (0, 0, "Unknown"); the request fails only when the flag equals 1 and the heart rate is not a number; otherwise exactly one reading with those values, the text and the time is pushed |
| `AppProperties.MissingFieldNeverFails` | server/app.py:83-85 | decoded text holding an object missing its heart rate or its fall flag is always stored successfully |
| `AppProperties.SummaryMatchesStore` | server/app.py:157-164 | the response counts equal the listing lengths and the `/test` counts, within the caps; a reading is pushed exactly when the response reports success; a critical response implies success |
| `AppProperties.IntegerReadingScenario` | server/app.py:92-127 | below the caps, decoded text holding an integer reading adds one reading, and adds one alert exactly when fall is 1 and the heart rate is above 100 |
| `App.GetData` | server/app.py:166-170 | `/data` lists at most 100 readings; `History.RunKeepsMostRecent` states which |
| `App.GetCriticalAlerts` | server/app.py:172-176 | `/critical-alerts` lists at most 50 alerts; `History.RunKeepsMostRecent` states which |
| `App.GetRawData` | server/app.py:178-181 | `/raw-data` lists at most 50 records; `History.RunKeepsMostRecent` states which |
| `App.TestCounts` | server/app.py:29-38 | the `/test` counts are the lengths of the three listings, within the caps |
| `History.Run` | server/app.py:40-164 | the state after handling a sequence of requests in order; it keeps every list within its cap and adds at most one raw record per request |
| `History.RunIsReplay` | server/app.py:40-164 | handling requests one after another gives the same state as replaying their outcomes in order, since no outcome depends on the state |
| `History.ApplyAppends` | server/app.py:101-150 | one outcome extends each list by what it contributes and keeps the last N |
| `History.ReplayStaysValid` | server/app.py:117-150 | over any sequence of outcomes, each list stays within its cap |
| `History.RunKeepsMostRecent` | server/app.py:166-181 | after any sequence of requests, `/raw-data`, `/data` and `/critical-alerts` list exactly the most recent 50, 100 and 50 entries produced, in production order |
| `History.AlertsFollowCriticalReadings` | server/app.py:101-117 | the alerts produced are exactly the alerts of the critical readings produced, in order |
| `History.ListedAlertsAreCritical` | server/app.py:172-176 | every alert `/critical-alerts` lists was raised for, and copies, a critical reading that some request produced |
| `History.HundredAndOneReadings` | server/app.py:125-127 | after outcomes holding 101 readings from start-up, `/data` lists the last 100 in order, the first is gone, and `/test` counts 100 |

## Left out

- Flask routing, `jsonify` and HTTP status plumbing. Only the returned summary, the listings and the `/test` counts are modelled. An uncaught exception becomes `InternalServerError`.
- All `print` logging. It has side effects only.
- The dashboard HTML/CSS/JS and static-file serving. They are user interface with no logic to model.
- The `timestamp` and `server_ip` fields of `/test`. They come from the clock and the request host. `now` is passed in as an already formatted string.
- Reading the request. The body is given as the bytes `request.data` returns, and the headers as a map keyed by canonical header name. Those bytes are the request body, except that they are empty for a form body (`application/x-www-form-urlencoded` or `multipart/form-data`), because Werkzeug consumes the stream to parse the form. The caller supplies them, so a form POST must be given an empty `body`; Werkzeug's form detection and its case-insensitive header lookup are not modelled.
- Concurrency. Flask may serve requests on threads and the lists are unlocked. The model is sequential.
- The internals of the UTF-8 codecs, `json.loads` and `str()`. They are abstract function fields of `App.Libs`. `AppProperties.MostlyNoiseIsMisread` assumes only that UTF-8 decoding yields no more characters than it was given bytes.
- Non-finite floats. A JSON float is a finite real, so `NaN` and `Infinity`, which `json.loads` accepts, are not represented. Neither is binary float rounding: the parser abstraction returns the already rounded value.
- Crashes deeper than the two uncaught exceptions, such as memory exhaustion or recursion limits in `json.loads`.

