/** What one `/update` request does, stated against the request rather than
    against the handler's own steps. */
module AppProperties {
  import opened Results
  import opened JsonValue
  import PyStr
  import Base64
  import Retention
  import opened App

  // ---------------------------------------------------------------- decode_data

  /** Base64 input, even with ASCII whitespace or other ASCII characters outside the
      alphabet and `=` around it, yields the text its bytes hold, trimmed. */
  lemma DecodeDataOfEncoded(libs: Libs, pre: string, b: seq<byte>, post: string)
    requires PyStr.IsAscii(pre) && PyStr.IsAscii(post)
    requires forall k :: 0 <= k < |pre| ==> !Base64.IsAlphabet(pre[k]) && pre[k] != '='
    requires forall k :: 0 <= k < |post| ==> !Base64.IsAlphabet(post[k]) && post[k] != '='
    ensures DecodeData(libs, pre + Base64.Encode(b) + post) == PyStr.Strip(libs.utf8Ignore(b))
  {
    Base64.EncodedWithNoise(pre, b, post);
  }

  /** Whitespace padding that holds a non-ASCII character (a no-break space, say)
      makes `b64decode` raise, so `decode_data` returns the Base64 text itself, still
      encoded, instead of what it encodes. */
  lemma NonAsciiPaddingKeepsEncoding(libs: Libs, pre: string, b: seq<byte>, post: string)
    requires PyStr.AllSpace(pre) && PyStr.AllSpace(post)
    requires !PyStr.IsAscii(pre + post)
    ensures Base64.Decode(pre + Base64.Encode(b) + post).None?
    ensures DecodeData(libs, pre + Base64.Encode(b) + post) == Base64.Encode(b)
  {
    var e := Base64.Encode(b);
    var s := pre + e + post;
    var k :| 0 <= k < |pre + post| && (pre + post)[k] as int >= 128;
    if k < |pre| {
      assert s[k] == (pre + post)[k];
    } else {
      assert s[k + |e|] == (pre + post)[k];
    }
    Base64.EncodedTrimmed(b);
    PyStr.StripPadded(pre, e, post);
  }

  /** `"QQ=="`, the encoding of "A", preceded by a no-break space comes back as `"QQ=="`. */
  lemma NoBreakSpaceBeforeEncoding(libs: Libs)
    ensures DecodeData(libs, "\U{00A0}QQ==") == "QQ=="
  {
    var pre: string := "\U{00A0}";
    assert Base64.Encode([65]) == "QQ==";
    assert (pre + [])[0] as int == 0xA0;
    assert pre + Base64.Encode([65]) + [] == "\U{00A0}QQ==";
    NonAsciiPaddingKeepsEncoding(libs, pre, [65], []);
  }

  /** Text that `b64decode` rejects (a non-ASCII character, or no `=` and a count of
      alphabet characters that is not a multiple of 4) comes back as it was, trimmed. */
  lemma DecodeDataOfPlainText(libs: Libs, s: string)
    requires !PyStr.IsAscii(s) || ('=' !in s && Base64.AlphabetCount(s) % 4 != 0)
    ensures DecodeData(libs, s) == PyStr.Strip(s)
  {
    if PyStr.IsAscii(s) {
      Base64.UnpaddedText(s);
    }
  }

  /** A reading sent as plain JSON text rather than Base64. It is written as six
      eight-character pieces (the last shorter) so that `PlainReadingCount` can
      count each piece separately; the pieces cut through words. */
  const PlainReading: string :=
    "{\"heart_" + "rate\":12" + "0,\"fall\"" + ":1,\"pati" + "ent_id\":" + "\"P1\"}"

  /** A UTF-8 decoder never yields more characters than it was given bytes. */
  ghost predicate Utf8Shrinks(libs: Libs) {
    forall b :: |libs.utf8Ignore(b)| <= |b|
  }

  /** Plain text is not guaranteed to pass through: ASCII text without `=` whose
      alphabet characters come to a multiple of 4, and which holds anything else
      (JSON punctuation, say), is accepted by `b64decode` and cannot come back
      unchanged. `PlainReadingCount` shows that `PlainReading` is such a text. */
  lemma MostlyNoiseIsMisread(libs: Libs, s: string)
    requires Utf8Shrinks(libs)
    requires PyStr.IsAscii(s) && '=' !in s
    requires Base64.AlphabetCount(s) % 4 == 0 && Base64.AlphabetCount(s) < |s|
    ensures Base64.Decode(s).Some?
    ensures DecodeData(libs, s) != s
  {
    Base64.UnpaddedText(s);
    var bytes := Base64.Decode(s).value;
    Base64.DecodedLength(s, 0, 0, 0, []);
    var text := libs.utf8Ignore(bytes);
    assert |PyStr.Strip(text)| <= |text| <= |bytes|;
  }

  /** `PlainReading` is ASCII, has no `=` and holds 28 alphabet characters out of
      45, so `MostlyNoiseIsMisread` applies to it. */
  lemma PlainReadingCount()
    ensures PlainAscii(PlainReading, 28) && |PlainReading| == 45
  {
    var a, b, c, d, e, f := "{\"heart_", "rate\":12", "0,\"fall\"", ":1,\"pati", "ent_id\":", "\"P1\"}";
    ChunkA(); ChunkB(); ChunkC(); ChunkD(); ChunkE(); ChunkF();
    PlainAppend(a, b);
    PlainAppend(a + b, c);
    PlainAppend(a + b + c, d);
    PlainAppend(a + b + c + d, e);
    PlainAppend(a + b + c + d + e, f);
  }

  /** The plain JSON reading does not survive `decode_data`: it is decoded as
      Base64 and comes back as something else. */
  lemma PlainReadingMisread(libs: Libs)
    requires Utf8Shrinks(libs)
    ensures Base64.Decode(PlainReading).Some?
    ensures DecodeData(libs, PlainReading) != PlainReading
  {
    PlainReadingCount();
    MostlyNoiseIsMisread(libs, PlainReading);
  }

  /** ASCII text without `=`, with its count of alphabet characters. */
  predicate PlainAscii(s: string, count: nat) {
    PyStr.IsAscii(s) && '=' !in s && Base64.AlphabetCount(s) == count
  }

  lemma PlainAppend(a: string, b: string)
    requires PyStr.IsAscii(a) && '=' !in a && PyStr.IsAscii(b) && '=' !in b
    ensures PlainAscii(a + b, Base64.AlphabetCount(a) + Base64.AlphabetCount(b))
  {
    Base64.AlphabetCountAppend(a, b);
    var s := a + b;
    forall k | 0 <= k < |s| ensures s[k] as int < 128 && s[k] != '=' {
      if k < |a| { assert s[k] == a[k]; } else { assert s[k] == b[k - |a|]; }
    }
  }

  lemma ChunkA() ensures PlainAscii("{\"heart_", 5) {}
  lemma ChunkB() ensures PlainAscii("rate\":12", 6) {}
  lemma ChunkC() ensures PlainAscii("0,\"fall\"", 5) {}
  lemma ChunkD() ensures PlainAscii(":1,\"pati", 5) {}
  lemma ChunkE() ensures PlainAscii("ent_id\":", 5) {}
  lemma ChunkF() ensures PlainAscii("\"P1\"}", 2) {}

  // ---------------------------------------------------------------- update

  /** The submission carries a JSON object whose fields make the rule fire. */
  predicate CriticalSubmission(libs: Libs, req: Request) {
    var text := DecodedText(libs, req);
    && text != []
    && libs.jsonLoads(text).Ok?
    && libs.jsonLoads(text).value.JObject?
    && var fields := libs.jsonLoads(text).value.fields;
       var heartRate := Get(fields, "heart_rate", JInt(0));
       && EqualsInt(Get(fields, "fall", JInt(0)), 1)
       && Numeric(heartRate).Some? && Numeric(heartRate).value > 100.0
  }

  /** An alert is appended exactly when the text is non-empty, parses as a JSON
      object and satisfies the rule; it then copies the new reading, which is
      itself flagged critical, and the response says so. */
  lemma AlertIffCritical(libs: Libs, st: Store, req: Request, now: string)
    ensures var r := Ingest(libs, st, req, now);
      if CriticalSubmission(libs, req) then
        && r.response.Received? && r.response.summary.isCritical
        && r.store.readings != [] && r.store.alerts != []
        && var reading := r.store.readings[|r.store.readings| - 1];
           var alert := r.store.alerts[|r.store.alerts| - 1];
        && r.store.alerts == Retention.Push(st.alerts, alert, AlertCap)
        && r.store.readings == Retention.Push(st.readings, reading, ReadingCap)
        && reading.isCritical && reading.timestamp == now
        && alert.timestamp == now && alert.heartRate == reading.heartRate && alert.fall == reading.fall
        && alert.patientId == reading.patientId && alert.alertType == "CRITICAL" && alert.severity == "HIGH"
        && alert.message == "Fall detected with elevated heart rate (" + libs.show(reading.heartRate) + " BPM)"
      else
        r.store.alerts == st.alerts && (r.response.Received? ==> !r.response.summary.isCritical)
  {
    var text := DecodedText(libs, req);
    assert Process(libs, req, now) == Interpret(libs, RequestInfo(libs, req, now), text, now);
    if text != [] {
      match libs.jsonLoads(text)
      case Err(_) =>
      case Ok(value) =>
        if value.JObject? {
          var heartRate := Get(value.fields, "heart_rate", JInt(0));
          var fall := Get(value.fields, "fall", JInt(0));
          match CriticalCheck(heartRate, fall)
          case Err(_) =>
          case Ok(_) =>
        }
    }
  }

  /** Every request that does not crash leaves one raw record describing it: its
      time, headers, body length, content type (default "unknown"), the Basic-auth
      user when an Authorization header asked for it, and the decoded text when
      there was any. */
  lemma RawRecordDescribesRequest(libs: Libs, st: Store, req: Request, now: string)
    ensures var r := Ingest(libs, st, req, now);
      r.response.Received? ==>
        && r.store.raw != []
        && var entry := r.store.raw[|r.store.raw| - 1];
        && r.store.raw == Retention.Push(st.raw, entry, RawCap)
        && entry.timestamp == now && entry.headers == req.headers && entry.dataLength == |req.body|
        && entry.rawData == libs.utf8Ignore(req.body)
        && entry.contentType == (if "Content-Type" in req.headers then req.headers["Content-Type"] else "unknown")
        && entry.authUser == AuthUser(libs, if "Authorization" in req.headers then req.headers["Authorization"] else "")
        && (entry.decoded.Some? <==> DecodedText(libs, req) != [])
        && (entry.decoded.Some? ==> entry.decoded.value == DecodedText(libs, req))
  {
    var o := Process(libs, req, now);
    if o.Recorded? {
      ProcessDescribesRequest(libs, req, now);
      assert Ingest(libs, st, req, now).store.raw == Retention.Push(st.raw, o.entry, RawCap);
    }
  }

  lemma ProcessDescribesRequest(libs: Libs, req: Request, now: string)
    ensures var o := Process(libs, req, now);
      o.Recorded? ==>
        && o.entry.timestamp == now && o.entry.headers == req.headers && o.entry.dataLength == |req.body|
        && o.entry.rawData == libs.utf8Ignore(req.body)
        && o.entry.contentType == Header(req, "Content-Type", "unknown")
        && o.entry.authUser == AuthUser(libs, Header(req, "Authorization", ""))
        && (o.entry.decoded.Some? <==> DecodedText(libs, req) != [])
        && (o.entry.decoded.Some? ==> o.entry.decoded.value == DecodedText(libs, req))
  {
    var text := DecodedText(libs, req);
    if text != [] {
      match libs.jsonLoads(text)
      case Err(_) =>
      case Ok(value) =>
        if value.JObject? {
          var heartRate := Get(value.fields, "heart_rate", JInt(0));
          var fall := Get(value.fields, "fall", JInt(0));
          match CriticalCheck(heartRate, fall)
          case Err(_) =>
          case Ok(_) =>
        }
    }
  }

  /** Empty decoded text, or text `json.loads` rejects, adds one raw record that
      says parsing failed and changes nothing else. */
  lemma FailureTouchesOnlyRaw(libs: Libs, st: Store, req: Request, now: string)
    requires DecodedText(libs, req) == [] || libs.jsonLoads(DecodedText(libs, req)).Err?
    ensures var r := Ingest(libs, st, req, now);
      && r.store.readings == st.readings && r.store.alerts == st.alerts
      && r.response.Received?
      && !r.response.summary.decodingSuccessful && !r.response.summary.isCritical
      && r.store.raw != []
      && var entry := r.store.raw[|r.store.raw| - 1];
      && r.store.raw == Retention.Push(st.raw, entry, RawCap)
      && !entry.parsingSuccess && entry.parsed.None? && entry.timestamp == now
      && entry.decodingFailed == (if DecodedText(libs, req) == [] then Some(true) else None)
      && (entry.jsonError.Some? <==> DecodedText(libs, req) != [])
  {
  }

  /** A JSON value that is not an object makes `.get` raise before anything is
      stored: the client gets a server error and the state is as it was. */
  lemma NonObjectCrashes(libs: Libs, st: Store, info: RawEntry, text: string, now: string)
    requires Undecoded(info)
    requires text != [] && libs.jsonLoads(text).Ok? && !libs.jsonLoads(text).value.JObject?
    ensures Apply(st, Interpret(libs, info, text, now)) == Step(st, InternalServerError(AttributeError))
  {
  }

  /** For a JSON object each field defaults on its own (heart rate 0, fall 0,
      patient "Unknown"); the request fails only when the fall flag equals 1 and
      the heart rate is not a number, and otherwise stores exactly one reading
      holding those values and the decoded text. */
  lemma ObjectFieldsDefault(libs: Libs, st: Store, info: RawEntry, text: string, now: string, fields: map<string, Json>)
    requires Undecoded(info)
    requires text != [] && libs.jsonLoads(text) == Ok(JObject(fields))
    ensures var r := Apply(st, Interpret(libs, info, text, now));
      var heartRate := if "heart_rate" in fields then fields["heart_rate"] else JInt(0);
      var fall := if "fall" in fields then fields["fall"] else JInt(0);
      var patientId := if "patient_id" in fields then fields["patient_id"] else JString("Unknown");
      && (r.response.InternalServerError? <==> EqualsInt(fall, 1) && Numeric(heartRate).None?)
      && (r.response.Received? ==>
            && r.response.summary.decodingSuccessful
            && r.store.readings == Retention.Push(st.readings, r.store.readings[|r.store.readings| - 1], ReadingCap)
            && r.store.readings[|r.store.readings| - 1]
               == Reading(now, heartRate, fall, patientId, text, r.response.summary.isCritical))
  {
    var r := Apply(st, Interpret(libs, info, text, now));
    if r.response.Received? {
      assert r.store.readings != [];
    }
  }

  /** A missing heart rate or a missing fall flag never makes the request fail. */
  lemma MissingFieldNeverFails(libs: Libs, st: Store, info: RawEntry, text: string, now: string, fields: map<string, Json>)
    requires Undecoded(info)
    requires text != [] && libs.jsonLoads(text) == Ok(JObject(fields))
    requires "heart_rate" !in fields || "fall" !in fields
    ensures Apply(st, Interpret(libs, info, text, now)).response.Received?
    ensures Apply(st, Interpret(libs, info, text, now)).response.summary.decodingSuccessful
  {
    ObjectFieldsDefault(libs, st, info, text, now, fields);
  }

  /** The response counts are the lengths of the lists the step leaves behind, and
      a reading is stored exactly when the response reports success. */
  lemma SummaryMatchesStore(libs: Libs, st: Store, req: Request, now: string)
    requires Valid(st)
    ensures var r := Ingest(libs, st, req, now);
      r.response.Received? ==>
        && r.response.summary.messageCount == |GetRawData(r.store)| <= RawCap
        && r.response.summary.healthDataCount == |GetData(r.store)| <= ReadingCap
        && r.response.summary.criticalAlertsCount == |GetCriticalAlerts(r.store)| <= AlertCap
        && (r.response.summary.isCritical ==> r.response.summary.decodingSuccessful)
        && TestCounts(r.store) == Counts(r.response.summary.messageCount, r.response.summary.healthDataCount,
                                         r.response.summary.criticalAlertsCount)
        && (if r.response.summary.decodingSuccessful
            then r.store.readings != [] && r.store.readings[|r.store.readings| - 1].timestamp == now
                 && r.store.readings == Retention.Push(st.readings, r.store.readings[|r.store.readings| - 1], ReadingCap)
            else r.store.readings == st.readings)
  {
  }

  /** A reading with integer fields adds one reading, and an
      alert exactly when the fall flag is 1 and the heart rate is above 100
      (so 120/1 raises one, 120/0 and 80/1 do not). */
  lemma IntegerReadingScenario(libs: Libs, st: Store, info: RawEntry, text: string, now: string, heartRate: int, fall: int)
    requires |st.readings| < ReadingCap && |st.alerts| < AlertCap
    requires Undecoded(info) && text != []
    requires libs.jsonLoads(text)
          == Ok(JObject(map["heart_rate" := JInt(heartRate), "fall" := JInt(fall), "patient_id" := JString("P1")]))
    ensures var r := Apply(st, Interpret(libs, info, text, now));
      && r.response.Received?
      && r.response.summary.healthDataCount == |st.readings| + 1
      && r.response.summary.criticalAlertsCount == |st.alerts| + (if fall == 1 && heartRate > 100 then 1 else 0)
      && r.response.summary.isCritical == (fall == 1 && heartRate > 100)
  {
    var fields := map["heart_rate" := JInt(heartRate), "fall" := JInt(fall), "patient_id" := JString("P1")];
    assert Get(fields, "heart_rate", JInt(0)) == JInt(heartRate);
    assert Get(fields, "fall", JInt(0)) == JInt(fall);
  }

  // ---------------------------------------------------------------- Basic auth

  /** A well-formed `Basic` header (the Base64 of UTF-8 text holding a ':') yields
      the user name before the first ':', whatever follows after a space. */
  lemma AuthOfCredentials(libs: Libs, credentials: seq<byte>, text: string, trailer: string)
    requires libs.utf8Strict(credentials) == Some(text) && ':' in text
    requires trailer == [] || trailer[0] == ' '
    ensures AuthUser(libs, "Basic " + Base64.Encode(credentials) + trailer) == Some(PyStr.Before(text, ':'))
  {
    var e := Base64.Encode(credentials);
    var h := "Basic " + e + trailer;
    assert h[..6] == "Basic ";
    assert h[6..] == e + trailer;
    BeforeAcross(e, trailer, ' ');
    Base64.RoundTrip(credentials);
  }

  lemma {:induction false} BeforeAcross(a: string, b: string, sep: char)
    requires sep !in a && (b == [] || b[0] == sep)
    ensures PyStr.Before(a + b, sep) == a
    decreases |a|
  {
    if a == [] {
      assert a + b == b;
    } else {
      assert (a + b)[1..] == a[1..] + b;
      BeforeAcross(a[1..], b, sep);
    }
  }

  /** Credentials without a ':' are recorded as the sentinel, never raised. */
  lemma AuthWithoutColon(libs: Libs, credentials: seq<byte>, text: string)
    requires libs.utf8Strict(credentials) == Some(text) && ':' !in text
    ensures AuthUser(libs, "Basic " + Base64.Encode(credentials)) == Some(DecodeFailed)
  {
    var e := Base64.Encode(credentials);
    var h := "Basic " + e;
    assert h[6..] == e;
    Base64.RoundTrip(credentials);
  }

  /** Bytes that are not UTF-8 are recorded as the sentinel. */
  lemma AuthWithBadUtf8(libs: Libs, credentials: seq<byte>)
    requires libs.utf8Strict(credentials).None?
    ensures AuthUser(libs, "Basic " + Base64.Encode(credentials)) == Some(DecodeFailed)
  {
    var e := Base64.Encode(credentials);
    var h := "Basic " + e;
    assert h[6..] == e;
    Base64.RoundTrip(credentials);
  }

  /** A token `b64decode` rejects is recorded as the sentinel. */
  lemma AuthWithBadBase64(libs: Libs, token: string)
    requires ' ' !in token && Base64.Decode(token).None?
    ensures AuthUser(libs, "Basic " + token) == Some(DecodeFailed)
  {
    var h := "Basic " + token;
    assert h[6..] == token;
  }
}
