/** The ingestion handler of the health-telemetry server: the Base64-or-plain
    decoder, the critical-condition rule, one `/update` request as a pure step over
    the three retention lists, and the read-only listings. */
module App {
  import opened Results
  import opened JsonValue
  import PyStr
  import Base64
  import Retention

  type byte = Base64.byte

  /** The library routines the handler calls, kept abstract. */
  datatype Libs = Libs(
    /** `bytes.decode('utf-8', errors='ignore')`: never fails, drops invalid sequences. */
    utf8Ignore: seq<byte> -> string,
    /** `bytes.decode()`: `None` where Python raises `UnicodeDecodeError`. */
    utf8Strict: seq<byte> -> Option<string>,
    /** `json.loads`: `Err(str(e))` where Python raises `JSONDecodeError`. */
    jsonLoads: string -> Result<Json, string>,
    /** `str(value)` as an f-string interpolates it. */
    show: Json -> string)

  const RawCap: nat := 50
  const ReadingCap: nat := 100
  const AlertCap: nat := 50

  /** The heart rate a reading must exceed, and the fall flag it must carry, to be critical. */
  const HeartRateThreshold: int := 100
  const FallDetected: int := 1

  /** What `auth_user` records when the Basic credentials cannot be read. */
  const DecodeFailed: string := "decode_failed"

  /** An inbound POST: the headers, keyed by their canonical names, and `body`,
      the bytes `request.data` returns. Those are the request body, except that
      they are empty when the body is form data (`application/x-www-form-urlencoded`
      or `multipart/form-data`), whose stream Werkzeug consumes to parse the form. */
  datatype Request = Request(body: seq<byte>, headers: map<string, string>)

  /** The fields the handler extracted from a parsed reading. */
  datatype ParsedFields = ParsedFields(heartRate: Json, fall: Json, patientId: Json, isCritical: bool)

  /** The record kept for every submission that did not crash the handler
      (`data_info`); an `Option` field is a key that may be absent, so
      `decodingFailed` is `Some(true)` or absent. `parsingSuccess` is set on
      every path that reaches the list. */
  datatype RawEntry = RawEntry(
    timestamp: string,
    headers: map<string, string>,
    rawData: string,
    dataLength: nat,
    contentType: string,
    authUser: Option<string>,
    decoded: Option<string>,
    parsed: Option<ParsedFields>,
    jsonError: Option<string>,
    decodingFailed: Option<bool>,
    parsingSuccess: bool)

  /** A processed health reading (`processed_entry`). */
  datatype Reading = Reading(
    timestamp: string, heartRate: Json, fall: Json, patientId: Json, data: string, isCritical: bool)

  /** A critical alert (`critical_alert`). */
  datatype Alert = Alert(
    timestamp: string, heartRate: Json, fall: Json, patientId: Json,
    alertType: string, severity: string, message: string)

  /** The server's in-memory state: `received_data`, `processed_health_data`, `critical_alerts`. */
  datatype Store = Store(raw: seq<RawEntry>, readings: seq<Reading>, alerts: seq<Alert>)

  /** Every list within its cap. */
  predicate Valid(st: Store) {
    |st.raw| <= RawCap && |st.readings| <= ReadingCap && |st.alerts| <= AlertCap
  }

  /** The state at process start. */
  const Empty: Store := Store([], [], [])

  /** The exceptions the handler does not catch: `.get` on a non-object JSON value,
      and `>` between a non-number heart rate and 100. */
  datatype Crash = AttributeError | TypeError

  /** The JSON body of the `/update` response. */
  datatype Summary = Summary(
    status: string, messageCount: nat, healthDataCount: nat, criticalAlertsCount: nat,
    decodingSuccessful: bool, isCritical: bool)

  /** What the client receives: the summary, or the server error an uncaught exception produces. */
  datatype Response = Received(summary: Summary) | InternalServerError(error: Crash)

  datatype Step = Step(store: Store, response: Response)

  /** What one submission produces before anything is stored. */
  datatype Outcome =
    | Crashed(error: Crash)
    | Recorded(entry: RawEntry, reading: Option<Reading>, alert: Option<Alert>)

  /** `decode_data`: Base64-decode and read the bytes as UTF-8, dropping invalid
      sequences; where `b64decode` raises, take the input as plain text. Either way
      the result is stripped of surrounding whitespace. */
  function DecodeData(libs: Libs, encData: string): (r: string)
    ensures PyStr.Trimmed(r)
  {
    match Base64.Decode(encData)
    case Some(bytes) => PyStr.Strip(libs.utf8Ignore(bytes))
    case None => PyStr.Strip(encData)
  }

  /** `is_critical_condition` on integer readings. */
  predicate IsCriticalCondition(heartRate: int, fallDetected: int) {
    fallDetected == FallDetected && heartRate > HeartRateThreshold
  }

  /** `is_critical_condition` applied to whatever values the JSON held:
      `fall == 1 and heart_rate > 100`, which raises `TypeError` when the fall
      flag equals 1 and the heart rate is not a number. */
  function CriticalCheck(heartRate: Json, fall: Json): (r: Result<bool, Crash>)
    ensures heartRate.JInt? && fall.JInt? ==> r == Ok(IsCriticalCondition(heartRate.i, fall.i))
    ensures r.Err? <==> EqualsInt(fall, FallDetected) && Numeric(heartRate).None?
    ensures r.Err? ==> r.error == TypeError
    ensures heartRate == JInt(0) || fall == JInt(0) ==> r == Ok(false)
    ensures r == Ok(true) <==>
      EqualsInt(fall, FallDetected) && Numeric(heartRate).Some? && Numeric(heartRate).value > HeartRateThreshold as real
  {
    if !EqualsInt(fall, FallDetected) then Ok(false)
    else match GreaterThan(heartRate, HeartRateThreshold)
      case Some(b) => Ok(b)
      case None => Err(TypeError)
  }

  /** `request.headers.get(name, default)`. */
  function Header(req: Request, name: string, default: string): string {
    if name in req.headers then req.headers[name] else default
  }

  /** The `auth_user` key: absent unless the header starts with "Basic ", and then
      the user name before the first ':' of the Base64-decoded second space-separated
      token, or the sentinel when decoding or splitting fails. */
  function AuthUser(libs: Libs, authorization: string): (r: Option<string>)
    ensures r.Some? <==> PyStr.StartsWith(authorization, "Basic ")
    ensures r.Some? && r.value != DecodeFailed ==> ':' !in r.value
  {
    if !PyStr.StartsWith(authorization, "Basic ") then None
    else
      var token := PyStr.Before(authorization[6..], ' ');
      match Base64.Decode(token)
      case None => Some(DecodeFailed)
      case Some(bytes) =>
        match libs.utf8Strict(bytes)
        case None => Some(DecodeFailed)
        case Some(text) => if ':' in text then Some(PyStr.Before(text, ':')) else Some(DecodeFailed)
  }

  /** The alert raised for a critical reading. */
  function AlertFor(libs: Libs, reading: Reading): Alert {
    Alert(reading.timestamp, reading.heartRate, reading.fall, reading.patientId, "CRITICAL", "HIGH",
          "Fall detected with elevated heart rate (" + libs.show(reading.heartRate) + " BPM)")
  }

  /** The text `decode_data` recovers from a request body. */
  function DecodedText(libs: Libs, req: Request): (r: string)
    ensures PyStr.Trimmed(r)
    ensures Base64.Decode(libs.utf8Ignore(req.body)).None? ==> r == PyStr.Strip(libs.utf8Ignore(req.body))
  {
    DecodeData(libs, libs.utf8Ignore(req.body))
  }

  /** The raw record `update` builds from the request before decoding its body:
      time, headers, body text and length, content type and Basic-auth user. */
  function RequestInfo(libs: Libs, req: Request, now: string): (r: RawEntry)
    ensures r.timestamp == now && r.headers == req.headers && r.dataLength == |req.body|
    ensures "Content-Type" in req.headers ==> r.contentType == req.headers["Content-Type"]
    ensures "Content-Type" !in req.headers ==> r.contentType == "unknown"
    ensures r.authUser.Some? <==> "Authorization" in req.headers && PyStr.StartsWith(req.headers["Authorization"], "Basic ")
    ensures Undecoded(r)
  {
    RawEntry(now, req.headers, libs.utf8Ignore(req.body), |req.body|, Header(req, "Content-Type", "unknown"),
             AuthUser(libs, Header(req, "Authorization", "")), None, None, None, None, false)
  }

  /** A record holding none of the keys set once the body has been decoded. */
  predicate Undecoded(e: RawEntry) {
    e.decoded.None? && e.parsed.None? && e.jsonError.None? && e.decodingFailed.None?
  }

  /** What `update` makes of the decoded text, given the record built so far: the
      completed raw record, and the reading and alert (if any) it will append, all
      stamped with `now`; or the exception that escapes. */
  function Interpret(libs: Libs, info: RawEntry, decoded: string, now: string): (o: Outcome)
    requires Undecoded(info)
    ensures o.Crashed? ==> decoded != [] && libs.jsonLoads(decoded).Ok?
    ensures o.Recorded? ==>
      && o.entry.timestamp == info.timestamp && o.entry.headers == info.headers && o.entry.rawData == info.rawData
      && o.entry.dataLength == info.dataLength && o.entry.contentType == info.contentType
      && o.entry.authUser == info.authUser
      && o.entry.decoded == (if decoded == [] then None else Some(decoded))
      && (o.entry.decodingFailed.Some? <==> decoded == [])
      && (o.entry.jsonError.Some? <==> decoded != [] && libs.jsonLoads(decoded).Err?)
      && (o.entry.parsingSuccess <==> o.entry.parsed.Some?)
      && (o.reading.Some? <==> o.entry.parsingSuccess)
      && (o.alert.Some? <==> o.reading.Some? && o.reading.value.isCritical)
    ensures o.Recorded? && o.reading.Some? ==>
      var rd := o.reading.value;
      && rd.timestamp == now && rd.data == decoded
      && o.entry.parsed == Some(ParsedFields(rd.heartRate, rd.fall, rd.patientId, rd.isCritical))
      && (o.alert.Some? ==> o.alert.value == AlertFor(libs, rd))
  {
    if decoded == [] then
      Recorded(info.(decodingFailed := Some(true), parsingSuccess := false), None, None)
    else
      var info := info.(decoded := Some(decoded));
      match libs.jsonLoads(decoded)
      case Err(message) => Recorded(info.(jsonError := Some(message), parsingSuccess := false), None, None)
      case Ok(value) =>
        if !value.JObject? then Crashed(AttributeError)
        else
          var heartRate := Get(value.fields, "heart_rate", JInt(0));
          var fall := Get(value.fields, "fall", JInt(0));
          var patientId := Get(value.fields, "patient_id", JString("Unknown"));
          match CriticalCheck(heartRate, fall)
          case Err(e) => Crashed(e)
          case Ok(critical) =>
            var reading := Reading(now, heartRate, fall, patientId, decoded, critical);
            Recorded(info.(parsed := Some(ParsedFields(heartRate, fall, patientId, critical)), parsingSuccess := true),
                     Some(reading), if critical then Some(AlertFor(libs, reading)) else None)
  }

  /** Everything `update` computes before it touches the lists. */
  function Process(libs: Libs, req: Request, now: string): Outcome {
    Interpret(libs, RequestInfo(libs, req, now), DecodedText(libs, req), now)
  }

  /** The list bookkeeping of `update` for an outcome: append the reading and the
      alert (each trimmed to its cap), append the raw record (trimmed to its cap)
      and answer with the counts. A crash happens before any append, so the state
      is untouched. */
  function Apply(st: Store, o: Outcome): (r: Step)
    ensures Valid(st) ==> Valid(r.store)
    ensures r.response.InternalServerError? <==> o.Crashed?
    ensures o.Crashed? ==> r.store == st
    ensures o.Recorded? ==>
      && r.store.raw == Retention.Push(st.raw, o.entry, RawCap)
      && r.store.readings == (if o.reading.Some? then Retention.Push(st.readings, o.reading.value, ReadingCap) else st.readings)
      && r.store.alerts == (if o.alert.Some? then Retention.Push(st.alerts, o.alert.value, AlertCap) else st.alerts)
    ensures r.response.Received? ==>
      var s := r.response.summary;
      && s.messageCount == |r.store.raw| && s.healthDataCount == |r.store.readings|
      && s.criticalAlertsCount == |r.store.alerts|
      && r.store.raw != [] && s.decodingSuccessful == r.store.raw[|r.store.raw| - 1].parsingSuccess
  {
    match o
    case Crashed(e) => Step(st, InternalServerError(e))
    case Recorded(entry, reading, alert) =>
      var readings := if reading.Some? then Retention.Push(st.readings, reading.value, ReadingCap) else st.readings;
      var alerts := if alert.Some? then Retention.Push(st.alerts, alert.value, AlertCap) else st.alerts;
      var raw := Retention.Push(st.raw, entry, RawCap);
      var critical := entry.parsed.Some? && entry.parsed.value.isCritical;
      Step(Store(raw, readings, alerts),
           Received(Summary("received", |raw|, |readings|, |alerts|, entry.parsingSuccess, critical)))
  }

  /** One `/update` request. */
  function Ingest(libs: Libs, st: Store, req: Request, now: string): (r: Step)
    ensures Valid(st) ==> Valid(r.store)
    ensures r.response.InternalServerError? ==> r.store == st
    ensures r.response.Received? ==>
      var s := r.response.summary;
      && s.messageCount == |r.store.raw| && s.healthDataCount == |r.store.readings|
      && s.criticalAlertsCount == |r.store.alerts|
      && r.store.raw != [] && s.decodingSuccessful == r.store.raw[|r.store.raw| - 1].parsingSuccess
  {
    Apply(st, Process(libs, req, now))
  }

  /** `GET /data`. */
  function GetData(st: Store): (r: seq<Reading>)
    ensures Valid(st) ==> |r| <= ReadingCap
  {
    st.readings
  }

  /** `GET /critical-alerts`. */
  function GetCriticalAlerts(st: Store): (r: seq<Alert>)
    ensures Valid(st) ==> |r| <= AlertCap
  {
    st.alerts
  }

  /** `GET /raw-data`. */
  function GetRawData(st: Store): (r: seq<RawEntry>)
    ensures Valid(st) ==> |r| <= RawCap
  {
    st.raw
  }

  /** The three counts `GET /test` reports. */
  datatype Counts = Counts(totalMessages: nat, healthData: nat, criticalAlerts: nat)

  /** `GET /test`, without its clock and host fields. */
  function TestCounts(st: Store): (r: Counts)
    ensures r.totalMessages == |GetRawData(st)| && r.healthData == |GetData(st)|
    ensures r.criticalAlerts == |GetCriticalAlerts(st)|
    ensures Valid(st) ==> r.totalMessages <= RawCap && r.healthData <= ReadingCap && r.criticalAlerts <= AlertCap
  {
    Counts(|st.raw|, |st.readings|, |st.alerts|)
  }
}
