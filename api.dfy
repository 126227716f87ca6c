/**
 * The scheduling client (src/services/api.ts): the requests it sends and how it turns
 * each HTTP outcome into a value. Every failure is caught and mapped to an empty or
 * absent result; the notification and console output it shows on the way are left out.
 */
module Api {
  import opened Wrappers

  const ApiBaseUrl: string := "https://dentist-appointment-server-production.up.railway.app"

  datatype Dentist = Dentist(id: string, name: string, specialty: string)

  datatype AvailabilityResponse =
    AvailabilityResponse(date: string, dentistId: Option<string>, availableSlots: seq<string>)

  datatype Patient = Patient(name: string, email: string, phone: string)

  datatype AppointmentRequest =
    AppointmentRequest(dentistId: string, date: string, time: string, patient: Patient)

  datatype AppointmentResponse = AppointmentResponse(appointmentId: string, status: string)

  /** How a fetch ended: a response with its status and decoded JSON body, or a thrown
      failure (the network request or the JSON decoding rejected). */
  datatype HttpOutcome<T> = Response(status: int, body: T) | Thrown

  /** response.ok: the status is in 200..299. */
  predicate IsOk<T>(o: HttpOutcome<T>) {
    o.Response? && 200 <= o.status <= 299
  }

  datatype HttpMethod = Get | Post

  /** A request: verb, URL, Content-Type header and JSON body (the request record itself). */
  datatype HttpRequest =
    HttpRequest(verb: HttpMethod, url: string, contentType: Option<string>, body: Option<AppointmentRequest>)

  /** fetchDentists' request: a GET of base + "/dentists" with no header and no body. */
  function DentistsRequest(): (r: HttpRequest)
    ensures r.verb == Get && r.contentType.None? && r.body.None?
    ensures |r.url| > |ApiBaseUrl| && r.url[..|ApiBaseUrl|] == ApiBaseUrl && r.url[|ApiBaseUrl|..] == "/dentists"
  {
    HttpRequest(Get, ApiBaseUrl + "/dentists", None, None)
  }

  const AvailabilityPrefix: string := ApiBaseUrl + "/availability?date="

  /** The availability URL: the date, then "&dentistId=" and the id only when the id is
      present and non-empty; nothing is escaped. */
  function AvailabilityUrl(date: string, dentistId: Option<string>): (url: string)
    ensures |url| == |AvailabilityPrefix| + |date| + (if Present(dentistId) then 11 + |dentistId.value| else 0)
    ensures url[..|AvailabilityPrefix|] == AvailabilityPrefix
    ensures url[|AvailabilityPrefix|..|AvailabilityPrefix| + |date|] == date
    ensures Present(dentistId) ==>
      url[|AvailabilityPrefix| + |date|..] == "&dentistId=" + dentistId.value
    ensures !Present(dentistId) ==> |url| == |AvailabilityPrefix| + |date|
  {
    var url := AvailabilityPrefix + date;
    if Present(dentistId) then url + "&dentistId=" + dentistId.value else url
  }

  /** fetchAvailability's request: a GET of the availability URL with no header and no body. */
  function AvailabilityRequest(date: string, dentistId: Option<string>): (r: HttpRequest)
    ensures r.verb == Get && r.contentType.None? && r.body.None?
    ensures |r.url| >= |AvailabilityPrefix| + |date|
    ensures r.url[..|ApiBaseUrl|] == ApiBaseUrl && r.url[|ApiBaseUrl|..|AvailabilityPrefix|] == "/availability?date="
    ensures r.url[|AvailabilityPrefix|..|AvailabilityPrefix| + |date|] == date
  {
    HttpRequest(Get, AvailabilityUrl(date, dentistId), None, None)
  }

  /** bookAppointment's request: a POST of the appointment as JSON to /appointments. */
  function BookingRequest(appointment: AppointmentRequest): (r: HttpRequest)
    ensures r.verb == Post && r.contentType == Some("application/json") && r.body == Some(appointment)
    ensures |r.url| > |ApiBaseUrl| && r.url[..|ApiBaseUrl|] == ApiBaseUrl && r.url[|ApiBaseUrl|..] == "/appointments"
  {
    HttpRequest(Post, ApiBaseUrl + "/appointments", Some("application/json"), Some(appointment))
  }

  // ---------------------------------------------------------------------------
  // Reading the query back

  /** The text before the first '&' of s (all of s if it has none). */
  function UntilAmpersand(s: string): (r: string)
    ensures |r| <= |s| && r == s[..|r|] && '&' !in r
    ensures |r| < |s| ==> s[|r|] == '&'
  {
    if s == [] || s[0] == '&' then []
    else
      var rest := UntilAmpersand(s[1..]);
      assert [s[0]] + rest == s[..|rest| + 1];
      assert |rest| < |s| - 1 ==> s[|rest| + 1] == s[1..][|rest|];
      [s[0]] + rest
  }

  /** The query of an availability URL read back: the date parameter and, when an '&'
      follows it, the text after that '&'. */
  function ParseAvailabilityQuery(url: string): (string, Option<string>)
    requires |url| >= |AvailabilityPrefix|
  {
    var q := url[|AvailabilityPrefix|..];
    var date := UntilAmpersand(q);
    (date, if |date| < |q| then Some(q[|date| + 1..]) else None)
  }

  /** A date without '&' and the dentist id are recovered from the URL. */
  lemma AvailabilityUrlRoundTrip(date: string, dentistId: Option<string>)
    requires '&' !in date
    ensures var url := AvailabilityUrl(date, dentistId);
      |url| >= |AvailabilityPrefix| &&
      ParseAvailabilityQuery(url) ==
        (date, if Present(dentistId) then Some("dentistId=" + dentistId.value) else None)
  {
    var url := AvailabilityUrl(date, dentistId);
    var q := url[|AvailabilityPrefix|..];
    if Present(dentistId) {
      assert q == date + "&" + ("dentistId=" + dentistId.value);
    } else {
      assert q == date;
    }
    UntilAmpersandPrefix(date, q);
  }

  lemma {:induction false} UntilAmpersandPrefix(date: string, q: string)
    requires '&' !in date && |date| <= |q| && q[..|date|] == date
    requires |date| < |q| ==> q[|date|] == '&'
    ensures UntilAmpersand(q) == date
  {
    if date != [] {
      assert date[0] == q[0];
      assert q[1..][..|date| - 1] == date[1..];
      UntilAmpersandPrefix(date[1..], q[1..]);
    }
  }

  // ---------------------------------------------------------------------------
  // Outcome to result: fail soft

  /** fetchDentists: the list on an ok response, [] on a non-ok status or a thrown failure. */
  function FetchDentists(o: HttpOutcome<seq<Dentist>>): (r: seq<Dentist>)
    ensures IsOk(o) ==> r == o.body
    ensures !IsOk(o) ==> r == []
  {
    match o
    case Thrown => []
    case Response(status, body) => if 200 <= status <= 299 then body else []
  }

  /** fetchAvailability: the body on an ok response; otherwise its own inputs echoed with
      no slots. */
  function FetchAvailability(date: string, dentistId: Option<string>, o: HttpOutcome<AvailabilityResponse>)
    : (r: AvailabilityResponse)
    ensures IsOk(o) ==> r == o.body
    ensures !IsOk(o) ==> r == AvailabilityResponse(date, dentistId, [])
  {
    if IsOk(o) then o.body else AvailabilityResponse(date, dentistId, [])
  }

  /** bookAppointment: the confirmation on an ok response, null otherwise. */
  function BookAppointment(appointment: AppointmentRequest, o: HttpOutcome<AppointmentResponse>)
    : (r: Option<AppointmentResponse>)
    ensures r.Some? <==> IsOk(o)
    ensures r.Some? ==> r.value == o.body
  {
    if IsOk(o) then Some(o.body) else None
  }

  /** A server error status is handled exactly like a thrown failure. */
  lemma ErrorStatusLikeThrown(date: string, dentistId: Option<string>, appointment: AppointmentRequest,
                              status: int, d: seq<Dentist>, a: AvailabilityResponse, b: AppointmentResponse)
    requires !(200 <= status <= 299)
    ensures FetchDentists(Response(status, d)) == FetchDentists(Thrown)
    ensures FetchAvailability(date, dentistId, Response(status, a)) == FetchAvailability(date, dentistId, Thrown)
    ensures BookAppointment(appointment, Response(status, b)) == BookAppointment(appointment, Thrown)
  {
  }
}
