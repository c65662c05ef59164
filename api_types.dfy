/**
 * Display and decode tables of the Last.fm response types
 * (crates/lastfm/src/api_types.rs; src/lastfm/api_types.rs repeats the
 * `Error` display and `LfmStatus::into_result` unchanged).
 */
module ApiTypes {
  import R = Results

  /** An `<error code="..">message</error>` element of a failed response. */
  datatype Error = Error(code: string, message: string)

  /** The `status` attribute of an `<lfm>` response and its payload. */
  datatype LfmStatus<T> = Ok(value: T) | Failed(error: Error)

  /** The fixed description of each error code that has one. */
  const Descriptions: map<string, string> := map[
    "2" := "Invalid service - This service does not exist",
    "3" := "Invalid Method - No method with that name in this package",
    "4" := "Authentication Failed - You do not have permissions to access the service",
    "5" := "Invalid format - This service doesn't exist in that format",
    "6" := "Invalid parameters - Your request is missing a required parameter",
    "7" := "Invalid resource specified",
    "8" := "Operation failed - Something else went wrong",
    "9" := "Invalid session key - Please re-authenticate",
    "10" := "Invalid API key - You must be granted a valid key by last.fm",
    "11" := "Service Offline - This service is temporarily offline. Try again later.",
    "13" := "Invalid method signature supplied",
    "14" := "This token has not been authorized",
    "15" := "This token has expired",
    "16" := "There was a temporary error processing your request. Please try again",
    "26" := "Suspended API key - Access for your account has been suspended, please contact Last.fm",
    "29" := "Rate limit exceeded - Your IP has made too many requests in a short period"
  ]

  /** The codes 2 to 11, 13 to 16, 26 and 29. */
  const KnownCodes: set<string> :=
    {"2", "3", "4", "5", "6", "7", "8", "9", "10", "11", "13", "14", "15", "16", "26", "29"}

  /** Exactly the known codes have a description. */
  lemma DescribedCodes()
    ensures Descriptions.Keys == KnownCodes
  {
  }

  /**
   * `Display for Error`: a known code renders as "code: description: message";
   * any other code as "unknown code code: code: message".
   */
  function Display(e: Error): (s: string)
    ensures e.code in KnownCodes ==> s == e.code + ": " + Descriptions[e.code] + ": " + e.message
    ensures e.code !in KnownCodes ==> s == "unknown code " + (e.code + ": " + e.code + ": " + e.message)
  {
    DescribedCodes();
    var text := if e.code in Descriptions then Descriptions[e.code] else e.code;
    var line := e.code + ": " + text + ": " + e.message;
    if e.code in Descriptions then line else "unknown code " + line
  }

  /** Every known code starts with a decimal digit. */
  lemma KnownCodesAreNumeric(code: string)
    requires code in KnownCodes
    ensures |code| > 0 && '0' <= code[0] <= '9'
  {
  }

  /** The rendering starts with "unknown code " exactly when the code has no description. */
  lemma DisplayMarksUnknown(e: Error)
    ensures (|Display(e)| >= 13 && Display(e)[..13] == "unknown code ") <==> e.code !in KnownCodes
  {
    var s := Display(e);
    if e.code in KnownCodes {
      KnownCodesAreNumeric(e.code);
      assert s[0] == e.code[0];
      assert "unknown code "[0] == 'u';
    }
  }

  /** The rendering always ends with the message. */
  lemma DisplayEndsWithMessage(e: Error)
    ensures |Display(e)| >= |e.message| && Display(e)[|Display(e)| - |e.message|..] == e.message
  {
    var s := Display(e);
    var head := if e.code in KnownCodes then e.code + ": " + Descriptions[e.code] + ": "
                else "unknown code " + (e.code + ": " + e.code + ": ");
    assert s == head + e.message;
  }

  /** `LfmStatus::into_result`: an ok status yields its payload, a failed one its error. */
  function IntoResult<T>(status: LfmStatus<T>): (r: R.Result<T, Error>)
    ensures r.Ok? <==> status.Ok?
    ensures r.Ok? ==> r.value == status.value
    ensures r.Err? ==> r.error == status.error
  {
    match status
    case Ok(x) => R.Ok(x)
    case Failed(error) => R.Err(error)
  }

  /** No information is lost: distinct statuses give distinct results. */
  lemma IntoResultInjective<T>(a: LfmStatus<T>, b: LfmStatus<T>)
    ensures IntoResult(a) == IntoResult(b) ==> a == b
  {
  }

  /** `Period`: the time range of a top-N query. */
  datatype Period = Overall | SevenDay | OneMonth | ThreeMonth | SixMonth | TwelveMonth

  /** `Display for Period`: writes the same string the variant is renamed to for serde, so it parses back. */
  function PeriodDisplay(p: Period): (s: string)
    ensures s == PeriodSerdeName(p)
    ensures ParsePeriod(s) == R.Some(p)
  {
    match p
    case Overall => "overall"
    case SevenDay => "7day"
    case OneMonth => "1month"
    case ThreeMonth => "3month"
    case SixMonth => "6month"
    case TwelveMonth => "12month"
  }

  /** The `serde(rename)` name of each `Period` variant. */
  function PeriodSerdeName(p: Period): (s: string)
    ensures s in {"overall", "7day", "1month", "3month", "6month", "12month"}
    ensures s != "" && forall k :: 0 <= k < |s| ==> 'a' <= s[k] <= 'z' || '0' <= s[k] <= '9'
  {
    match p
    case Overall => "overall"
    case SevenDay => "7day"
    case OneMonth => "1month"
    case ThreeMonth => "3month"
    case SixMonth => "6month"
    case TwelveMonth => "12month"
  }

  /** Derived deserialisation of a `Period` from its serde name. */
  function ParsePeriod(s: string): (p: R.Option<Period>)
    ensures p.Some? ==> PeriodSerdeName(p.value) == s
  {
    if s == "overall" then R.Some(Overall)
    else if s == "7day" then R.Some(SevenDay)
    else if s == "1month" then R.Some(OneMonth)
    else if s == "3month" then R.Some(ThreeMonth)
    else if s == "6month" then R.Some(SixMonth)
    else if s == "12month" then R.Some(TwelveMonth)
    else R.None
  }

  /** Each period displays as its serde name, distinct periods display differently, and the display parses back. */
  lemma PeriodDisplayFaithful(p: Period, q: Period)
    ensures PeriodDisplay(p) == PeriodSerdeName(p)
    ensures p != q ==> PeriodDisplay(p) != PeriodDisplay(q)
    ensures ParsePeriod(PeriodDisplay(p)) == R.Some(p)
  {
  }

  /** The `display_period` test. */
  lemma DisplayPeriodTest()
    ensures PeriodDisplay(Overall) == "overall"
  {
  }

  /** `ImageSize`: the size attribute of an image; unrecognised sizes are kept verbatim. */
  datatype ImageSize = Small | Medium | Large | Extralarge | Mega | Unknown(size: string)

  /** The kebab-case serde name of a named size. */
  function ImageSizeName(v: ImageSize): (s: string)
    requires !v.Unknown?
    ensures s in {"small", "medium", "large", "mega", "extralarge"}
    ensures forall k :: 0 <= k < |s| ==> 'a' <= s[k] <= 'z'
  {
    match v
    case Small => "small"
    case Medium => "medium"
    case Large => "large"
    case Extralarge => "extralarge"
    case Mega => "mega"
  }

  /** The hand-written `Deserialize for ImageSize`: case-sensitive, and it never fails. */
  function DecodeImageSize(s: string): (v: ImageSize)
    ensures v.Unknown? <==> s !in {"small", "medium", "large", "mega", "extralarge"}
    ensures v.Unknown? ==> v.size == s
    ensures !v.Unknown? ==> ImageSizeName(v) == s
  {
    if s == "small" then Small
    else if s == "medium" then Medium
    else if s == "large" then Large
    else if s == "mega" then Mega
    else if s == "extralarge" then Extralarge
    else Unknown(s)
  }

  /** Each named size decodes back from its kebab-case name. */
  lemma ImageSizeRoundTrip(v: ImageSize)
    requires !v.Unknown?
    ensures DecodeImageSize(ImageSizeName(v)) == v
  {
  }

  /** Matching is case-sensitive: a capitalised name is an unknown size. */
  lemma ImageSizeCaseSensitive()
    ensures DecodeImageSize("Small") == Unknown("Small")
    ensures DecodeImageSize("EXTRALARGE") == Unknown("EXTRALARGE")
  {
  }

  /** Codes without a description include 1, 12, 17 to 25, 27, 28 and any non-numeric code. */
  lemma UnknownCodes(message: string)
    ensures forall code :: code in {"1", "12", "17", "18", "19", "20", "21", "22", "23", "24", "25", "27", "28", "", "abc"} ==>
      Display(Error(code, message)) == "unknown code " + code + ": " + code + ": " + message
  {
  }

  /** An instance built on the error value of the `status_failed` test (code 10): the failed status converts to that error, which renders with the API-key description. */
  lemma StatusFailedTest()
    ensures IntoResult<()>(Failed(Error("10", "Invalid API Key"))) == R.Err(Error("10", "Invalid API Key"))
    ensures Display(Error("10", "Invalid API Key"))
         == "10" + ": " + "Invalid API key - You must be granted a valid key by last.fm" + ": " + "Invalid API Key"
  {
  }
}
