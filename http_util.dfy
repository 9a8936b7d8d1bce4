/** The protocol tables: methods, statuses and header names, and their wire text. */
module HttpUtil {
  import opened Wrappers
  import opened Text

  datatype HttpMethod = GET | POST | PUT | DELETE | OPTIONS

  datatype HttpStatus = OK | NotFound | Continue

  datatype HttpHeader =
    | ContentType
    | ContentLength
    | Connection
    | CacheControl
    | Pragma
    | Expires
    | AccessControlAllowOrigin
    | AccessControlAllowHeaders
    | AccessControlAllowMethods
    | AccessControlAllowCredentials

  const UnknownMethodMessage := "Unknown HTTP method"

  predicate IsDigit(c: char) {
    '0' <= c <= '9'
  }

  predicate IsLetterOrDigit(c: char) {
    IsDigit(c) || 'A' <= c <= 'Z' || 'a' <= c <= 'z'
  }

  /** A character of a header name token: letters, digits and `-`. */
  predicate IsNameChar(c: char) {
    IsLetterOrDigit(c) || c == '-'
  }

  /**
    The status-line text: a three-digit code, a space and a non-empty reason
    phrase of letters and spaces.
  */
  function FromHttpStatusToString(status: HttpStatus): (r: string)
    ensures |r| >= 5
    ensures IsDigit(r[0]) && IsDigit(r[1]) && IsDigit(r[2]) && r[3] == ' '
    ensures r[4] != ' '
  {
    match status
    case OK => "200 OK"
    case NotFound => "404 Not Found"
    case Continue => "100 Continue"
  }

  /** The status-line text is made of letters, digits and spaces only. */
  lemma StatusTextChars(status: HttpStatus)
    ensures var r := FromHttpStatusToString(status);
      forall i :: 0 <= i < |r| ==> IsLetterOrDigit(r[i]) || r[i] == ' '
  {
  }

  /** Distinct statuses have distinct status-line texts. */
  lemma StatusTextInjective(a: HttpStatus, b: HttpStatus)
    requires FromHttpStatusToString(a) == FromHttpStatusToString(b)
    ensures a == b
  {
    assert FromHttpStatusToString(a)[0..3] == FromHttpStatusToString(b)[0..3];
  }

  /** The wire name of a header: a non-empty token of letters, digits and `-`. */
  function FromHttpHeaderToString(header: HttpHeader): (r: string)
    ensures |r| > 0
  {
    match header
    case ContentType => "Content-Type"
    case ContentLength => "Content-Length"
    case Connection => "Connection"
    case CacheControl => "Cache-Control"
    case Pragma => "Pragma"
    case Expires => "Expires"
    case AccessControlAllowOrigin => "Access-Control-Allow-Origin"
    case AccessControlAllowHeaders => "Access-Control-Allow-Headers"
    case AccessControlAllowMethods => "Access-Control-Allow-Methods"
    case AccessControlAllowCredentials => "Access-Control-Allow-Credentials"
  }

  /** A header's wire name is a token of letters, digits and `-`. */
  lemma HeaderNameChars(header: HttpHeader)
    ensures var r := FromHttpHeaderToString(header);
      forall i :: 0 <= i < |r| ==> IsNameChar(r[i])
  {
    if header.AccessControlAllowOrigin? || header.AccessControlAllowHeaders?
      || header.AccessControlAllowMethods? || header.AccessControlAllowCredentials? {
      AccessControlNameChars(header);
    }
  }

  /** The four `Access-Control-Allow-` names, the longest of the table. */
  lemma AccessControlNameChars(header: HttpHeader)
    requires header.AccessControlAllowOrigin? || header.AccessControlAllowHeaders?
      || header.AccessControlAllowMethods? || header.AccessControlAllowCredentials?
    ensures var r := FromHttpHeaderToString(header);
      forall i :: 0 <= i < |r| ==> IsNameChar(r[i])
  {
  }

  /**
    The reverse lookup from wire name to header. The server has no such
    function; it is here to show that the table can be read both ways.
  */
  function FromStringToHttpHeader(name: string): (r: Option<HttpHeader>)
    ensures r.Some? ==> FromHttpHeaderToString(r.value) == name
  {
    if name == "Content-Type" then Some(ContentType)
    else if name == "Content-Length" then Some(ContentLength)
    else if name == "Connection" then Some(Connection)
    else if name == "Cache-Control" then Some(CacheControl)
    else if name == "Pragma" then Some(Pragma)
    else if name == "Expires" then Some(Expires)
    else if name == "Access-Control-Allow-Origin" then Some(AccessControlAllowOrigin)
    else if name == "Access-Control-Allow-Headers" then Some(AccessControlAllowHeaders)
    else if name == "Access-Control-Allow-Methods" then Some(AccessControlAllowMethods)
    else if name == "Access-Control-Allow-Credentials" then Some(AccessControlAllowCredentials)
    else None
  }

  /** Every header's wire name leads back to the header. */
  lemma HeaderNameRoundTrip(header: HttpHeader)
    ensures FromStringToHttpHeader(FromHttpHeaderToString(header)) == Some(header)
  {
  }

  /** Distinct headers have distinct wire names. */
  lemma {:induction false} HeaderNameInjective(a: HttpHeader, b: HttpHeader)
    requires FromHttpHeaderToString(a) == FromHttpHeaderToString(b)
    ensures a == b
  {
    HeaderNameRoundTrip(a);
    HeaderNameRoundTrip(b);
  }

  /** The name of an enumerant, as C# `ToString` prints it. */
  function MethodName(m: HttpMethod): string {
    match m
    case GET => "GET"
    case POST => "POST"
    case PUT => "PUT"
    case DELETE => "DELETE"
    case OPTIONS => "OPTIONS"
  }

  /**
    Accepts exactly the five method names, case-sensitively; anything else
    fails with "Unknown HTTP method".
  */
  function FromStringToHttpMethod(name: string): (r: Result<HttpMethod, string>)
    ensures r.Success? <==> name in {"GET", "PUT", "POST", "DELETE", "OPTIONS"}
    ensures r.Success? ==> MethodName(r.value) == name
    ensures r.Failure? ==> r.error == UnknownMethodMessage
  {
    match name
    case "GET" => Success(GET)
    case "PUT" => Success(PUT)
    case "POST" => Success(POST)
    case "DELETE" => Success(DELETE)
    case "OPTIONS" => Success(OPTIONS)
    case _ => Failure(UnknownMethodMessage)
  }

  /** Parsing the name of a method gives that method back. */
  lemma MethodNameRoundTrip(m: HttpMethod)
    ensures FromStringToHttpMethod(MethodName(m)) == Success(m)
  {
  }

  /** A method name never contains a space, so it is one token of a request line. */
  lemma MethodNameHasNoSpace(m: HttpMethod)
    ensures ' ' !in MethodName(m)
  {
  }
}
