/**
  The request parser: the request line, the query parameters, the header
  dictionary and the three-way body, read from a `StreamReaderAsync`.
*/
module HttpRequest {
  import opened Wrappers
  import opened Text
  import opened HttpUtil
  import opened LineReader
  import opened HttpWinRTStreams

  /** `WebUtility.UrlDecode`, supplied by the host. */
  type UrlDecoder = string -> string

  /** The exceptions the parser lets escape, one per throwing call of the source. */
  datatype RequestError =
    | IndexOutOfRange                  // `requestParts[1]` on a line without a space
    | UnknownHttpMethod(message: string)
    | DuplicateKey(name: string)       // `Dictionary.Add` on a name already present
    | MoreThanOneMatch                 // LINQ `SingleOrDefault` with two matches
    | ReadFailed(cause: ReadError)

  // ---------------------------------------------------------------------------
  // HttpUriParameters

  /** A query pair; `None` is the null value of a segment without `=`. */
  datatype Param = Param(key: string, value: Option<string>)

  /** The pair list; `None` is the null list of the parameterless constructor. */
  datatype HttpUriParameters = HttpUriParameters(parameters: Option<seq<Param>>)

  /** The parameterless constructor: no list at all. */
  function NoParameters(): HttpUriParameters {
    HttpUriParameters(None)
  }

  /** The list, with a null list read as an empty one, as every lookup does. */
  function Pairs(p: HttpUriParameters): (ps: seq<Param>)
    ensures p.parameters.Some? ==> ps == p.parameters.value
    ensures p.parameters.None? ==> ps == []
  {
    p.parameters.GetOr([])
  }

  /**
    One `&`-segment: the key is the text before the first `=`, the value the
    URL-decoding of the text between the first and the second `=` (anything
    after it is dropped), and a segment without `=` has a null value.
  */
  function ParseSegment(segment: string, urlDecode: UrlDecoder): (p: Param)
    ensures |p.key| <= |segment| && segment[..|p.key|] == p.key && '=' !in p.key
    ensures |p.key| < |segment| ==> segment[|p.key|] == '='
    ensures p.value.None? <==> '=' !in segment
  {
    var qps := Split(segment, '=');
    SplitFirstPiece(segment, '=');
    ContainsChar(segment, '=');
    Param(qps[0], if |qps| > 1 then Some(urlDecode(qps[1])) else None)
  }

  /** The `Select` over the segments: one pair per segment, in order. */
  function ParseSegments(segments: seq<string>, urlDecode: UrlDecoder): (ps: seq<Param>)
    ensures |ps| == |segments|
    ensures forall i :: 0 <= i < |ps| ==> ps[i] == ParseSegment(segments[i], urlDecode)
  {
    if segments == [] then []
    else [ParseSegment(segments[0], urlDecode)] + ParseSegments(segments[1..], urlDecode)
  }

  /** The parsing constructor: split on `&`, drop the empty segments, parse each one. */
  function Parse(raw: string, urlDecode: UrlDecoder): (p: HttpUriParameters)
    ensures p.parameters.Some?
  {
    HttpUriParameters(Some(ParseSegments(RemoveEmpty(Split(raw, '&')), urlDecode)))
  }

  /**
    `TryParse`: the constructor on a null string throws, and `TryParse` turns
    that into `false`; every non-null string parses.
  */
  function TryParse(raw: Option<string>, urlDecode: UrlDecoder): (r: Option<HttpUriParameters>)
    ensures r.Some? <==> raw.Some?
    ensures r.Some? ==> r.value == Parse(raw.value, urlDecode)
  {
    match raw
    case None => None
    case Some(s) => Some(Parse(s, urlDecode))
  }

  /** Some pair's key satisfies `pred`. */
  predicate AnyKey(ps: seq<Param>, pred: string -> bool)
    ensures AnyKey(ps, pred) <==> exists i :: 0 <= i < |ps| && pred(ps[i].key)
  {
    if ps == [] then false
    else pred(ps[0].key) || AnyKey(ps[1..], pred)
  }

  /** The values of the pairs whose key satisfies `pred`, in source order. */
  function WhereKey(ps: seq<Param>, pred: string -> bool): (vs: seq<Option<string>>)
    ensures |vs| <= |ps|
    ensures forall v :: v in vs ==> exists i :: 0 <= i < |ps| && pred(ps[i].key) && ps[i].value == v
  {
    if ps == [] then []
    else (if pred(ps[0].key) then [ps[0].value] else []) + WhereKey(ps[1..], pred)
  }

  /** The key test of the string overloads: `Equals(key, OrdinalIgnoreCase)`. */
  function KeyIs(key: string): string -> bool {
    k => EqualsIgnoreCase(k, key)
  }

  /** `Any(Func<string, bool>)`: false on a null or empty list. */
  predicate AnyBy(p: HttpUriParameters, pred: string -> bool)
    ensures p.parameters.None? ==> !AnyBy(p, pred)
    ensures AnyBy(p, pred) <==> exists i :: 0 <= i < |Pairs(p)| && pred(Pairs(p)[i].key)
  {
    AnyKey(Pairs(p), pred)
  }

  /** `Any(string)`. */
  predicate Any(p: HttpUriParameters, key: string)
    ensures Any(p, key) <==> exists i :: 0 <= i < |Pairs(p)| && EqualsIgnoreCase(Pairs(p)[i].key, key)
  {
    AnyBy(p, KeyIs(key))
  }

  /** `Where(Func<string, bool>)`: nothing on a null or empty list. */
  function WhereBy(p: HttpUriParameters, pred: string -> bool): (vs: seq<Option<string>>)
    ensures p.parameters.None? ==> vs == []
    ensures forall v :: v in vs ==> exists i :: 0 <= i < |Pairs(p)| && pred(Pairs(p)[i].key) && Pairs(p)[i].value == v
  {
    WhereKey(Pairs(p), pred)
  }

  /** `Where(string)`. */
  function Where(p: HttpUriParameters, key: string): (vs: seq<Option<string>>)
    ensures |vs| <= |Pairs(p)|
    ensures forall v :: v in vs ==>
      exists i :: 0 <= i < |Pairs(p)| && EqualsIgnoreCase(Pairs(p)[i].key, key) && Pairs(p)[i].value == v
  {
    WhereBy(p, KeyIs(key))
  }

  /**
    The scan of LINQ `SingleOrDefault`: `found` is the match seen so far; a
    second match throws.
  */
  function SingleScan(ps: seq<Param>, key: string, found: Option<Param>): (r: Result<Option<Param>, RequestError>)
    ensures r.Failure? ==> r.error == MoreThanOneMatch
    ensures (forall i :: 0 <= i < |ps| ==> !EqualsIgnoreCase(ps[i].key, key)) ==> r == Success(found)
    ensures r.Success? && r.value.Some? && r.value != found ==> r.value.value in ps && EqualsIgnoreCase(r.value.value.key, key)
  {
    if ps == [] then Success(found)
    else if EqualsIgnoreCase(ps[0].key, key) then
      if found.Some? then Failure(MoreThanOneMatch) else SingleScan(ps[1..], key, Some(ps[0]))
    else SingleScan(ps[1..], key, found)
  }

  /**
    `SingleOrDefault(string)`: null for a null or empty list and for no match,
    the value of the one match (itself possibly null), and an exception for two.
    The default pair has a null key, which no parsed pair has, so the
    comparison with `default` is true exactly when nothing matched.
  */
  function SingleOrDefault(p: HttpUriParameters, key: string): (r: Result<Option<string>, RequestError>)
    ensures r.Failure? ==> r.error == MoreThanOneMatch
    ensures !Any(p, key) ==> r == Success(None)
    ensures r.Success? && r.value.Some? ==> Any(p, key)
  {
    match SingleScan(Pairs(p), key, None)
    case Failure(e) => Failure(e)
    case Success(None) => Success(None)
    case Success(Some(pair)) => Success(pair.value)
  }

  // ---------------------------------------------------------------------------
  // HttpRequestLine

  datatype HttpRequestLine = HttpRequestLine(
    httpMethod: HttpMethod,
    uri: string,
    uriWithParameters: string,
    raw: string,
    uriParameters: HttpUriParameters)

  /**
    The `HttpRequestLine` constructor: split on spaces; the second token is the
    target, its text before the first `?` the path, and its text between the
    first and the second `?` the query. A line without a space fails on
    `requestParts[1]` before the method is looked at.
  */
  function ParseRequestLine(line: string, urlDecode: UrlDecoder): (r: Result<HttpRequestLine, RequestError>)
    ensures r.Success? ==> r.value.raw == line && MethodName(r.value.httpMethod) == Split(line, ' ')[0]
    ensures r.Success? ==> ' ' in line && ' ' !in r.value.uriWithParameters
    ensures r.Success? ==> var first, target := Split(line, ' ')[0], r.value.uriWithParameters;
      var n := |first| + 1 + |target|;
      n <= |line| && line[..n] == first + " " + target && (n < |line| ==> line[n] == ' ')
    ensures r.Success? ==> var target, path := r.value.uriWithParameters, r.value.uri;
      |path| <= |target| && target[..|path|] == path && '?' !in path
      && (|path| < |target| ==> target[|path|] == '?')
    ensures r.Success? ==> (r.value.uriParameters.parameters.None? <==> '?' !in r.value.uriWithParameters)
  {
    var requestParts := Split(line, ' ');
    SplitPiecesLack(line, ' ');
    ContainsChar(line, ' ');
    if |requestParts| < 2 then Failure(IndexOutOfRange)
    else
      SplitFirstTwo(line, ' ');
      var queryParts := Split(requestParts[1], '?');
      SplitFirstPiece(requestParts[1], '?');
      ContainsChar(requestParts[1], '?');
      match FromStringToHttpMethod(requestParts[0])
      case Failure(message) => Failure(UnknownHttpMethod(message))
      case Success(httpMethod) =>
        Success(HttpRequestLine(
          httpMethod,
          queryParts[0],
          requestParts[1],
          line,
          if |queryParts| < 2 then NoParameters() else Parse(queryParts[1], urlDecode)))
  }

  // ---------------------------------------------------------------------------
  // Headers

  const HeaderSeparator := ": "

  /**
    One turn of the header loop: a line whose `": "`-split has exactly two parts
    is added, and `Add` throws on a name already present; any other line is
    ignored.
  */
  function AddHeaderLine(headers: map<string, string>, line: string): (r: Result<map<string, string>, RequestError>)
    ensures r.Success? ==> headers.Keys <= r.value.Keys
    ensures r.Success? ==> forall k :: k in headers ==> r.value[k] == headers[k]
  {
    var parts := SplitOn(line, HeaderSeparator);
    if |parts| == 2 then
      if parts[0] in headers then Failure(DuplicateKey(parts[0]))
      else Success(headers[parts[0] := parts[1]])
    else Success(headers)
  }

  /**
    The header loop from a line already read: it stops at the first empty line;
    `r` is the reader after `line`. A line that is not empty always consumes
    input, which is what ends the loop.
  */
  function HeaderLoop(decode: Decoder, r: Reader, line: string, headers: map<string, string>)
    : (res: (Result<map<string, string>, RequestError>, Reader))
    requires r.Valid()
    decreases Progress(r), |line|
    ensures res.1.Valid()
    ensures res.0.Success? ==> headers.Keys <= res.0.value.Keys
    ensures res.0.Success? ==> forall k :: k in headers ==> res.0.value[k] == headers[k]
  {
    if line == "" then (Success(headers), r)
    else
      match AddHeaderLine(headers, line)
      case Failure(e) => (Failure(e), r)
      case Success(added) =>
        var (next, r') := LineReader.ReadLine(decode, r);
        match next
        case Failure(e) => (Failure(ReadFailed(e)), r')
        case Success(l) => HeaderLoop(decode, r', l, added)
  }

  /** The header dictionary: read a line, then run the loop from an empty dictionary. */
  function ReadHeaders(decode: Decoder, r: Reader): (res: (Result<map<string, string>, RequestError>, Reader))
    requires r.Valid()
    ensures res.1.Valid()
  {
    var (first, r') := LineReader.ReadLine(decode, r);
    match first
    case Failure(e) => (Failure(ReadFailed(e)), r')
    case Success(l) => HeaderLoop(decode, r', l, map[])
  }

  /**
    The header loop over a list of lines already read, none of them the empty
    line that ends it.
  */
  function AddHeaderLines(headers: map<string, string>, lines: seq<string>): (r: Result<map<string, string>, RequestError>)
    decreases |lines|
    ensures r.Success? ==> headers.Keys <= r.value.Keys
    ensures r.Success? ==> forall k :: k in headers ==> r.value[k] == headers[k]
  {
    if lines == [] then Success(headers)
    else
      match AddHeaderLine(headers, lines[0])
      case Failure(e) => Failure(e)
      case Success(added) => AddHeaderLines(added, lines[1..])
  }

  lemma {:induction false} AddHeaderLinesAppend(headers: map<string, string>, a: seq<string>, b: seq<string>)
    ensures AddHeaderLines(headers, a + b) ==
      match AddHeaderLines(headers, a)
      case Failure(e) => Failure(e)
      case Success(h) => AddHeaderLines(h, b)
    decreases |a|
  {
    if a == [] {
      assert a + b == b;
    } else {
      assert (a + b)[1..] == a[1..] + b;
      match AddHeaderLine(headers, a[0])
      case Failure(e) =>
      case Success(added) => AddHeaderLinesAppend(added, a[1..], b);
    }
  }

  /**
    Successive `ReadLine` calls from `r` return the non-empty lines `ls`, in
    order, then the empty line, and leave the reader `last`.
  */
  predicate ReadsHeaderLines(decode: Decoder, r: Reader, ls: seq<string>, last: Reader)
    requires r.Valid()
    decreases |ls|
  {
    var (res, r') := LineReader.ReadLine(decode, r);
    if ls == [] then res == Success("") && r' == last
    else res == Success(ls[0]) && ls[0] != "" && ReadsHeaderLines(decode, r', ls[1..], last)
  }

  /**
    The header loop from the line `line`, over a reader that then delivers `ls`
    and the empty line, computes `AddHeaderLines` over `line` and `ls`; when it
    succeeds it stops just after the empty line.
  */
  lemma {:induction false} HeaderLoopReadsLines(decode: Decoder, r: Reader, line: string, headers: map<string, string>, ls: seq<string>, last: Reader)
    requires r.Valid() && line != "" && ReadsHeaderLines(decode, r, ls, last)
    ensures HeaderLoop(decode, r, line, headers).0 == AddHeaderLines(headers, [line] + ls)
    ensures AddHeaderLines(headers, [line] + ls).Success? ==> HeaderLoop(decode, r, line, headers).1 == last
    decreases |ls|
  {
    assert ([line] + ls)[0] == line && ([line] + ls)[1..] == ls;
    match AddHeaderLine(headers, line)
    case Failure(e) =>
    case Success(added) =>
      var (next, r') := LineReader.ReadLine(decode, r);
      if ls != [] {
        HeaderLoopReadsLines(decode, r', ls[0], added, ls[1..], last);
        assert [ls[0]] + ls[1..] == ls;
      }
  }

  /**
    `ReadHeaders` on a reader that delivers the non-empty lines `ls` and then
    the empty line gives the dictionary `AddHeaderLines` builds from `ls`, and
    on success stops just after the empty line.
  */
  lemma ReadHeadersReadsLines(decode: Decoder, r: Reader, ls: seq<string>, last: Reader)
    requires r.Valid() && ReadsHeaderLines(decode, r, ls, last)
    ensures ReadHeaders(decode, r).0 == AddHeaderLines(map[], ls)
    ensures AddHeaderLines(map[], ls).Success? ==> ReadHeaders(decode, r).1 == last
  {
    var (first, r') := LineReader.ReadLine(decode, r);
    if ls != [] {
      HeaderLoopReadsLines(decode, r', ls[0], map[], ls[1..], last);
      assert [ls[0]] + ls[1..] == ls;
    }
  }

  /** `ContainsHeader`: an exact, case-sensitive key lookup of the wire name. */
  predicate ContainsHeader(headers: map<string, string>, header: HttpHeader)
    ensures ContainsHeader(headers, header) <==> exists k :: k in headers && FromStringToHttpHeader(k) == Some(header)
  {
    HeaderNameRoundTrip(header);
    FromHttpHeaderToString(header) in headers
  }

  /** `GetHeader`: the value under the wire name, or null. */
  function GetHeader(headers: map<string, string>, header: HttpHeader): (r: Option<string>)
    ensures r.Some? <==> ContainsHeader(headers, header)
    ensures r.Some? ==> r.value == headers[FromHttpHeaderToString(header)]
  {
    var name := FromHttpHeaderToString(header);
    if name in headers then Some(headers[name]) else None
  }

  // ---------------------------------------------------------------------------
  // HttpRequestBody

  /**
    What `MultipartFormDataParser.CreateAsync` is handed: the reader at the
    start of the body. The parse itself is not part of this model.
  */
  datatype MultipartForm = MultipartForm(stream: Reader)

  datatype HttpRequestBody = Empty | Text(text: string) | Multipart(form: MultipartForm)

  /** `HttpRequestBody.Text`: an empty text gives the `Empty` body. */
  function TextBody(text: string): (b: HttpRequestBody)
    ensures b.Empty? <==> text == ""
    ensures b.Text? ==> b.text == text
    ensures !b.Multipart?
  {
    if text != "" then Text(text) else Empty
  }

  /** `Match<T>`: the function of the case whose tag the body carries. */
  function Match<T>(body: HttpRequestBody, emptyCase: () -> T, textCase: string -> T, multipartCase: MultipartForm -> T): (r: T)
    ensures body.Empty? ==> r == emptyCase()
    ensures body.Text? ==> r == textCase(body.text)
    ensures body.Multipart? ==> r == multipartCase(body.form)
  {
    match body
    case Empty => emptyCase()
    case Text(t) => textCase(t)
    case Multipart(m) => multipartCase(m)
  }

  const MultipartFormData := "multipart/form-data"

  /**
    The body decision: GET and OPTIONS have no body and do not touch the
    stream; an exact `Content-Type` key whose value contains
    `multipart/form-data` hands the stream to the multipart parser; anything
    else reads the rest of the stream as text.
  */
  function ReadBody(decode: Decoder, httpMethod: HttpMethod, headers: map<string, string>, r: Reader)
    : (res: (HttpRequestBody, Reader))
    requires r.Valid()
    ensures res.1.Valid()
  {
    if httpMethod == GET || httpMethod == OPTIONS then (Empty, r)
    else if ContainsHeader(headers, ContentType) && Contains(GetHeader(headers, ContentType).value, MultipartFormData) then
      (Multipart(MultipartForm(r)), r)
    else
      var (text, r') := LineReader.ReadToEnd(decode, r);
      (TextBody(text), r')
  }

  // ---------------------------------------------------------------------------
  // HttpRequest

  datatype Request = Request(reqLine: HttpRequestLine, headers: map<string, string>, body: HttpRequestBody)

  /** `HttpRequest.Create`: request line, headers, body, each read from where the last stopped. */
  function ParseRequest(decode: Decoder, urlDecode: UrlDecoder, r: Reader): (res: (Result<Request, RequestError>, Reader))
    requires r.Valid()
    ensures res.1.Valid()
  {
    var (first, r1) := LineReader.ReadLine(decode, r);
    match first
    case Failure(e) => (Failure(ReadFailed(e)), r1)
    case Success(line) =>
      match ParseRequestLine(line, urlDecode)
      case Failure(e) => (Failure(e), r1)
      case Success(reqLine) =>
        var (headers, r2) := ReadHeaders(decode, r1);
        match headers
        case Failure(e) => (Failure(e), r2)
        case Success(h) =>
          var (body, r3) := ReadBody(decode, reqLine.httpMethod, h, r2);
          (Success(Request(reqLine, h, body)), r3)
  }

  /** The header loop of `Create`, adding to the dictionary in place. */
  method ReadHeaderLines(stream: StreamReaderAsync) returns (headers: Result<map<string, string>, RequestError>)
    requires stream.Valid()
    modifies stream, stream.buffer
    ensures stream.Valid()
    ensures (headers, stream.State()) == ReadHeaders(stream.decode, old(stream.State()))
  {
    var dictionary: map<string, string> := map[];
    var header := stream.ReadLine();
    if header.Failure? {
      return Failure(ReadFailed(header.error));
    }
    var line := header.value;
    while line != ""
      invariant stream.Valid()
      invariant ReadHeaders(stream.decode, old(stream.State())) == HeaderLoop(stream.decode, stream.State(), line, dictionary)
      decreases Progress(stream.State()), |line|
    {
      var parts := SplitOn(line, HeaderSeparator);
      if |parts| == 2 {
        if parts[0] in dictionary {
          return Failure(DuplicateKey(parts[0]));
        }
        dictionary := dictionary[parts[0] := parts[1]];
      }
      header := stream.ReadLine();
      if header.Failure? {
        return Failure(ReadFailed(header.error));
      }
      line := header.value;
    }
    return Success(dictionary);
  }

  /** `HttpRequest.Create` over a reader: parse one request from the stream. */
  method Create(stream: StreamReaderAsync, urlDecode: UrlDecoder) returns (req: Result<Request, RequestError>)
    requires stream.Valid()
    modifies stream, stream.buffer
    ensures stream.Valid()
    ensures (req, stream.State()) == ParseRequest(stream.decode, urlDecode, old(stream.State()))
  {
    var first := stream.ReadLine();
    if first.Failure? {
      return Failure(ReadFailed(first.error));
    }
    var reqLine := ParseRequestLine(first.value, urlDecode);
    if reqLine.Failure? {
      return Failure(reqLine.error);
    }
    var headers := ReadHeaderLines(stream);
    if headers.Failure? {
      return Failure(headers.error);
    }
    var h := headers.value;
    var httpMethod := reqLine.value.httpMethod;
    var body: HttpRequestBody;
    if httpMethod == GET || httpMethod == OPTIONS {
      body := Empty;
    } else if ContainsHeader(h, ContentType) && Contains(GetHeader(h, ContentType).value, MultipartFormData) {
      body := Multipart(MultipartForm(stream.State()));
    } else {
      var text := stream.ReadToEnd();
      body := TextBody(text);
    }
    return Success(Request(reqLine.value, h, body));
  }

  // ---------------------------------------------------------------------------
  // Properties of the query parameters

  /** `Any` holds exactly when `Where` yields something, for every key test. */
  lemma {:induction false} AnyKeyIffWhereKey(ps: seq<Param>, pred: string -> bool)
    ensures AnyKey(ps, pred) <==> |WhereKey(ps, pred)| > 0
  {
    if ps != [] {
      AnyKeyIffWhereKey(ps[1..], pred);
    }
  }

  lemma AnyIffWhere(p: HttpUriParameters, key: string)
    ensures Any(p, key) <==> Where(p, key) != []
  {
    AnyKeyIffWhereKey(Pairs(p), KeyIs(key));
  }

  /** `Where` keeps source order: the matches of a concatenation are the matches of each part. */
  lemma {:induction false} WhereKeyAppend(a: seq<Param>, b: seq<Param>, pred: string -> bool)
    ensures WhereKey(a + b, pred) == WhereKey(a, pred) + WhereKey(b, pred)
  {
    if a == [] {
      assert a + b == b;
    } else {
      WhereKeyAppend(a[1..], b, pred);
      assert (a + b)[0] == a[0] && (a + b)[1..] == a[1..] + b;
      var head := if pred(a[0].key) then [a[0].value] else [];
      ConcatAssoc(head, WhereKey(a[1..], pred), WhereKey(b, pred));
    }
  }

  lemma {:induction false} SingleScanCounts(ps: seq<Param>, key: string, found: Option<Param>)
    ensures var w := WhereKey(ps, KeyIs(key));
      && (|w| + (if found.Some? then 1 else 0) >= 2 ==> SingleScan(ps, key, found) == Failure(MoreThanOneMatch))
      && (found.Some? && |w| == 0 ==> SingleScan(ps, key, found) == Success(found))
      && (found.None? && |w| == 0 ==> SingleScan(ps, key, found) == Success(None))
      && (found.None? && |w| == 1 ==>
            SingleScan(ps, key, found).Success? && SingleScan(ps, key, found).value.Some?
            && SingleScan(ps, key, found).value.value.value == w[0])
  {
    if ps != [] {
      if EqualsIgnoreCase(ps[0].key, key) {
        SingleScanCounts(ps[1..], key, Some(ps[0]));
      } else {
        SingleScanCounts(ps[1..], key, found);
      }
    }
  }

  /**
    `SingleOrDefault` agrees with `Where`: null when nothing matches, the one
    value when one pair matches, and an exception when two or more do.
  */
  lemma SingleOrDefaultByWhere(p: HttpUriParameters, key: string)
    ensures var w := Where(p, key);
      SingleOrDefault(p, key) ==
        if |w| == 0 then Success(None)
        else if |w| == 1 then Success(w[0])
        else Failure(MoreThanOneMatch)
  {
    SingleScanCounts(Pairs(p), key, None);
  }

  /** A null or empty list: no key is present, nothing is yielded, `SingleOrDefault` is null. */
  lemma NoPairsNoMatch(p: HttpUriParameters, key: string)
    requires Pairs(p) == []
    ensures !Any(p, key) && Where(p, key) == [] && SingleOrDefault(p, key) == Success(None)
  {
  }

  /** A segment without `=` is a key with a null value. */
  lemma SegmentWithoutValue(key: string, urlDecode: UrlDecoder)
    requires '=' !in key
    ensures ParseSegment(key, urlDecode) == Param(key, None)
  {
    SplitAbsent(key, '=');
  }

  /**
    A segment `key=value`, possibly followed by `=` and more text: the key, and
    the decoded value; what follows a second `=` is dropped.
  */
  lemma SegmentWithValue(key: string, value: string, rest: string, urlDecode: UrlDecoder)
    requires '=' !in key && '=' !in value
    requires rest == "" || rest[0] == '='
    ensures ParseSegment(key + "=" + value + rest, urlDecode) == Param(key, Some(urlDecode(value)))
  {
    ConcatAssoc(key + "=", value, rest);
    SplitAt(key, '=', value + rest);
    if rest == "" {
      assert value + rest == value;
      SplitAbsent(value, '=');
    } else {
      assert rest == ['='] + rest[1..];
      ConcatAssoc(value, ['='], rest[1..]);
      SplitAt(value, '=', rest[1..]);
    }
  }

  /**
    Segments that contain no `&`, joined with `&`, parse to one pair per
    non-empty segment, in order, duplicates kept; the empty segments are
    skipped.
  */
  lemma ParseJoined(segments: seq<string>, urlDecode: UrlDecoder)
    requires forall i :: 0 <= i < |segments| ==> '&' !in segments[i]
    ensures Pairs(Parse(Join(segments, "&"), urlDecode)) == ParseSegments(RemoveEmpty(segments), urlDecode)
  {
    if segments == [] {
      SplitAbsent("", '&');
      RemoveEmptyOne("");
    } else {
      SplitJoin(segments, '&');
    }
  }

  /** Non-empty segments without `&`, joined with `&`: one pair per segment, none skipped. */
  lemma ParseJoinedNonEmpty(segments: seq<string>, urlDecode: UrlDecoder)
    requires forall i :: 0 <= i < |segments| ==> segments[i] != "" && '&' !in segments[i]
    ensures Pairs(Parse(Join(segments, "&"), urlDecode)) == ParseSegments(segments, urlDecode)
  {
    ParseJoined(segments, urlDecode);
    RemoveEmptyNone(segments);
  }

  /** `key=value` with neither part holding `=` or `&`: a non-empty segment with one `=`. */
  lemma KeyValueSegment(key: string, value: string, urlDecode: UrlDecoder)
    requires '=' !in key && '=' !in value && '&' !in key && '&' !in value
    ensures key + "=" + value != "" && '&' !in key + "=" + value
    ensures ParseSegment(key + "=" + value, urlDecode) == Param(key, Some(urlDecode(value)))
  {
    assert key + "=" + value == key + "=" + value + "";
    SegmentWithValue(key, value, "", urlDecode);
  }

  /** Three `key=value` segments joined with `&` parse to three pairs, in order. */
  lemma ParseThree(k1: string, v1: string, k2: string, v2: string, k3: string, v3: string, urlDecode: UrlDecoder)
    requires '=' !in k1 && '=' !in v1 && '&' !in k1 && '&' !in v1
    requires '=' !in k2 && '=' !in v2 && '&' !in k2 && '&' !in v2
    requires '=' !in k3 && '=' !in v3 && '&' !in k3 && '&' !in v3
    ensures Pairs(Parse((k1 + "=" + v1) + "&" + (k2 + "=" + v2) + "&" + (k3 + "=" + v3), urlDecode))
      == [Param(k1, Some(urlDecode(v1))), Param(k2, Some(urlDecode(v2))), Param(k3, Some(urlDecode(v3)))]
  {
    KeyValueSegment(k1, v1, urlDecode);
    KeyValueSegment(k2, v2, urlDecode);
    KeyValueSegment(k3, v3, urlDecode);
    ParseJoinedThree(k1 + "=" + v1, k2 + "=" + v2, k3 + "=" + v3, urlDecode);
  }

  lemma ParseJoinedThree(s1: string, s2: string, s3: string, urlDecode: UrlDecoder)
    requires s1 != "" && s2 != "" && s3 != "" && '&' !in s1 && '&' !in s2 && '&' !in s3
    ensures Pairs(Parse(s1 + "&" + s2 + "&" + s3, urlDecode))
      == [ParseSegment(s1, urlDecode), ParseSegment(s2, urlDecode), ParseSegment(s3, urlDecode)]
  {
    var segments := [s1, s2, s3];
    JoinThree(s1, s2, s3);
    ParseJoinedNonEmpty(segments, urlDecode);
    var ps := ParseSegments(segments, urlDecode);
    assert ps[0] == ParseSegment(s1, urlDecode) && ps[1] == ParseSegment(s2, urlDecode) && ps[2] == ParseSegment(s3, urlDecode);
  }

  /** `k1=v1&&k2=v2`: the empty segment between the two `&` gives no pair. */
  lemma EmptySegmentSkipped(k1: string, v1: string, k2: string, v2: string, urlDecode: UrlDecoder)
    requires '=' !in k1 && '=' !in v1 && '&' !in k1 && '&' !in v1
    requires '=' !in k2 && '=' !in v2 && '&' !in k2 && '&' !in v2
    ensures Pairs(Parse((k1 + "=" + v1) + "&&" + (k2 + "=" + v2), urlDecode))
      == [Param(k1, Some(urlDecode(v1))), Param(k2, Some(urlDecode(v2)))]
  {
    KeyValueSegment(k1, v1, urlDecode);
    KeyValueSegment(k2, v2, urlDecode);
    ParseJoinedEmptyMiddle(k1 + "=" + v1, k2 + "=" + v2, urlDecode);
  }

  lemma ParseJoinedEmptyMiddle(s1: string, s2: string, urlDecode: UrlDecoder)
    requires s1 != "" && s2 != "" && '&' !in s1 && '&' !in s2
    ensures Pairs(Parse(s1 + "&&" + s2, urlDecode)) == [ParseSegment(s1, urlDecode), ParseSegment(s2, urlDecode)]
  {
    var segments := [s1, "", s2];
    JoinThree(s1, "", s2);
    assert s1 + "&" + "" + "&" + s2 == s1 + "&&" + s2;
    ParseJoined(segments, urlDecode);
    RemoveEmptyMiddle(s1, s2);
    var ps := ParseSegments([s1, s2], urlDecode);
    assert ps[0] == ParseSegment(s1, urlDecode) && ps[1] == ParseSegment(s2, urlDecode);
  }

  lemma RemoveEmptyMiddle(s1: string, s2: string)
    requires s1 != "" && s2 != ""
    ensures RemoveEmpty([s1, "", s2]) == [s1, s2]
  {
    assert [s1, "", s2] == [s1] + [""] + [s2];
    RemoveEmptyAppend([s1] + [""], [s2]);
    RemoveEmptyAppend([s1], [""]);
    RemoveEmptyOne(s1);
    RemoveEmptyOne("");
    RemoveEmptyOne(s2);
  }

  lemma JoinThree(s1: string, s2: string, s3: string)
    ensures Join([s1, s2, s3], "&") == s1 + "&" + s2 + "&" + s3
  {
    assert [s1, s2, s3][1..] == [s2, s3] && [s2, s3][1..] == [s3];
    assert Join([s2, s3], "&") == s2 + "&" + s3;
    assert s1 + "&" + (s2 + "&" + s3) == s1 + "&" + s2 + "&" + s3;
  }

  /** The query `a=1&b=2&a=3` looked up with `a`: both values, in source order. */
  lemma WhereExample(raw: string, urlDecode: UrlDecoder)
    requires raw == "a=1&b=2&a=3"
    ensures Where(Parse(raw, urlDecode), "a") == [Some(urlDecode("1")), Some(urlDecode("3"))]
  {
    var a, b, one, two, three := "a", "b", "1", "2", "3";
    assert raw == (a + "=" + one) + "&" + (b + "=" + two) + "&" + (a + "=" + three);
    ParseThree(a, one, b, two, a, three, urlDecode);
    var ps := Pairs(Parse(raw, urlDecode));
    var pred := KeyIs(a);
    assert ToLower(a) == a;
    assert ToLower(b) == b;
    assert pred(a) && !pred(b);
    assert ps[1..] == [ps[1], ps[2]] && ps[1..][1..] == [ps[2]] && ps[1..][1..][1..] == [];
    assert WhereKey([ps[2]], pred) == [ps[2].value];
    assert WhereKey([ps[1], ps[2]], pred) == [ps[2].value];
    assert WhereKey(ps, pred) == [ps[0].value, ps[2].value];
  }

  // ---------------------------------------------------------------------------
  // Properties of the request line

  /** The token before the first space has no space, so the split starts with it. */
  lemma SplitFirstToken(token: string, c: char, rest: string)
    requires c !in token
    ensures Split(token + [c] + rest, c)[0] == token
    ensures Split(token + [c] + rest, c)[1..] == Split(rest, c)
  {
    SplitAt(token, c, rest);
  }

  /**
    `METHOD target version`: the method is the first token, the raw target and
    the whole line are kept, and the path is the target's text before its first `?`.
  */
  lemma RequestLineTokens(m: HttpMethod, target: string, version: string, urlDecode: UrlDecoder)
    requires ' ' !in target
    ensures var line := MethodName(m) + " " + target + " " + version;
      var r := ParseRequestLine(line, urlDecode);
      && r.Success?
      && r.value.httpMethod == m
      && r.value.uriWithParameters == target
      && r.value.raw == line
      && r.value.uri == Split(target, '?')[0]
  {
    var line := MethodName(m) + " " + target + " " + version;
    MethodNameHasNoSpace(m);
    assert line == MethodName(m) + [' '] + (target + " " + version);
    SplitFirstToken(MethodName(m), ' ', target + " " + version);
    assert target + " " + version == target + [' '] + version;
    SplitFirstToken(target, ' ', version);
    MethodNameRoundTrip(m);
  }

  /**
    `METHOD target` with no version: the line still parses, the target is the
    second token and the path its text before the first `?`.
  */
  lemma RequestLineTwoTokens(m: HttpMethod, target: string, urlDecode: UrlDecoder)
    requires ' ' !in target
    ensures var line := MethodName(m) + " " + target;
      var r := ParseRequestLine(line, urlDecode);
      && r.Success? && r.value.httpMethod == m && r.value.raw == line
      && r.value.uriWithParameters == target && r.value.uri == Split(target, '?')[0]
  {
    var line := MethodName(m) + " " + target;
    MethodNameHasNoSpace(m);
    assert line == MethodName(m) + [' '] + target;
    SplitFirstToken(MethodName(m), ' ', target);
    SplitAbsent(target, ' ');
    MethodNameRoundTrip(m);
  }

  /** A target without `?`: the path is the whole target and there is no parameter list. */
  lemma RequestLineWithoutQuery(m: HttpMethod, path: string, version: string, urlDecode: UrlDecoder, key: string)
    requires ' ' !in path && '?' !in path
    ensures var r := ParseRequestLine(MethodName(m) + " " + path + " " + version, urlDecode);
      && r.Success? && r.value.uri == path && r.value.uriParameters == NoParameters()
      && !Any(r.value.uriParameters, key) && Where(r.value.uriParameters, key) == []
      && SingleOrDefault(r.value.uriParameters, key) == Success(None)
  {
    RequestLineTokens(m, path, version, urlDecode);
    SplitAbsent(path, '?');
  }

  /** The target split on `?`: the text before the first `?`, then the text up to the second. */
  lemma QueryParts(path: string, query: string, rest: string)
    requires '?' !in path && '?' !in query
    requires rest == "" || rest[0] == '?'
    ensures var parts := Split(path + "?" + query + rest, '?');
      |parts| >= 2 && parts[0] == path && parts[1] == query
  {
    ConcatAssoc(path + "?", query, rest);
    SplitFirstToken(path, '?', query + rest);
    if rest == "" {
      assert query + rest == query;
      SplitAbsent(query, '?');
    } else {
      assert rest == ['?'] + rest[1..];
      ConcatAssoc(query, ['?'], rest[1..]);
      SplitFirstToken(query, '?', rest[1..]);
    }
  }

  /**
    A target `path?query`, possibly followed by a second `?` and more: the path
    is the text before the first `?` and only the text between the first and
    the second `?` is parsed as the query.
  */
  lemma RequestLineWithQuery(m: HttpMethod, path: string, query: string, rest: string, version: string, urlDecode: UrlDecoder)
    requires '?' !in path && '?' !in query
    requires rest == "" || rest[0] == '?'
    requires ' ' !in path + "?" + query + rest
    ensures var r := ParseRequestLine(MethodName(m) + " " + (path + "?" + query + rest) + " " + version, urlDecode);
      && r.Success? && r.value.uri == path && r.value.uriParameters == Parse(query, urlDecode)
  {
    RequestLineTokens(m, path + "?" + query + rest, version, urlDecode);
    QueryParts(path, query, rest);
  }

  /** A line fails on the missing second token exactly when it holds no space. */
  lemma RequestLineNeedsSpace(line: string, urlDecode: UrlDecoder)
    ensures ParseRequestLine(line, urlDecode) == Failure(IndexOutOfRange) <==> ' ' !in line
  {
    ContainsChar(line, ' ');
  }

  /** A first token that is not one of the five methods fails with "Unknown HTTP method". */
  lemma RequestLineUnknownMethod(token: string, rest: string, urlDecode: UrlDecoder)
    requires ' ' !in token && token !in {"GET", "PUT", "POST", "DELETE", "OPTIONS"}
    ensures ParseRequestLine(token + " " + rest, urlDecode) == Failure(UnknownHttpMethod(UnknownMethodMessage))
  {
    assert token + " " + rest == token + [' '] + rest;
    SplitFirstToken(token, ' ', rest);
  }

  // ---------------------------------------------------------------------------
  // Properties of the header lines

  lemma SplitHeaderLine(name: string, value: string)
    requires !Contains(name, HeaderSeparator)
    ensures SplitOn(name + HeaderSeparator + value, HeaderSeparator) == [name] + SplitOn(value, HeaderSeparator)
  {
    SplitOnPair(name, HeaderSeparator, value);
  }

  /** An empty line straight after the request line ends the headers with an empty dictionary. */
  lemma EmptyLineEndsHeaders(decode: Decoder, r: Reader)
    requires r.Valid() && LineReader.ReadLine(decode, r).0 == Success("")
    ensures ReadHeaders(decode, r) == (Success(map[]), LineReader.ReadLine(decode, r).1)
  {
  }

  /** `name: value` with a new name and neither part holding `": "` adds exactly that entry. */
  lemma HeaderLineAdds(headers: map<string, string>, name: string, value: string)
    requires !Contains(name, HeaderSeparator) && !Contains(value, HeaderSeparator)
    requires name !in headers
    ensures AddHeaderLine(headers, name + HeaderSeparator + value) == Success(headers[name := value])
  {
    SplitHeaderLine(name, value);
    SplitOnAbsent(value, HeaderSeparator);
  }

  /** A name already present, with the same letter case, makes `Add` throw. */
  lemma HeaderLineDuplicate(headers: map<string, string>, name: string, value: string)
    requires !Contains(name, HeaderSeparator) && !Contains(value, HeaderSeparator)
    requires name in headers
    ensures AddHeaderLine(headers, name + HeaderSeparator + value) == Failure(DuplicateKey(name))
  {
    SplitHeaderLine(name, value);
    SplitOnAbsent(value, HeaderSeparator);
  }

  /** A value that itself holds `": "` gives three or more parts: the line is dropped. */
  lemma HeaderValueWithSeparatorDropped(headers: map<string, string>, name: string, value: string)
    requires !Contains(name, HeaderSeparator) && Contains(value, HeaderSeparator)
    ensures AddHeaderLine(headers, name + HeaderSeparator + value) == Success(headers)
  {
    SplitHeaderLine(name, value);
  }

  /** A line without `": "` is one part: it is dropped. */
  lemma HeaderLineWithoutSeparatorDropped(headers: map<string, string>, line: string)
    requires !Contains(line, HeaderSeparator)
    ensures AddHeaderLine(headers, line) == Success(headers)
  {
    SplitOnAbsent(line, HeaderSeparator);
  }

  // ---------------------------------------------------------------------------
  // Properties of the body

  /** GET and OPTIONS leave the stream untouched and have no body. */
  lemma BodylessMethods(decode: Decoder, m: HttpMethod, headers: map<string, string>, r: Reader)
    requires r.Valid() && (m == GET || m == OPTIONS)
    ensures ReadBody(decode, m, headers, r) == (Empty, r)
  {
  }

  /**
    Any other method without a multipart content type reads the stream to its
    end: the body is `Empty` exactly when that text is empty, and `Text` of it
    otherwise.
  */
  lemma TextBodyReadsToEnd(decode: Decoder, m: HttpMethod, headers: map<string, string>, r: Reader)
    requires r.Valid() && m != GET && m != OPTIONS
    requires !(FromHttpHeaderToString(ContentType) in headers
               && Contains(headers[FromHttpHeaderToString(ContentType)], MultipartFormData))
    ensures var (body, after) := ReadBody(decode, m, headers, r);
      var (text, rest) := LineReader.ReadToEnd(decode, r);
      && after == rest && after.headersRead && |after.fill| < Capacity
      && (body.Empty? <==> text == "")
      && (body.Text? <==> text != "")
      && (body.Text? ==> body.text == text)
  {
  }

  /**
    Any other method whose exact `Content-Type` key holds `multipart/form-data`
    hands the stream, unread, to the multipart parser.
  */
  lemma MultipartBodyKeepsStream(decode: Decoder, m: HttpMethod, headers: map<string, string>, r: Reader)
    requires r.Valid() && m != GET && m != OPTIONS
    requires FromHttpHeaderToString(ContentType) in headers
    requires Contains(headers[FromHttpHeaderToString(ContentType)], MultipartFormData)
    ensures ReadBody(decode, m, headers, r) == (Multipart(MultipartForm(r)), r)
  {
  }

  /** `Match` with the three constructors rebuilds the body: it dispatches on the stored tag. */
  lemma MatchRebuilds(body: HttpRequestBody)
    ensures Match(body, () => Empty, t => Text(t), m => Multipart(m)) == body
  {
  }
}
