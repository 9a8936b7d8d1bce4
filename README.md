# HttpServerWinRT: the request/response core in Dafny

This project models the sequential core of HttpServerWinRT, a small embeddable
HTTP/1.1 server for WinRT, and proves properties of that model. It covers:

- **`StreamReaderAsync`**: the buffered reader over the socket's input stream.
  - `LineReader` (`line_reader.dfy`) defines the reader as a value (`Reader`). It is the current fill of the 8192-byte buffer, the cursor, the `headersRead` flag, and the chunks the stream has yet to deliver.
  - `LineReader` has one function per read operation; each gives the result and the reader the operation leaves behind.
  - The class `HttpWinRTStreams.StreamReaderAsync` (`streams.dfy`) has the source's fields, its buffer as an `array`, and its `for`/`while` loops.
  - Each of its methods is proved to compute exactly the matching `LineReader` function.
  - `ReadBytes` fills the caller's array in place.
- **The request parser** (`http_request.dfy`):
  - the request line (method, raw target, path, query parameters);
  - `HttpUriParameters` and its lookups;
  - the header loop, which fails on a duplicate name as `Dictionary.Add` does;
  - the three-way body.
  - `HttpRequest.Create` is a method over a `StreamReaderAsync`, proved equal to the function `ParseRequest`.
- **The protocol tables** (`http_util.dfy`): methods, statuses and header names, with their wire text.
- **The response header block** (`http_response.dfy`):
  - `Response` is a class whose `sink` is every write to the output stream, in order.
  - The block built by `WriteHeaders` is shown to split into its lines.
  - Split on CR LF, the block's header lines, turned into a dictionary by the header loop's steps (`AddHeaderLines`), give back the headers that were written.
  - `ReadHeaders`, over a reader whose successive `ReadLine` calls return those lines and then the empty line, gives that dictionary (`HeaderBlockParsed`).
- **Controller selection** (`http_server.dfy`): the first route key that occurs in the lower-cased path, or the default.

Foreign code enters as function-typed parameters:
- UTF-8 decoding is a `Decoder` (`seq<byte> -> string`), applied per fill as the source does.
- URL decoding is a `UrlDecoder`.
- Controllers are values of a type parameter.

Each `async` operation is modelled as a sequential call.

The model keeps the following behaviours of the code, which a reader of the interfaces alone might not expect:
- **CR LF split across two fills:** not recognised as a line end (`CrlfAcrossFillsNotRecognised`).
- **Duplicate header name:** makes the request fail, because `Dictionary.Add` throws rather than overwriting (`HeaderLineDuplicate`).
- **Short counts from `ReadBytes`:** it may return fewer bytes than asked for before the input is exhausted, when a chunk shorter than the buffer arrives.
- **First `ReadLine` may not refill:** the first `ReadLine` returns without refilling when the rest of the initial fill holds a CR LF (`ReadLineInFill`). Only the loop refills, and only while `!headersRead || Length == Capacity`.
- **`ReadToEnd` with no refill due:** it returns the rest of the fill and leaves the cursor where it was, so a second call returns the same text again (`ReadToEndWithoutRefill`).
- **`ReadToEnd` stops early:** it stops at the first chunk shorter than the buffer, even when more chunks follow (`ReadToEndReadsRun`, `FullRun`).

## Model

| member | source | states |
|---|---|---|
| LineReader.Open | src/HttpServerWinRT/HttpServerWinRT/HttpWinRTStreams.cs:27-32 | the initial fill is the first chunk, with the cursor at 0 and `headersRead` false |
| LineReader.Refill | src/HttpServerWinRT/HttpServerWinRT/HttpWinRTStreams.cs:88-92 | a refill sets `headersRead`, puts the cursor at 0 and keeps the reader valid |
| LineReader.FindCrlf | src/HttpServerWinRT/HttpServerWinRT/HttpWinRTStreams.cs:65-67 | the result is the first index at or after the cursor where CR is followed by LF inside the fill, or none exists |
| LineReader.LineLoop | src/HttpServerWinRT/HttpServerWinRT/HttpWinRTStreams.cs:88-98 | the refill loop keeps the reader valid, never increases the input left, consumes input whenever it refills and succeeds, and never clears `headersRead` |
| LineReader.ReadLine | src/HttpServerWinRT/HttpServerWinRT/HttpWinRTStreams.cs:79-99 | the cursor stays within the fill, `headersRead` never resets, and a non-empty line always consumes input |
| LineReader.ToEndLoop | src/HttpServerWinRT/HttpServerWinRT/HttpWinRTStreams.cs:107-113 | the loop ends with no refill due and, if it ran, the cursor at the end of the fill |
| LineReader.ReadToEnd | src/HttpServerWinRT/HttpServerWinRT/HttpWinRTStreams.cs:101-115 | it ends with `headersRead` set and a last fill shorter than the buffer |
| LineReader.BytesLoop | src/HttpServerWinRT/HttpServerWinRT/HttpWinRTStreams.cs:41-48 | the loop extends the bytes copied so far without changing them, never past the caller's array, and falls short only with the last fill used up |
| LineReader.ReadBytes | src/HttpServerWinRT/HttpServerWinRT/HttpWinRTStreams.cs:34-51 | the count is at most the array length, `headersRead` ends set, and a short count means the last fill was shorter than the buffer and is used up |
| LineReader.FullRun | src/HttpServerWinRT/HttpServerWinRT/HttpWinRTStreams.cs:107-113 | the chunks a refill loop takes are a prefix of the pending chunks |
| LineReader.ReadLineInFill | src/HttpServerWinRT/HttpServerWinRT/HttpWinRTStreams.cs:65-85 | a CR LF in the rest of the fill gives the decoded bytes from the cursor up to it, and the cursor moves past it |
| LineReader.ReadLineMissKeepsWholeFill | src/HttpServerWinRT/HttpServerWinRT/HttpWinRTStreams.cs:74-86 | on a miss the whole fill from index 0 is kept, not the bytes from the cursor, and the cursor goes to the end |
| LineReader.CrlfAcrossFillsNotRecognised | src/HttpServerWinRT/HttpServerWinRT/HttpWinRTStreams.cs:65-95 | a CR ending one fill and an LF starting the next both stay inside the returned line |
| LineReader.CrlfAcrossFillsExample | src/HttpServerWinRT/HttpServerWinRT/HttpWinRTStreams.cs:65-95 | fills `ab` CR and LF `c` are read as one line holding the CR and the LF |
| LineReader.ToEndLoopReadsRun | src/HttpServerWinRT/HttpServerWinRT/HttpWinRTStreams.cs:107-113 | the loop decodes exactly the full chunks and the first short one, in order, and leaves the rest unread |
| LineReader.ReadToEndReadsRun | src/HttpServerWinRT/HttpServerWinRT/HttpWinRTStreams.cs:101-115 | with a refill due, the text is the rest of the fill followed by every later fill in order, and the cursor ends at the end of the fill |
| LineReader.ReadToEndWithoutRefill | src/HttpServerWinRT/HttpServerWinRT/HttpWinRTStreams.cs:103-107 | with no refill due, the text is the rest of the fill and the reader, cursor included, is unchanged, so a second call returns the same text |
| LineReader.ReadToEndAfterRefill | src/HttpServerWinRT/HttpServerWinRT/HttpWinRTStreams.cs:104-114 | after a `ReadToEnd` that refilled, another returns the empty text |
| LineReader.BytesLoopInOrder | src/HttpServerWinRT/HttpServerWinRT/HttpWinRTStreams.cs:41-48 | the bytes copied are a prefix of the copied bytes followed by the pending input |
| LineReader.ReadBytesInOrder | src/HttpServerWinRT/HttpServerWinRT/HttpWinRTStreams.cs:34-51 | the bytes returned are a prefix of the rest of the fill followed by the later chunks |
| LineReader.ReadBytesFirstCallDropsRest | src/HttpServerWinRT/HttpServerWinRT/HttpWinRTStreams.cs:36-48 | the first call refills even when the array is full, dropping the rest of the initial fill |
| HttpWinRTStreams.StreamReaderAsync.State | src/HttpServerWinRT/HttpServerWinRT/HttpWinRTStreams.cs:14-18 | the fields, read as a `Reader`, satisfy the reader invariant `currentIndex <= Length` |
| HttpWinRTStreams.StreamReaderAsync.Create | src/HttpServerWinRT/HttpServerWinRT/HttpWinRTStreams.cs:20-32 | a fresh buffer holding the first chunk, with an empty accumulator, the cursor at 0 and `headersRead` false |
| HttpWinRTStreams.StreamReaderAsync.ReadAsync | src/HttpServerWinRT/HttpServerWinRT/HttpWinRTStreams.cs:30-109 | the buffer's valid bytes become the next chunk and the stream moves past it |
| HttpWinRTStreams.StreamReaderAsync.AppendFromBuffer | src/HttpServerWinRT/HttpServerWinRT/HttpWinRTStreams.cs:53-61 | the accumulator gains the decoding of the buffer range, or nothing for a count of zero |
| HttpWinRTStreams.StreamReaderAsync.RefillBuffer | src/HttpServerWinRT/HttpServerWinRT/HttpWinRTStreams.cs:90-92 | the new state is `Refill` of the old |
| HttpWinRTStreams.StreamReaderAsync.ScanForNewLine | src/HttpServerWinRT/HttpServerWinRT/HttpWinRTStreams.cs:63-77 | on a hit the accumulator gains the bytes from the cursor to the CR and the cursor moves past the LF; on a miss it gains the whole fill from 0, the cursor goes to the end and the result is null |
| HttpWinRTStreams.StreamReaderAsync.ReadLine | src/HttpServerWinRT/HttpServerWinRT/HttpWinRTStreams.cs:79-99 | result and new state are those of `LineReader.ReadLine` on the old state, whatever the accumulator held |
| HttpWinRTStreams.StreamReaderAsync.FinishLine | src/HttpServerWinRT/HttpServerWinRT/HttpWinRTStreams.cs:88-98 | the refill loop of `ReadLineAsync` computes `LineLoop` from the state and the text gathered on entry |
| HttpWinRTStreams.StreamReaderAsync.ReadToEnd | src/HttpServerWinRT/HttpServerWinRT/HttpWinRTStreams.cs:101-115 | result and new state are those of `LineReader.ReadToEnd` on the old state, whatever the accumulator held |
| HttpWinRTStreams.StreamReaderAsync.FinishToEnd | src/HttpServerWinRT/HttpServerWinRT/HttpWinRTStreams.cs:107-114 | the refill loop of `ReadToEndAsync` computes `ToEndLoop` from the state and the text gathered on entry |
| HttpWinRTStreams.StreamReaderAsync.CopyOut | src/HttpServerWinRT/HttpServerWinRT/HttpWinRTStreams.cs:37-47 | the copy loop moves the fill's bytes from the cursor into the array while both have room, leaving later entries alone |
| HttpWinRTStreams.StreamReaderAsync.CopyFirst | src/HttpServerWinRT/HttpServerWinRT/HttpWinRTStreams.cs:36-39 | the guarded first copy leaves exactly the work `BytesLoop` has left of `ReadBytes`, and leaves the entries after the count alone |
| HttpWinRTStreams.StreamReaderAsync.RefillAndCopy | src/HttpServerWinRT/HttpServerWinRT/HttpWinRTStreams.cs:43-47 | one loop turn: refill, then copy from index 0 |
| HttpWinRTStreams.StreamReaderAsync.CopyRest | src/HttpServerWinRT/HttpServerWinRT/HttpWinRTStreams.cs:41-48 | the refill loop computes `BytesLoop` and leaves the entries after the count unchanged |
| HttpWinRTStreams.StreamReaderAsync.ReadBytes | src/HttpServerWinRT/HttpServerWinRT/HttpWinRTStreams.cs:34-51 | the count, the bytes written before it and the new state are those of `LineReader.ReadBytes`; entries at or after the count are unchanged |
| HttpUtil.FromHttpStatusToString | src/HttpServerWinRT/HttpServerWinRT/HttpUtil.cs:37-50 | each status text is three digits, a space and a reason phrase |
| HttpUtil.StatusTextChars | src/HttpServerWinRT/HttpServerWinRT/HttpUtil.cs:42-46 | status texts hold only letters, digits and spaces |
| HttpUtil.StatusTextInjective | src/HttpServerWinRT/HttpServerWinRT/HttpUtil.cs:37-50 | distinct statuses have distinct texts |
| HttpUtil.FromHttpHeaderToString | src/HttpServerWinRT/HttpServerWinRT/HttpUtil.cs:52-79 | every header name is non-empty |
| HttpUtil.HeaderNameChars | src/HttpServerWinRT/HttpServerWinRT/HttpUtil.cs:56-75 | every header name is a token of letters, digits and `-` |
| HttpUtil.FromStringToHttpHeader | src/HttpServerWinRT/HttpServerWinRT/HttpUtil.cs:52-79 | a wire name found maps back to a header with that name |
| HttpUtil.HeaderNameRoundTrip | src/HttpServerWinRT/HttpServerWinRT/HttpUtil.cs:52-79 | each header's wire name maps back to that header |
| HttpUtil.HeaderNameInjective | src/HttpServerWinRT/HttpServerWinRT/HttpUtil.cs:56-75 | distinct headers have distinct wire names |
| HttpUtil.FromStringToHttpMethod | src/HttpServerWinRT/HttpServerWinRT/HttpUtil.cs:81-98 | success exactly for the five names, case-sensitively, each giving the enumerant of that name; otherwise the error "Unknown HTTP method" |
| HttpUtil.MethodNameRoundTrip | src/HttpServerWinRT/HttpServerWinRT/HttpUtil.cs:81-98 | parsing a method's name gives the method back |
| HttpUtil.MethodNameHasNoSpace | src/HttpServerWinRT/HttpServerWinRT/HttpRequest.cs:65-69 | a method name has no space, so it is one token of the request line |
| Text.ToLower | src/HttpServerWinRT/HttpServerWinRT/HttpWinRTServer.cs:53 | the lower-cased text has the same length and no upper-case ASCII letter |
| Text.SplitOn | src/HttpServerWinRT/HttpServerWinRT/HttpRequest.cs:38 | there is at least one piece, and two or more exactly when the separator occurs |
| Text.JoinSplitOn | src/HttpServerWinRT/HttpServerWinRT/HttpRequest.cs:38 | joining the pieces with the separator gives the text back |
| Text.SplitOnPiecesFree | src/HttpServerWinRT/HttpServerWinRT/HttpRequest.cs:38 | no piece contains the separator |
| Text.SplitJoin | src/HttpServerWinRT/HttpServerWinRT/HttpRequest.cs:65-135 | splitting pieces joined on a character they lack gives the pieces back |
| Text.RemoveEmpty | src/HttpServerWinRT/HttpServerWinRT/HttpRequest.cs:132 | exactly the non-empty pieces are kept |
| Text.RemoveEmptyOne | src/HttpServerWinRT/HttpServerWinRT/HttpRequest.cs:132 | a single piece is kept exactly when it is not empty |
| Text.RemoveEmptyAppend | src/HttpServerWinRT/HttpServerWinRT/HttpRequest.cs:132 | the kept pieces of a concatenation are those of each part, so order and repeats are kept |
| Text.SplitFirstPiece | src/HttpServerWinRT/HttpServerWinRT/HttpRequest.cs:135-136 | the first piece is the text before the first separator: a prefix without it, followed by it unless it is the whole text |
| Text.SplitFirstTwo | src/HttpServerWinRT/HttpServerWinRT/HttpRequest.cs:65-70 | when the separator occurs, the text starts with the first piece, the separator and the second piece, and the second piece is followed by the separator or the end |
| Text.SplitPiecesLack | src/HttpServerWinRT/HttpServerWinRT/HttpRequest.cs:65-66 | no piece of a character split holds that character |
| Text.RemoveEmptyNone | src/HttpServerWinRT/HttpServerWinRT/HttpRequest.cs:132 | with no empty piece nothing is removed |
| HttpRequest.Pairs | src/HttpServerWinRT/HttpServerWinRT/HttpRequest.cs:81-118 | a null list reads as empty; otherwise the list itself |
| HttpRequest.ParseSegment | src/HttpServerWinRT/HttpServerWinRT/HttpRequest.cs:133-139 | the key is the prefix before the first `=`, holds no `=`, and is followed by `=` unless it is the whole segment; the value is null exactly when the segment has no `=` |
| HttpRequest.ParseSegments | src/HttpServerWinRT/HttpServerWinRT/HttpRequest.cs:133-140 | one pair per segment, in order |
| HttpRequest.Parse | src/HttpServerWinRT/HttpServerWinRT/HttpRequest.cs:129-141 | the parsing constructor always gives a list, never null |
| HttpRequest.TryParse | src/HttpServerWinRT/HttpServerWinRT/HttpRequest.cs:143-155 | succeeds exactly on a non-null string, with the parsed parameters |
| HttpRequest.AnyKey | src/HttpServerWinRT/HttpServerWinRT/HttpRequest.cs:83-95 | true exactly when some pair's key satisfies the test |
| HttpRequest.WhereKey | src/HttpServerWinRT/HttpServerWinRT/HttpRequest.cs:97-114 | every value yielded belongs to a pair whose key satisfies the test |
| HttpRequest.AnyBy | src/HttpServerWinRT/HttpServerWinRT/HttpRequest.cs:83-88 | false on a null list; otherwise true exactly when some pair's key satisfies the predicate |
| HttpRequest.Any | src/HttpServerWinRT/HttpServerWinRT/HttpRequest.cs:90-95 | true exactly when some pair's key equals the key, ignoring ASCII case |
| HttpRequest.WhereBy | src/HttpServerWinRT/HttpServerWinRT/HttpRequest.cs:97-104 | nothing on a null list; every value yielded belongs to a pair whose key satisfies the predicate |
| HttpRequest.Where | src/HttpServerWinRT/HttpServerWinRT/HttpRequest.cs:107-114 | at most one value per pair, each from a pair whose key equals the key, ignoring ASCII case |
| HttpRequest.SingleScan | src/HttpServerWinRT/HttpServerWinRT/HttpRequest.cs:121 | it fails only with the two-match error, returns the match seen when no pair matches, and anything else it returns is a matching pair of the list |
| HttpRequest.SingleOrDefault | src/HttpServerWinRT/HttpServerWinRT/HttpRequest.cs:116-125 | it fails only with the two-match error, is null when no key matches, and a value it returns comes from a matching pair |
| HttpRequest.AnyKeyIffWhereKey | src/HttpServerWinRT/HttpServerWinRT/HttpRequest.cs:83-114 | `Any` holds exactly when `Where` yields something, for every key test |
| HttpRequest.AnyIffWhere | src/HttpServerWinRT/HttpServerWinRT/HttpRequest.cs:90-114 | `Any(key)` holds exactly when `Where(key)` is non-empty |
| HttpRequest.WhereKeyAppend | src/HttpServerWinRT/HttpServerWinRT/HttpRequest.cs:102-113 | `Where` keeps source order: the matches of a concatenation are the matches of each part |
| HttpRequest.SingleScanCounts | src/HttpServerWinRT/HttpServerWinRT/HttpRequest.cs:121 | the scan fails on a second match and otherwise returns the single match, or nothing |
| HttpRequest.SingleOrDefaultByWhere | src/HttpServerWinRT/HttpServerWinRT/HttpRequest.cs:116-125 | null for no match, the value for one match, an error for two or more |
| HttpRequest.NoPairsNoMatch | src/HttpServerWinRT/HttpServerWinRT/HttpRequest.cs:85-119 | a null or empty list: `Any` is false, `Where` yields nothing, `SingleOrDefault` is null |
| HttpRequest.SegmentWithoutValue | src/HttpServerWinRT/HttpServerWinRT/HttpRequest.cs:135-138 | a segment with no `=` gets a null value |
| HttpRequest.SegmentWithValue | src/HttpServerWinRT/HttpServerWinRT/HttpRequest.cs:135-138 | the key is the text before the first `=` and the value the decoding of the text up to the second; the rest is dropped |
| HttpRequest.ParseJoined | src/HttpServerWinRT/HttpServerWinRT/HttpRequest.cs:131-140 | segments without `&`, joined with `&`, parse to one pair per non-empty segment, in order, duplicates kept; empty segments give nothing |
| HttpRequest.ParseJoinedNonEmpty | src/HttpServerWinRT/HttpServerWinRT/HttpRequest.cs:131-140 | with no empty segment, one pair per segment |
| HttpRequest.EmptySegmentSkipped | src/HttpServerWinRT/HttpServerWinRT/HttpRequest.cs:131-140 | `k1=v1&&k2=v2` gives exactly two pairs: the empty segment is dropped |
| HttpRequest.ParseThree | src/HttpServerWinRT/HttpServerWinRT/HttpRequest.cs:131-140 | three `key=value` segments parse to three pairs, in order |
| HttpRequest.WhereExample | src/HttpServerWinRT/HttpServerWinRT/HttpRequest.cs:107-140 | `a=1&b=2&a=3` looked up with `a` yields the decodings of `1` and `3`, in that order |
| HttpRequest.ParseRequestLine | src/HttpServerWinRT/HttpServerWinRT/HttpRequest.cs:63-76 | on success: the raw line is kept; the method is the one named by the first token; the line is that token, a space and the target, followed by a space or the end, so the target is the second token; the path is the target's text before its first `?`; the parameters are null exactly when the target has no `?` |
| HttpRequest.RequestLineTokens | src/HttpServerWinRT/HttpServerWinRT/HttpRequest.cs:63-72 | for `METHOD target version`: the method, the raw target, the whole line, and the path before the first `?` |
| HttpRequest.RequestLineTwoTokens | src/HttpServerWinRT/HttpServerWinRT/HttpRequest.cs:63-72 | `METHOD target` without a version parses too: the method, the raw line, the target, and the path before the first `?` |
| HttpRequest.RequestLineWithoutQuery | src/HttpServerWinRT/HttpServerWinRT/HttpRequest.cs:66-125 | a target without `?`: the path is the target, the parameters are null, `Any` is false, `Where` is empty, `SingleOrDefault` is null |
| HttpRequest.QueryParts | src/HttpServerWinRT/HttpServerWinRT/HttpRequest.cs:66-72 | the target split on `?` gives the path, then the text up to the second `?` |
| HttpRequest.RequestLineWithQuery | src/HttpServerWinRT/HttpServerWinRT/HttpRequest.cs:66-75 | only the text between the first and second `?` is parsed as the query |
| HttpRequest.RequestLineNeedsSpace | src/HttpServerWinRT/HttpServerWinRT/HttpRequest.cs:65-66 | the line fails on the missing second token exactly when it has no space, before the method is looked at |
| HttpRequest.RequestLineUnknownMethod | src/HttpServerWinRT/HttpServerWinRT/HttpRequest.cs:69 | an unknown first token fails with "Unknown HTTP method" |
| HttpRequest.AddHeaderLine | src/HttpServerWinRT/HttpServerWinRT/HttpRequest.cs:38-40 | a successful turn keeps every name and value already present |
| HttpRequest.HeaderLoop | src/HttpServerWinRT/HttpServerWinRT/HttpRequest.cs:36-42 | the loop keeps the reader valid and never drops or changes an entry already added |
| HttpRequest.ReadHeaders | src/HttpServerWinRT/HttpServerWinRT/HttpRequest.cs:34-42 | reading the headers keeps the reader valid |
| HttpRequest.AddHeaderLines | src/HttpServerWinRT/HttpServerWinRT/HttpRequest.cs:36-42 | the loop's steps over lines already read keep every name and value already present |
| HttpRequest.AddHeaderLinesAppend | src/HttpServerWinRT/HttpServerWinRT/HttpRequest.cs:36-42 | the loop over two runs of lines is the loop over the first, then the second |
| HttpRequest.HeaderLoopReadsLines | src/HttpServerWinRT/HttpServerWinRT/HttpRequest.cs:36-42 | from a non-empty line, over a reader that then returns the non-empty lines `ls` and the empty line, the loop gives what `AddHeaderLines` gives for that line and `ls`, and on success stops just after the empty line |
| HttpRequest.ReadHeadersReadsLines | src/HttpServerWinRT/HttpServerWinRT/HttpRequest.cs:34-42 | over a reader that returns the non-empty lines `ls` and then the empty line, `ReadHeaders` gives what `AddHeaderLines` gives for `ls`, and on success stops just after the empty line |
| HttpRequest.EmptyLineEndsHeaders | src/HttpServerWinRT/HttpServerWinRT/HttpRequest.cs:35-36 | an empty first header line ends the loop with an empty dictionary |
| HttpRequest.SplitHeaderLine | src/HttpServerWinRT/HttpServerWinRT/HttpRequest.cs:38 | a name without `": "` is the first piece of its line |
| HttpRequest.HeaderLineAdds | src/HttpServerWinRT/HttpServerWinRT/HttpRequest.cs:38-40 | `name: value` with a new name adds exactly that entry |
| HttpRequest.HeaderLineDuplicate | src/HttpServerWinRT/HttpServerWinRT/HttpRequest.cs:40 | an exact-case duplicate name fails at `Add` |
| HttpRequest.HeaderValueWithSeparatorDropped | src/HttpServerWinRT/HttpServerWinRT/HttpRequest.cs:38-39 | a value holding `": "` gives three or more parts, so the line is dropped |
| HttpRequest.HeaderLineWithoutSeparatorDropped | src/HttpServerWinRT/HttpServerWinRT/HttpRequest.cs:38-39 | a line without `": "` is dropped |
| HttpRequest.ReadHeaderLines | src/HttpServerWinRT/HttpServerWinRT/HttpRequest.cs:34-42 | the in-place header loop gives the result and reader state of `ReadHeaders` |
| HttpRequest.ContainsHeader | src/HttpServerWinRT/HttpServerWinRT/HttpRequest.cs:17-21 | true exactly when some key of the dictionary is, case-sensitively, the wire name of the header |
| HttpRequest.GetHeader | src/HttpServerWinRT/HttpServerWinRT/HttpRequest.cs:17-27 | a value exactly when `ContainsHeader`, and then the value stored under the wire name |
| HttpRequest.TextBody | src/HttpServerWinRT/HttpServerWinRT/HttpRequest.cs:179-186 | the body is empty exactly for the empty text, otherwise the text itself |
| HttpRequest.ReadBody | src/HttpServerWinRT/HttpServerWinRT/HttpRequest.cs:44-49 | the body decision keeps the reader valid |
| HttpRequest.BodylessMethods | src/HttpServerWinRT/HttpServerWinRT/HttpRequest.cs:45-46 | GET and OPTIONS give `Empty` and leave the stream untouched |
| HttpRequest.MultipartBodyKeepsStream | src/HttpServerWinRT/HttpServerWinRT/HttpRequest.cs:47-48 | a multipart content type hands the unread stream to the multipart parser |
| HttpRequest.TextBodyReadsToEnd | src/HttpServerWinRT/HttpServerWinRT/HttpRequest.cs:47-186 | otherwise the stream is read to its end, and the body is `Empty` exactly when that text is empty and `Text` of it otherwise |
| HttpRequest.Match | src/HttpServerWinRT/HttpServerWinRT/HttpRequest.cs:211-224 | the result is that of the case function of the stored tag, applied to the stored text or form |
| HttpRequest.MatchRebuilds | src/HttpServerWinRT/HttpServerWinRT/HttpRequest.cs:211-224 | `Match` calls exactly the case of the stored tag |
| HttpRequest.ParseRequest | src/HttpServerWinRT/HttpServerWinRT/HttpRequest.cs:29-52 | parsing a request keeps the reader valid |
| HttpRequest.Create | src/HttpServerWinRT/HttpServerWinRT/HttpRequest.cs:29-52 | the result and the reader state after it are those of `ParseRequest` on the reader state before |
| HttpResponse.EmittedLine | src/HttpServerWinRT/HttpResponse.cs:24-26 | a header adds nothing exactly when it is not written, and its line otherwise ends with CR LF |
| HttpResponse.HeaderLinesText | src/HttpServerWinRT/HttpResponse.cs:23-26 | the text is empty when no header is written, and otherwise ends with CR LF |
| HttpResponse.HeaderBlock | src/HttpServerWinRT/HttpResponse.cs:18-33 | the block starts with `HTTP/1.1 <status>` CR LF and ends with two CR LF |
| HttpResponse.HeaderLinesTextStep | src/HttpServerWinRT/HttpResponse.cs:23-26 | one more header adds its line, or nothing when its value is null or white space |
| HttpResponse.AppendHeaderLines | src/HttpServerWinRT/HttpResponse.cs:23-26 | the loop appends one line per header written, in argument order |
| HttpResponse.Response.constructor | src/HttpServerWinRT/HttpResponse.cs:13-16 | nothing has been written yet |
| HttpResponse.Response.WriteHeaders | src/HttpServerWinRT/HttpResponse.cs:18-33 | exactly one write is added, and it is the whole header block |
| HttpResponse.Response.WriteString | src/HttpServerWinRT/HttpResponse.cs:35-38 | the string is forwarded unchanged; nothing orders it after the headers |
| HttpResponse.Response.WriteBytes | src/HttpServerWinRT/HttpResponse.cs:40-43 | the bytes are forwarded unchanged |
| HttpResponse.TerminatedAppend | src/HttpServerWinRT/HttpResponse.cs:20-31 | terminated lines concatenate |
| HttpResponse.HeaderLinesAreTerminated | src/HttpServerWinRT/HttpResponse.cs:23-26 | the header text is the written lines, each followed by CR LF, in argument order |
| HttpResponse.HeaderBlockIsLines | src/HttpServerWinRT/HttpResponse.cs:20-31 | the block is the status line, the written headers and the default line when added, each followed by CR LF, then an empty line |
| HttpResponse.TerminatedEndsWithCrlf | src/HttpServerWinRT/HttpResponse.cs:20-31 | lines ended by CR LF end with CR LF |
| HttpResponse.OkWithoutHeaders | src/HttpServerWinRT/HttpResponse.cs:18-32 | OK with no headers, or a null list, is exactly `HTTP/1.1 200 OK` CR LF `Connection: close` CR LF CR LF |
| HttpResponse.NameWithoutSeparators | src/HttpServerWinRT/HttpServerWinRT/HttpUtil.cs:52-79 | header names hold neither CR LF nor `": "` |
| HttpResponse.HeaderTextOnOneLine | src/HttpServerWinRT/HttpResponse.cs:25-26 | a header line whose value has no CR LF has none |
| HttpResponse.EmittedLinesOnOneLine | src/HttpServerWinRT/HttpResponse.cs:23-26 | with values free of CR LF, no written line holds CR LF |
| HttpResponse.StatusLineOnOneLine | src/HttpServerWinRT/HttpResponse.cs:21 | the status line holds no CR LF |
| HttpResponse.SplitTerminated | src/HttpServerWinRT/HttpResponse.cs:20-31 | lines free of CR LF, each ended by CR LF, split back into those lines |
| HttpResponse.HeaderBlockSplit | src/HttpServerWinRT/HttpResponse.cs:18-33 | split on CR LF, the block is its lines followed by two empty pieces |
| HttpResponse.BlockLinesOnOneLine | src/HttpServerWinRT/HttpResponse.cs:20-29 | no line of the block holds CR LF when no value does |
| HttpResponse.SplitCrlf | src/HttpServerWinRT/HttpResponse.cs:31 | CR LF alone splits into two empty pieces |
| HttpResponse.HeaderMap | src/HttpServerWinRT/HttpResponse.cs:23-26 | every name in the dictionary of the written headers is the wire name of a header that is written |
| HttpResponse.HeaderMapHas | src/HttpServerWinRT/HttpResponse.cs:23-26 | with distinct names, each header written is in the dictionary with its value |
| HttpResponse.NameNotInMap | src/HttpServerWinRT/HttpResponse.cs:23-26 | a name no header carries is not in the dictionary |
| HttpResponse.DefaultConnectionReadsBack | src/HttpServerWinRT/HttpResponse.cs:29 | read by the request parser, the default line adds `Connection` with `close` |
| HttpResponse.EmittedLinesReadBack | src/HttpServerWinRT/HttpResponse.cs:23-26 | `AddHeaderLines` turns the written lines into the dictionary of the written headers |
| HttpResponse.HeaderBlockReadsBack | src/HttpServerWinRT/HttpResponse.cs:18-33 | split on CR LF, the block is the status line, then lines that `AddHeaderLines` turns into the written headers plus `Connection: close` when there is no Connection header, then two empty pieces |
| HttpResponse.HeaderBlockParsed | src/HttpServerWinRT/HttpResponse.cs:18-33 | `ReadHeaders` over a reader that returns the block's header lines and then the empty line gives the written headers, plus `Connection: close` when the default was added, and stops just after the empty line |
| HttpResponse.ConnectionReadBack | src/HttpServerWinRT/HttpResponse.cs:24-29 | a Connection header always suppresses the default, so a Connection entry is read back exactly when its value is not white space |
| HttpWinRTServer.FirstMatch | src/HttpServerWinRT/HttpServerWinRT/HttpWinRTServer.cs:55 | the index found is the first entry whose key occurs in the path; none means no key occurs |
| HttpWinRTServer.SelectController | src/HttpServerWinRT/HttpServerWinRT/HttpWinRTServer.cs:53-56 | the controller chosen is the default or one of the routes' controllers |
| HttpWinRTServer.Route | src/HttpServerWinRT/HttpServerWinRT/HttpWinRTServer.cs:53-56 | the controller of a parsed request is the default or a route's controller, and the default when no key occurs in the lower-cased path |
| HttpWinRTServer.FirstMatchIsFound | src/HttpServerWinRT/HttpServerWinRT/HttpWinRTServer.cs:55 | the first entry whose key occurs in the path is the one found |
| HttpWinRTServer.SelectFirstMatch | src/HttpServerWinRT/HttpServerWinRT/HttpWinRTServer.cs:53-56 | the first entry whose key occurs in the lower-cased path decides: its controller, or the default when it is null |
| HttpWinRTServer.SelectNoMatch | src/HttpServerWinRT/HttpServerWinRT/HttpWinRTServer.cs:56 | with no key in the path the default is used |
| HttpWinRTServer.SelectNullShadowsLater | src/HttpServerWinRT/HttpServerWinRT/HttpWinRTServer.cs:55-56 | a null first match gives the default even when a later entry with a controller also matches |
| HttpWinRTServer.UpperKeyNeverMatches | src/HttpServerWinRT/HttpServerWinRT/HttpWinRTServer.cs:19-55 | a key with an upper-case ASCII letter never occurs in the lower-cased path |
| HttpWinRTServer.SelectSkipsUpperKeys | src/HttpServerWinRT/HttpServerWinRT/HttpWinRTServer.cs:19-55 | the entry chosen never has an upper-case letter in its key |
| HttpWinRTServer.EmptyKeyOccurs | src/HttpServerWinRT/HttpServerWinRT/HttpWinRTServer.cs:55 | the empty key occurs in every path |
| HttpWinRTServer.EmptyKeyCatchesAll | src/HttpServerWinRT/HttpServerWinRT/HttpWinRTServer.cs:55 | an empty key matches every path, so no entry after it is consulted |
| HttpWinRTServer.RouteIgnoresQuery | src/HttpServerWinRT/HttpServerWinRT/HttpWinRTServer.cs:53 | `path?query` is routed exactly like `path` |
| HttpWinRTServer.StaticRouteExample | src/HttpServerWinRT/HttpServerWinRT/HttpWinRTServer.cs:53-56 | with routes `api` and `static`, `/Static/x.css` goes to the `static` controller |

## Left out

- `StreamWriterAsync`, a thin wrapper over `DataWriter`, is replaced by the `sink` sequence of `Response`.
- The socket listener, `Start`, `Dispose`, the `async void` handler, its `using` blocks and its exception logging are not modelled. They are network and event plumbing. Only the controller-selection expression of `ProcessRequestAsync` is modelled; running the controller is foreign code.
- The static-file controller and `HttpUtil.GetMimeType` are not modelled: they do file I/O and use culture-sensitive lower-casing.
- The interface declarations in `HttpStreams.cs` have no behaviour and are not modelled.
- `MultipartFormDataParser.CreateAsync` is an external library. The multipart body holds the reader as it is handed to the parser; how far the parser reads is not modelled.
- UTF-8 decoding is a parameter. Decoding is per fill, as in the source, so a multi-byte character split across fills is not treated specially.
- URL decoding is a parameter and is taken to be total; exceptions from `WebUtility.UrlDecode` are not modelled.
- `async`/`Task` awaiting is not modelled: each operation is one sequential call.
- HttpWinRTStreams.StreamReaderAsync.ReadLine: a refill that returns no bytes gives the explicit error `EmptyRefill`. The source computes `buffer.Length - 1` on a `uint` there and then fails reading the empty buffer; that wrap-around is not reproduced.
- Exceptions become `Failure` values of `HttpRequest.RequestError`. This covers the index error on a missing second request-line token, the unknown method, a duplicate header and two matches in `SingleOrDefault`. The exception types are not kept.
- The `void` overload of `HttpRequestBody.Match` is not modelled separately; it is the `Match<T>` overload with actions for cases.
- The `default` branches of the enum switches are left out: they throw only for values that are not declared enumerants, and every Dafny value of the enum is declared.
- `ToLower` and `OrdinalIgnoreCase` fold ASCII letters only.
- The controllers dictionary is modelled as a list in its enumeration order; the order a .NET `Dictionary` enumerates in is taken as given.
- HttpResponse.HeaderBlockParsed: it takes as given that the reader returns the block's lines one `ReadLine` at a time. That a reader holding the block's bytes does so is not proved: it depends on the UTF-8 decoder, which is a parameter, and on where the fills break, since a CR LF split across fills is not a line end.
- HttpUtil.FromHttpHeaderToString: its contract states only that a name is non-empty. The per-character facts are in `HeaderNameChars` and the injectivity in `HeaderNameInjective`.
