/**
  The response side: the header block `WriteHeadersAsync` builds from a status
  and an ordered header list, and the output sink that it, `WriteStringAsync`
  and `WriteBytesAsync` append to.
*/
module HttpResponse {
  import opened Wrappers
  import opened Text
  import opened HttpUtil
  import opened HttpRequest
  import opened LineReader

  /** A `Tuple<HttpHeader, string>` argument; `None` is a null value. */
  datatype Header = Header(name: HttpHeader, value: Option<string>)

  /** One call on the output stream. */
  datatype Write = WroteString(text: string) | WroteBytes(bytes: seq<byte>)

  const Crlf := "\r\n"
  const DefaultConnection := "Connection: close"

  /** `HTTP/1.1 <code> <reason>`, without its line end. */
  function StatusLine(status: HttpStatus): string {
    "HTTP/1.1 " + FromHttpStatusToString(status)
  }

  /** The `Where` filter: a header is written only when its value is not null or white space. */
  predicate Emitted(h: Header) {
    !IsNullOrWhiteSpace(h.value)
  }

  /** `Name: Value`, without its line end. */
  function HeaderText(h: Header): string
    requires Emitted(h)
  {
    FromHttpHeaderToString(h.name) + HeaderSeparator + h.value.value
  }

  /** `s` ends with a line end. */
  predicate EndsWithCrlf(s: string) {
    |s| >= 2 && s[|s| - 2..] == Crlf
  }

  /** Text ending with a line end, or nothing, still does after more such text. */
  lemma EndsWithCrlfAppend(a: string, b: string)
    requires a == "" || EndsWithCrlf(a)
    requires b == "" || EndsWithCrlf(b)
    ensures a + b == "" || EndsWithCrlf(a + b)
  {
    if b == "" {
      assert a + b == a;
    } else {
      assert (a + b)[|a + b| - 2..] == b[|b| - 2..];
    }
  }

  /** What one turn of the `foreach` appends. */
  function EmittedLine(h: Header): (line: string)
    ensures line == "" <==> !Emitted(h)
    ensures line == "" || EndsWithCrlf(line)
  {
    if Emitted(h) then HeaderText(h) + Crlf else ""
  }

  /** The text the `foreach` loop appends, one turn per header, in argument order. */
  function HeaderLinesText(hs: seq<Header>): (text: string)
    ensures (forall i :: 0 <= i < |hs| ==> !Emitted(hs[i])) ==> text == ""
    ensures text == "" || EndsWithCrlf(text)
  {
    if hs == [] then ""
    else
      var init := HeaderLinesText(hs[..|hs| - 1]);
      EndsWithCrlfAppend(init, EmittedLine(hs[|hs| - 1]));
      init + EmittedLine(hs[|hs| - 1])
  }

  /** `headers.Any(h => h.Item1 == HttpHeader.Connection)`, whatever the value. */
  predicate HasConnection(hs: seq<Header>) {
    exists i :: 0 <= i < |hs| && hs[i].name == Connection
  }

  /** `Connection: close` is added for a null list and for a list without a Connection header. */
  predicate AddsDefault(headers: Option<seq<Header>>) {
    headers.None? || !HasConnection(headers.value)
  }

  /**
    The text of the single `WriteStringAsync` call of `WriteHeadersAsync`. It
    begins with the status line and ends with an empty line.
  */
  function HeaderBlock(status: HttpStatus, headers: Option<seq<Header>>): (block: string)
    ensures |block| >= |StatusLine(status)| + 4
    ensures block[..|StatusLine(status)| + 2] == StatusLine(status) + Crlf
    ensures block[|block| - 4..] == Crlf + Crlf
  {
    var first := StatusLine(status) + Crlf;
    var text := if headers.Some? then HeaderLinesText(headers.value) else "";
    var default := if AddsDefault(headers) then DefaultConnection + Crlf else "";
    EndsWithCrlfAppend(text, default);
    BlockFrame(first, text + default);
    ConcatAssoc(first, text, default);
    first + text + default + Crlf
  }

  /** A first line, then lines that are empty or end with a line end, then an empty line. */
  lemma BlockFrame(first: string, lines: string)
    requires EndsWithCrlf(first)
    requires lines == "" || EndsWithCrlf(lines)
    ensures var s := first + lines + Crlf;
      |s| >= |first| + 2 && s[..|first|] == first && s[|s| - 4..] == Crlf + Crlf
  {
    var s := first + lines + Crlf;
    assert s == first + (lines + Crlf);
    PrefixOf(first, lines + Crlf);
    EndsWithCrlfAppend(first, lines);
    EndsAfterCrlf(first + lines);
  }

  lemma HeaderLinesTextStep(hs: seq<Header>, i: nat)
    requires i < |hs|
    ensures HeaderLinesText(hs[..i + 1]) == HeaderLinesText(hs[..i]) + EmittedLine(hs[i])
  {
    assert hs[..i + 1][..i] == hs[..i];
  }

  /** The `foreach` loop of `WriteHeadersAsync`: append `Name: Value` CR LF for each header written. */
  method AppendHeaderLines(builder: string, hs: seq<Header>) returns (result: string)
    ensures result == builder + HeaderLinesText(hs)
  {
    result := builder;
    for i := 0 to |hs|
      invariant result == builder + HeaderLinesText(hs[..i])
    {
      HeaderLinesTextStep(hs, i);
      ConcatAssoc(builder, HeaderLinesText(hs[..i]), EmittedLine(hs[i]));
      if Emitted(hs[i]) {
        result := result + (HeaderText(hs[i]) + Crlf);
      }
    }
    assert hs[..|hs|] == hs;
  }

  /** `HttpResponse` over its output stream: the sink is every write so far, in order. */
  class Response {
    var sink: seq<Write>

    constructor ()
      ensures sink == []
    {
      sink := [];
    }

    /** `WriteHeadersAsync`: build the block in a string builder, then write it in one call. */
    method WriteHeaders(status: HttpStatus, headers: Option<seq<Header>>)
      modifies this
      ensures sink == old(sink) + [WroteString(HeaderBlock(status, headers))]
    {
      var builder := StatusLine(status) + Crlf;
      ghost var first := builder;
      ghost var lines := if headers.Some? then HeaderLinesText(headers.value) else "";
      ghost var default := if AddsDefault(headers) then DefaultConnection + Crlf else "";
      if headers.Some? {
        builder := AppendHeaderLines(builder, headers.value);
      } else {
        assert builder == first + lines;
      }
      if headers.None? || !HasConnection(headers.value) {
        builder := builder + (DefaultConnection + Crlf);
      } else {
        assert builder == first + lines + default;
      }
      builder := builder + Crlf;
      assert builder == first + lines + default + Crlf;
      sink := sink + [WroteString(builder)];
    }

    /** `WriteStringAsync`: forwarded unchanged; nothing orders it after the headers. */
    method WriteString(str: string)
      modifies this
      ensures sink == old(sink) + [WroteString(str)]
    {
      sink := sink + [WroteString(str)];
    }

    /** `WriteBytesAsync`: the array's bytes, forwarded unchanged. */
    method WriteBytes(bytes: array<byte>)
      modifies this
      ensures sink == old(sink) + [WroteBytes(bytes[..])]
    {
      sink := sink + [WroteBytes(bytes[..])];
    }
  }

  // ---------------------------------------------------------------------------
  // The block as a list of lines

  /** The header lines written, without line ends, in argument order. */
  function EmittedLines(hs: seq<Header>): (lines: seq<string>)
    ensures |lines| <= |hs|
  {
    if hs == [] then []
    else EmittedLines(hs[..|hs| - 1]) + (if Emitted(hs[|hs| - 1]) then [HeaderText(hs[|hs| - 1])] else [])
  }

  /** Lines, each followed by CR LF. */
  function Terminated(lines: seq<string>): string {
    if lines == [] then "" else lines[0] + Crlf + Terminated(lines[1..])
  }

  /** The status line, the written headers, then the default Connection line when it is added. */
  function BlockLines(status: HttpStatus, headers: Option<seq<Header>>): seq<string> {
    [StatusLine(status)]
    + (if headers.Some? then EmittedLines(headers.value) else [])
    + (if AddsDefault(headers) then [DefaultConnection] else [])
  }

  lemma {:induction false} TerminatedAppend(a: seq<string>, b: seq<string>)
    ensures Terminated(a + b) == Terminated(a) + Terminated(b)
  {
    if a == [] {
      assert a + b == b;
    } else {
      TerminatedAppend(a[1..], b);
      assert (a + b)[0] == a[0] && (a + b)[1..] == a[1..] + b;
      ConcatAssoc(a[0] + Crlf, Terminated(a[1..]), Terminated(b));
    }
  }

  lemma {:induction false} HeaderLinesAreTerminated(hs: seq<Header>)
    ensures HeaderLinesText(hs) == Terminated(EmittedLines(hs))
  {
    if hs != [] {
      var init, last := hs[..|hs| - 1], hs[|hs| - 1];
      HeaderLinesAreTerminated(init);
      var tail := if Emitted(last) then [HeaderText(last)] else [];
      TerminatedAppend(EmittedLines(init), tail);
      if Emitted(last) {
        assert Terminated(tail) == HeaderText(last) + Crlf + Terminated([]);
      }
    }
  }

  /** The block is exactly its lines, each with CR LF, followed by one empty line. */
  lemma HeaderBlockIsLines(status: HttpStatus, headers: Option<seq<Header>>)
    ensures HeaderBlock(status, headers) == Terminated(BlockLines(status, headers)) + Crlf
  {
    var first := [StatusLine(status)];
    var middle := if headers.Some? then EmittedLines(headers.value) else [];
    var last := if AddsDefault(headers) then [DefaultConnection] else [];
    if headers.Some? {
      HeaderLinesAreTerminated(headers.value);
    }
    TerminatedAppend(first, middle);
    TerminatedAppend(first + middle, last);
    assert Terminated(first) == StatusLine(status) + Crlf + Terminated([]);
    if AddsDefault(headers) {
      assert Terminated(last) == DefaultConnection + Crlf + Terminated([]);
    }
  }

  lemma PrefixOf(a: string, b: string)
    ensures (a + b)[..|a|] == a
  {
  }

  lemma EndsAfterCrlf(t: string)
    requires |t| >= 2 && t[|t| - 2..] == Crlf
    ensures var s := t + Crlf; |s| >= 4 && s[|s| - 4..] == Crlf + Crlf
  {
    var s := t + Crlf;
    assert s[|s| - 4..] == t[|t| - 2..] + Crlf;
  }

  lemma {:induction false} TerminatedEndsWithCrlf(lines: seq<string>)
    requires lines != []
    ensures var t := Terminated(lines); |t| >= 2 && t[|t| - 2..] == Crlf
  {
    if lines[1..] != [] {
      TerminatedEndsWithCrlf(lines[1..]);
    }
  }

  /** OK with no headers: exactly the status line, the default Connection line and the empty line. */
  lemma OkWithoutHeaders()
    ensures HeaderBlock(OK, Some([])) == "HTTP/1.1 200 OK\r\nConnection: close\r\n\r\n"
    ensures HeaderBlock(OK, None) == "HTTP/1.1 200 OK\r\nConnection: close\r\n\r\n"
  {
    assert !HasConnection([]);
  }

  // ---------------------------------------------------------------------------
  // Reading the block back with the request's header parser

  /** No value that is written holds CR LF, so every header stays on its own line. */
  predicate ValuesOnOneLine(hs: seq<Header>) {
    forall i :: 0 <= i < |hs| && Emitted(hs[i]) ==> !Contains(hs[i].value.value, Crlf)
  }

  /** No value that is written holds `": "`, so the request parser keeps every line. */
  predicate ValuesWithoutSeparator(hs: seq<Header>) {
    forall i :: 0 <= i < |hs| && Emitted(hs[i]) ==> !Contains(hs[i].value.value, HeaderSeparator)
  }

  predicate DistinctNames(hs: seq<Header>) {
    forall i, j :: 0 <= i < j < |hs| ==> hs[i].name != hs[j].name
  }

  lemma NameWithoutSeparators(h: HttpHeader)
    ensures !Contains(FromHttpHeaderToString(h), Crlf)
    ensures !Contains(FromHttpHeaderToString(h), HeaderSeparator)
    ensures |FromHttpHeaderToString(h)| > 0
  {
    var name := FromHttpHeaderToString(h);
    HeaderNameChars(h);
    assert '\r' !in name;
    assert ' ' !in name;
    NotContainedWithout(name, Crlf, 0);
    NotContainedWithout(name, HeaderSeparator, 1);
  }

  lemma HeaderTextOnOneLine(h: Header)
    requires Emitted(h) && !Contains(h.value.value, Crlf)
    ensures !Contains(HeaderText(h), Crlf)
  {
    var name := FromHttpHeaderToString(h.name);
    NameWithoutSeparators(h.name);
    NotContainedWithout(HeaderSeparator, Crlf, 0);
    ConcatNotContained(name, HeaderSeparator, Crlf);
    var prefix := name + HeaderSeparator;
    assert prefix[|prefix| - 1] == ' ';
    ConcatNotContained(prefix, h.value.value, Crlf);
  }

  lemma {:induction false} EmittedLinesOnOneLine(hs: seq<Header>)
    requires ValuesOnOneLine(hs)
    ensures forall i :: 0 <= i < |EmittedLines(hs)| ==> !Contains(EmittedLines(hs)[i], Crlf)
  {
    if hs != [] {
      var init, last := hs[..|hs| - 1], hs[|hs| - 1];
      EmittedLinesOnOneLine(init);
      if Emitted(last) {
        HeaderTextOnOneLine(last);
      }
    }
  }

  lemma StatusLineOnOneLine(status: HttpStatus)
    ensures !Contains(StatusLine(status), Crlf)
  {
    var s := StatusLine(status);
    StatusTextChars(status);
    forall i | 0 <= i < |s|
      ensures s[i] != '\r'
    {
      if i >= 9 {
        assert s[i] == FromHttpStatusToString(status)[i - 9];
      }
    }
    NotContainedWithout(s, Crlf, 0);
  }

  lemma TerminatedCons(lines: seq<string>, rest: string)
    requires lines != []
    ensures Terminated(lines) + rest == lines[0] + Crlf + (Terminated(lines[1..]) + rest)
  {
    ConcatAssoc(lines[0] + Crlf, Terminated(lines[1..]), rest);
  }

  lemma TerminatedStep(head: string, tail: seq<string>, rest: string)
    requires !Contains(head, Crlf)
    requires SplitOn(Terminated(tail) + rest, Crlf) == tail + SplitOn(rest, Crlf)
    ensures SplitOn(Terminated([head] + tail) + rest, Crlf) == [head] + tail + SplitOn(rest, Crlf)
  {
    var lines := [head] + tail;
    assert lines[0] == head && lines[1..] == tail;
    TerminatedCons(lines, rest);
    SplitOnPair(head, Crlf, Terminated(tail) + rest);
    ConcatAssoc([head], tail, SplitOn(rest, Crlf));
  }

  /** Lines free of CR LF, each ended by CR LF and followed by `rest`, split back into those lines. */
  lemma {:induction false} SplitTerminated(lines: seq<string>, rest: string)
    requires forall i :: 0 <= i < |lines| ==> !Contains(lines[i], Crlf)
    ensures SplitOn(Terminated(lines) + rest, Crlf) == lines + SplitOn(rest, Crlf)
  {
    if lines != [] {
      SplitTerminated(lines[1..], rest);
      assert lines == [lines[0]] + lines[1..];
      TerminatedStep(lines[0], lines[1..], rest);
    } else {
      assert Terminated(lines) + rest == rest;
    }
  }

  /**
    Split at CR LF, the block is its lines followed by two empty pieces: the
    empty line that ends the block and the nothing after it.
  */
  lemma HeaderBlockSplit(status: HttpStatus, headers: Option<seq<Header>>)
    requires headers.Some? ==> ValuesOnOneLine(headers.value)
    ensures SplitOn(HeaderBlock(status, headers), Crlf) == BlockLines(status, headers) + ["", ""]
  {
    var lines := BlockLines(status, headers);
    HeaderBlockIsLines(status, headers);
    BlockLinesOnOneLine(status, headers);
    SplitTerminated(lines, Crlf);
    SplitCrlf();
  }

  lemma BlockLinesOnOneLine(status: HttpStatus, headers: Option<seq<Header>>)
    requires headers.Some? ==> ValuesOnOneLine(headers.value)
    ensures var lines := BlockLines(status, headers);
      forall i :: 0 <= i < |lines| ==> !Contains(lines[i], Crlf)
  {
    var first := [StatusLine(status)];
    var middle := if headers.Some? then EmittedLines(headers.value) else [];
    var last := if AddsDefault(headers) then [DefaultConnection] else [];
    StatusLineOnOneLine(status);
    if headers.Some? {
      EmittedLinesOnOneLine(headers.value);
    }
    NotContainedWithout(DefaultConnection, Crlf, 0);
    LinesAppendOnOneLine(first, middle);
    LinesAppendOnOneLine(first + middle, last);
  }

  /** Lists of lines free of CR LF stay free of it when joined. */
  lemma LinesAppendOnOneLine(a: seq<string>, b: seq<string>)
    requires forall i :: 0 <= i < |a| ==> !Contains(a[i], Crlf)
    requires forall i :: 0 <= i < |b| ==> !Contains(b[i], Crlf)
    ensures forall i :: 0 <= i < |a + b| ==> !Contains((a + b)[i], Crlf)
  {
    forall i | 0 <= i < |a + b|
      ensures !Contains((a + b)[i], Crlf)
    {
      if i < |a| {
        assert (a + b)[i] == a[i];
      } else {
        assert (a + b)[i] == b[i - |a|];
      }
    }
  }

  /** CR LF alone splits into two empty pieces. */
  lemma SplitCrlf()
    ensures SplitOn(Crlf, Crlf) == ["", ""]
  {
    var empty := "";
    assert Crlf == empty + Crlf + empty;
    SplitOnPair(empty, Crlf, empty);
    SplitOnAbsent(empty, Crlf);
  }

  /** The dictionary the written headers describe: each written name with its value. */
  function HeaderMap(hs: seq<Header>): (m: map<string, string>)
    ensures forall k :: k in m ==> exists i :: 0 <= i < |hs| && Emitted(hs[i]) && FromHttpHeaderToString(hs[i].name) == k
  {
    if hs == [] then map[]
    else
      var init, last := hs[..|hs| - 1], hs[|hs| - 1];
      var m := HeaderMap(init);
      assert forall i :: 0 <= i < |init| ==> init[i] == hs[i];
      if Emitted(last) then m[FromHttpHeaderToString(last.name) := last.value.value] else m
  }

  /** A header that is written is in the dictionary with its value. */
  lemma {:induction false} HeaderMapHas(hs: seq<Header>, i: nat)
    requires DistinctNames(hs) && i < |hs| && Emitted(hs[i])
    ensures FromHttpHeaderToString(hs[i].name) in HeaderMap(hs)
    ensures HeaderMap(hs)[FromHttpHeaderToString(hs[i].name)] == hs[i].value.value
  {
    var init, last := hs[..|hs| - 1], hs[|hs| - 1];
    if i < |hs| - 1 {
      assert init[i] == hs[i];
      HeaderMapHas(init, i);
      if Emitted(last) && FromHttpHeaderToString(last.name) == FromHttpHeaderToString(hs[i].name) {
        HeaderNameInjective(last.name, hs[i].name);
      }
    }
  }

  /** A header name that no header of the list carries is not in its dictionary. */
  lemma NameNotInMap(hs: seq<Header>, h: HttpHeader)
    requires forall i :: 0 <= i < |hs| ==> hs[i].name != h
    ensures FromHttpHeaderToString(h) !in HeaderMap(hs)
  {
    forall i | 0 <= i < |hs|
      ensures FromHttpHeaderToString(hs[i].name) != FromHttpHeaderToString(h)
    {
      if FromHttpHeaderToString(hs[i].name) == FromHttpHeaderToString(h) {
        HeaderNameInjective(hs[i].name, h);
      }
    }
  }

  /** The default line, read by the request parser, adds `Connection` with `close`. */
  lemma DefaultConnectionReadsBack(headers: map<string, string>)
    requires "Connection" !in headers
    ensures AddHeaderLine(headers, DefaultConnection) == Success(headers["Connection" := "close"])
  {
    var name, value := "Connection", "close";
    assert DefaultConnection == name + HeaderSeparator + value;
    NotContainedWithout(name, HeaderSeparator, 1);
    NotContainedWithout(value, HeaderSeparator, 1);
    HeaderLineAdds(headers, name, value);
  }

  /** Read back line by line, the written headers give their dictionary. */
  lemma {:induction false} EmittedLinesReadBack(hs: seq<Header>)
    requires DistinctNames(hs) && ValuesWithoutSeparator(hs)
    ensures AddHeaderLines(map[], EmittedLines(hs)) == Success(HeaderMap(hs))
  {
    if hs != [] {
      var init, last := hs[..|hs| - 1], hs[|hs| - 1];
      EmittedLinesReadBack(init);
      var tail := if Emitted(last) then [HeaderText(last)] else [];
      AddHeaderLinesAppend(map[], EmittedLines(init), tail);
      if Emitted(last) {
        var name := FromHttpHeaderToString(last.name);
        NameWithoutSeparators(last.name);
        assert forall i :: 0 <= i < |init| ==> init[i] == hs[i];
        NameNotInMap(init, last.name);
        HeaderLineAdds(HeaderMap(init), name, last.value.value);
      }
    }
  }

  /**
    The request parser reads the lines of a written block back to the headers
    that were written, plus `Connection: close` when the default was added.
  */
  lemma HeaderBlockReadsBack(status: HttpStatus, hs: seq<Header>)
    requires DistinctNames(hs) && ValuesOnOneLine(hs) && ValuesWithoutSeparator(hs)
    ensures var lines := SplitOn(HeaderBlock(status, Some(hs)), Crlf);
      && |lines| >= 3 && lines[0] == StatusLine(status) && lines[|lines| - 2..] == ["", ""]
      && AddHeaderLines(map[], lines[1..|lines| - 2]) ==
           Success(if HasConnection(hs) then HeaderMap(hs) else HeaderMap(hs)["Connection" := "close"])
  {
    var first := [StatusLine(status)];
    var middle := EmittedLines(hs) + (if AddsDefault(Some(hs)) then [DefaultConnection] else []);
    HeaderBlockSplit(status, Some(hs));
    ConcatAssoc(first, EmittedLines(hs), if AddsDefault(Some(hs)) then [DefaultConnection] else []);
    MiddleOf(first, middle, ["", ""]);
    HeaderLinesReadBack(hs);
  }

  /**
    `ReadHeaders` over a reader that delivers the header lines of a written
    block one `ReadLine` at a time, then its empty line, gives the headers that
    were written, plus `Connection: close` when the default was added, and stops
    just after the empty line.
  */
  lemma HeaderBlockParsed(decode: Decoder, status: HttpStatus, hs: seq<Header>, r: Reader, last: Reader)
    requires DistinctNames(hs) && ValuesOnOneLine(hs) && ValuesWithoutSeparator(hs) && r.Valid()
    requires var lines := SplitOn(HeaderBlock(status, Some(hs)), Crlf);
      |lines| >= 3 && ReadsHeaderLines(decode, r, lines[1..|lines| - 2], last)
    ensures ReadHeaders(decode, r) ==
      (Success(if HasConnection(hs) then HeaderMap(hs) else HeaderMap(hs)["Connection" := "close"]), last)
  {
    var lines := SplitOn(HeaderBlock(status, Some(hs)), Crlf);
    HeaderBlockReadsBack(status, hs);
    ReadHeadersReadsLines(decode, r, lines[1..|lines| - 2], last);
  }

  /** Cutting `first` and `last` off `first + middle + last` leaves `middle`. */
  lemma MiddleOf<T>(first: seq<T>, middle: seq<T>, last: seq<T>)
    ensures var s := first + middle + last; s[|first|..|s| - |last|] == middle
  {
  }

  /** The header lines of a block, default line included, read back to the headers written. */
  lemma HeaderLinesReadBack(hs: seq<Header>)
    requires DistinctNames(hs) && ValuesWithoutSeparator(hs)
    ensures AddHeaderLines(map[], EmittedLines(hs) + (if AddsDefault(Some(hs)) then [DefaultConnection] else [])) ==
      Success(if HasConnection(hs) then HeaderMap(hs) else HeaderMap(hs)["Connection" := "close"])
  {
    var tail := if AddsDefault(Some(hs)) then [DefaultConnection] else [];
    EmittedLinesReadBack(hs);
    AddHeaderLinesAppend(map[], EmittedLines(hs), tail);
    if !HasConnection(hs) {
      NameNotInMap(hs, Connection);
      DefaultConnectionReadsBack(HeaderMap(hs));
      assert tail[1..] == [];
    }
  }

  /**
    Read back, the block has a Connection entry exactly when the default was
    added or a Connection header with a real value was written; a Connection
    header whose value is white space suppresses both.
  */
  lemma ConnectionReadBack(hs: seq<Header>, i: nat)
    requires DistinctNames(hs) && i < |hs| && hs[i].name == Connection
    ensures !AddsDefault(Some(hs))
    ensures "Connection" in HeaderMap(hs) <==> Emitted(hs[i])
  {
    assert HasConnection(hs);
    if Emitted(hs[i]) {
      HeaderMapHas(hs, i);
    } else {
      forall j | 0 <= j < |hs| && Emitted(hs[j])
        ensures FromHttpHeaderToString(hs[j].name) != "Connection"
      {
        if FromHttpHeaderToString(hs[j].name) == FromHttpHeaderToString(Connection) {
          HeaderNameInjective(hs[j].name, Connection);
        }
      }
    }
  }
}
