/**
  The buffered reader of `StreamReaderAsync` as a value: the current fill of the
  8192-byte buffer, the cursor into it, the `headersRead` flag, and the chunks the
  underlying input stream has yet to deliver (one chunk per `ReadAsync`, an empty
  read once they run out). `ReadLine`, `ReadToEnd` and `ReadBytes` give the result of
  each read operation and the reader it leaves behind; the class in
  `HttpWinRTStreams` is proved to compute exactly these.
*/
module LineReader {
  import opened Wrappers
  import opened Text

  /** `StreamReaderAsync.DefaultBufferSize`. */
  const Capacity: nat := 8192

  const CR: byte := 13
  const LF: byte := 10

  /** UTF-8 decoding (`Encoding.UTF8.GetString`), which is not modelled. */
  type Decoder = seq<byte> -> string

  /** A refill returned no bytes where `scanForNewLine` then needs one. */
  datatype ReadError = EmptyRefill

  /** Each chunk a partial `ReadAsync` can deliver: at least one byte and at most a buffer. */
  predicate ChunksFit(source: seq<seq<byte>>) {
    forall i :: 0 <= i < |source| ==> 0 < |source[i]| <= Capacity
  }

  datatype Reader = Reader(fill: seq<byte>, cursor: nat, headersRead: bool, source: seq<seq<byte>>) {
    /** The reader's invariant: the cursor never passes the valid bytes of the buffer. */
    predicate Valid() {
      |fill| <= Capacity && cursor <= |fill| && ChunksFit(source)
    }
  }

  /** What one `ReadAsync` puts in the buffer: the next chunk, or no bytes once the input is exhausted. */
  function NextChunk(source: seq<seq<byte>>): seq<byte> {
    if source == [] then [] else source[0]
  }

  /** The chunks still to come after one `ReadAsync`. */
  function LaterChunks(source: seq<seq<byte>>): seq<seq<byte>> {
    if source == [] then [] else source[1..]
  }

  /** `Create`: the first `ReadAsync`, which leaves `headersRead` false. */
  function Open(source: seq<seq<byte>>): (r: Reader)
    requires ChunksFit(source)
    ensures r.Valid() && !r.headersRead && r.cursor == 0
  {
    Reader(NextChunk(source), 0, false, LaterChunks(source))
  }

  /** `appendStringFromBufferBytes`: nothing is decoded for a count of zero. */
  function Decoded(decode: Decoder, bytes: seq<byte>): string {
    if |bytes| == 0 then "" else decode(bytes)
  }

  /** The refill condition shared by the three read loops. */
  predicate MoreToRead(r: Reader) {
    !r.headersRead || |r.fill| == Capacity
  }

  /** `inputStream.ReadAsync(buffer, ...)` followed by `headersRead = true` and a cursor of 0. */
  function Refill(r: Reader): (f: Reader)
    requires r.Valid()
    ensures f.Valid() && f.headersRead && f.cursor == 0
  {
    Reader(NextChunk(r.source), 0, true, LaterChunks(r.source))
  }

  /** How much input is left: strictly decreases whenever a read consumes something. */
  function Progress(r: Reader): nat
    requires r.Valid()
  {
    |r.source| * (Capacity + 1) + (|r.fill| - r.cursor)
  }

  predicate IsCrlfAt(fill: seq<byte>, i: nat) {
    i + 1 < |fill| && fill[i] == CR && fill[i + 1] == LF
  }

  /** The scan of `scanForNewLine`: the first CR LF pair at or after `from` inside one fill. */
  function FindCrlf(fill: seq<byte>, from: nat): (r: Option<nat>)
    decreases |fill| - from
    ensures r.Some? ==> from <= r.value && IsCrlfAt(fill, r.value)
    ensures r.Some? ==> forall j: nat :: from <= j < r.value ==> !IsCrlfAt(fill, j)
    ensures r.None? ==> forall j: nat :: from <= j ==> !IsCrlfAt(fill, j)
  {
    if from + 1 >= |fill| then None
    else if fill[from] == CR && fill[from + 1] == LF then Some(from)
    else FindCrlf(fill, from + 1)
  }

  /**
    The loop of `ReadLineAsync`, entered with the current fill used up: while more
    input may come, refill and scan the new fill from index 0, appending the whole
    fill to `acc` on a miss.
  */
  function LineLoop(decode: Decoder, r: Reader, acc: string): (res: (Result<string, ReadError>, Reader))
    requires r.Valid() && r.cursor == |r.fill|
    decreases |r.source|
    ensures res.1.Valid()
    ensures Progress(res.1) <= Progress(r)
    ensures MoreToRead(r) && res.0.Success? ==> Progress(res.1) < Progress(r)
    ensures r.headersRead ==> res.1.headersRead
  {
    if !MoreToRead(r) then (Success(acc), r)
    else
      var f := Refill(r);
      if |f.fill| == 0 then (Failure(EmptyRefill), f)
      else
        match FindCrlf(f.fill, 0)
        case Some(i) => (Success(acc + Decoded(decode, f.fill[..i])), f.(cursor := i + 2))
        case None => LineLoop(decode, f.(cursor := |f.fill|), acc + Decoded(decode, f.fill))
  }

  /**
    `ReadLineAsync`: the accumulator starts empty; the rest of the current fill is
    scanned first, and on a miss the whole fill, from index 0, is kept and the
    loop refills. A line whose text is not empty always consumes input.
  */
  function ReadLine(decode: Decoder, r: Reader): (res: (Result<string, ReadError>, Reader))
    requires r.Valid()
    ensures res.1.Valid()
    ensures Progress(res.1) <= Progress(r)
    ensures res.0.Success? && res.0.value != "" ==> Progress(res.1) < Progress(r)
    ensures r.headersRead ==> res.1.headersRead
  {
    if r.cursor < |r.fill| then
      match FindCrlf(r.fill, r.cursor)
      case Some(i) => (Success(Decoded(decode, r.fill[r.cursor..i])), r.(cursor := i + 2))
      case None => LineLoop(decode, r.(cursor := |r.fill|), Decoded(decode, r.fill))
    else LineLoop(decode, r, "")
  }

  /** The loop of `ReadToEndAsync`: each refill is decoded whole and the cursor moved to its end. */
  function ToEndLoop(decode: Decoder, r: Reader, acc: string): (res: (string, Reader))
    requires r.Valid()
    decreases |r.source|, if MoreToRead(r) then 1 else 0
    ensures res.1.Valid() && !MoreToRead(res.1)
    ensures MoreToRead(r) ==> res.1.cursor == |res.1.fill|
  {
    if !MoreToRead(r) then (acc, r)
    else
      var f := Refill(r);
      ToEndLoop(decode, f.(cursor := |f.fill|), acc + Decoded(decode, f.fill))
  }

  /**
    `ReadToEndAsync`: the rest of the current fill (the cursor is not moved), then
    the refill loop. It always ends with `headersRead` set and a last fill shorter
    than the buffer.
  */
  function ReadToEnd(decode: Decoder, r: Reader): (res: (string, Reader))
    requires r.Valid()
    ensures res.1.Valid() && res.1.headersRead && |res.1.fill| < Capacity
  {
    var head := if r.cursor < |r.fill| then Decoded(decode, r.fill[r.cursor..]) else "";
    ToEndLoop(decode, r, head)
  }

  function Min(a: nat, b: nat): nat {
    if a <= b then a else b
  }

  /** The condition of the `ReadBytesAsync` loop, with `got` bytes copied out of `want`. */
  predicate MoreBytes(r: Reader, want: nat, got: nat) {
    !r.headersRead || (|r.fill| == Capacity && got < want)
  }

  /** The loop of `ReadBytesAsync`: refill, then copy from index 0 while there is room. */
  function BytesLoop(r: Reader, want: nat, got: seq<byte>): (res: (seq<byte>, Reader))
    requires r.Valid() && |got| <= want
    requires |got| < want ==> r.cursor == |r.fill|
    decreases |r.source|, if MoreBytes(r, want, |got|) then 1 else 0
    ensures res.1.Valid() && res.1.headersRead
    ensures |got| <= |res.0| <= want && res.0[..|got|] == got
    ensures |res.0| < want ==> res.1.cursor == |res.1.fill| < Capacity
  {
    if !MoreBytes(r, want, |got|) then (got, r)
    else
      var f := Refill(r);
      var k := Min(|f.fill|, want - |got|);
      BytesLoop(f.(cursor := k), want, got + f.fill[..k])
  }

  /**
    `ReadBytesAsync` for a caller array of `want` bytes: the bytes copied (their
    number is the count returned) and the reader left behind. Fewer than `want`
    bytes come back only when the last fill was shorter than the buffer and is
    used up.
  */
  function ReadBytes(r: Reader, want: nat): (res: (seq<byte>, Reader))
    requires r.Valid()
    ensures res.1.Valid() && res.1.headersRead
    ensures |res.0| <= want
    ensures |res.0| < want ==> res.1.cursor == |res.1.fill| < Capacity
  {
    var k := Min(|r.fill| - r.cursor, want);
    BytesLoop(r.(cursor := r.cursor + k), want, r.fill[r.cursor..r.cursor + k])
  }

  /** The chunks concatenated: the bytes of the stream in order. */
  function Flatten(chunks: seq<seq<byte>>): seq<byte> {
    if chunks == [] then [] else chunks[0] + Flatten(chunks[1..])
  }

  /** The chunks decoded one by one, as the refill loops decode them. */
  function ConcatDecoded(decode: Decoder, chunks: seq<seq<byte>>): string {
    if chunks == [] then "" else Decoded(decode, chunks[0]) + ConcatDecoded(decode, chunks[1..])
  }

  /** The chunks a refill loop takes: every full chunk, up to and including the first short one. */
  function FullRun(source: seq<seq<byte>>): (run: seq<seq<byte>>)
    ensures |run| <= |source| && run == source[..|run|]
  {
    if source == [] then []
    else if |source[0]| == Capacity then [source[0]] + FullRun(source[1..])
    else [source[0]]
  }

  // ---------------------------------------------------------------------------
  // Properties of the read operations

  /** A CR LF in the rest of the current fill ends the line there; the cursor moves past it. */
  lemma ReadLineInFill(decode: Decoder, r: Reader, i: nat)
    requires r.Valid() && r.cursor < |r.fill| && FindCrlf(r.fill, r.cursor) == Some(i)
    ensures ReadLine(decode, r) == (Success(Decoded(decode, r.fill[r.cursor..i])), r.(cursor := i + 2))
  {
  }

  /**
    A miss in the current fill keeps the whole fill, from index 0 and not from
    the cursor, before the refill loop runs.
  */
  lemma ReadLineMissKeepsWholeFill(decode: Decoder, r: Reader)
    requires r.Valid() && r.cursor < |r.fill| && FindCrlf(r.fill, r.cursor).None?
    ensures ReadLine(decode, r) == LineLoop(decode, r.(cursor := |r.fill|), Decoded(decode, r.fill))
  {
  }

  /**
    A CR that ends one fill and an LF that starts the next are not recognised as
    a line break: both stay inside the text of the line.
  */
  lemma CrlfAcrossFillsNotRecognised(decode: Decoder, r: Reader)
    requires r.Valid() && r.cursor < |r.fill| && r.fill[|r.fill| - 1] == CR
    requires FindCrlf(r.fill, r.cursor).None? && MoreToRead(r)
    requires r.source != [] && r.source[0][0] == LF && |r.source[0]| < Capacity
    requires FindCrlf(r.source[0], 0).None?
    ensures ReadLine(decode, r).0 == Success(Decoded(decode, r.fill) + Decoded(decode, r.source[0]))
  {
    var missed := r.(cursor := |r.fill|);
    var f := Refill(missed);
    var g := f.(cursor := |f.fill|);
    assert !MoreToRead(g);
    assert LineLoop(decode, g, Decoded(decode, r.fill) + Decoded(decode, f.fill)).0
        == Success(Decoded(decode, r.fill) + Decoded(decode, r.source[0]));
  }

  /** An instance: a fill ending "ab" CR, then a last chunk LF "c", read as one line. */
  lemma CrlfAcrossFillsExample(decode: Decoder)
    ensures ReadLine(decode, Reader([97, 98, CR], 0, false, [[LF, 99]])).0
         == Success(decode([97, 98, CR]) + decode([LF, 99]))
  {
    var r := Reader([97, 98, CR], 0, false, [[LF, 99]]);
    assert !IsCrlfAt(r.fill, 0) && !IsCrlfAt(r.fill, 1);
    assert FindCrlf(r.fill, 0).None?;
    assert !IsCrlfAt([LF, 99], 0);
    assert FindCrlf([LF, 99], 0).None?;
    CrlfAcrossFillsNotRecognised(decode, r);
  }

  /** The refill loop of ReadToEnd takes exactly the chunks of FullRun and decodes them in order. */
  lemma {:induction false} ToEndLoopReadsRun(decode: Decoder, r: Reader, acc: string)
    requires r.Valid() && MoreToRead(r)
    ensures ToEndLoop(decode, r, acc).0 == acc + ConcatDecoded(decode, FullRun(r.source))
    ensures ToEndLoop(decode, r, acc).1.source == r.source[|FullRun(r.source)|..]
    decreases |r.source|
  {
    var f := Refill(r);
    var g := f.(cursor := |f.fill|);
    var acc' := acc + Decoded(decode, f.fill);
    if r.source == [] {
      assert !MoreToRead(g);
    } else {
      var c := r.source[0];
      if |c| == Capacity {
        ToEndLoopReadsRun(decode, g, acc');
        var run := FullRun(r.source);
        assert run == [c] + FullRun(r.source[1..]);
        assert run[1..] == FullRun(r.source[1..]);
        assert ConcatDecoded(decode, run) == Decoded(decode, c) + ConcatDecoded(decode, FullRun(r.source[1..]));
      } else {
        assert !MoreToRead(g);
        assert FullRun(r.source) == [c];
        assert ConcatDecoded(decode, [c]) == Decoded(decode, c);
      }
    }
  }

  /**
    When a refill is due, ReadToEnd returns the rest of the current fill followed
    by the decoded chunks up to and including the first one shorter than the
    buffer, leaves the cursor at the end of the last one, and leaves the chunks
    after it unread.
  */
  lemma ReadToEndReadsRun(decode: Decoder, r: Reader)
    requires r.Valid() && MoreToRead(r)
    ensures ReadToEnd(decode, r).0 == Decoded(decode, r.fill[r.cursor..]) + ConcatDecoded(decode, FullRun(r.source))
    ensures ReadToEnd(decode, r).1.source == r.source[|FullRun(r.source)|..]
    ensures ReadToEnd(decode, r).1.cursor == |ReadToEnd(decode, r).1.fill|
  {
    ToEndLoopReadsRun(decode, r, Decoded(decode, r.fill[r.cursor..]));
  }

  /**
    When no refill is due, ReadToEnd returns the rest of the fill and leaves the
    reader exactly as it was, cursor included: a second call returns the same text.
  */
  lemma ReadToEndWithoutRefill(decode: Decoder, r: Reader)
    requires r.Valid() && !MoreToRead(r)
    ensures ReadToEnd(decode, r) == (Decoded(decode, r.fill[r.cursor..]), r)
    ensures ReadToEnd(decode, ReadToEnd(decode, r).1) == ReadToEnd(decode, r)
  {
  }

  /** After a ReadToEnd that refilled, a second ReadToEnd returns the empty text. */
  lemma ReadToEndAfterRefill(decode: Decoder, r: Reader)
    requires r.Valid() && MoreToRead(r)
    ensures ReadToEnd(decode, ReadToEnd(decode, r).1).0 == ""
  {
    var after := ReadToEnd(decode, r).1;
    assert after.fill[after.cursor..] == [];
  }

  /** The bytes a loop copies continue the pending input without gaps. */
  lemma {:induction false} BytesLoopInOrder(r: Reader, want: nat, got: seq<byte>)
    requires r.Valid() && |got| <= want
    requires |got| < want ==> r.cursor == |r.fill|
    ensures IsPrefix(BytesLoop(r, want, got).0, got + r.fill[r.cursor..] + Flatten(r.source))
    decreases |r.source|, if MoreBytes(r, want, |got|) then 1 else 0
  {
    if |got| == want {
      assert BytesLoop(r, want, got).0 == got;
      assert (got + r.fill[r.cursor..] + Flatten(r.source))[..|got|] == got;
    } else if MoreBytes(r, want, |got|) {
      var f := Refill(r);
      var k := Min(|f.fill|, want - |got|);
      var got' := got + f.fill[..k];
      BytesLoopInOrder(f.(cursor := k), want, got');
      assert r.fill[r.cursor..] == [];
      if r.source == [] {
        assert got' == got;
      } else {
        assert Flatten(r.source) == f.fill + Flatten(f.source);
        assert f.fill[..k] + f.fill[k..] == f.fill;
        ConcatAssoc(got, f.fill[..k], f.fill[k..]);
        ConcatAssoc(got, f.fill, Flatten(f.source));
        assert got + r.fill[r.cursor..] == got;
      }
    }
  }

  predicate IsPrefix(a: seq<byte>, b: seq<byte>) {
    |a| <= |b| && b[..|a|] == a
  }

  /**
    ReadBytes hands out the pending input in stream order: the rest of the
    current fill, then the chunks, with nothing skipped before the bytes it
    returns.
  */
  lemma ReadBytesInOrder(r: Reader, want: nat)
    requires r.Valid()
    ensures IsPrefix(ReadBytes(r, want).0, r.fill[r.cursor..] + Flatten(r.source))
  {
    var k := Min(|r.fill| - r.cursor, want);
    var got := r.fill[r.cursor..r.cursor + k];
    BytesLoopInOrder(r.(cursor := r.cursor + k), want, got);
    assert got + r.fill[r.cursor + k..] == r.fill[r.cursor..];
    ConcatAssoc(got, r.fill[r.cursor + k..], Flatten(r.source));
  }

  /**
    The first read operation on a fresh reader refills even when the caller's
    array is already full: the rest of the initial fill is dropped and the next
    chunk becomes the fill, from index 0.
  */
  lemma ReadBytesFirstCallDropsRest(r: Reader, want: nat)
    requires r.Valid() && !r.headersRead && want <= |r.fill| - r.cursor && r.source != []
    ensures ReadBytes(r, want) == (r.fill[r.cursor..r.cursor + want], Reader(r.source[0], 0, true, r.source[1..]))
  {
    var got := r.fill[r.cursor..r.cursor + want];
    var start := r.(cursor := r.cursor + want);
    assert Min(|r.fill| - r.cursor, want) == want;
    assert ReadBytes(r, want) == BytesLoop(start, want, got);
    var f := Refill(start);
    assert Min(|f.fill|, want - |got|) == 0;
    assert got + f.fill[..0] == got;
    assert !MoreBytes(f, want, |got|);
    assert BytesLoop(start, want, got) == BytesLoop(f, want, got);
  }
}
