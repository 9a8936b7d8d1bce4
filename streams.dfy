/**
  `StreamReaderAsync`: the buffered reader over the connection's input stream.
  The stream is the sequence of chunks its partial reads deliver; every read
  operation is proved to do what the matching function of `LineReader` says.
*/
module HttpWinRTStreams {
  import opened Wrappers
  import opened Text
  import opened LineReader

  class StreamReaderAsync {
    /** UTF-8 decoding, supplied by the host. */
    const decode: Decoder
    /** The fixed buffer, of `Capacity` bytes; its first `length` bytes are the current fill. */
    const buffer: array<byte>
    var length: nat
    var currentIndex: nat
    var headersRead: bool
    /** The `StringBuilder` the line and text reads accumulate into. */
    var builder: string
    /** What the input stream has yet to deliver. */
    var source: seq<seq<byte>>

    predicate BufferOk()
      reads this
    {
      buffer.Length == Capacity && length <= Capacity && ChunksFit(source)
    }

    predicate Valid()
      reads this
    {
      BufferOk() && currentIndex <= length
    }

    /** The reader as a value. */
    function State(): (r: Reader)
      reads this, buffer
      requires BufferOk()
      ensures Valid() ==> r.Valid()
    {
      Reader(buffer[..length], currentIndex, headersRead, source)
    }

    /** `Create`: allocate the buffer and fill it once; `headersRead` stays false. */
    constructor Create(input: seq<seq<byte>>, decode: Decoder)
      requires ChunksFit(input)
      ensures Valid() && fresh(buffer)
      ensures State() == Open(input) && builder == "" && this.decode == decode
    {
      this.decode := decode;
      buffer := new byte[Capacity];
      length, currentIndex, headersRead := 0, 0, false;
      builder, source := "", input;
      new;
      ReadAsync();
    }

    /** `inputStream.ReadAsync(buffer, buffer.Capacity, Partial)`: the next chunk replaces the fill. */
    method ReadAsync()
      requires BufferOk()
      modifies this`length, this`source, buffer
      ensures BufferOk()
      ensures buffer[..length] == NextChunk(old(source)) && source == LaterChunks(old(source))
    {
      var chunk := NextChunk(source);
      assert source != [] ==> |source[0]| <= Capacity;
      var i := 0;
      while i < |chunk|
        modifies buffer
        invariant 0 <= i <= |chunk| <= Capacity
        invariant forall j :: 0 <= j < i ==> buffer[j] == chunk[j]
      {
        buffer[i] := chunk[i];
        i := i + 1;
      }
      length := |chunk|;
      source := LaterChunks(source);
      assert buffer[..length] == chunk;
    }

    /** `appendStringFromBufferBytes`: decode `count` buffer bytes from `start`, if any. */
    method AppendFromBuffer(start: nat, count: nat)
      requires BufferOk() && start + count <= length
      modifies this`builder
      ensures builder == old(builder) + Decoded(decode, buffer[start..start + count])
    {
      if count > 0 {
        builder := builder + decode(buffer[start..start + count]);
      }
    }

    /** The refill step shared by the three read loops: the next chunk, `headersRead` set, the cursor at 0. */
    method RefillBuffer()
      requires Valid()
      modifies this`length, this`source, this`headersRead, this`currentIndex, buffer
      ensures Valid() && State() == Refill(old(State()))
    {
      ReadAsync();
      headersRead := true;
      currentIndex := 0;
    }

    /**
      `scanForNewLine`: look for CR LF from the cursor up to the last byte of the
      fill. On a hit, keep the bytes before it and move past it; on a miss, keep
      the whole fill from index 0 and move the cursor to its end.
    */
    method ScanForNewLine() returns (line: Option<string>)
      requires Valid() && currentIndex < length
      modifies this`currentIndex, this`builder
      ensures Valid()
      ensures line.Some? ==> line.value == builder
      ensures var r := old(State());
        match FindCrlf(r.fill, r.cursor)
        case Some(i) =>
          && line.Some? && State() == r.(cursor := i + 2)
          && builder == old(builder) + Decoded(decode, r.fill[r.cursor..i])
        case None =>
          && line.None? && State() == r.(cursor := |r.fill|)
          && builder == old(builder) + Decoded(decode, r.fill)
    {
      var i := currentIndex;
      while i < length - 1
        invariant currentIndex == old(currentIndex) && builder == old(builder)
        invariant currentIndex <= i
        invariant forall j: nat :: currentIndex <= j < i ==> !IsCrlfAt(buffer[..length], j)
      {
        if buffer[i] == CR && buffer[i + 1] == LF {
          assert IsCrlfAt(buffer[..length], i);
          assert buffer[currentIndex..currentIndex + (i - currentIndex)] == buffer[..length][currentIndex..i];
          AppendFromBuffer(currentIndex, i - currentIndex);
          currentIndex := i + 2;
          return Some(builder);
        }
        i := i + 1;
      }
      AppendFromBuffer(0, length);
      assert buffer[0..length] == buffer[..length];
      currentIndex := length;
      return None;
    }

    /**
      `ReadLineAsync`: the next line, or the text gathered when the input runs
      out. A refill that brings no bytes is the failure `EmptyRefill`.
    */
    method ReadLine() returns (line: Result<string, ReadError>)
      requires Valid()
      modifies this, buffer
      ensures Valid()
      ensures (line, State()) == LineReader.ReadLine(decode, old(State()))
    {
      builder := "";
      assert State() == old(State());
      if currentIndex < length {
        ghost var r := State();
        var s := ScanForNewLine();
        if s.Some? {
          ghost var i := FindCrlf(r.fill, r.cursor).value;
          assert builder == Decoded(decode, r.fill[r.cursor..i]);
          return Success(s.value);
        }
        assert builder == Decoded(decode, r.fill);
      }
      line := FinishLine();
    }

    /** The `while` loop of `ReadLineAsync`, entered with the fill used up and `builder` holding the text so far. */
    method FinishLine() returns (line: Result<string, ReadError>)
      requires Valid() && currentIndex == length
      modifies this, buffer
      ensures Valid()
      ensures (line, State()) == LineLoop(decode, old(State()), old(builder))
    {
      while !headersRead || length == Capacity
        invariant Valid() && currentIndex == length
        invariant LineLoop(decode, old(State()), old(builder)) == LineLoop(decode, State(), builder)
        decreases |source|
      {
        RefillBuffer();
        if length == 0 {
          return Failure(EmptyRefill);
        }
        var s := ScanForNewLine();
        if s.Some? {
          return Success(s.value);
        }
      }
      return Success(builder);
    }

    /** `ReadToEndAsync`: the rest of the fill, then every refill while more may come. */
    method ReadToEnd() returns (text: string)
      requires Valid()
      modifies this, buffer
      ensures Valid()
      ensures (text, State()) == LineReader.ReadToEnd(decode, old(State()))
    {
      builder := "";
      assert State() == old(State());
      if currentIndex < length {
        AppendFromBuffer(currentIndex, length - currentIndex);
        assert buffer[currentIndex..currentIndex + (length - currentIndex)] == buffer[..length][currentIndex..];
        assert builder == Decoded(decode, old(State()).fill[old(State()).cursor..]);
      }
      assert State() == old(State());
      text := FinishToEnd();
    }

    /** The `while` loop of `ReadToEndAsync`: decode each refill whole onto `builder`. */
    method FinishToEnd() returns (text: string)
      requires Valid()
      modifies this, buffer
      ensures Valid()
      ensures (text, State()) == ToEndLoop(decode, old(State()), old(builder))
    {
      while !headersRead || length == Capacity
        invariant Valid()
        invariant ToEndLoop(decode, old(State()), old(builder)) == ToEndLoop(decode, State(), builder)
        decreases |source|, if !headersRead || length == Capacity then 1 else 0
      {
        RefillBuffer();
        AppendFromBuffer(0, length);
        assert buffer[0..length] == buffer[..length];
        currentIndex := length;
      }
      text := builder;
    }

    /**
      The copying `for` loop of `ReadBytesAsync`: from the cursor, while both the
      fill and the caller's array have room.
    */
    method CopyOut(bytes: array<byte>, from: nat) returns (next: nat)
      requires Valid() && from <= bytes.Length && bytes != buffer
      modifies this`currentIndex, bytes
      ensures Valid()
      ensures var r := old(State()); var k := Min(|r.fill| - r.cursor, bytes.Length - from);
        && next == from + k
        && State() == r.(cursor := r.cursor + k)
        && bytes[..next] == old(bytes[..from]) + r.fill[r.cursor..r.cursor + k]
      ensures forall j :: next <= j < bytes.Length ==> bytes[j] == old(bytes[j])
    {
      next := from;
      while currentIndex < length && next < bytes.Length
        invariant old(currentIndex) <= currentIndex <= length && from <= next <= bytes.Length
        invariant next - from == currentIndex - old(currentIndex)
        invariant forall j :: 0 <= j < bytes.Length && !(from <= j < next) ==> bytes[j] == old(bytes[j])
        invariant forall j :: from <= j < next ==> bytes[j] == buffer[old(currentIndex) + (j - from)]
      {
        bytes[next] := buffer[currentIndex];
        currentIndex := currentIndex + 1;
        next := next + 1;
      }
      ghost var before := old(bytes[..from]);
      ghost var copied := buffer[..length][old(currentIndex)..currentIndex];
      forall j | 0 <= j < next
        ensures bytes[j] == (before + copied)[j]
      {
        if j < from {
          assert before[j] == old(bytes[j]);
        } else {
          assert copied[j - from] == buffer[old(currentIndex) + (j - from)];
        }
      }
      assert bytes[..next] == before + copied;
    }

    /** One turn of the `ReadBytesAsync` loop: refill, then copy from index 0. */
    method RefillAndCopy(bytes: array<byte>, from: nat) returns (next: nat)
      requires Valid() && from <= bytes.Length && bytes != buffer
      modifies this`length, this`source, this`headersRead, this`currentIndex, buffer, bytes
      ensures Valid()
      ensures var f := Refill(old(State())); var k := Min(|f.fill|, bytes.Length - from);
        && next == from + k
        && State() == f.(cursor := k)
        && bytes[..next] == old(bytes[..from]) + f.fill[..k]
      ensures forall j :: next <= j < bytes.Length ==> bytes[j] == old(bytes[j])
    {
      RefillBuffer();
      ghost var f := State();
      assert f.fill[0..0 + Min(|f.fill| - 0, bytes.Length - from)] == f.fill[..Min(|f.fill|, bytes.Length - from)];
      next := CopyOut(bytes, from);
    }

    /** The `while` loop of `ReadBytesAsync`, entered with `from` bytes already copied. */
    method CopyRest(bytes: array<byte>, from: nat) returns (next: nat)
      requires Valid() && from <= bytes.Length && bytes != buffer
      requires from < bytes.Length ==> currentIndex == length
      modifies this`length, this`source, this`headersRead, this`currentIndex, buffer, bytes
      ensures Valid()
      ensures var res := BytesLoop(old(State()), bytes.Length, old(bytes[..from]));
        && next == |res.0| && bytes[..next] == res.0 && State() == res.1
      ensures forall j :: next <= j < bytes.Length ==> bytes[j] == old(bytes[j])
    {
      next := from;
      while !headersRead || (length == Capacity && next < bytes.Length)
        invariant Valid() && from <= next <= bytes.Length
        invariant next < bytes.Length ==> currentIndex == length
        invariant BytesLoop(old(State()), bytes.Length, old(bytes[..from])) == BytesLoop(State(), bytes.Length, bytes[..next])
        invariant forall j :: next <= j < bytes.Length ==> bytes[j] == old(bytes[j])
        decreases |source|, if !headersRead || (length == Capacity && next < bytes.Length) then 1 else 0
      {
        next := RefillAndCopy(bytes, next);
      }
    }

    /**
      `ReadBytesAsync`: copy into `bytes` and return how many were copied; the
      entries after them are left as they were.
    */
    method ReadBytes(bytes: array<byte>) returns (count: nat)
      requires Valid() && bytes != buffer
      modifies this, buffer, bytes
      ensures Valid()
      ensures var res := LineReader.ReadBytes(old(State()), bytes.Length);
        && count == |res.0| && bytes[..count] == res.0 && State() == res.1
      ensures forall j :: count <= j < bytes.Length ==> bytes[j] == old(bytes[j])
    {
      var otherIndex := CopyFirst(bytes);
      count := CopyRest(bytes, otherIndex);
    }

    /** The guarded first copy of `ReadBytesAsync`: the rest of the current fill, as far as `bytes` has room. */
    method CopyFirst(bytes: array<byte>) returns (next: nat)
      requires Valid() && bytes != buffer
      modifies this`currentIndex, bytes
      ensures Valid() && next <= bytes.Length
      ensures next < bytes.Length ==> currentIndex == length
      ensures LineReader.ReadBytes(old(State()), bytes.Length) == BytesLoop(State(), bytes.Length, bytes[..next])
      ensures forall j :: next <= j < bytes.Length ==> bytes[j] == old(bytes[j])
    {
      ghost var r := State();
      ghost var k := Min(|r.fill| - r.cursor, bytes.Length);
      next := 0;
      if currentIndex < length {
        next := CopyOut(bytes, next);
      } else {
        assert k == 0;
      }
      assert bytes[..next] == r.fill[r.cursor..r.cursor + k];
      assert State() == r.(cursor := r.cursor + k);
    }
  }
}
