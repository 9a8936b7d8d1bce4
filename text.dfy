/**
  The .NET string primitives the server relies on, with the semantics it uses:
  ordinal search and `Contains`, `Split` with and without `RemoveEmptyEntries`,
  `ToLower` (ASCII letters only) and `IsNullOrWhiteSpace`.
*/
module Text {
  import opened Wrappers

  newtype byte = x: int | 0 <= x < 256

  /** `sub` occurs in `s` starting at index `i`. */
  predicate OccursAt(s: string, sub: string, i: nat) {
    i + |sub| <= |s| && s[i..i + |sub|] == sub
  }

  /** Concatenation is associative; a helper for sums of many pieces. */
  lemma ConcatAssoc<T>(a: seq<T>, b: seq<T>, c: seq<T>)
    ensures (a + b) + c == a + (b + c)
  {
  }

  /** Index of the first occurrence of `sub` in `s` at or after `k`, ordinal comparison. */
  function IndexOfFrom(s: string, sub: string, k: nat): (r: Option<nat>)
    decreases |s| - k
    ensures r.Some? ==> k <= r.value && OccursAt(s, sub, r.value)
    ensures r.Some? ==> forall j: nat :: k <= j < r.value ==> !OccursAt(s, sub, j)
    ensures r.None? ==> forall j: nat :: k <= j ==> !OccursAt(s, sub, j)
  {
    if k + |sub| > |s| then None
    else if s[k..k + |sub|] == sub then Some(k)
    else IndexOfFrom(s, sub, k + 1)
  }

  /** C# `s.IndexOf(sub, StringComparison.Ordinal)`, with `None` for -1. */
  function IndexOf(s: string, sub: string): Option<nat> {
    IndexOfFrom(s, sub, 0)
  }

  /** C# `s.Contains(sub)`: an ordinal substring test. */
  predicate Contains(s: string, sub: string)
    ensures Contains(s, sub) <==> exists j: nat :: OccursAt(s, sub, j)
  {
    IndexOf(s, sub).Some?
  }

  /**
    C# `s.Split(new[] { sep }, StringSplitOptions.None)`: the pieces between the
    non-overlapping occurrences of `sep`, found left to right.
  */
  function SplitOn(s: string, sep: string): (parts: seq<string>)
    requires |sep| > 0
    ensures |parts| >= 1
    ensures |parts| >= 2 <==> Contains(s, sep)
    decreases |s|
  {
    match IndexOf(s, sep)
    case None => [s]
    case Some(i) => [s[..i]] + SplitOn(s[i + |sep|..], sep)
  }

  /** C# `s.Split(c)`. */
  function Split(s: string, c: char): (parts: seq<string>)
    ensures |parts| >= 1
  {
    SplitOn(s, [c])
  }

  /** C# `string.Join(sep, parts)`. */
  function Join(parts: seq<string>, sep: string): string {
    if |parts| == 0 then ""
    else if |parts| == 1 then parts[0]
    else parts[0] + sep + Join(parts[1..], sep)
  }

  /** Splitting loses nothing: joining the pieces with the separator gives the text back. */
  lemma {:induction false} JoinSplitOn(s: string, sep: string)
    requires |sep| > 0
    ensures Join(SplitOn(s, sep), sep) == s
    decreases |s|
  {
    match IndexOf(s, sep)
    case None =>
    case Some(i) =>
      var rest := s[i + |sep|..];
      JoinSplitOn(rest, sep);
      JoinCons(s[..i], SplitOn(rest, sep), sep);
      AroundOccurrence(s, sep, i);
  }

  lemma JoinCons(head: string, tail: seq<string>, sep: string)
    requires |tail| >= 1
    ensures Join([head] + tail, sep) == head + sep + Join(tail, sep)
  {
    assert ([head] + tail)[1..] == tail;
  }

  /** An occurrence of `sep` at `i` cuts `s` into the text before it, `sep`, and the text after it. */
  lemma AroundOccurrence(s: string, sep: string, i: nat)
    requires OccursAt(s, sep, i)
    ensures s == s[..i] + sep + s[i + |sep|..]
  {
    assert s[..i] + sep == s[..i + |sep|];
  }

  /** No piece produced by SplitOn contains the separator. */
  lemma {:induction false} SplitOnPiecesFree(s: string, sep: string)
    requires |sep| > 0
    ensures forall k :: 0 <= k < |SplitOn(s, sep)| ==> !Contains(SplitOn(s, sep)[k], sep)
    decreases |s|
  {
    match IndexOf(s, sep)
    case None =>
    case Some(i) =>
      var rest := s[i + |sep|..];
      SplitOnPiecesFree(rest, sep);
      BeforeFirstFree(s, sep, i);
      PiecesConsFree(s[..i], SplitOn(rest, sep), sep);
      assert SplitOn(s, sep) == [s[..i]] + SplitOn(rest, sep);
  }

  /** The text before the first occurrence of `sep` does not contain it. */
  lemma BeforeFirstFree(s: string, sep: string, i: nat)
    requires |sep| > 0 && IndexOf(s, sep) == Some(i)
    ensures !Contains(s[..i], sep)
  {
    forall j: nat | OccursAt(s[..i], sep, j)
      ensures false
    {
      assert s[..i][j..j + |sep|] == s[j..j + |sep|];
      assert OccursAt(s, sep, j);
    }
  }

  lemma PiecesConsFree(head: string, tail: seq<string>, sep: string)
    requires !Contains(head, sep)
    requires forall k :: 0 <= k < |tail| ==> !Contains(tail[k], sep)
    ensures forall k :: 0 <= k < |[head] + tail| ==> !Contains(([head] + tail)[k], sep)
  {
    forall k | 0 <= k < |[head] + tail|
      ensures !Contains(([head] + tail)[k], sep)
    {
      if k == 0 {
        assert ([head] + tail)[k] == head;
      } else {
        assert ([head] + tail)[k] == tail[k - 1];
      }
    }
  }

  /** When `sep` does not start anywhere inside `a`, the first piece of `a + sep + b` is `a`. */
  lemma SplitOnAt(a: string, sep: string, b: string)
    requires |sep| > 0
    requires forall j: nat :: j < |a| ==> !OccursAt(a + sep + b, sep, j)
    ensures SplitOn(a + sep + b, sep) == [a] + SplitOn(b, sep)
  {
    var s := a + sep + b;
    assert s[|a|..|a| + |sep|] == sep;
    assert OccursAt(s, sep, |a|);
    assert IndexOf(s, sep) == Some(|a|);
    assert s[..|a|] == a;
    assert s[|a| + |sep|..] == b;
  }

  /** Text that lacks one of the separator's characters does not contain it. */
  lemma NotContainedWithout(s: string, sep: string, k: nat)
    requires k < |sep| && sep[k] !in s
    ensures !Contains(s, sep)
  {
    forall j: nat | j + |sep| <= |s|
      ensures !OccursAt(s, sep, j)
    {
      assert s[j..j + |sep|][k] == s[j + k];
    }
  }

  /**
    For a two-character separator whose characters differ, `a + sep + b` with
    `a` free of `sep` has its first occurrence right after `a`: the split
    starts with `a`.
  */
  lemma SplitOnPair(a: string, sep: string, b: string)
    requires |sep| == 2 && sep[0] != sep[1] && !Contains(a, sep)
    ensures SplitOn(a + sep + b, sep) == [a] + SplitOn(b, sep)
  {
    var s := a + sep + b;
    forall j: nat | j < |a|
      ensures !OccursAt(s, sep, j)
    {
      if j + 2 <= |a| {
        assert !OccursAt(a, sep, j);
        assert s[j..j + 2] == a[j..j + 2];
      } else {
        assert s[j + 1] == sep[0];
      }
    }
    SplitOnAt(a, sep, b);
  }

  /**
    Two texts free of a two-character separator stay free of it when joined,
    unless the first ends with its first character and the second starts with
    its second.
  */
  lemma ConcatNotContained(a: string, b: string, sep: string)
    requires |sep| == 2 && !Contains(a, sep) && !Contains(b, sep)
    requires a != [] && b != [] ==> !(a[|a| - 1] == sep[0] && b[0] == sep[1])
    ensures !Contains(a + b, sep)
  {
    var s := a + b;
    forall j: nat | j < |s|
      ensures !OccursAt(s, sep, j)
    {
      if j + 2 <= |a| {
        assert !OccursAt(a, sep, j);
        assert s[j..j + 2] == a[j..j + 2];
      } else if j >= |a| && j + 2 <= |s| {
        assert !OccursAt(b, sep, j - |a|);
        assert s[j..j + 2] == b[j - |a|..j - |a| + 2];
      } else if j + 2 <= |s| {
        assert s[j..j + 2] == [a[|a| - 1], b[0]];
      }
    }
  }

  /** A one-character separator occurs exactly where that character stands. */
  lemma OccursAtChar(s: string, c: char, j: nat)
    ensures OccursAt(s, [c], j) <==> j < |s| && s[j] == c
  {
    if j < |s| {
      assert s[j..j + 1] == [s[j]];
    }
  }

  /** Text that does not contain the separator is one piece. */
  lemma SplitOnAbsent(s: string, sep: string)
    requires |sep| > 0 && !Contains(s, sep)
    ensures SplitOn(s, sep) == [s]
  {
  }

  /** A one-character string is contained exactly where that character occurs. */
  lemma ContainsChar(s: string, c: char)
    ensures Contains(s, [c]) <==> c in s
  {
    if c in s {
      var j :| 0 <= j < |s| && s[j] == c;
      OccursAtChar(s, c, j);
    }
    if Contains(s, [c]) {
      var j: nat :| OccursAt(s, [c], j);
      OccursAtChar(s, c, j);
    }
  }

  /** Splitting text without the separator character gives the text itself. */
  lemma SplitAbsent(a: string, c: char)
    requires c !in a
    ensures Split(a, c) == [a]
  {
    if IndexOf(a, [c]).Some? {
      OccursAtChar(a, c, IndexOf(a, [c]).value);
    }
  }

  /** The first piece of `a + [c] + b`, split on `c`, is `a` when `a` has no `c`. */
  lemma SplitAt(a: string, c: char, b: string)
    requires c !in a
    ensures Split(a + [c] + b, c) == [a] + Split(b, c)
  {
    forall j: nat | j < |a|
      ensures !OccursAt(a + [c] + b, [c], j)
    {
      OccursAtChar(a + [c] + b, c, j);
    }
    SplitOnAt(a, [c], b);
  }

  /** Joining pieces free of `c` with `c`, then splitting on `c`, gives the pieces back. */
  lemma {:induction false} SplitJoin(parts: seq<string>, c: char)
    requires |parts| >= 1
    requires forall i :: 0 <= i < |parts| ==> c !in parts[i]
    ensures Split(Join(parts, [c]), c) == parts
    decreases |parts|
  {
    if |parts| == 1 {
      SplitAbsent(parts[0], c);
    } else {
      SplitJoin(parts[1..], c);
      SplitAt(parts[0], c, Join(parts[1..], [c]));
      assert parts == [parts[0]] + parts[1..];
    }
  }

  /**
    The first piece of `s.Split(c)` is the text before the first `c`: a prefix
    of `s` without `c`, followed by `c` unless it is all of `s`.
  */
  lemma SplitFirstPiece(s: string, c: char)
    ensures var p := Split(s, c)[0];
      |p| <= |s| && s[..|p|] == p && c !in p && (|p| < |s| ==> s[|p|] == c)
  {
    match IndexOf(s, [c])
    case None =>
      ContainsChar(s, c);
    case Some(i) =>
      BeforeFirstFree(s, [c], i);
      ContainsChar(s[..i], c);
      OccursAtChar(s, c, i);
  }

  /**
    When `c` occurs in `s`, the text starts with the first piece of
    `s.Split(c)`, then `c`, then the second piece, which is followed by `c`
    unless it runs to the end.
  */
  lemma SplitFirstTwo(s: string, c: char)
    requires c in s
    ensures |Split(s, c)| >= 2
    ensures var p := Split(s, c); var n := |p[0]| + 1 + |p[1]|;
      n <= |s| && s[..n] == p[0] + [c] + p[1] && (n < |s| ==> s[n] == c)
  {
    ContainsChar(s, c);
    var i := IndexOf(s, [c]).value;
    OccursAtChar(s, c, i);
    var rest := s[i + 1..];
    assert Split(s, c) == [s[..i]] + Split(rest, c);
    SplitFirstPiece(rest, c);
    var p1 := Split(rest, c)[0];
    assert s[..i + 1 + |p1|] == s[..i] + [c] + rest[..|p1|];
  }

  /** No piece of `s.Split(c)` holds `c`. */
  lemma SplitPiecesLack(s: string, c: char)
    ensures forall k :: 0 <= k < |Split(s, c)| ==> c !in Split(s, c)[k]
  {
    SplitOnPiecesFree(s, [c]);
    forall k | 0 <= k < |Split(s, c)|
      ensures c !in Split(s, c)[k]
    {
      ContainsChar(Split(s, c)[k], c);
    }
  }

  /** With no empty piece, removing the empty pieces changes nothing. */
  lemma {:induction false} RemoveEmptyNone(parts: seq<string>)
    requires forall i :: 0 <= i < |parts| ==> parts[i] != ""
    ensures RemoveEmpty(parts) == parts
  {
    if parts != [] {
      RemoveEmptyNone(parts[1..]);
      assert parts == [parts[0]] + parts[1..];
    }
  }

  /** C# `StringSplitOptions.RemoveEmptyEntries`: drop the empty pieces, keep the order. */
  function RemoveEmpty(parts: seq<string>): (r: seq<string>)
    ensures |r| <= |parts|
    ensures forall p :: p in r <==> p in parts && p != ""
  {
    if parts == [] then []
    else (if parts[0] == "" then [] else [parts[0]]) + RemoveEmpty(parts[1..])
  }

  /** A single piece is kept exactly when it is not empty. */
  lemma RemoveEmptyOne(p: string)
    ensures RemoveEmpty([p]) == if p == "" then [] else [p]
  {
    assert [p][1..] == [];
  }

  /**
    Removing the empty pieces works piece by piece: the kept pieces of a
    concatenation are those of each part, in order and with repeats.
  */
  lemma {:induction false} RemoveEmptyAppend(a: seq<string>, b: seq<string>)
    ensures RemoveEmpty(a + b) == RemoveEmpty(a) + RemoveEmpty(b)
    decreases |a|
  {
    if a == [] {
      assert a + b == b;
    } else {
      RemoveEmptyAppend(a[1..], b);
      assert (a + b)[0] == a[0] && (a + b)[1..] == a[1..] + b;
      var head := if a[0] == "" then [] else [a[0]];
      ConcatAssoc(head, RemoveEmpty(a[1..]), RemoveEmpty(b));
    }
  }

  predicate IsUpper(c: char) {
    'A' <= c <= 'Z'
  }

  function LowerChar(c: char): (d: char)
    ensures !IsUpper(d)
    ensures IsUpper(c) || d == c
  {
    if IsUpper(c) then (c as int + 32) as char else c
  }

  /** C# `ToLower`, restricted to the ASCII letters. */
  function ToLower(s: string): (r: string)
    ensures |r| == |s|
    ensures forall i :: 0 <= i < |r| ==> !IsUpper(r[i])
  {
    seq(|s|, i requires 0 <= i < |s| => LowerChar(s[i]))
  }

  /** C# `a.Equals(b, StringComparison.OrdinalIgnoreCase)`, folding ASCII letters only. */
  predicate EqualsIgnoreCase(a: string, b: string) {
    ToLower(a) == ToLower(b)
  }

  /** C# `char.IsWhiteSpace`: U+0009 to U+000D, U+0020, U+0085, U+00A0 and the Unicode space and separator characters. */
  predicate IsWhiteSpace(c: char) {
    || c == ' '
    || ('\t' <= c <= '\r')
    || c == '\U{85}' || c == '\U{A0}' || c == '\U{1680}'
    || ('\U{2000}' <= c <= '\U{200A}')
    || c == '\U{2028}' || c == '\U{2029}' || c == '\U{202F}' || c == '\U{205F}' || c == '\U{3000}'
  }

  /** C# `string.IsNullOrWhiteSpace`, with `None` for null. */
  predicate IsNullOrWhiteSpace(s: Option<string>) {
    s.None? || forall i :: 0 <= i < |s.value| ==> IsWhiteSpace(s.value[i])
  }
}
