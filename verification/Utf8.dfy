/** UTF-8 text as bytes (RFC 3629), and the splitting of a text into pieces on character
    boundaries. */
module Utf8 {

  type Byte = b: int | 0 <= b < 256

  predicate IsTail(b: Byte) {
    0x80 <= b <= 0xBF
  }

  /** The number of bytes of the well-formed character at the front of `s`, 0 if there is
      none (the syntax of RFC 3629, section 4). */
  function CharLen(s: seq<Byte>): (n: nat)
    ensures n <= 4 && n <= |s|
    ensures forall i :: 1 <= i < n ==> IsTail(s[i])
    ensures n > 0 ==> !IsTail(s[0])
  {
    if s == [] then 0
    else if s[0] <= 0x7F then 1
    else if 0xC2 <= s[0] <= 0xDF && |s| >= 2 && IsTail(s[1]) then 2
    else if 0xE0 <= s[0] <= 0xEF && |s| >= 3 && IsTail(s[1]) && IsTail(s[2])
            && (s[0] == 0xE0 ==> 0xA0 <= s[1]) && (s[0] == 0xED ==> s[1] <= 0x9F) then 3
    else if 0xF0 <= s[0] <= 0xF4 && |s| >= 4 && IsTail(s[1]) && IsTail(s[2]) && IsTail(s[3])
            && (s[0] == 0xF0 ==> 0x90 <= s[1]) && (s[0] == 0xF4 ==> s[1] <= 0x8F) then 4
    else 0
  }

  predicate Valid(s: seq<Byte>) {
    s == [] || (CharLen(s) > 0 && Valid(s[CharLen(s)..]))
  }

  predicate IsCharBoundary(s: seq<Byte>, i: nat) {
    i == 0 || i == |s| || (i < |s| && !IsTail(s[i]))
  }

  /** The character at the front does not depend on what follows it. */
  lemma CharLenOfPrefix(s: seq<Byte>, i: nat)
    requires CharLen(s) <= i <= |s|
    ensures CharLen(s) > 0 ==> CharLen(s[..i]) == CharLen(s)
  {
  }

  /** A boundary splits a valid text into two valid texts. */
  lemma {:induction false} BoundarySplits(s: seq<Byte>, i: nat)
    requires Valid(s) && i <= |s| && IsCharBoundary(s, i)
    ensures Valid(s[..i]) && Valid(s[i..])
  {
    hide CharLen;
    var n := CharLen(s);
    if i == 0 {
      assert s[0..] == s;
    } else if i >= n {
      CharLenOfPrefix(s, i);
      BoundarySplits(s[n..], i - n);
      assert s[n..][i - n..] == s[i..];
      assert s[n..][..i - n] == s[..i][n..];
    }
  }

  /** Boundaries of a valid text are at most four bytes apart. */
  lemma {:induction false} BoundaryNearby(s: seq<Byte>, i: nat)
    requires Valid(s) && 3 < i <= |s|
    ensures exists j :: i - 3 <= j <= i && IsCharBoundary(s, j)
  {
    var n := CharLen(s);
    if i < n + 4 {
      assert n <= i ==> IsCharBoundary(s, n) by {
        if n < |s| {
          assert CharLen(s[n..]) > 0;
          assert s[n..][0] == s[n];
        }
      }
      assert i - 3 <= n;
    } else {
      BoundaryNearby(s[n..], i - n);
      var j :| i - n - 3 <= j <= i - n && IsCharBoundary(s[n..], j);
      assert IsCharBoundary(s, n + j);
    }
  }

  // ---- chunk_str ------------------------------------------------------------

  /** The inner loop: step back from `end` to a boundary, or to the front. */
  function StepBack(s: seq<Byte>, end: nat): (cut: nat)
    requires end <= |s|
    ensures cut <= end && IsCharBoundary(s, cut)
    ensures forall j :: cut < j <= end ==> !IsCharBoundary(s, j)
  {
    if end > 0 && !IsCharBoundary(s, end) then StepBack(s, end - 1) else end
  }

  /** Where the next piece of `s` ends. */
  function Cut(s: seq<Byte>, maxBytes: nat): (cut: nat)
    ensures cut <= maxBytes && cut <= |s| && IsCharBoundary(s, cut)
  {
    StepBack(s, if maxBytes <= |s| then maxBytes else |s|)
  }

  /** A cut takes something off exactly when the next character fits into a piece; a piece
      that is too small for it would be cut for ever. */
  lemma CutProgressIff(s: seq<Byte>, maxBytes: nat)
    requires Valid(s) && s != []
    ensures Cut(s, maxBytes) > 0 <==> CharLen(s) <= maxBytes
  {
    var n := CharLen(s);
    if n < |s| {
      assert s[n..][0] == s[n];
    }
    assert IsCharBoundary(s, n);
  }

  predicate Fits(s: seq<Byte>, maxBytes: nat)
    requires Valid(s)
  {
    s == [] || (CharLen(s) <= maxBytes && Fits(s[CharLen(s)..], maxBytes))
  }

  /** Four bytes are enough for any text. */
  lemma {:induction false} FourBytesFit(s: seq<Byte>, maxBytes: nat)
    requires Valid(s) && maxBytes >= 4
    ensures Fits(s, maxBytes)
  {
    if s != [] {
      FourBytesFit(s[CharLen(s)..], maxBytes);
    }
  }

  lemma {:induction false} FitsBehindBoundary(s: seq<Byte>, i: nat, maxBytes: nat)
    requires Valid(s) && Fits(s, maxBytes) && i <= |s| && IsCharBoundary(s, i)
    ensures Valid(s[i..]) && Fits(s[i..], maxBytes)
  {
    hide CharLen;
    BoundarySplits(s, i);
    var n := CharLen(s);
    if i == 0 {
      assert s[0..] == s;
    } else if i >= n {
      FitsBehindBoundary(s[n..], i - n, maxBytes);
      assert s[n..][i - n..] == s[i..];
    }
  }

  /** The pieces the outer loop pushes for the rest `s` of the text. */
  function Cuts(s: seq<Byte>, maxBytes: nat): seq<seq<Byte>>
    requires Valid(s) && Fits(s, maxBytes)
    decreases |s|
  {
    if s == [] then []
    else
      CutProgressIff(s, maxBytes);
      FitsBehindBoundary(s, Cut(s, maxBytes), maxBytes);
      [s[..Cut(s, maxBytes)]] + Cuts(s[Cut(s, maxBytes)..], maxBytes)
  }

  function Pieces(s: seq<Byte>, maxBytes: nat): seq<seq<Byte>>
    requires Valid(s) && Fits(s, maxBytes)
  {
    if s == [] then [[]] else Cuts(s, maxBytes)
  }

  /** Whole texts and rests of texts have the same boundaries. */
  lemma {:induction false} StepBackShift(s: seq<Byte>, start: nat, end: nat)
    requires start <= end <= |s|
    ensures var cut := StepBack(s[start..], end - start);
            && (start < end && !IsCharBoundary(s, end) ==> cut == StepBack(s[start..], end - 1 - start))
            && (start == end || IsCharBoundary(s, end) ==> cut == end - start)
  {
  }

  /** One turn of the outer loop, on the rest of the text. */
  lemma CutTakesPiece(s: seq<Byte>, start: nat, end: nat, maxBytes: nat)
    requires start < |s| && start <= end <= |s|
    requires Valid(s[start..]) && Fits(s[start..], maxBytes)
    requires end - start == Cut(s[start..], maxBytes)
    ensures start < end
    ensures Valid(s[end..]) && Fits(s[end..], maxBytes)
    ensures Cuts(s[start..], maxBytes) == [s[start..end]] + Cuts(s[end..], maxBytes)
  {
    hide CharLen;
    var rest := s[start..];
    CutProgressIff(rest, maxBytes);
    FitsBehindBoundary(rest, end - start, maxBytes);
    assert rest[..end - start] == s[start..end];
    assert rest[end - start..] == s[end..];
  }

  lemma NothingLeft(maxBytes: nat)
    ensures Valid([]) && Fits([], maxBytes) && Cuts([], maxBytes) == []
  {
  }

  method ChunkStr(s: seq<Byte>, maxBytes: nat) returns (out: seq<seq<Byte>>)
    requires Valid(s) && Fits(s, maxBytes)
    ensures out == Pieces(s, maxBytes)
  {
    hide Valid, Fits, CharLen, IsCharBoundary, Cuts, StepBack;
    out := [];
    var start := 0;
    assert s[0..] == s;
    assert out + Cuts(s, maxBytes) == Cuts(s, maxBytes);
    while start < |s|
      invariant start <= |s|
      invariant Valid(s[start..]) && Fits(s[start..], maxBytes)
      invariant Cuts(s, maxBytes) == out + Cuts(s[start..], maxBytes)
      invariant out == [] <==> start == 0
    {
      var end := if start + maxBytes <= |s| then start + maxBytes else |s|;
      ghost var rest := s[start..];
      while end > start && !IsCharBoundary(s, end)
        invariant start <= end <= |s|
        invariant StepBack(rest, end - start) == Cut(rest, maxBytes)
      {
        StepBackShift(s, start, end);
        end := end - 1;
      }
      StepBackShift(s, start, end);
      CutTakesPiece(s, start, end, maxBytes);
      assert out + ([s[start..end]] + Cuts(s[end..], maxBytes)) == out + [s[start..end]] + Cuts(s[end..], maxBytes);
      out := out + [s[start..end]];
      start := end;
    }
    assert s[start..] == [];
    NothingLeft(maxBytes);
    if out == [] {
      out := [[]];
    }
  }

  // ---- what the pieces are --------------------------------------------------

  function Concat(pieces: seq<seq<Byte>>): seq<Byte> {
    if pieces == [] then [] else pieces[0] + Concat(pieces[1..])
  }

  lemma ConcatEmptyPiece()
    ensures Concat([[]]) == []
  {
    var out: seq<seq<Byte>> := [[]];
    assert out[0] + Concat(out[1..]) == [];
  }

  /** Concatenation gives the text back. */
  lemma {:induction false} CutsConcat(s: seq<Byte>, maxBytes: nat)
    requires Valid(s) && Fits(s, maxBytes)
    ensures Concat(Cuts(s, maxBytes)) == s
    decreases |s|
  {
    hide CharLen, Valid, Fits;
    if s != [] {
      var cut := Cut(s, maxBytes);
      CutIsGood(s, maxBytes);
      FitsBehindBoundary(s, cut, maxBytes);
      CutsConcat(s[cut..], maxBytes);
      var out := Cuts(s, maxBytes);
      assert out[1..] == Cuts(s[cut..], maxBytes);
    }
  }

  /** A piece is valid, not empty and not too long; only the last may be more than three
      bytes short. */
  ghost predicate GoodPiece(piece: seq<Byte>, last: bool, maxBytes: nat) {
    && Valid(piece)
    && 0 < |piece| <= maxBytes
    && (!last ==> |piece| >= maxBytes - 3)
  }

  ghost predicate GoodPieces(out: seq<seq<Byte>>, maxBytes: nat) {
    forall i :: 0 <= i < |out| ==> GoodPiece(out[i], i == |out| - 1, maxBytes)
  }

  lemma CutIsGood(s: seq<Byte>, maxBytes: nat)
    requires Valid(s) && Fits(s, maxBytes) && s != []
    ensures GoodPiece(s[..Cut(s, maxBytes)], Cut(s, maxBytes) == |s|, maxBytes)
  {
    CutProgressIff(s, maxBytes);
    var cut := Cut(s, maxBytes);
    BoundarySplits(s, cut);
    if maxBytes <= |s| && maxBytes > 3 {
      BoundaryNearby(s, maxBytes);
    }
  }

  lemma {:induction false} CutsAreGood(s: seq<Byte>, maxBytes: nat)
    requires Valid(s) && Fits(s, maxBytes)
    ensures GoodPieces(Cuts(s, maxBytes), maxBytes)
    decreases |s|
  {
    if s != [] {
      var cut := Cut(s, maxBytes);
      CutIsGood(s, maxBytes);
      FitsBehindBoundary(s, cut, maxBytes);
      var rest := Cuts(s[cut..], maxBytes);
      CutsAreGood(s[cut..], maxBytes);
      var out := Cuts(s, maxBytes);
      assert out == [s[..cut]] + rest;
      forall i | 0 <= i < |out|
        ensures GoodPiece(out[i], i == |out| - 1, maxBytes)
      {
        if i == 0 {
          assert rest == [] <==> s[cut..] == [];
        } else {
          assert out[i] == rest[i - 1];
        }
      }
    }
  }

  /** `n` lengths of at least `atLeast` are shorter than `total`. */
  ghost predicate Below(n: int, atLeast: nat, total: nat) {
    n * atLeast < total
  }

  lemma {:induction false} CutsCount(s: seq<Byte>, maxBytes: nat)
    requires Valid(s) && Fits(s, maxBytes) && maxBytes >= 4 && s != []
    ensures Below(|Cuts(s, maxBytes)| - 1, maxBytes - 3, |s|)
    decreases |s|
  {
    hide CharLen, Valid, Fits, Below;
    var cut := Cut(s, maxBytes);
    CutIsGood(s, maxBytes);
    FitsBehindBoundary(s, cut, maxBytes);
    var rest := s[cut..];
    if rest == [] {
      assert |Cuts(s, maxBytes)| == 1;
      LastPiece(maxBytes - 3, |s|);
    } else {
      CutsCount(rest, maxBytes);
      OneMorePiece(|Cuts(rest, maxBytes)|, maxBytes - 3, |rest|, cut);
    }
  }

  lemma LastPiece(atLeast: nat, total: nat)
    requires total > 0
    ensures Below(0, atLeast, total)
  {
  }

  lemma OneMorePiece(n: nat, atLeast: nat, rest: nat, cut: nat)
    requires Below(n - 1, atLeast, rest) && atLeast <= cut
    ensures Below(n, atLeast, cut + rest)
  {
    assert n * atLeast == (n - 1) * atLeast + atLeast;
  }

  /** For every valid text and piece size of at least four: the pieces concatenate to the
      text, there is at least one, each is valid UTF-8 of at most `maxBytes` bytes and all
      but the last of at least `maxBytes - 3`, and there are at most
      max(1, ceil(|s| / (maxBytes - 3))) of them. */
  lemma PiecesSplitTheText(s: seq<Byte>, maxBytes: nat)
    requires Valid(s) && maxBytes >= 4
    ensures Fits(s, maxBytes)
    ensures var out := Pieces(s, maxBytes);
            && Concat(out) == s
            && |out| >= 1
            && (forall i :: 0 <= i < |out| ==>
                  Valid(out[i]) && |out[i]| <= maxBytes && (i < |out| - 1 ==> |out[i]| >= maxBytes - 3))
            && (|out| == 1 || (|out| - 1) * (maxBytes - 3) < |s|)
  {
    FourBytesFit(s, maxBytes);
    hide CharLen, Fits, Cuts, Concat;
    if s != [] {
      CutsConcat(s, maxBytes);
      CutsAreGood(s, maxBytes);
      CutsCount(s, maxBytes);
      assert GoodPieces(Cuts(s, maxBytes), maxBytes);
    } else {
      ConcatEmptyPiece();
    }
  }
}
