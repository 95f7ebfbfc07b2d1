/** Splitting a byte string on a separator of any length, and joining it again. */
module SdsSplitting {
  import opened Common
  import opened SdsQuoting

  /** The separator stands at position `j` of `s`. */
  predicate Matches(s: Bytes, j: nat, sep: Bytes) {
    j + |sep| <= |s| && s[j..j + |sep|] == sep
  }

  predicate Contains(s: Bytes, sep: Bytes) {
    exists j :: 0 <= j <= |s| && Matches(s, j, sep)
  }

  /** The first place at or after `j` where the separator stands. */
  function FirstMatch(s: Bytes, sep: Bytes, j: nat): (r: Option<nat>)
    ensures r.Some? ==> r.value >= j && Matches(s, r.value, sep) && forall k | j <= k < r.value :: !Matches(s, k, sep)
    ensures r.None? ==> forall k | j <= k <= |s| :: !Matches(s, k, sep)
    decreases |s| - j
  {
    if j + |sep| > |s| then None
    else if Matches(s, j, sep) then Some(j)
    else if j == |s| then None
    else FirstMatch(s, sep, j + 1)
  }

  /** The pieces between separators from `start` on, found from the left. */
  function Tokens(s: Bytes, sep: Bytes, start: nat): (r: seq<Bytes>)
    requires sep != [] && start <= |s|
    ensures r != []
    decreases |s| - start
  {
    match FirstMatch(s, sep, start)
    case None => [s[start..]]
    case Some(j) => [s[start..j]] + Tokens(s, sep, j + |sep|)
  }

  /** An empty string has no pieces, rather than one empty piece. */
  function Split(s: Bytes, sep: Bytes): seq<Bytes>
    requires sep != []
  {
    if s == [] then [] else Tokens(s, sep, 0)
  }

  lemma CutAt(s: Bytes, sep: Bytes, start: nat, j: nat)
    requires sep != [] && start <= j && FirstMatch(s, sep, start) == FirstMatch(s, sep, j) && Matches(s, j, sep)
    ensures j + |sep| <= |s| && Tokens(s, sep, start) == [s[start..j]] + Tokens(s, sep, j + |sep|)
  {
  }

  lemma NoCut(s: Bytes, sep: Bytes, start: nat)
    requires sep != [] && start <= |s| && FirstMatch(s, sep, start).None?
    ensures Tokens(s, sep, start) == [s[start..]]
  {
  }

  lemma SearchOn(s: Bytes, sep: Bytes, j: nat)
    requires sep != []
    ensures j + |sep| > |s| ==> FirstMatch(s, sep, j).None?
    ensures !Matches(s, j, sep) ==> FirstMatch(s, sep, j) == FirstMatch(s, sep, j + 1)
  {
  }

  lemma {:induction false} JoinTokens(s: Bytes, sep: Bytes, start: nat)
    requires sep != [] && start <= |s|
    ensures Join(Tokens(s, sep, start), sep) == s[start..]
    decreases |s| - start
  {
    match FirstMatch(s, sep, start)
    case None =>
    case Some(j) =>
      JoinTokens(s, sep, j + |sep|);
      assert Tokens(s, sep, start)[1..] == Tokens(s, sep, j + |sep|);
      assert s[start..] == s[start..j] + sep + s[j + |sep|..];
  }

  /** A match inside a piece would be a match in the string. */
  lemma PieceIsFree(s: Bytes, sep: Bytes, start: nat, end: nat)
    requires start <= end <= |s| && forall k | start <= k <= |s| && k + |sep| <= end :: !Matches(s, k, sep)
    ensures !Contains(s[start..end], sep)
  {
    var piece := s[start..end];
    forall k | 0 <= k <= |piece| && Matches(piece, k, sep)
      ensures false
    {
      SliceOfSlice(s, start, end, k, |sep|);
      assert Matches(s, start + k, sep);
    }
  }

  lemma SliceOfSlice<T>(s: seq<T>, start: nat, end: nat, k: nat, n: nat)
    requires start <= end <= |s| && k + n <= end - start
    ensures s[start..end][k..k + n] == s[start + k..start + k + n]
  {
    var a, b := s[start..end][k..k + n], s[start + k..start + k + n];
    assert forall i | 0 <= i < n :: a[i] == s[start + k + i] && b[i] == s[start + k + i];
  }

  lemma {:induction false} TokensAreFree(s: Bytes, sep: Bytes, start: nat, i: nat)
    requires sep != [] && start <= |s| && i < |Tokens(s, sep, start)|
    ensures !Contains(Tokens(s, sep, start)[i], sep)
    decreases |s| - start
  {
    match FirstMatch(s, sep, start)
    case None =>
      PieceIsFree(s, sep, start, |s|);
      assert s[start..] == s[start..|s|];
    case Some(j) =>
      if i == 0 {
        PieceIsFree(s, sep, start, j);
      } else {
        TokensAreFree(s, sep, j + |sep|, i - 1);
      }
  }

  /** Splitting and joining give back every string, for every separator, and no
      piece contains the separator. */
  lemma SplitThenJoin(s: Bytes, sep: Bytes)
    requires sep != []
    ensures Join(Split(s, sep), sep) == s
    ensures forall i | 0 <= i < |Split(s, sep)| :: !Contains(Split(s, sep)[i], sep)
  {
    JoinTokens(s, sep, 0);
    if s != [] {
      forall i | 0 <= i < |Tokens(s, sep, 0)| {
        TokensAreFree(s, sep, 0, i);
      }
    }
  }

  // -------------------------------------------- joining and then splitting

  /** Every piece before the last, with the separator after it, holds the
      separator at its end only, and the last piece does not hold it. */
  predicate Survives(parts: seq<Bytes>, sep: Bytes)
    requires sep != []
  {
    if parts == [] then true
    else if |parts| == 1 then !Contains(parts[0], sep)
    else FirstMatch(parts[0] + sep, sep, 0) == Some(|parts[0]|) && Survives(parts[1..], sep)
  }

  /** Whether the separator stands in the middle of three strings, up to the
      end of the middle one, is seen from the middle one. */
  lemma MatchInside(before: Bytes, middle: Bytes, after: Bytes, sep: Bytes, k: nat)
    requires k + |sep| <= |middle|
    ensures Matches(before + middle + after, |before| + k, sep) <==> Matches(middle, k, sep)
  {
    var s := before + middle + after;
    assert s[|before| + k..|before| + k + |sep|] == middle[k..k + |sep|];
  }

  /** In a joined string the search from the start of a piece finds what it
      finds in that piece and the separator after it. */
  lemma FirstSeam(before: Bytes, piece: Bytes, sep: Bytes, rest: Bytes)
    requires sep != []
    ensures FirstMatch(piece + sep, sep, 0).Some? && FirstMatch(piece + sep, sep, 0).value <= |piece|
    ensures FirstMatch(before + (piece + sep) + rest, sep, |before|)
            == Some(|before| + FirstMatch(piece + sep, sep, 0).value)
  {
    var middle := piece + sep;
    var s := before + middle + rest;
    assert middle[|piece|..|piece| + |sep|] == sep;
    assert Matches(middle, |piece|, sep);
    var first := FirstMatch(middle, sep, 0).value;
    MatchInside(before, middle, rest, sep, first);
    hide Matches, FirstMatch;
    forall k | |before| <= k < |before| + first
      ensures !Matches(s, k, sep)
    {
      MatchInside(before, middle, rest, sep, k - |before|);
    }
    var found := FirstMatch(s, sep, |before|);
    assert found.Some? && found.value <= |before| + first;
  }

  lemma MatchAtEnd(before: Bytes, piece: Bytes, sep: Bytes, k: nat)
    requires k + |sep| <= |piece|
    ensures Matches(before + piece, |before| + k, sep) <==> Matches(piece, k, sep)
  {
    MatchInside(before, piece, [], sep, k);
    assert before + piece + [] == before + piece;
  }

  lemma LastSeam(before: Bytes, piece: Bytes, sep: Bytes)
    requires sep != []
    ensures FirstMatch(before + piece, sep, |before|).Some? <==> Contains(piece, sep)
  {
    hide FirstMatch;
    var found := FirstMatch(before + piece, sep, |before|);
    if found.Some? {
      MatchAtEnd(before, piece, sep, found.value - |before|);
    }
    if Contains(piece, sep) {
      var k :| 0 <= k <= |piece| && Matches(piece, k, sep);
      MatchAtEnd(before, piece, sep, k);
    }
  }

  lemma ConsEqual<T>(a: T, x: seq<T>, b: T, y: seq<T>)
    ensures [a] + x == [b] + y <==> a == b && x == y
  {
    assert ([a] + x)[1..] == x && ([b] + y)[1..] == y && ([a] + x)[0] == a && ([b] + y)[0] == b;
  }

  lemma FirstCut(s: Bytes, sep: Bytes, start: nat, j: nat)
    requires sep != [] && start <= |s| && FirstMatch(s, sep, start) == Some(j)
    ensures Tokens(s, sep, start) == [s[start..j]] + Tokens(s, sep, j + |sep|)
  {
    hide FirstMatch;
  }

  /** What is cut off is the piece if it is as long. */
  lemma CutIsPiece(before: Bytes, piece: Bytes, sep: Bytes, rest: Bytes, n: nat)
    requires n <= |piece|
    ensures (before + (piece + sep) + rest)[|before|..|before| + n] == piece <==> n == |piece|
  {
    if n == |piece| {
      assert (before + (piece + sep) + rest)[|before|..|before| + n] == piece;
    }
  }

  /** The first cut of a joined string, and when it is right. */
  lemma FirstToken(before: Bytes, piece: Bytes, sep: Bytes, rest: Bytes) returns (cut: Bytes, tail: seq<Bytes>)
    requires sep != []
    ensures Tokens(before + (piece + sep) + rest, sep, |before|) == [cut] + tail
    ensures cut == piece <==> FirstMatch(piece + sep, sep, 0) == Some(|piece|)
    ensures cut == piece ==> tail == Tokens(before + (piece + sep) + rest, sep, |before + (piece + sep)|)
  {
    hide Tokens, FirstMatch, Matches;
    var s := before + (piece + sep) + rest;
    FirstSeam(before, piece, sep, rest);
    var first := FirstMatch(piece + sep, sep, 0).value;
    var j := |before| + first;
    FirstCut(s, sep, |before|, j);
    cut, tail := s[|before|..j], Tokens(s, sep, j + |sep|);
    assert cut == piece <==> first == |piece| by {
      CutIsPiece(before, piece, sep, rest, first);
    }
  }

  lemma LastToken(before: Bytes, piece: Bytes, sep: Bytes)
    requires sep != []
    ensures Tokens(before + piece, sep, |before|) == [piece] <==> !Contains(piece, sep)
  {
    LastSeam(before, piece, sep);
    assert (before + piece)[|before|..] == piece;
  }

  lemma {:induction false} TokensOfJoin(before: Bytes, parts: seq<Bytes>, sep: Bytes)
    requires sep != [] && parts != []
    ensures Tokens(before + Join(parts, sep), sep, |before|) == parts <==> Survives(parts, sep)
    decreases |parts|
  {
    hide Tokens, Contains, FirstMatch;
    if |parts| == 1 {
      LastToken(before, parts[0], sep);
    } else {
      var rest := Join(parts[1..], sep);
      var seam := before + (parts[0] + sep);
      assert before + Join(parts, sep) == seam + rest;
      var cut, tail := FirstToken(before, parts[0], sep, rest);
      TokensOfJoin(seam, parts[1..], sep);
      assert [parts[0]] + parts[1..] == parts;
      ConsEqual(cut, tail, parts[0], parts[1..]);
    }
  }

  /** For every separator, joining and splitting give back exactly the lists
      that are not one empty piece, and in which neither a piece nor the end of
      a piece with the start of the separator after it holds the separator. */
  lemma JoinThenSplitIff(parts: seq<Bytes>, sep: Bytes)
    requires sep != []
    ensures Split(Join(parts, sep), sep) == parts <==> parts != [[]] && Survives(parts, sep)
  {
    hide Tokens, Survives;
    if parts == [] {
      assert Survives(parts, sep) by {
        NoPieces(sep);
      }
    } else {
      var none: Bytes := [];
      TokensOfJoin(none, parts, sep);
      assert none + Join(parts, sep) == Join(parts, sep);
    }
  }

  lemma NoPieces(sep: Bytes)
    requires sep != []
    ensures Survives([], sep)
  {
  }

  lemma FreeOfByte(s: Bytes, b: byte)
    ensures Contains(s, [b]) <==> b in s
  {
    if b in s {
      var j :| 0 <= j < |s| && s[j] == b;
      assert s[j..j + 1] == [b];
      assert Matches(s, j, [b]);
    }
    if Contains(s, [b]) {
      var j :| 0 <= j <= |s| && Matches(s, j, [b]);
      assert s[j] == s[j..j + 1][0] == b;
    }
  }

  lemma MatchOneByte(s: Bytes, j: nat, b: byte)
    ensures Matches(s, j, [b]) <==> j < |s| && s[j] == b
  {
    if j < |s| {
      assert s[j..j + 1] == [s[j]];
    }
  }

  lemma OneByteSeam(piece: Bytes, b: byte)
    ensures FirstMatch(piece + [b], [b], 0) == Some(|piece|) <==> b !in piece
  {
    hide Matches, FirstMatch;
    var s := piece + [b];
    MatchOneByte(s, |piece|, b);
    var found := FirstMatch(s, [b], 0);
    if found.Some? {
      MatchOneByte(s, found.value, b);
    }
    if b in piece {
      var j :| 0 <= j < |piece| && piece[j] == b;
      MatchOneByte(s, j, b);
    }
  }

  /** A separator of one byte cannot straddle a seam. */
  lemma {:induction false} OneByteSurvives(parts: seq<Bytes>, b: byte)
    ensures Survives(parts, [b]) <==> forall i | 0 <= i < |parts| :: b !in parts[i]
    decreases |parts|
  {
    hide Contains, FirstMatch;
    if |parts| == 1 {
      FreeOfByte(parts[0], b);
    } else if |parts| > 1 {
      OneByteSurvives(parts[1..], b);
      OneByteSeam(parts[0], b);
      assert forall i | 0 < i < |parts| :: parts[i] == parts[1..][i - 1];
    }
  }

  /** With one byte for a separator, the pieces need only be free of it. */
  lemma JoinThenSplitOneByte(parts: seq<Bytes>, b: byte)
    ensures Split(Join(parts, [b]), [b]) == parts <==>
              parts != [[]] && forall i | 0 <= i < |parts| :: b !in parts[i]
  {
    hide Split, Survives;
    JoinThenSplitIff(parts, [b]);
    OneByteSurvives(parts, b);
  }

  // ------------------------------------------------------------- the loop

  /** The first `elements` slots hold the pieces found. */
  ghost predicate Holds(tokens: array<Bytes>, elements: nat, found: seq<Bytes>)
    reads tokens
  {
    elements <= tokens.Length && tokens[..elements] == found
  }

  /** Doubles the token array when the next token and the last one may not fit. */
  method Reserve(tokens: array<Bytes>, elements: nat, ghost found: seq<Bytes>) returns (r: array<Bytes>)
    requires Holds(tokens, elements, found) && elements + 1 <= tokens.Length && tokens.Length >= 5
    ensures Holds(r, elements, found) && r.Length >= elements + 2 && r.Length >= 5
    ensures r == tokens || fresh(r)
  {
    r := tokens;
    if tokens.Length < elements + 2 {
      r := new Bytes[tokens.Length * 2](_ => []);
      forall i | 0 <= i < tokens.Length {
        r[i] := tokens[i];
      }
    }
  }

  /** Puts a token into the next slot. */
  method Store(tokens: array<Bytes>, elements: nat, piece: Bytes, ghost found: seq<Bytes>)
    requires Holds(tokens, elements, found) && elements < tokens.Length
    modifies tokens
    ensures Holds(tokens, elements + 1, found + [piece])
  {
    tokens[elements] := piece;
  }

  /** Splits `s`; None when the separator is empty. The result is an array, of
      which the first `count` slots are in use. */
  method SplitLen(s: Bytes, sep: Bytes) returns (r: Option<array<Bytes>>, count: nat)
    ensures r.None? <==> sep == []
    ensures r.Some? ==> count <= r.value.Length && r.value[..count] == Split(s, sep)
  {
    if |sep| < 1 {
      return None, 0;
    }
    var tokens := new Bytes[5](_ => []);
    if |s| == 0 {
      return Some(tokens), 0;
    }
    tokens, count := Scan(s, sep, tokens);
    return Some(tokens), count;
  }

  /** The loop, and the last piece. */
  method Scan(s: Bytes, sep: Bytes, empty: array<Bytes>) returns (tokens: array<Bytes>, elements: nat)
    requires s != [] && sep != [] && empty.Length == 5
    modifies empty
    ensures Holds(tokens, elements, Split(s, sep))
  {
    var start: nat, j: nat := 0, 0;
    tokens, elements := empty, 0;
    ghost var found: seq<Bytes> := [];
    SplitBegin(s, sep);
    assert Holds(tokens, 0, []);
    hide SplitSoFar, Split, Matches, Piece, Holds;
    while j + (|sep| - 1) < |s|
      invariant start <= |s| && elements + 1 <= tokens.Length && tokens.Length >= 5
      invariant tokens == empty || fresh(tokens)
      invariant Holds(tokens, elements, found) && SplitSoFar(s, sep, found, start, j)
      decreases |s| - j
    {
      tokens := Reserve(tokens, elements, found);
      elements, start, j, found := ScanTurn(s, sep, tokens, elements, start, j, found);
    }
    SplitEnd(s, sep, found, start, j);
    Store(tokens, elements, Piece(s, start, |s|), found);
    elements := elements + 1;
  }

  /** One turn: cuts off a piece if the separator stands at `j0`. */
  method ScanTurn(s: Bytes, sep: Bytes, tokens: array<Bytes>, elements0: nat, start0: nat, j0: nat,
                  ghost found0: seq<Bytes>)
    returns (elements: nat, start: nat, j: nat, ghost found: seq<Bytes>)
    requires sep != [] && j0 + |sep| <= |s| && elements0 + 2 <= tokens.Length
    requires Holds(tokens, elements0, found0) && SplitSoFar(s, sep, found0, start0, j0)
    modifies tokens
    ensures start <= |s| && j0 < j && elements + 1 <= tokens.Length
    ensures Holds(tokens, elements, found) && SplitSoFar(s, sep, found, start, j)
  {
    elements, start, j, found := elements0, start0, j0, found0;
    SplitInRange(s, sep, found, start, j);
    hide SplitSoFar, Matches, Piece, Holds, FirstMatch, Tokens;
    if Matches(s, j, sep) {
      SplitCut(s, sep, found, start, j);
      found := found + [Piece(s, start, j)];
      Store(tokens, elements, Piece(s, start, j), found0);
      elements := elements + 1;
      start := j + |sep|;
      j := j + |sep| - 1;
    } else {
      SplitOn(s, sep, found, start, j);
    }
    j := j + 1;
  }

  /** A copy of the bytes from `start` up to `end`. */
  function Piece(s: Bytes, start: nat, end: nat): Bytes
    requires start <= end <= |s|
  {
    s[start..end]
  }

  /** `found` are the pieces before `start`, and none ends before `j`. */
  ghost predicate SplitSoFar(s: Bytes, sep: Bytes, found: seq<Bytes>, start: nat, j: nat)
    requires sep != []
  {
    && start <= j && start <= |s|
    && FirstMatch(s, sep, start) == FirstMatch(s, sep, j)
    && Tokens(s, sep, 0) == found + Tokens(s, sep, start)
  }

  lemma SplitBegin(s: Bytes, sep: Bytes)
    requires sep != []
    ensures SplitSoFar(s, sep, [], 0, 0)
  {
    assert [] + Tokens(s, sep, 0) == Tokens(s, sep, 0);
  }

  lemma SplitInRange(s: Bytes, sep: Bytes, found: seq<Bytes>, start: nat, j: nat)
    requires sep != [] && SplitSoFar(s, sep, found, start, j)
    ensures start <= j && start <= |s|
  {
  }

  /** Passing over a byte where the separator does not stand. */
  lemma SplitOn(s: Bytes, sep: Bytes, found: seq<Bytes>, start: nat, j: nat)
    requires sep != [] && SplitSoFar(s, sep, found, start, j) && !Matches(s, j, sep)
    ensures SplitSoFar(s, sep, found, start, j + 1)
  {
    hide FirstMatch, Tokens, Matches;
    SearchOn(s, sep, j);
  }

  /** Cutting where it stands. */
  lemma SplitCut(s: Bytes, sep: Bytes, found: seq<Bytes>, start: nat, j: nat)
    requires sep != [] && j + |sep| <= |s| && SplitSoFar(s, sep, found, start, j) && Matches(s, j, sep)
    ensures start <= j && SplitSoFar(s, sep, found + [Piece(s, start, j)], j + |sep|, j + |sep|)
  {
    hide FirstMatch, Tokens, Matches;
    CutAt(s, sep, start, j);
    Regroup(found, [s[start..j]], Tokens(s, sep, j + |sep|));
  }

  lemma SplitEnd(s: Bytes, sep: Bytes, found: seq<Bytes>, start: nat, j: nat)
    requires s != [] && sep != [] && j + |sep| > |s| && SplitSoFar(s, sep, found, start, j)
    ensures start <= |s| && Split(s, sep) == found + [Piece(s, start, |s|)]
  {
    assert s[start..] == s[start..|s|];
    SearchOn(s, sep, j);
    NoCut(s, sep, start);
  }

  lemma Regroup<T>(a: seq<T>, b: seq<T>, c: seq<T>)
    ensures a + (b + c) == (a + b) + c
  {
  }
}
