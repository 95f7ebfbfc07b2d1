/** Quoting byte strings for a command line and splitting the line back into its
    arguments, with double and single quotes and escapes. */
module SdsQuoting {
  import opened Common

  const QUOTE: byte := 34       // "
  const APOSTROPHE: byte := 39  // '
  const BACKSLASH: byte := 92
  const SPACE: byte := 32
  const BELL: byte := 7
  const BACKSPACE: byte := 8
  const TAB: byte := 9
  const NEWLINE: byte := 10
  const RETURN: byte := 13
  const LETTER_A: byte := 97
  const LETTER_B: byte := 98
  const LETTER_N: byte := 110
  const LETTER_R: byte := 114
  const LETTER_T: byte := 116
  const LETTER_X: byte := 120

  // ----------------------------------------------------- character classes

  /** isspace and isprint of the C locale. */
  predicate IsSpace(c: byte) {
    9 <= c <= 13 || c == SPACE
  }

  predicate IsPrint(c: byte) {
    32 <= c < 127
  }

  predicate IsHexDigit(c: byte) {
    48 <= c <= 57 || 97 <= c <= 102 || 65 <= c <= 70
  }

  function HexDigitToInt(c: byte): (n: nat)
    ensures n < 16
  {
    if 48 <= c <= 57 then c - 48
    else if 97 <= c <= 102 then c - 97 + 10
    else if 65 <= c <= 70 then c - 65 + 10
    else 0
  }

  /** A lower-case hex digit. */
  function HexDigit(n: nat): (c: byte)
    requires n < 16
    ensures IsHexDigit(c) && HexDigitToInt(c) == n
  {
    if n < 10 then 48 + n else 97 + n - 10
  }

  // -------------------------------------------------------------- quoting

  /** The printed form of one byte. */
  function Escape(c: byte): (e: Bytes)
    ensures 0 !in e
  {
    if c == BACKSLASH || c == QUOTE then [BACKSLASH, c]
    else if c == NEWLINE then [BACKSLASH, LETTER_N]
    else if c == RETURN then [BACKSLASH, LETTER_R]
    else if c == TAB then [BACKSLASH, LETTER_T]
    else if c == BELL then [BACKSLASH, LETTER_A]
    else if c == BACKSPACE then [BACKSLASH, LETTER_B]
    else if IsPrint(c) then [c]
    else [BACKSLASH, LETTER_X, HexDigit(c / 16), HexDigit(c % 16)]
  }

  function EscapeAll(p: Bytes): (e: Bytes)
    ensures 0 !in e
  {
    if p == [] then [] else Escape(p[0]) + EscapeAll(p[1..])
  }

  /** The quoted form: no byte of it is zero, so it can be a C string. */
  function Repr(p: Bytes): (r: Bytes)
    ensures 0 !in r
  {
    [QUOTE] + EscapeAll(p) + [QUOTE]
  }

  lemma {:induction false} EscapeNext(p: Bytes, i: nat)
    requires i < |p|
    ensures EscapeAll(p[..i + 1]) == EscapeAll(p[..i]) + Escape(p[i])
  {
    hide Escape;
    if i > 0 {
      EscapeNext(p[1..], i - 1);
      assert p[..i + 1][1..] == p[1..][..i] && p[..i][1..] == p[1..][..i - 1];
      assert Escape(p[0]) + (EscapeAll(p[1..][..i - 1]) + Escape(p[i])) == EscapeAll(p[..i]) + Escape(p[i]);
    } else {
      assert p[..1][1..] == [] && p[..0] == [];
      assert Escape(p[0]) + EscapeAll([]) == EscapeAll(p[..0]) + Escape(p[0]);
    }
  }

  /** Appends the quoted form of `p` to `s`, byte by byte. */
  method CatRepr(s: Bytes, p: Bytes) returns (r: Bytes)
    ensures r == s + Repr(p)
  {
    hide EscapeAll;
    r := s + [QUOTE];
    var i := 0;
    assert EscapeAll(p[..0]) == [] by {
      NothingEscaped(p);
    }
    while i < |p|
      invariant i <= |p|
      invariant r == s + [QUOTE] + EscapeAll(p[..i])
    {
      EscapeNext(p, i);
      r := CatEscape(r, p[i]);
      i := i + 1;
    }
    assert p[..i] == p;
    r := r + [QUOTE];
  }

  lemma NothingEscaped(p: Bytes)
    ensures EscapeAll(p[..0]) == []
  {
  }

  /** The body of the loop: appends the printed form of one byte. */
  method CatEscape(s: Bytes, c: byte) returns (r: Bytes)
    ensures r == s + Escape(c)
  {
    if c == BACKSLASH || c == QUOTE {
      r := s + [BACKSLASH, c];
    } else if c == NEWLINE {
      r := s + [BACKSLASH, LETTER_N];
    } else if c == RETURN {
      r := s + [BACKSLASH, LETTER_R];
    } else if c == TAB {
      r := s + [BACKSLASH, LETTER_T];
    } else if c == BELL {
      r := s + [BACKSLASH, LETTER_A];
    } else if c == BACKSPACE {
      r := s + [BACKSLASH, LETTER_B];
    } else if IsPrint(c) {
      r := s + [c];
    } else {
      r := s + [BACKSLASH, LETTER_X, HexDigit(c / 16), HexDigit(c % 16)];
    }
  }

  // -------------------------------------------------------------- parsing

  /** What a backslash and `c` stand for inside double quotes. */
  function Unescape(c: byte): byte {
    if c == LETTER_N then NEWLINE
    else if c == LETTER_R then RETURN
    else if c == LETTER_T then TAB
    else if c == LETTER_B then BACKSPACE
    else if c == LETTER_A then BELL
    else c
  }

  datatype Mode = Plain | InQuotes | InSingleQuotes

  predicate IsHexEscape(s: Bytes) {
    |s| >= 4 && s[0] == BACKSLASH && s[1] == LETTER_X && IsHexDigit(s[2]) && IsHexDigit(s[3])
  }

  /** A closing quote must end the line or be followed by a blank. */
  predicate ClosesWell(s: Bytes)
    requires s != []
  {
    |s| == 1 || IsSpace(s[1])
  }

  predicate IsBlank(c: byte) {
    c == SPACE || c == NEWLINE || c == RETURN || c == TAB
  }

  /** One turn of the inner loop: what the front of `s` does to the argument. */
  datatype Turn =
    | Fail
    | Take(taken: Bytes, rest: Bytes, mode: Mode)
    | Finish(rest: Bytes)

  function TurnAt(s: Bytes, mode: Mode): (t: Turn)
    ensures t.Take? ==> |t.rest| < |s|
    ensures t.Finish? ==> |t.rest| <= |s| && (s != [] ==> |t.rest| < |s|)
  {
    match mode
    case InQuotes =>
      if IsHexEscape(s) then Take([HexDigitToInt(s[2]) * 16 + HexDigitToInt(s[3])], s[4..], InQuotes)
      else if |s| >= 2 && s[0] == BACKSLASH then Take([Unescape(s[1])], s[2..], InQuotes)
      else if s == [] then Fail
      else if s[0] == QUOTE then if ClosesWell(s) then Finish(s[1..]) else Fail
      else Take([s[0]], s[1..], InQuotes)
    case InSingleQuotes =>
      if |s| >= 2 && s[0] == BACKSLASH && s[1] == APOSTROPHE then Take([APOSTROPHE], s[2..], InSingleQuotes)
      else if s == [] then Fail
      else if s[0] == APOSTROPHE then if ClosesWell(s) then Finish(s[1..]) else Fail
      else Take([s[0]], s[1..], InSingleQuotes)
    case Plain =>
      if s == [] then Finish([])
      else if IsBlank(s[0]) then Finish(s[1..])
      else if s[0] == QUOTE then Take([], s[1..], InQuotes)
      else if s[0] == APOSTROPHE then Take([], s[1..], InSingleQuotes)
      else Take([s[0]], s[1..], Plain)
  }

  /** The argument at the front of `s`, after `current`, and what follows it. */
  function Argument(s: Bytes, mode: Mode, current: Bytes): (r: Option<(Bytes, Bytes)>)
    ensures r.Some? ==> |r.value.1| <= |s| && (s != [] ==> |r.value.1| < |s|)
    decreases |s|
  {
    var t := TurnAt(s, mode);
    match t
    case Fail => None
    case Finish(rest) => Some((current, rest))
    case Take(taken, rest, mode') => Argument(rest, mode', current + taken)
  }

  function SkipBlanks(s: Bytes): (r: Bytes)
    ensures |r| <= |s| && (r != [] ==> !IsSpace(r[0]))
  {
    if s != [] && IsSpace(s[0]) then SkipBlanks(s[1..]) else s
  }

  /** All the arguments of a line; None for unbalanced or badly closed quotes. */
  function Arguments(line: Bytes): Option<seq<Bytes>>
    decreases |line|
  {
    var s := SkipBlanks(line);
    if s == [] then Some([])
    else
      var (first, rest) :- Argument(s, Plain, []);
      var others :- Arguments(rest);
      Some([first] + others)
  }

  // ------------------------------------------------------------ round trip

  /** Inside quotes, the printed form of a byte is read as the byte. */
  lemma ReadEscape(c: byte, more: Bytes)
    ensures TurnAt(Escape(c) + more, InQuotes) == Take([c], more, InQuotes)
  {
    var s := Escape(c) + more;
    assert s[|Escape(c)|..] == more;
    assert c == c / 16 * 16 + c % 16;
  }

  lemma ArgumentTakes(s: Bytes, mode: Mode, current: Bytes, taken: Bytes, rest: Bytes, mode': Mode)
    requires TurnAt(s, mode) == Take(taken, rest, mode')
    ensures Argument(s, mode, current) == Argument(rest, mode', current + taken)
  {
  }

  /** The closing quote ends the argument. */
  lemma ReadClosingQuote(rest: Bytes, current: Bytes)
    requires rest == [] || IsSpace(rest[0])
    ensures Argument([QUOTE] + rest, InQuotes, current) == Some((current, rest))
  {
    var s := [QUOTE] + rest;
    assert s[1..] == rest && ClosesWell(s);
    assert TurnAt(s, InQuotes) == Finish(rest);
  }

  lemma EscapeFirst(p: Bytes, tail: Bytes)
    requires p != []
    ensures EscapeAll(p) + tail == Escape(p[0]) + (EscapeAll(p[1..]) + tail)
  {
    hide Escape;
  }

  lemma {:induction false} ReadEscaped(p: Bytes, rest: Bytes, current: Bytes)
    requires rest == [] || IsSpace(rest[0])
    ensures Argument(EscapeAll(p) + ([QUOTE] + rest), InQuotes, current) == Some((current + p, rest))
  {
    var tail := [QUOTE] + rest;
    hide TurnAt, Escape, Argument, IsSpace;
    if p == [] {
      assert EscapeAll(p) + tail == tail && current + p == current;
      ReadClosingQuote(rest, current);
    } else {
      var more := EscapeAll(p[1..]) + tail;
      EscapeFirst(p, tail);
      ReadEscape(p[0], more);
      ArgumentTakes(Escape(p[0]) + more, InQuotes, current, [p[0]], more, InQuotes);
      ReadEscaped(p[1..], rest, current + [p[0]]);
      assert current + [p[0]] + p[1..] == current + p;
    }
  }

  /** A quoted argument is read back whole. */
  lemma ReadRepr(p: Bytes, rest: Bytes)
    requires rest == [] || IsSpace(rest[0])
    ensures Argument(Repr(p) + rest, Plain, []) == Some((p, rest))
  {
    var inside := EscapeAll(p) + ([QUOTE] + rest);
    var s := [QUOTE] + inside;
    assert Repr(p) + rest == s;
    assert s[1..] == inside && TurnAt(s, Plain) == Take([], inside, InQuotes);
    hide TurnAt, EscapeAll, Argument;
    var none: Bytes := [];
    assert none + none == none && none + p == p;
    ArgumentTakes(s, Plain, none, none, inside, InQuotes);
    ReadEscaped(p, rest, none);
  }

  function Join(parts: seq<Bytes>, sep: Bytes): Bytes {
    if parts == [] then [] else if |parts| == 1 then parts[0] else parts[0] + sep + Join(parts[1..], sep)
  }

  function ReprAll(args: seq<Bytes>): (r: seq<Bytes>)
    ensures |r| == |args| && forall i | 0 <= i < |r| :: r[i] == Repr(args[i])
  {
    if args == [] then [] else [Repr(args[0])] + ReprAll(args[1..])
  }

  /** Quoting every argument, joining with blanks and splitting gives back the
      arguments, whatever bytes they are made of. */
  lemma {:induction false} QuoteThenSplit(args: seq<Bytes>)
    ensures Arguments(Join(ReprAll(args), [SPACE])) == Some(args)
  {
    var line := Join(ReprAll(args), [SPACE]);
    if args != [] {
      var others := Join(ReprAll(args[1..]), [SPACE]);
      var rest := if |args| == 1 then [] else [SPACE] + others;
      assert line == Repr(args[0]) + rest;
      assert line[0] == QUOTE;
      ReadRepr(args[0], rest);
      QuoteThenSplit(args[1..]);
      LeadingBlank(others);
      assert [args[0]] + args[1..] == args;
    }
  }

  lemma LeadingBlank(s: Bytes)
    ensures Arguments([SPACE] + s) == Arguments(s)
  {
    assert ([SPACE] + s)[1..] == s;
  }

  /** The joined line is a C string. */
  lemma {:induction false} JoinedHasNoZero(args: seq<Bytes>)
    ensures 0 !in Join(ReprAll(args), [SPACE])
  {
    if |args| > 1 {
      JoinedHasNoZero(args[1..]);
    }
  }

  // ------------------------------------------------------------- the loops

  /** The byte at `p` of a C string: zero at its end. */
  function At(line: Bytes, p: nat): byte
    requires p <= |line|
  {
    if p < |line| then line[p] else 0
  }

  /** Joins strings with a separator between them. */
  method JoinSds(parts: seq<Bytes>, sep: Bytes) returns (join: Bytes)
    ensures join == Join(parts, sep)
  {
    join := [];
    var j := 0;
    while j < |parts|
      invariant j <= |parts|
      invariant Join(parts, sep) == join + Join(parts[j..], sep)
    {
      assert parts[j..][1..] == parts[j + 1..];
      join := join + parts[j];
      if j != |parts| - 1 {
        join := join + sep;
      }
      j := j + 1;
    }
  }

  /** The arguments found so far, before those still to come. */
  function Prefixed(args: seq<Bytes>, more: Option<seq<Bytes>>): Option<seq<Bytes>> {
    if more.None? then None else Some(args + more.value)
  }

  lemma NoPrefix(more: Option<seq<Bytes>>)
    ensures Prefixed([], more) == more
  {
    if more.Some? {
      assert [] + more.value == more.value;
    }
  }

  lemma {:induction false} ArgumentsAfterBlanks(line: Bytes)
    ensures Arguments(line) == Arguments(SkipBlanks(line))
  {
    if line != [] && IsSpace(line[0]) {
      ArgumentsAfterBlanks(line[1..]);
    }
  }

  /** Splitting off the first argument of a line that starts with one. */
  lemma FirstArgument(args: seq<Bytes>, s: Bytes)
    requires s != [] && !IsSpace(s[0])
    ensures Prefixed(args, Arguments(s))
         == match Argument(s, Plain, [])
            case None => None
            case Some((first, rest)) => Prefixed(args + [first], Arguments(rest))
  {
    match Argument(s, Plain, [])
    case None =>
    case Some((first, rest)) =>
      if Arguments(rest).Some? {
        assert args + ([first] + Arguments(rest).value) == args + [first] + Arguments(rest).value;
      }
  }

  /** Splits a line into arguments. */
  method SplitArgs(line: Bytes) returns (vector: Option<seq<Bytes>>)
    requires 0 !in line
    ensures vector == Arguments(line)
  {
    var p := 0;
    var args: seq<Bytes> := [];
    assert line[0..] == line;
    NoPrefix(Arguments(line));
    hide Argument;
    while true
      invariant p <= |line|
      invariant Arguments(line) == Prefixed(args, Arguments(line[p..]))
      decreases |line| - p
    {
      p := PassBlanks(line, p);
      if At(line, p) == 0 {
        assert line[p..] == [] && args + [] == args;
        return Some(args);
      }
      FirstArgument(args, line[p..]);
      var current, p' := GetToken(line, p);
      if current.None? {
        return None;
      }
      args := args + [current.value];
      p := p';
    }
  }

  method PassBlanks(line: Bytes, start: nat) returns (p: nat)
    requires 0 !in line && start <= |line|
    ensures start <= p <= |line| && (p < |line| ==> !IsSpace(line[p]))
    ensures Arguments(line[p..]) == Arguments(line[start..])
  {
    p := start;
    while At(line, p) != 0 && IsSpace(At(line, p))
      invariant start <= p <= |line| && SkipBlanks(line[start..]) == SkipBlanks(line[p..])
      decreases |line| - p
    {
      assert line[p..][1..] == line[p + 1..];
      p := p + 1;
    }
    ArgumentsAfterBlanks(line[start..]);
    ArgumentsAfterBlanks(line[p..]);
  }

  function ModeOf(inq: bool, insq: bool): Mode {
    if inq then InQuotes else if insq then InSingleQuotes else Plain
  }

  /** Reads one argument, with flags for the quotes it is in. */
  method GetToken(line: Bytes, start: nat) returns (token: Option<Bytes>, p: nat)
    requires 0 !in line && start < |line|
    ensures p <= |line| && (token.Some? ==> start < p)
    ensures Argument(line[start..], Plain, []) == if token.None? then None else Some((token.value, line[p..]))
  {
    var inq, insq, done := false, false, false;
    var current: Bytes := [];
    p := start;
    ghost var result := Argument(line[start..], Plain, []);
    hide TurnAt;
    while !done
      invariant start <= p <= |line| && !(inq && insq) && (done ==> start < p)
      invariant result == if done then Some((current, line[p..])) else Argument(line[p..], ModeOf(inq, insq), current)
      decreases !done, |line| - p
    {
      var taken, failed;
      failed, done, inq, insq, taken, p := TakeTurn(line, p, inq, insq);
      if failed {
        return None, p;
      }
      if done {
        assert current + taken == current;
      }
      current := current + taken;
    }
    token := Some(current);
  }

  /** One turn: looks at the byte at `p` (and some after it, never past the
      terminator), and moves on. */
  method TakeTurn(line: Bytes, start: nat, inq0: bool, insq0: bool)
    returns (failed: bool, done: bool, inq: bool, insq: bool, taken: Bytes, p: nat)
    requires 0 !in line && start <= |line| && !(inq0 && insq0)
    ensures p <= |line| && !(inq && insq)
    ensures TurnAt(line[start..], ModeOf(inq0, insq0))
         == if failed then Fail else if done then Finish(line[p..]) else Take(taken, line[p..], ModeOf(inq, insq))
    ensures done ==> taken == []
  {
    inq, insq := inq0, insq0;
    if inq {
      failed, done, taken, p := TakeInQuotes(line, start);
    } else if insq {
      failed, done, taken, p := TakeInSingleQuotes(line, start);
    } else {
      done, inq, insq, taken, p := TakePlain(line, start);
      failed := false;
    }
  }

  /** Moves past the byte at `p`, unless it is the terminator. */
  method Advance(line: Bytes, start: nat, p: nat) returns (p': nat)
    requires 0 !in line && start <= p <= |line|
    ensures start <= p' <= |line| && line[p'..] == line[start..][p' - start..]
    ensures p' == if p < |line| then p + 1 else p
  {
    p' := p;
    if At(line, p) != 0 {
      p' := p + 1;
    }
    assert line[p'..] == line[start..][p' - start..];
  }

  /** A turn inside double quotes. */
  method TakeInQuotes(line: Bytes, start: nat) returns (failed: bool, done: bool, taken: Bytes, p: nat)
    requires 0 !in line && start <= |line|
    ensures p <= |line| && (done ==> taken == [])
    ensures TurnAt(line[start..], InQuotes)
         == if failed then Fail else if done then Finish(line[p..]) else Take(taken, line[p..], InQuotes)
  {
    p, failed, done, taken := start, false, false, [];
    if At(line, p) == BACKSLASH && At(line, p + 1) == LETTER_X
       && IsHexDigit(At(line, p + 2)) && IsHexDigit(At(line, p + 3)) {
      taken := [HexDigitToInt(At(line, p + 2)) * 16 + HexDigitToInt(At(line, p + 3))];
      p := p + 3;
    } else if At(line, p) == BACKSLASH && At(line, p + 1) != 0 {
      p := p + 1;
      taken := [Unescape(At(line, p))];
    } else if At(line, p) == QUOTE {
      if At(line, p + 1) != 0 && !IsSpace(At(line, p + 1)) {
        failed := true;
        return;
      }
      done := true;
    } else if At(line, p) == 0 {
      failed := true;
      return;
    } else {
      taken := [At(line, p)];
    }
    p := Advance(line, start, p);
  }

  /** A turn inside single quotes. */
  method TakeInSingleQuotes(line: Bytes, start: nat) returns (failed: bool, done: bool, taken: Bytes, p: nat)
    requires 0 !in line && start <= |line|
    ensures p <= |line| && (done ==> taken == [])
    ensures TurnAt(line[start..], InSingleQuotes)
         == if failed then Fail else if done then Finish(line[p..]) else Take(taken, line[p..], InSingleQuotes)
  {
    p, failed, done, taken := start, false, false, [];
    if At(line, p) == BACKSLASH && At(line, p + 1) == APOSTROPHE {
      p := p + 1;
      taken := [APOSTROPHE];
    } else if At(line, p) == APOSTROPHE {
      if At(line, p + 1) != 0 && !IsSpace(At(line, p + 1)) {
        failed := true;
        return;
      }
      done := true;
    } else if At(line, p) == 0 {
      failed := true;
      return;
    } else {
      taken := [At(line, p)];
    }
    p := Advance(line, start, p);
  }

  /** A turn outside quotes. */
  method TakePlain(line: Bytes, start: nat) returns (done: bool, inq: bool, insq: bool, taken: Bytes, p: nat)
    requires 0 !in line && start <= |line|
    ensures p <= |line| && !(inq && insq) && (done ==> taken == [])
    ensures TurnAt(line[start..], Plain)
         == if done then Finish(line[p..]) else Take(taken, line[p..], ModeOf(inq, insq))
  {
    ghost var s := line[start..];
    assert if start < |line| then s != [] && s[0] == At(line, start) != 0 else s == [] && At(line, start) == 0;
    p, inq, insq, done, taken := start, false, false, false, [];
    if IsBlank(At(line, p)) || At(line, p) == 0 {
      done := true;
    } else if At(line, p) == QUOTE {
      inq := true;
    } else if At(line, p) == APOSTROPHE {
      insq := true;
    } else {
      taken := [At(line, p)];
    }
    p := Advance(line, start, p);
  }
}
