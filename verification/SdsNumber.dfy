/** Printing 64-bit integers: digits are produced backwards and the buffer is
    reversed in place. */
module SdsNumbers {

  const SDS_LLSTR_SIZE := 21
  const TWO_64 := 0x1_0000_0000_0000_0000
  const TWO_63 := 0x8000_0000_0000_0000

  function Digit(d: nat): (c: char)
    requires d < 10
    ensures '0' <= c <= '9'
  {
    '0' + d as char
  }

  /** The decimal digits of `v`. */
  function Decimal(v: nat): (s: string)
    ensures |s| >= 1
  {
    if v < 10 then [Digit(v)] else Decimal(v / 10) + [Digit(v % 10)]
  }

  /** The digits last first, as the first loop produces them. */
  function Backwards(v: nat): (s: string)
    ensures |s| >= 1
  {
    if v < 10 then [Digit(v)] else [Digit(v % 10)] + Backwards(v / 10)
  }

  function Reverse(s: string): (r: string)
    ensures |r| == |s| && forall i | 0 <= i < |s| :: r[i] == s[|s| - 1 - i]
  {
    if s == [] then [] else Reverse(s[1..]) + [s[0]]
  }

  lemma {:induction false} ReverseSign(s: string)
    ensures Reverse(s + "-") == "-" + Reverse(s)
  {
    if s != [] {
      assert (s + "-")[1..] == s[1..] + "-";
      ReverseSign(s[1..]);
    }
  }

  lemma {:induction false} BackwardsReversed(v: nat)
    ensures Reverse(Backwards(v)) == Decimal(v)
  {
    if v >= 10 {
      BackwardsReversed(v / 10);
    }
  }

  /** What a reader of decimal digits makes of `s`. */
  function Value(s: string): nat
    requires forall i | 0 <= i < |s| :: '0' <= s[i] <= '9'
  {
    if s == [] then 0 else 10 * Value(s[..|s| - 1]) + (s[|s| - 1] as int - '0' as int)
  }

  function Pow10(k: nat): nat {
    if k == 0 then 1 else 10 * Pow10(k - 1)
  }

  /** The digits of a number read back as the number, start with 0 only for 0,
      and are as few as its size asks for. */
  lemma {:induction false} DecimalSpec(v: nat, k: nat)
    ensures (forall i | 0 <= i < |Decimal(v)| :: '0' <= Decimal(v)[i] <= '9') && Value(Decimal(v)) == v
    ensures Decimal(v)[0] == '0' <==> v == 0
    ensures k >= 1 && v < Pow10(k) ==> |Decimal(v)| <= k
  {
    if v < 10 {
      assert Decimal(v)[..0] == [];
    } else {
      DecimalSpec(v / 10, if k >= 1 then k - 1 else 0);
      var s := Decimal(v);
      assert s[..|s| - 1] == Decimal(v / 10);
      assert k == 1 ==> v >= Pow10(k);
    }
  }

  /** A number below 2^64 takes at most 20 digits, one up to 2^63 at most 19. */
  lemma DigitsOf64Bits(v: nat)
    ensures v < TWO_64 ==> |Decimal(v)| <= 20
    ensures v <= TWO_63 ==> |Decimal(v)| <= 19
  {
    assert Pow10(19) == 10_000_000_000_000_000_000 by {
      assert Pow10(10) == 10_000_000_000;
    }
    DecimalSpec(v, 19);
    DecimalSpec(v, 20);
  }

  /** Swaps the ends of [lo, hi] inwards until they meet. */
  method ReverseRange(a: array<char>, n: nat)
    requires 1 <= n <= a.Length
    modifies a
    ensures a[..n] == Reverse(old(a[..n])) && a[n..] == old(a[n..])
  {
    ghost var s := a[..n];
    var lo, hi := 0, n - 1;
    while lo < hi
      invariant 0 <= lo <= hi + 1 <= n && lo + hi == n - 1
      invariant a[n..] == old(a[n..])
      invariant forall k | lo <= k <= hi :: a[k] == s[k]
      invariant forall k | 0 <= k < lo || hi < k < n :: a[k] == Reverse(s)[k]
    {
      var aux := a[lo];
      a[lo] := a[hi];
      a[hi] := aux;
      lo := lo + 1;
      hi := hi - 1;
    }
  }

  /** Writes the digits of `v` from `at` on, last first. */
  method PutDigits(a: array<char>, v: nat) returns (p: nat)
    requires |Backwards(v)| < a.Length
    modifies a
    ensures p == |Backwards(v)| && a[..p] == Backwards(v)
  {
    var rest := v;
    p := 0;
    ghost var target := Backwards(v);
    while true
      invariant p < |target| && target == a[..p] + Backwards(rest)
      decreases rest
    {
      a[p] := Digit(rest % 10);
      p := p + 1;
      if rest < 10 {
        break;
      }
      rest := rest / 10;
    }
  }

  lemma {:induction false} BackwardsLength(v: nat)
    ensures |Backwards(v)| == |Decimal(v)|
  {
    if v >= 10 {
      BackwardsLength(v / 10);
    }
  }

  /** Prints an unsigned 64-bit number and terminates it. */
  method Ull2Str(a: array<char>, v: nat) returns (l: nat)
    requires v < TWO_64 && a.Length >= SDS_LLSTR_SIZE
    modifies a
    ensures 1 <= l < SDS_LLSTR_SIZE && a[l] == 0 as char
    ensures a[..l] == Decimal(v)
  {
    BackwardsLength(v);
    DigitsOf64Bits(v);
    l := PutDigits(a, v);
    BackwardsReversed(v);
    Finish(a, l);
  }

  /** What a signed number prints as. */
  function SignedDecimal(value: int): string {
    if value < 0 then "-" + Decimal(-value) else Decimal(value)
  }

  predicate IsInt64(value: int) {
    -TWO_63 <= value < TWO_63
  }

  /** The magnitude as an unsigned 64-bit number: negation wraps around as on
      a 64-bit machine, which is right even for the smallest number. */
  function Magnitude(value: int): (v: nat)
    requires IsInt64(value)
    ensures v <= TWO_63 && v == if value < 0 then -value else value
  {
    if value < 0 then (-value) % TWO_64 else value
  }

  /** Terminates the first `n` characters and turns them round. */
  method Finish(a: array<char>, n: nat)
    requires 1 <= n < a.Length
    modifies a
    ensures a[n] == 0 as char && a[..n] == Reverse(old(a[..n]))
  {
    a[n] := 0 as char;
    ReverseRange(a, n);
    assert a[n] == a[n..][0];
  }

  /** Writes the magnitude and the sign, all last first. */
  method PutSigned(a: array<char>, value: int) returns (p: nat)
    requires IsInt64(value) && a.Length >= SDS_LLSTR_SIZE
    modifies a
    ensures p < a.Length && a[..p] == Backwards(Magnitude(value)) + if value < 0 then "-" else ""
    ensures 1 <= p < SDS_LLSTR_SIZE
  {
    hide Backwards, Decimal;
    var v := Magnitude(value);
    BackwardsLength(v);
    DigitsOf64Bits(v);
    p := PutDigits(a, v);
    if value < 0 {
      a[p] := '-';
      p := p + 1;
    }
  }

  /** Prints a signed 64-bit number and terminates it. */
  method Ll2Str(a: array<char>, value: int) returns (l: nat)
    requires IsInt64(value) && a.Length >= SDS_LLSTR_SIZE
    modifies a
    ensures 1 <= l < SDS_LLSTR_SIZE && a[l] == 0 as char
    ensures a[..l] == SignedDecimal(value)
  {
    hide Backwards, Decimal, Reverse, Magnitude, SignedDecimal;
    l := PutSigned(a, value);
    SignedReversed(value);
    Finish(a, l);
  }

  lemma SignedReversed(value: int)
    requires IsInt64(value)
    ensures Reverse(Backwards(Magnitude(value)) + if value < 0 then "-" else "") == SignedDecimal(value)
  {
    var digits := Backwards(Magnitude(value));
    BackwardsReversed(Magnitude(value));
    ReverseSign(digits);
    hide Backwards, Decimal, Reverse;
    assert digits + "" == digits;
  }

  /** What a reader of signed decimals makes of `s`. */
  ghost predicate ReadsAs(s: string, value: int) {
    if s != [] && s[0] == '-'
    then (forall i | 1 <= i < |s| :: '0' <= s[i] <= '9') && value == -(Value(s[1..]) as int)
    else (forall i | 0 <= i < |s| :: '0' <= s[i] <= '9') && value == Value(s)
  }

  /** Digits are decimal, the first one the most significant, after the sign. */
  lemma PrintedExamples()
    ensures SignedDecimal(0) == "0" && SignedDecimal(9075) == "9075" && SignedDecimal(-9075) == "-9075"
  {
    assert Decimal(9) == "9" && Decimal(90) == "90" && Decimal(907) == "907" && Decimal(9075) == "9075";
    assert "-" + "9075" == "-9075";
  }

  /** The printed form of every 64-bit number reads back as the number, fits the
      buffer with its terminator, and has no idle leading zero. */
  lemma PrintedReadsBack(value: int)
    requires IsInt64(value)
    ensures ReadsAs(SignedDecimal(value), value) && |SignedDecimal(value)| < SDS_LLSTR_SIZE
    ensures var digits := if value < 0 then SignedDecimal(value)[1..] else SignedDecimal(value);
            |digits| >= 1 && (digits[0] == '0' ==> value == 0)
  {
    var v := if value < 0 then -value else value;
    DecimalSpec(v, 19);
    DigitsOf64Bits(v);
    assert ("-" + Decimal(v))[1..] == Decimal(v);
  }
}
