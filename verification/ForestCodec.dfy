/** The pieces of the stored form of a tree: little-endian ints, doubles as
    their eight bytes, and C strings, each with the reader that undoes it. A
    reader takes a value off the front of the bytes and returns the rest; it
    fails where the source would read past the buffer. */
module ForestCodec {
  import opened Common

  type Double = b: Bytes | |b| == 8 witness [0, 0, 0, 0, 0, 0, 0, 0]

  predicate IsInt32(x: int) {
    -0x8000_0000 <= x < 0x8000_0000
  }

  function EncodeInt(x: int): (b: Bytes)
    ensures |b| == 4
  {
    var u0 := x % 0x1_0000_0000;
    var u1 := u0 / 256;
    var u2 := u1 / 256;
    var u3 := u2 / 256;
    [u0 % 256, u1 % 256, u2 % 256, u3]
  }

  function DecodeInt(b: Bytes): int
    requires |b| == 4
  {
    var u: int := b[0] as int + 0x100 * (b[1] as int) + 0x1_0000 * (b[2] as int) + 0x100_0000 * (b[3] as int);
    if u < 0x8000_0000 then u else u - 0x1_0000_0000
  }

  lemma IntRoundTrip(x: int)
    requires IsInt32(x)
    ensures DecodeInt(EncodeInt(x)) == x
  {
  }

  /** `rest` is what is left of `s` after some of it was read. */
  ghost predicate Leaves(s: Bytes, rest: Bytes) {
    |rest| <= |s| && rest == s[|s| - |rest|..]
  }

  function Take(s: Bytes, n: nat): (r: Option<(Bytes, Bytes)>)
    ensures r.Some? ==> |r.value.0| == n && |r.value.1| + n == |s| && Leaves(s, r.value.1)
  {
    if |s| < n then None else Some((s[..n], s[n..]))
  }

  function TakeInt(s: Bytes): (r: Option<(int, Bytes)>)
    ensures r.Some? ==> |r.value.1| + 4 == |s| && Leaves(s, r.value.1)
  {
    var (b, rest) :- Take(s, 4);
    Some((DecodeInt(b), rest))
  }

  function TakeDouble(s: Bytes): (r: Option<(Double, Bytes)>)
    ensures r.Some? ==> |r.value.1| + 8 == |s| && Leaves(s, r.value.1)
  {
    var (b, rest) :- Take(s, 8);
    var d: Double := b;
    Some((d, rest))
  }

  /** A C string: up to a zero byte, which is passed over. */
  function TakeString(s: Bytes): (r: Option<(Bytes, Bytes)>)
    ensures r.Some? ==> 0 !in r.value.0 && |r.value.0| + 1 + |r.value.1| == |s| && Leaves(s, r.value.1)
  {
    if s == [] then None
    else if s[0] == 0 then Some(([], s[1..]))
    else
      var (tail, rest) :- TakeString(s[1..]);
      Some(([s[0]] + tail, rest))
  }

  function TakeDoubles(s: Bytes, n: nat): (r: Option<(seq<Double>, Bytes)>)
    ensures r.Some? ==> |r.value.0| == n && |r.value.1| + 8 * n == |s| && Leaves(s, r.value.1)
    decreases n
  {
    if n == 0 then Some(([], s))
    else
      var (d, s1) :- TakeDouble(s);
      var (tail, rest) :- TakeDoubles(s1, n - 1);
      Some(([d] + tail, rest))
  }

  function Flatten(values: seq<Double>): Bytes {
    if values == [] then [] else values[0] + Flatten(values[1..])
  }

  lemma TakeBack(b: Bytes, rest: Bytes)
    ensures Take(b + rest, |b|) == Some((b, rest))
  {
  }

  lemma TakeDoubleBack(d: Double, rest: Bytes)
    ensures TakeDouble(d + rest) == Some((d, rest))
  {
    TakeBack(d, rest);
  }

  lemma TakeIntBack(x: int, rest: Bytes)
    requires IsInt32(x)
    ensures TakeInt(EncodeInt(x) + rest) == Some((x, rest))
  {
    IntRoundTrip(x);
    TakeBack(EncodeInt(x), rest);
  }

  lemma {:induction false} TakeStringBack(text: Bytes, rest: Bytes)
    requires 0 !in text
    ensures TakeString(text + ([0] + rest)) == Some((text, rest))
  {
    hide Leaves;
    var s := text + ([0] + rest);
    if text == [] {
      assert s[0] == 0 && s[1..] == rest;
    } else {
      TakeStringBack(text[1..], rest);
      assert s[1..] == text[1..] + ([0] + rest) && s[0] == text[0];
      assert [text[0]] + text[1..] == text;
    }
  }

  lemma {:induction false} TakeDoublesBack(values: seq<Double>, rest: Bytes)
    ensures TakeDoubles(Flatten(values) + rest, |values|) == Some((values, rest))
  {
    if values == [] {
      assert Flatten(values) + rest == rest;
    } else {
      TakeDoublesBack(values[1..], rest);
      assert Flatten(values) + rest == values[0] + (Flatten(values[1..]) + rest);
      TakeDoubleBack(values[0], Flatten(values[1..]) + rest);
      assert [values[0]] + values[1..] == values;
    }
  }

  /** What was read, put back, is what was there. */
  lemma {:induction false} TakeStringSplits(s: Bytes)
    requires TakeString(s).Some?
    ensures var (text, rest) := TakeString(s).value; s == text + ([0] + rest)
  {
    if s[0] != 0 {
      TakeStringSplits(s[1..]);
    }
  }

  lemma {:induction false} TakeDoublesSplits(s: Bytes, n: nat)
    requires TakeDoubles(s, n).Some?
    ensures var (values, rest) := TakeDoubles(s, n).value; s == Flatten(values) + rest
    decreases n
  {
    if n == 0 {
      assert Flatten([]) + s == s;
    } else {
      var (d, s1) := TakeDouble(s).value;
      var (tail, rest) := TakeDoubles(s1, n - 1).value;
      TakeDoublesSplits(s1, n - 1);
      assert ([d] + tail)[1..] == tail;
      assert s == d + (Flatten(tail) + rest);
    }
  }

  lemma {:induction false} FlattenLength(values: seq<Double>)
    ensures |Flatten(values)| == 8 * |values|
  {
    if values != [] {
      FlattenLength(values[1..]);
    }
  }

  // ----------------------------------------------------------------- bits

  /** Bit `i` of a byte, the lowest being bit 0. */
  predicate Bit(b: byte, i: nat) {
    if i == 0 then b % 2 == 1 else Bit(b / 2, i - 1)
  }

  function Pow2(i: nat): (p: nat)
    ensures p >= 1
  {
    if i == 0 then 1 else 2 * Pow2(i - 1)
  }

  lemma {:induction false} HighBitIrrelevant(b: byte, m: nat, i: nat)
    requires i < m && b + Pow2(m) < 256
    ensures Bit(b + Pow2(m), i) == Bit(b, i)
  {
    if i > 0 {
      HighBitIrrelevant(b / 2, m - 1, i - 1);
    }
  }

  /** Shifting a turn into the byte moves every bit up by one. */
  lemma ShiftBit(path: byte, turn: byte, i: nat)
    requires i < 8 && turn < 2
    ensures Bit(2 * path % 256 + turn, i) == if i == 0 then turn == 1 else Bit(path, i - 1)
  {
    var shifted: byte := 2 * path % 256 + turn;
    var low: byte := path % 128;
    assert shifted / 2 == low;
    if i > 0 && path >= 128 {
      assert Pow2(7) == 128;
      HighBitIrrelevant(low, 7, i - 1);
    }
  }

  lemma {:induction false} BitOfZero(i: nat)
    ensures !Bit(0, i)
  {
    if i > 0 {
      BitOfZero(i - 1);
    }
  }

  lemma {:induction false} BitOfOnes(m: nat, i: nat)
    requires i < m && Pow2(m) <= 256
    ensures Bit(Pow2(m) - 1, i)
  {
    if i > 0 {
      BitOfOnes(m - 1, i - 1);
    }
  }
}
