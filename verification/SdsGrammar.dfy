/** How a line of arguments is written: the forms an argument can take and what
    they stand for, told apart from the loop that reads them; and that the loop
    reads exactly the lines that are written so. */
module SdsGrammar {
  import opened Common
  import opened SdsQuoting

  /** A byte inside double quotes, as it can be written. */
  datatype Item =
    | Raw(c: byte)
    | Hex(high: byte, low: byte) // \xhh
    | Escaped(c: byte)           // \c

  /** The end of an argument: nothing more, or a quoted part. The text in single
      quotes is given as what it stands for. */
  datatype Tail = Bare | InDouble(items: seq<Item>) | InSingle(text: Bytes)

  /** An argument: plain bytes, then possibly a quoted part. */
  datatype Form = Form(plain: Bytes, tail: Tail)

  // ------------------------------------------------------ how it is written

  function WriteItem(item: Item): Bytes {
    match item
    case Raw(c) => [c]
    case Hex(high, low) => ['\\' as int, 'x' as int, high, low]
    case Escaped(c) => ['\\' as int, c]
  }

  function WriteItems(items: seq<Item>): Bytes {
    if items == [] then [] else WriteItem(items[0]) + WriteItems(items[1..])
  }

  /** In single quotes an apostrophe is written with a backslash before it. */
  function WriteSingle(text: Bytes): Bytes {
    if text == [] then []
    else (if text[0] == '\'' as int then ['\\' as int, '\'' as int] else [text[0]]) + WriteSingle(text[1..])
  }

  function WriteTail(tail: Tail): Bytes {
    match tail
    case Bare => []
    case InDouble(items) => ['\"' as int] + (WriteItems(items) + ['\"' as int])
    case InSingle(text) => ['\'' as int] + (WriteSingle(text) + ['\'' as int])
  }

  function Write(form: Form): Bytes {
    form.plain + WriteTail(form.tail)
  }

  // --------------------------------------------------- what it stands for

  function ItemByte(item: Item): byte {
    match item
    case Raw(c) => c
    case Hex(high, low) => HexDigitToInt(high) * 16 + HexDigitToInt(low)
    case Escaped(c) =>
      if c == 'n' as int then 10
      else if c == 'r' as int then 13
      else if c == 't' as int then 9
      else if c == 'b' as int then 8
      else if c == 'a' as int then 7
      else c
  }

  function ItemBytes(items: seq<Item>): Bytes {
    if items == [] then [] else [ItemByte(items[0])] + ItemBytes(items[1..])
  }

  function TailMeaning(tail: Tail): Bytes {
    match tail
    case Bare => []
    case InDouble(items) => ItemBytes(items)
    case InSingle(text) => text
  }

  function Meaning(form: Form): Bytes {
    form.plain + TailMeaning(form.tail)
  }

  // ------------------------------------------------------- what is allowed

  predicate White(c: byte) {
    c == ' ' as int || 9 <= c <= 13
  }

  /** What ends a plain argument: white space, but for vertical tabs and form
      feeds, which are part of it. */
  predicate EndsPlain(c: byte) {
    c == ' ' as int || c == '\t' as int || c == '\n' as int || c == '\r' as int
  }

  predicate PlainByte(c: byte) {
    c != 0 && !EndsPlain(c) && c != '\"' as int && c != '\'' as int
  }

  predicate StartsHex(s: Bytes) {
    |s| >= 2 && IsHexDigit(s[0]) && IsHexDigit(s[1])
  }

  /** An x that is merely escaped must not be followed by two hex digits. */
  predicate ItemFits(item: Item, rest: Bytes) {
    match item
    case Raw(c) => c != 0 && c != '\"' as int && c != '\\' as int
    case Hex(high, low) => IsHexDigit(high) && IsHexDigit(low)
    case Escaped(c) => c != 0 && (c == 'x' as int ==> !StartsHex(rest))
  }

  predicate ItemsFit(items: seq<Item>) {
    items != [] ==> ItemFits(items[0], WriteItems(items[1..])) && ItemsFit(items[1..])
  }

  /** Text in single quotes cannot end in a backslash, which would escape the
      closing quote. */
  predicate TailFits(tail: Tail) {
    match tail
    case Bare => true
    case InDouble(items) => ItemsFit(items)
    case InSingle(text) => 0 !in text && (text != [] ==> text[|text| - 1] != '\\' as int)
  }

  predicate Fits(form: Form) {
    && (forall i | 0 <= i < |form.plain| :: PlainByte(form.plain[i]))
    && TailFits(form.tail)
    && (form.plain != [] ==> !White(form.plain[0]))
    && (form.plain == [] ==> !form.tail.Bare?)
  }

  /** What may come after an argument. */
  predicate Ended(tail: Tail, rest: Bytes) {
    rest == [] || if tail.Bare? then EndsPlain(rest[0]) else White(rest[0])
  }

  predicate AllWhite(s: Bytes) {
    forall i | 0 <= i < |s| :: White(s[i])
  }

  /** A line: white space, and arguments each followed by white space, which
      only the last one can do without. */
  function WriteLine(words: seq<(Form, Bytes)>): Bytes {
    if words == [] then [] else Write(words[0].0) + (words[0].1 + WriteLine(words[1..]))
  }

  predicate WordsFit(words: seq<(Form, Bytes)>) {
    words != [] ==>
      var (form, gap) := words[0];
      && Fits(form) && AllWhite(gap) && Ended(form.tail, gap)
      && (|words| > 1 ==> gap != [])
      && WordsFit(words[1..])
  }

  function Meanings(words: seq<(Form, Bytes)>): seq<Bytes> {
    if words == [] then [] else [Meaning(words[0].0)] + Meanings(words[1..])
  }

  // ---------------------------------------------------- the byte classes

  /** The reader's classes of bytes and letters are the ones meant here. */
  lemma ByteClasses(c: byte)
    ensures IsSpace(c) <==> White(c)
    ensures IsBlank(c) <==> EndsPlain(c)
    ensures QUOTE == '\"' as int && APOSTROPHE == '\'' as int && BACKSLASH == '\\' as int && LETTER_X == 'x' as int
    ensures Unescape(c) == ItemByte(Escaped(c))
  {
  }

  lemma HexDigits(n: nat)
    ensures n < 10 ==> IsHexDigit('0' as int + n) && HexDigitToInt('0' as int + n) == n
    ensures n < 6 ==> IsHexDigit('a' as int + n) && HexDigitToInt('a' as int + n) == 10 + n
    ensures n < 6 ==> IsHexDigit('A' as int + n) && HexDigitToInt('A' as int + n) == 10 + n
    ensures n < 256 && IsHexDigit(n) ==>
              '0' as int <= n <= '9' as int || 'a' as int <= n <= 'f' as int || 'A' as int <= n <= 'F' as int
  {
  }

  /** The printed form of a byte: letters for five control characters, a
      backslash before quote and backslash, other printable ASCII as it is, and
      two hex digits for the rest. */
  lemma EscapeLetters(c: byte)
    ensures Escape(10) == ['\\' as int, 'n' as int] && Escape(13) == ['\\' as int, 'r' as int]
    ensures Escape(9) == ['\\' as int, 't' as int] && Escape(7) == ['\\' as int, 'a' as int]
    ensures Escape(8) == ['\\' as int, 'b' as int]
    ensures c == '\\' as int || c == '\"' as int ==> Escape(c) == ['\\' as int, c]
    ensures ' ' as int <= c <= '~' as int && c != '\\' as int && c != '\"' as int ==> Escape(c) == [c]
    ensures Escape(0) == ['\\' as int, 'x' as int, '0' as int, '0' as int]
    ensures Escape(127) == ['\\' as int, 'x' as int, '7' as int, 'f' as int]
    ensures Escape(233) == ['\\' as int, 'x' as int, 'e' as int, '9' as int]
  {
  }

  // --------------------------------------------- what is written is read

  lemma Regroup<T>(a: seq<T>, b: seq<T>, c: seq<T>)
    ensures a + (b + c) == (a + b) + c
  {
  }

  lemma {:induction false} ReadPlain(p: Bytes, rest: Bytes, current: Bytes)
    requires forall i | 0 <= i < |p| :: PlainByte(p[i])
    ensures Argument(p + rest, Plain, current) == Argument(rest, Plain, current + p)
  {
    if p == [] {
      assert p + rest == rest && current + p == current;
    } else {
      var s := p + rest;
      assert s[1..] == p[1..] + rest && s[0] == p[0];
      assert TurnAt(s, Plain) == Take([p[0]], p[1..] + rest, Plain);
      hide TurnAt, PlainByte, Argument;
      ArgumentTakes(s, Plain, current, [p[0]], p[1..] + rest, Plain);
      ReadPlain(p[1..], rest, current + [p[0]]);
      assert current + [p[0]] + p[1..] == current + p;
    }
  }

  lemma ReadItem(item: Item, more: Bytes, after: Bytes)
    requires ItemFits(item, more)
    ensures TurnAt(WriteItem(item) + (more + (['\"' as int] + after)), InQuotes)
            == Take([ItemByte(item)], more + (['\"' as int] + after), InQuotes)
  {
    var s := WriteItem(item) + (more + (['\"' as int] + after));
    assert s[|WriteItem(item)|..] == more + (['\"' as int] + after);
  }

  lemma {:induction false} ReadItems(items: seq<Item>, rest: Bytes, current: Bytes)
    requires ItemsFit(items) && Ended(InDouble(items), rest)
    ensures Argument(WriteItems(items) + (['\"' as int] + rest), InQuotes, current)
            == Some((current + ItemBytes(items), rest))
  {
    var close := ['\"' as int] + rest;
    if items == [] {
      assert WriteItems(items) + close == close && current + ItemBytes(items) == current;
      ReadClosingQuote(rest, current);
    } else {
      hide TurnAt, Argument, WriteItem, ItemByte, Ended, ItemFits;
      var first, more := WriteItem(items[0]), WriteItems(items[1..]);
      ReadItem(items[0], more, rest);
      Regroup(first, more, close);
      ArgumentTakes(first + (more + close), InQuotes, current, [ItemByte(items[0])], more + close, InQuotes);
      ReadItems(items[1..], rest, current + [ItemByte(items[0])]);
      Regroup(current, [ItemByte(items[0])], ItemBytes(items[1..]));
    }
  }

  lemma ReadSingleByte(c: byte, more: Bytes)
    requires c != 0 && (c == '\\' as int ==> more != [] && more[0] != '\'' as int)
    ensures var w := if c == '\'' as int then ['\\' as int, '\'' as int] else [c];
            TurnAt(w + more, InSingleQuotes) == Take([c], more, InSingleQuotes)
  {
    var w := if c == '\'' as int then ['\\' as int, '\'' as int] else [c];
    assert (w + more)[|w|..] == more;
  }

  lemma ReadClosingApostrophe(rest: Bytes, current: Bytes)
    requires rest == [] || White(rest[0])
    ensures Argument(['\'' as int] + rest, InSingleQuotes, current) == Some((current, rest))
  {
    var s := ['\'' as int] + rest;
    assert s[1..] == rest && ClosesWell(s);
    assert TurnAt(s, InSingleQuotes) == Finish(rest);
  }

  /** The byte after one in single quotes is no apostrophe, unless it closes. */
  lemma SingleStart(text: Bytes)
    ensures WriteSingle(text) == [] <==> text == []
    ensures text != [] ==> WriteSingle(text)[0] != '\'' as int
  {
  }

  lemma SingleStep(text: Bytes)
    requires text != []
    ensures WriteSingle(text)
            == (if text[0] == '\'' as int then ['\\' as int, '\'' as int] else [text[0]]) + WriteSingle(text[1..])
  {
  }

  lemma {:induction false} ReadSingle(text: Bytes, rest: Bytes, current: Bytes)
    requires TailFits(InSingle(text)) && Ended(InSingle(text), rest)
    ensures Argument(WriteSingle(text) + (['\'' as int] + rest), InSingleQuotes, current)
            == Some((current + text, rest))
  {
    var close := ['\'' as int] + rest;
    if text == [] {
      assert WriteSingle(text) + close == close && current + text == current;
      ReadClosingApostrophe(rest, current);
    } else {
      var c := text[0];
      var w := if c == '\'' as int then ['\\' as int, '\'' as int] else [c];
      var more := WriteSingle(text[1..]);
      SingleStart(text[1..]);
      ReadSingleByte(c, more + close);
      hide TurnAt, Argument, Ended, White, WriteSingle;
      SingleStep(text);
      Regroup(w, more, close);
      ArgumentTakes(w + (more + close), InSingleQuotes, current, [c], more + close, InSingleQuotes);
      ReadSingle(text[1..], rest, current + [c]);
      Regroup(current, [c], text[1..]);
      assert [c] + text[1..] == text;
    }
  }

  /** What follows an argument once it is read: a plain one takes the blank that
      ends it along. */
  function After(tail: Tail, rest: Bytes): Bytes {
    if tail.Bare? && rest != [] then rest[1..] else rest
  }

  lemma OpenQuote(double: bool, inside: Bytes, current: Bytes)
    ensures Argument([if double then '\"' as int else '\'' as int] + inside, Plain, current)
            == Argument(inside, if double then InQuotes else InSingleQuotes, current)
  {
    var s := [if double then '\"' as int else '\'' as int] + inside;
    assert s[1..] == inside && current + [] == current;
    assert TurnAt(s, Plain) == Take([], inside, if double then InQuotes else InSingleQuotes);
    hide TurnAt, Argument;
    ArgumentTakes(s, Plain, current, [], inside, if double then InQuotes else InSingleQuotes);
  }

  lemma ReadTail(tail: Tail, rest: Bytes, current: Bytes)
    requires TailFits(tail) && Ended(tail, rest)
    ensures Argument(WriteTail(tail) + rest, Plain, current) == Some((current + TailMeaning(tail), After(tail, rest)))
  {
    match tail
    case Bare =>
      assert [] + rest == rest && current + [] == current;
    case InDouble(items) =>
      hide Argument, WriteItems, ItemBytes;
      Regroup(WriteItems(items), ['\"' as int], rest);
      Regroup(['\"' as int], WriteItems(items) + ['\"' as int], rest);
      OpenQuote(true, WriteItems(items) + (['\"' as int] + rest), current);
      ReadItems(items, rest, current);
    case InSingle(text) =>
      hide Argument, WriteSingle;
      Regroup(WriteSingle(text), ['\'' as int], rest);
      Regroup(['\'' as int], WriteSingle(text) + ['\'' as int], rest);
      OpenQuote(false, WriteSingle(text) + (['\'' as int] + rest), current);
      ReadSingle(text, rest, current);
  }

  /** An argument written in any of the forms is read as what it stands for. */
  lemma ReadForm(form: Form, rest: Bytes)
    requires Fits(form) && Ended(form.tail, rest)
    ensures Argument(Write(form) + rest, Plain, []) == Some((Meaning(form), After(form.tail, rest)))
  {
    hide Argument, WriteTail, TailMeaning, After, TailFits;
    Regroup(form.plain, WriteTail(form.tail), rest);
    ReadPlain(form.plain, WriteTail(form.tail) + rest, []);
    var none: Bytes := [];
    assert none + form.plain == form.plain;
    ReadTail(form.tail, rest, form.plain);
  }

  lemma {:induction false} SkipWhite(gap: Bytes, rest: Bytes)
    requires AllWhite(gap) && (rest != [] ==> !White(rest[0]))
    ensures SkipBlanks(gap + rest) == rest
  {
    if gap == [] {
      assert gap + rest == rest;
    } else {
      assert (gap + rest)[1..] == gap[1..] + rest;
      SkipWhite(gap[1..], rest);
    }
  }

  /** A written argument starts with a byte that is not white. */
  lemma FormStart(form: Form)
    requires Fits(form)
    ensures Write(form) != [] && !White(Write(form)[0])
  {
    hide WriteItems, WriteSingle;
  }

  lemma LineStart(words: seq<(Form, Bytes)>)
    requires WordsFit(words)
    ensures WriteLine(words) == [] <==> words == []
    ensures words != [] ==> !White(WriteLine(words)[0])
  {
    hide Fits, Write;
    if words != [] {
      FormStart(words[0].0);
    }
  }

  lemma EndedByGap(tail: Tail, gap: Bytes, line: Bytes)
    requires Ended(tail, gap) && (gap == [] ==> line == [])
    ensures Ended(tail, gap + line)
  {
  }

  lemma AfterGap(tail: Tail, gap: Bytes, line: Bytes) returns (left: Bytes)
    requires AllWhite(gap) && (gap == [] ==> line == [])
    ensures AllWhite(left) && After(tail, gap + line) == left + line
  {
    left := After(tail, gap);
    if gap == [] {
      assert gap + line == [] == left + line;
    } else {
      assert (gap + line)[1..] == gap[1..] + line;
    }
  }

  /** A line of arguments in any forms is read as what they stand for. */
  lemma {:induction false} ReadLine(lead: Bytes, words: seq<(Form, Bytes)>)
    requires AllWhite(lead) && WordsFit(words)
    ensures Arguments(lead + WriteLine(words)) == Some(Meanings(words))
    decreases |words|
  {
    hide Fits, Write, Argument, SkipBlanks, AllWhite, Ended, After, Meaning;
    LineStart(words);
    SkipWhite(lead, WriteLine(words));
    if words != [] {
      var (form, gap) := words[0];
      var others := WriteLine(words[1..]);
      LineStart(words[1..]);
      EndedByGap(form.tail, gap, others);
      ReadForm(form, gap + others);
      var left := AfterGap(form.tail, gap, others);
      ReadLine(left, words[1..]);
    }
  }

  // ------------------------------------------------ joined with blanks

  function WriteAll(forms: seq<Form>): (r: seq<Bytes>)
    ensures |r| == |forms|
  {
    if forms == [] then [] else [Write(forms[0])] + WriteAll(forms[1..])
  }

  function MeaningAll(forms: seq<Form>): seq<Bytes> {
    if forms == [] then [] else [Meaning(forms[0])] + MeaningAll(forms[1..])
  }

  /** The arguments with one blank between two. */
  function Spaced(forms: seq<Form>): seq<(Form, Bytes)> {
    if forms == [] then []
    else [(forms[0], if |forms| == 1 then [] else [' ' as int])] + Spaced(forms[1..])
  }

  lemma {:induction false} SpacedLine(forms: seq<Form>)
    requires forall i | 0 <= i < |forms| :: Fits(forms[i])
    ensures WordsFit(Spaced(forms)) && |Spaced(forms)| == |forms| && Meanings(Spaced(forms)) == MeaningAll(forms)
    ensures WriteLine(Spaced(forms)) == Join(WriteAll(forms), [' ' as int])
  {
    hide Fits, Write, Meaning;
    if forms != [] {
      SpacedLine(forms[1..]);
      var words := Spaced(forms);
      assert words[1..] == Spaced(forms[1..]);
      assert WriteAll(forms)[1..] == WriteAll(forms[1..]);
      var first, others := Write(forms[0]), WriteLine(Spaced(forms[1..]));
      if |forms| == 1 {
        assert first + ([] + others) == first;
      } else {
        Regroup(first, [' ' as int], others);
      }
    }
  }

  /** Arguments in any forms, joined with blanks, are read as what they stand for. */
  lemma ReadForms(forms: seq<Form>)
    requires forall i | 0 <= i < |forms| :: Fits(forms[i])
    ensures Arguments(Join(WriteAll(forms), [' ' as int])) == Some(MeaningAll(forms))
  {
    hide Arguments, WriteLine, Meanings, WordsFit;
    SpacedLine(forms);
    var none: Bytes := [];
    ReadLine(none, Spaced(forms));
    assert none + WriteLine(Spaced(forms)) == WriteLine(Spaced(forms));
  }

  function Words(words: seq<Bytes>): (forms: seq<Form>)
    ensures |forms| == |words| && forall i | 0 <= i < |words| :: forms[i] == Form(words[i], Bare)
  {
    if words == [] then [] else [Form(words[0], Bare)] + Words(words[1..])
  }

  lemma {:induction false} WordsAsWritten(words: seq<Bytes>)
    ensures WriteAll(Words(words)) == words && MeaningAll(Words(words)) == words
  {
    if words != [] {
      WordsAsWritten(words[1..]);
      assert words[0] + [] == words[0] && [words[0]] + words[1..] == words;
    }
  }

  predicate UnquotedWord(word: Bytes) {
    word != [] && forall c | c in word :: c != 0 && !White(c) && c != '\"' as int && c != '\'' as int
  }

  lemma WordFits(word: Bytes)
    requires UnquotedWord(word)
    ensures Fits(Form(word, Bare))
  {
    forall i | 0 <= i < |word|
      ensures PlainByte(word[i]) && !White(word[i])
    {
      assert word[i] in word;
    }
  }

  /** Words without zero, white space and quotes need no quoting. */
  lemma PlainWords(words: seq<Bytes>)
    requires forall i | 0 <= i < |words| :: UnquotedWord(words[i])
    ensures Arguments(Join(words, [' ' as int])) == Some(words)
  {
    hide Arguments, UnquotedWord, Fits;
    forall i | 0 <= i < |words|
      ensures Fits(Words(words)[i])
    {
      WordFits(words[i]);
    }
    ReadForms(Words(words));
    WordsAsWritten(words);
  }

  /** A text in single quotes. */
  function Quoted(text: Bytes): Bytes {
    ['\'' as int] + (WriteSingle(text) + ['\'' as int])
  }

  function Texts(texts: seq<Bytes>): (forms: seq<Form>)
    ensures |forms| == |texts| && forall i | 0 <= i < |texts| :: forms[i] == Form([], InSingle(texts[i]))
  {
    if texts == [] then [] else [Form([], InSingle(texts[0]))] + Texts(texts[1..])
  }

  function QuotedAll(texts: seq<Bytes>): (r: seq<Bytes>)
    ensures |r| == |texts| && forall i | 0 <= i < |texts| :: r[i] == Quoted(texts[i])
  {
    if texts == [] then [] else [Quoted(texts[0])] + QuotedAll(texts[1..])
  }

  lemma {:induction false} TextsAsWritten(texts: seq<Bytes>)
    ensures WriteAll(Texts(texts)) == QuotedAll(texts) && MeaningAll(Texts(texts)) == texts
  {
    hide WriteSingle;
    if texts != [] {
      TextsAsWritten(texts[1..]);
      var none: Bytes := [];
      assert none + Quoted(texts[0]) == Quoted(texts[0]) && none + texts[0] == texts[0];
      assert [texts[0]] + texts[1..] == texts;
    }
  }

  /** Texts in single quotes, a backslash before each apostrophe, are read back,
      if none holds a zero or ends in a backslash. */
  lemma SingleQuoteThenSplit(texts: seq<Bytes>)
    requires forall i | 0 <= i < |texts| ::
               0 !in texts[i] && (texts[i] != [] ==> texts[i][|texts[i]| - 1] != '\\' as int)
    ensures Arguments(Join(QuotedAll(texts), [' ' as int])) == Some(texts)
  {
    hide Arguments;
    ReadForms(Texts(texts));
    TextsAsWritten(texts);
  }

  lemma {:induction false} BackslashOpens(text: Bytes, current: Bytes)
    requires 0 !in text && text != [] && text[|text| - 1] == '\\' as int
    ensures Argument(WriteSingle(text) + ['\'' as int], InSingleQuotes, current).None?
  {
    var c, close := text[0], ['\'' as int];
    var w := if c == '\'' as int then ['\\' as int, '\'' as int] else [c];
    var more := WriteSingle(text[1..]);
    if |text| == 1 {
      var s := WriteSingle(text) + close;
      assert s == ['\\' as int, '\'' as int] && s[2..] == [];
      assert TurnAt(s, InSingleQuotes) == Take(['\'' as int], [], InSingleQuotes);
      assert TurnAt([], InSingleQuotes).Fail?;
    } else {
      SingleStart(text[1..]);
      ReadSingleByte(c, more + close);
      hide TurnAt, Argument, White, WriteSingle;
      SingleStep(text);
      Regroup(w, more, close);
      ArgumentTakes(w + (more + close), InSingleQuotes, current, [c], more + close, InSingleQuotes);
      BackslashOpens(text[1..], current + [c]);
    }
  }

  lemma QuotedRefused(text: Bytes)
    requires 0 !in text && text != [] && text[|text| - 1] == '\\' as int
    ensures Arguments(Quoted(text)).None?
  {
    var none: Bytes := [];
    BackslashOpens(text, none);
    OpenQuote(false, WriteSingle(text) + ['\'' as int], none);
    hide Argument, WriteSingle;
    assert SkipBlanks(Quoted(text)) == Quoted(text);
  }

  /** One text in single quotes comes back exactly when it does not end in a
      backslash, which would escape the closing quote. */
  lemma SingleQuoteIff(text: Bytes)
    requires 0 !in text
    ensures Arguments(Quoted(text)) == Some([text]) <==> text == [] || text[|text| - 1] != '\\' as int
  {
    hide Arguments, Quoted;
    if text == [] || text[|text| - 1] != '\\' as int {
      SingleQuoteThenSplit([text]);
      assert QuotedAll([text]) == [Quoted(text)];
    } else {
      QuotedRefused(text);
    }
  }

  // ------------------------------------------- what is read was written

  lemma UnfoldArgument(s: Bytes, mode: Mode, current: Bytes)
    ensures var t := TurnAt(s, mode);
            Argument(s, mode, current)
            == if t.Fail? then None
               else if t.Finish? then Some((current, t.rest))
               else Argument(t.rest, t.mode, current + t.taken)
  {
    hide TurnAt;
  }

  /** The item at the front of a quoted part. */
  function ItemAt(s: Bytes): Item
    requires |s| >= 2
  {
    if IsHexEscape(s) then Hex(s[2], s[3]) else if s[0] == BACKSLASH then Escaped(s[1]) else Raw(s[0])
  }

  /** What a turn inside double quotes has read. */
  lemma ItemTaken(s: Bytes)
    requires 0 !in s && TurnAt(s, InQuotes).Take? && |s| >= 2
    ensures var t, item := TurnAt(s, InQuotes), ItemAt(s);
            t.taken == [ItemByte(item)] && t.mode == InQuotes && s == WriteItem(item) + t.rest
  {
  }

  lemma ItemTakenFits(s: Bytes, more: Bytes, after: Bytes)
    requires 0 !in s && TurnAt(s, InQuotes).Take? && |s| >= 2
    requires TurnAt(s, InQuotes).rest == more + (['\"' as int] + after)
    ensures ItemFits(ItemAt(s), more)
  {
    if !IsHexEscape(s) && s[0] == BACKSLASH && StartsHex(more) {
      assert s[2..] == more + (['\"' as int] + after);
      assert s[2] == more[0] && s[3] == more[1];
    }
  }

  lemma NothingInQuotes(s: Bytes, mode: Mode, current: Bytes)
    requires mode != Plain && Argument(s, mode, current).Some?
    ensures s != [] && (|s| == 1 ==> TurnAt(s, mode).Finish?)
  {
    if |s| == 1 {
      assert s[1..] == [];
    }
  }

  lemma {:induction false} ItemsRead(s: Bytes, current: Bytes) returns (items: seq<Item>, rest: Bytes)
    requires 0 !in s && Argument(s, InQuotes, current).Some?
    ensures s == WriteItems(items) + (['\"' as int] + rest) && ItemsFit(items)
    ensures Argument(s, InQuotes, current) == Some((current + ItemBytes(items), rest))
    ensures Ended(InDouble(items), rest)
    decreases |s|
  {
    NothingInQuotes(s, InQuotes, current);
    UnfoldArgument(s, InQuotes, current);
    var t := TurnAt(s, InQuotes);
    if t.Finish? {
      items, rest := [], s[1..];
      assert s == [] + (['\"' as int] + rest) && current + [] == current;
    } else {
      var item := ItemAt(s);
      ItemTaken(s);
      hide TurnAt, Argument, WriteItem, ItemByte, ItemFits, Ended, ItemAt;
      NoZeroAfter(s, WriteItem(item), t.rest);
      var more;
      more, rest := ItemsRead(t.rest, current + [ItemByte(item)]);
      ItemTakenFits(s, WriteItems(more), rest);
      items := [item] + more;
      assert items[1..] == more;
      Regroup(WriteItem(item), WriteItems(more), ['\"' as int] + rest);
      Regroup(current, [ItemByte(item)], ItemBytes(more));
    }
  }

  lemma NoZeroAfter(s: Bytes, a: Bytes, b: Bytes)
    requires 0 !in s && s == a + b
    ensures 0 !in b
  {
    forall i | 0 <= i < |b|
      ensures b[i] != 0
    {
      assert b[i] == s[|a| + i];
    }
  }

  /** What a turn inside single quotes has read. */
  lemma SingleTaken(s: Bytes) returns (c: byte, w: Bytes)
    requires 0 !in s && TurnAt(s, InSingleQuotes).Take? && |s| >= 2
    ensures var t := TurnAt(s, InSingleQuotes);
            && t.taken == [c] && t.mode == InSingleQuotes && s == w + t.rest && c != 0
            && w == (if c == '\'' as int then ['\\' as int, '\'' as int] else [c])
            && (c == '\\' as int ==> t.rest[0] != '\'' as int)
  {
    if s[0] == BACKSLASH && s[1] == APOSTROPHE {
      c, w := '\'' as int, s[..2];
    } else {
      c, w := s[0], s[..1];
    }
  }

  lemma {:induction false} SingleRead(s: Bytes, current: Bytes) returns (text: Bytes, rest: Bytes)
    requires 0 !in s && Argument(s, InSingleQuotes, current).Some?
    ensures s == WriteSingle(text) + (['\'' as int] + rest) && TailFits(InSingle(text))
    ensures Argument(s, InSingleQuotes, current) == Some((current + text, rest))
    ensures Ended(InSingle(text), rest)
    decreases |s|
  {
    NothingInQuotes(s, InSingleQuotes, current);
    UnfoldArgument(s, InSingleQuotes, current);
    var t := TurnAt(s, InSingleQuotes);
    if t.Finish? {
      text, rest := [], s[1..];
      assert s == [] + (['\'' as int] + rest) && current + [] == current;
    } else {
      var c, w := SingleTaken(s);
      hide TurnAt, Argument, Ended, White, WriteSingle;
      NoZeroAfter(s, w, t.rest);
      var more;
      more, rest := SingleRead(t.rest, current + [c]);
      text := [c] + more;
      assert text[1..] == more;
      SingleStep(text);
      Regroup(w, WriteSingle(more), ['\'' as int] + rest);
      Regroup(current, [c], more);
      SingleIsFit(c, more, rest);
    }
  }

  lemma SingleIsFit(c: byte, more: Bytes, rest: Bytes)
    requires c != 0 && TailFits(InSingle(more))
    requires c == '\\' as int ==> (WriteSingle(more) + (['\'' as int] + rest))[0] != '\'' as int
    ensures TailFits(InSingle([c] + more))
  {
    SingleStart(more);
  }

  /** What an argument that was read looks like, from inside its plain part. */
  lemma {:induction false} FormRead(s: Bytes, current: Bytes) returns (form: Form, rest: Bytes)
    requires 0 !in s && Argument(s, Plain, current).Some?
    ensures s == Write(form) + rest && Ended(form.tail, rest)
    ensures Argument(s, Plain, current) == Some((current + Meaning(form), After(form.tail, rest)))
    ensures (forall i | 0 <= i < |form.plain| :: PlainByte(form.plain[i])) && TailFits(form.tail)
    decreases |s|
  {
    UnfoldArgument(s, Plain, current);
    hide Argument;
    if s == [] || IsBlank(s[0]) {
      form, rest := Form([], Bare), s;
      assert s == [] + [] + rest && current + ([] + []) == current;
    } else if s[0] == QUOTE {
      OpenQuote(true, s[1..], current);
      assert s == ['\"' as int] + s[1..];
      var items;
      items, rest := ItemsRead(s[1..], current);
      form := Form([], InDouble(items));
      QuotedForm(s, '\"' as int, WriteItems(items), rest);
      assert [] + ItemBytes(items) == ItemBytes(items);
    } else if s[0] == APOSTROPHE {
      OpenQuote(false, s[1..], current);
      assert s == ['\'' as int] + s[1..];
      var text;
      text, rest := SingleRead(s[1..], current);
      form := Form([], InSingle(text));
      QuotedForm(s, '\'' as int, WriteSingle(text), rest);
      assert [] + text == text;
    } else {
      var c := s[0];
      assert PlainByte(c);
      assert s == [c] + s[1..];
      hide TurnAt, PlainByte, Write, Meaning, TailFits, Ended, After;
      var more;
      more, rest := FormRead(s[1..], current + [c]);
      form := Form([c] + more.plain, more.tail);
      PlainAdded(c, more, rest, current);
    }
  }

  lemma PlainAdded(c: byte, form: Form, rest: Bytes, current: Bytes)
    ensures var longer := Form([c] + form.plain, form.tail);
            && [c] + (Write(form) + rest) == Write(longer) + rest
            && current + [c] + Meaning(form) == current + Meaning(longer)
  {
    hide WriteTail, TailMeaning;
    Regroup([c], form.plain, WriteTail(form.tail));
    Regroup([c], Write(form), rest);
    Regroup([c], form.plain, TailMeaning(form.tail));
    Regroup(current, [c], Meaning(form));
  }

  lemma QuotedForm(s: Bytes, quote: byte, inside: Bytes, rest: Bytes)
    requires s == [quote] + (inside + ([quote] + rest))
    ensures s == [] + ([quote] + (inside + [quote])) + rest
  {
  }

  /** The white space that was skipped. */
  lemma {:induction false} SkippedWhite(line: Bytes) returns (lead: Bytes)
    ensures AllWhite(lead) && line == lead + SkipBlanks(line)
  {
    if line != [] && IsSpace(line[0]) {
      var more := SkippedWhite(line[1..]);
      lead := [line[0]] + more;
      assert line == [line[0]] + line[1..];
      Regroup([line[0]], more, SkipBlanks(line));
    } else {
      lead := [];
      assert [] + line == line;
    }
  }

  lemma FitsAsRead(form: Form, s: Bytes, rest: Bytes)
    requires s == Write(form) + rest && s != [] && !White(s[0]) && Ended(form.tail, rest)
    requires (forall i | 0 <= i < |form.plain| :: PlainByte(form.plain[i])) && TailFits(form.tail)
    ensures Fits(form)
  {
    hide TailFits, PlainByte;
    var none: Bytes := [];
    assert none + none + rest == rest;
    if form.plain != [] {
      assert s[0] == form.plain[0];
    }
  }

  /** The gap after an argument, from what was left of the line after it. */
  lemma GapRead(tail: Tail, rest: Bytes, lead: Bytes, words: seq<(Form, Bytes)>) returns (gap: Bytes)
    requires Ended(tail, rest) && After(tail, rest) == lead + WriteLine(words) && AllWhite(lead) && WordsFit(words)
    ensures rest == gap + WriteLine(words) && AllWhite(gap) && Ended(tail, gap) && (words != [] ==> gap != [])
  {
    LineStart(words);
    hide WriteLine, WordsFit;
    if tail.Bare? && rest != [] {
      gap := [rest[0]] + lead;
      assert rest == [rest[0]] + rest[1..];
      Regroup([rest[0]], lead, WriteLine(words));
    } else {
      gap := lead;
      if lead == [] {
        assert lead + WriteLine(words) == WriteLine(words);
      } else {
        assert rest[0] == lead[0];
      }
    }
  }

  lemma WordAdded(form: Form, gap: Bytes, words: seq<(Form, Bytes)>, s: Bytes, rest: Bytes)
    requires Fits(form) && WordsFit(words) && AllWhite(gap) && Ended(form.tail, gap) && (words != [] ==> gap != [])
    requires s == Write(form) + rest && rest == gap + WriteLine(words)
    ensures WordsFit([(form, gap)] + words) && WriteLine([(form, gap)] + words) == s
    ensures Meanings([(form, gap)] + words) == [Meaning(form)] + Meanings(words)
  {
    hide Fits, Write, Ended, AllWhite, Meaning;
    assert ([(form, gap)] + words)[1..] == words;
  }

  lemma NoWords()
    ensures WordsFit([]) && WriteLine([]) == [] && Meanings([]) == []
  {
  }

  lemma UnfoldArguments(line: Bytes)
    ensures var s := SkipBlanks(line);
            && (s != [] ==> !White(s[0]))
            && (s == [] ==> Arguments(line) == Some([]))
            && (s != [] && Arguments(line).Some? ==>
                  && Argument(s, Plain, []).Some?
                  && Arguments(Argument(s, Plain, []).value.1).Some?
                  && Arguments(line) == Some([Argument(s, Plain, []).value.0]
                                             + Arguments(Argument(s, Plain, []).value.1).value))
  {
    hide Argument;
  }

  /** Every line that is read was written so. */
  lemma {:induction false} LineRead(line: Bytes) returns (lead: Bytes, words: seq<(Form, Bytes)>)
    requires 0 !in line && Arguments(line).Some?
    ensures AllWhite(lead) && WordsFit(words) && line == lead + WriteLine(words)
    ensures Arguments(line) == Some(Meanings(words))
    decreases |line|
  {
    hide Argument, Arguments, SkipBlanks, AllWhite, Ended, Fits, Write, Meaning, TailFits, PlainByte, White;
    hide WriteLine, WordsFit, Meanings, After;
    lead := SkippedWhite(line);
    var s := SkipBlanks(line);
    NoZeroAfter(line, lead, s);
    UnfoldArguments(line);
    if s == [] {
      words := [];
      NoWords();
    } else {
      var none: Bytes := [];
      var form, rest := FormRead(s, none);
      assert none + Meaning(form) == Meaning(form);
      FitsAsRead(form, s, rest);
      var left := After(form.tail, rest);
      NoZeroLeft(s, form, rest);
      var lead', words' := LineRead(left);
      var gap := GapRead(form.tail, rest, lead', words');
      WordAdded(form, gap, words', s, rest);
      words := [(form, gap)] + words';
    }
  }

  lemma NoZeroLeft(s: Bytes, form: Form, rest: Bytes)
    requires 0 !in s && s == Write(form) + rest
    ensures 0 !in After(form.tail, rest)
  {
    hide Write;
    NoZeroAfter(s, Write(form), rest);
  }

  /** The grammar of argument lines, both ways: a C string is split into certain
      arguments if and only if it is white space and forms of these arguments,
      written as above; any other is refused. */
  lemma SplitIffWritten(line: Bytes, args: seq<Bytes>)
    requires 0 !in line
    ensures Arguments(line) == Some(args) <==>
              exists lead, words :: AllWhite(lead) && WordsFit(words) && line == lead + WriteLine(words)
                                    && Meanings(words) == args
  {
    hide Arguments, AllWhite, WordsFit, WriteLine, Meanings;
    if Arguments(line) == Some(args) {
      var lead, words := LineRead(line);
    }
    forall lead, words | AllWhite(lead) && WordsFit(words) && line == lead + WriteLine(words)
      ensures Arguments(line) == Some(Meanings(words))
    {
      ReadLine(lead, words);
    }
  }
}
