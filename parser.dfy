/**
 * The `.msp` parser of src/parser.rs: nom combinators as functions over the input text
 * that return the parsed value and the remaining input. The grammar is a `Name:` line,
 * an optional `DB#:` line, a `Num Peaks: N` line and exactly N mass/intensity pairs.
 */
module Parser {
  import opened Wrappers
  import opened Decimal
  import opened IndexMaps

  /** `u64::MAX`, and `usize::MAX` on a 64-bit target. */
  const U64_MAX: nat := 0xFFFF_FFFF_FFFF_FFFF
  const USIZE_MAX: nat := 0xFFFF_FFFF_FFFF_FFFF

  /** `IResult`: the value and the rest of the input, or a nom error. */
  datatype Res<+T> = Parsed(value: T, rest: string) | Failed

  /** `parser::File`. */
  datatype File = File(name: string, db: Option<nat>, peaks: Entries)

  /** The outcome of `parse`: the file, a nom error, or the panic of its `assert!`. */
  datatype Outcome = Ok(file: File) | Err | Panic

  lemma AppendAssoc(a: string, b: string, c: string)
    ensures (a + b) + c == a + (b + c)
  {
  }

  /** A non-empty text whose tail splits as `a + b` splits as `([head] + a) + b`. */
  lemma ConsAppend(s: string, a: string, b: string)
    requires s != [] && s[1..] == a + b
    ensures s == ([s[0]] + a) + b
  {
    assert s == [s[0]] + s[1..];
    AppendAssoc([s[0]], a, b);
  }

  /** `rest` is what is left of `input` after a prefix was consumed. */
  predicate SuffixOf(rest: string, input: string)
  {
    |rest| <= |input| && input[|input| - |rest|..] == rest
  }

  lemma SuffixOfAppend(a: string, b: string)
    ensures SuffixOf(b, a + b)
  {
    assert (a + b)[|a|..] == b;
  }

  lemma SuffixOfTrans(a: string, b: string, c: string)
    requires SuffixOf(a, b) && SuffixOf(b, c)
    ensures SuffixOf(a, c)
  {
    assert c[|c| - |a|..] == c[|c| - |b|..][|b| - |a|..];
  }

  /** `tag(t)`. */
  function Tag(input: string, t: string): (r: Res<string>)
    ensures r.Parsed? <==> t <= input
    ensures r.Parsed? ==> r.value == t && input == t + r.rest
  {
    if t <= input then Parsed(t, input[|t|..]) else Failed
  }

  predicate IsBlank(c: char)
  {
    c == ' ' || c == '\t'
  }

  /** `multiwhitespace`: `many0(one_of(" \t"))`, which never fails. */
  function Multiwhitespace(input: string): (r: Res<string>)
    ensures r.Parsed? && input == r.value + r.rest
    ensures forall i :: 0 <= i < |r.value| ==> IsBlank(r.value[i])
    ensures r.rest == [] || !IsBlank(r.rest[0])
    ensures input == [] || !IsBlank(input[0]) ==> r.value == []
    decreases |input|
  {
    if input != [] && IsBlank(input[0]) then
      var tail := Multiwhitespace(input[1..]);
      ConsAppend(input, tail.value, tail.rest);
      Parsed([input[0]] + tail.value, tail.rest)
    else Parsed([], input)
  }

  /** The text begins with `"\n"` or `"\r\n"`. */
  predicate StartsWithLineEnding(s: string)
  {
    s != [] && (s[0] == '\n' || (s[0] == '\r' && |s| > 1 && s[1] == '\n'))
  }

  /** `line_ending`: `"\n"` or `"\r\n"`. */
  function LineEnding(input: string): (r: Res<string>)
    ensures r.Parsed? <==> StartsWithLineEnding(input)
    ensures r.Parsed? ==> (r.value == "\n" || r.value == "\r\n") && input == r.value + r.rest
  {
    if input != [] && input[0] == '\n' then Parsed("\n", input[1..])
    else if StartsWithLineEnding(input) then Parsed("\r\n", input[2..])
    else Failed
  }

  predicate IsLineChar(c: char)
  {
    c != '\n' && c != '\r'
  }

  /**
   * `not_line_ending`: everything up to the first `"\n"` or `"\r\n"` (or the end); a
   * `'\r'` not followed by `'\n'` is an error.
   */
  function NotLineEnding(input: string): (r: Res<string>)
    ensures r.Parsed? ==> input == r.value + r.rest
    ensures r.Parsed? ==> forall i :: 0 <= i < |r.value| ==> IsLineChar(r.value[i])
    ensures r.Parsed? ==> r.rest == [] || StartsWithLineEnding(r.rest)
    decreases |input|
  {
    if input == [] then Parsed([], [])
    else if input[0] == '\n' then Parsed([], input)
    else if input[0] == '\r' then
      (if |input| > 1 && input[1] == '\n' then Parsed([], input) else Failed)
    else match NotLineEnding(input[1..])
      case Parsed(line, rest) =>
        ConsAppend(input, line, rest);
        Parsed([input[0]] + line, rest)
      case Failed => Failed
  }

  /** A lone `'\r'` anywhere before the line ending makes `not_line_ending` fail. */
  lemma {:induction false} NotLineEndingFailsOnLoneReturn(line: string, rest: string)
    requires forall i :: 0 <= i < |line| ==> IsLineChar(line[i])
    requires rest != [] && rest[0] == '\r' && (|rest| == 1 || rest[1] != '\n')
    ensures NotLineEnding(line + rest) == Failed
    decreases |line|
  {
    if line != [] {
      assert (line + rest)[1..] == line[1..] + rest;
      NotLineEndingFailsOnLoneReturn(line[1..], rest);
    } else {
      assert line + rest == rest;
    }
  }

  /** `not_line_ending` stops exactly at a line ending. */
  lemma {:induction false} NotLineEndingOfLine(line: string, rest: string)
    requires forall i :: 0 <= i < |line| ==> IsLineChar(line[i])
    requires rest == [] || StartsWithLineEnding(rest)
    ensures NotLineEnding(line + rest) == Parsed(line, rest)
    decreases |line|
  {
    if line != [] {
      assert (line + rest)[1..] == line[1..] + rest;
      NotLineEndingOfLine(line[1..], rest);
      assert [line[0]] + line[1..] == line;
    } else {
      assert line + rest == rest;
    }
  }

  /** `digit1`: the longest non-empty run of ASCII digits. */
  function Digit1(input: string): (r: Res<string>)
    ensures r.Parsed? <==> input != [] && IsDigit(input[0])
    ensures r.Parsed? ==> input == r.value + r.rest && r.value != [] && AllDigits(r.value)
    ensures r.Parsed? ==> r.rest == [] || !IsDigit(r.rest[0])
    decreases |input|
  {
    if input == [] || !IsDigit(input[0]) then Failed
    else match Digit1(input[1..])
      case Parsed(run, rest) =>
        ConsAppend(input, run, rest);
        Parsed([input[0]] + run, rest)
      case Failed => Parsed([input[0]], input[1..])
  }

  lemma {:induction false} Digit1OfDigits(digits: string, rest: string)
    requires digits != [] && AllDigits(digits)
    requires rest == [] || !IsDigit(rest[0])
    ensures Digit1(digits + rest) == Parsed(digits, rest)
    decreases |digits|
  {
    assert (digits + rest)[1..] == digits[1..] + rest;
    if |digits| > 1 {
      Digit1OfDigits(digits[1..], rest);
      assert [digits[0]] + digits[1..] == digits;
    }
  }

  /**
   * `number::<T>`: `map_res(digit1, str::parse)`, where the parse fails when the value
   * does not fit in `T` (whose maximum is `max`).
   */
  function Number(input: string, max: nat): (r: Res<nat>)
    ensures r.Parsed? <==> Digit1(input).Parsed? && Value(Digit1(input).value) <= max
    ensures r.Parsed? ==> r.value <= max && r.rest == Digit1(input).rest
    ensures r.Parsed? ==> r.value == Value(Digit1(input).value)
  {
    match Digit1(input)
    case Parsed(digits, rest) => if Value(digits) <= max then Parsed(Value(digits), rest) else Failed
    case Failed => Failed
  }

  /** The decimal text of a value that fits reads back as that value. */
  lemma NumberOfDecimal(n: nat, max: nat, rest: string)
    requires n <= max
    requires rest == [] || !IsDigit(rest[0])
    ensures Number(ToDecimal(n) + rest, max) == Parsed(n, rest)
  {
    Digit1OfDigits(ToDecimal(n), rest);
    ValueOfToDecimal(n);
  }

  /** The single separator characters of `multiseparator`. */
  predicate IsSeparatorChar(c: char)
  {
    || c == ' ' || c == '\t' || c == ',' || c == ';' || c == ':'
    || c == '(' || c == ')' || c == '[' || c == ']' || c == '{' || c == '}'
  }

  /** One unit of `multiseparator`: a separator character or a line ending. */
  function SeparatorUnit(input: string): (r: Res<string>)
    ensures r.Parsed? ==> input == r.value + r.rest && |r.value| > 0 && |r.rest| < |input|
  {
    if input != [] && IsSeparatorChar(input[0]) then Parsed([input[0]], input[1..])
    else LineEnding(input)
  }

  /** `many0` of separator units. */
  function SeparatorRun(input: string): (r: Res<string>)
    ensures r.Parsed? && input == r.value + r.rest
    ensures SeparatorUnit(r.rest).Failed?
    decreases |input|
  {
    var first := SeparatorUnit(input);
    if first.Failed? then Parsed([], input)
    else
      var tail := SeparatorRun(first.rest);
      AppendAssoc(first.value, tail.value, tail.rest);
      Parsed(first.value + tail.value, tail.rest)
  }

  /** `multiseparator`: at least one separator unit, as many as follow. */
  function Multiseparator(input: string): (r: Res<string>)
    ensures r.Parsed? <==> SeparatorUnit(input).Parsed?
    ensures r.Parsed? ==> input == r.value + r.rest && r.value != [] && SeparatorUnit(r.rest).Failed?
  {
    if SeparatorUnit(input).Parsed? then SeparatorRun(input) else Failed
  }

  /** Before a digit, or at the end, `multiseparator` stops. */
  lemma SeparatorsStopAtDigit(rest: string)
    requires rest == [] || IsDigit(rest[0])
    ensures SeparatorUnit(rest).Failed?
  {
  }

  /** `terminated(separated_pair(number, multiseparator, number), multiseparator)`. */
  function Pair(input: string): (r: Res<(nat, nat)>)
    ensures r.Parsed? ==> r.value.0 <= U64_MAX && r.value.1 <= U64_MAX && |r.rest| < |input|
  {
    match Number(input, U64_MAX)
    case Failed => Failed
    case Parsed(mass, afterMass) =>
      match Multiseparator(afterMass)
      case Failed => Failed
      case Parsed(_, beforeIntensity) =>
        match Number(beforeIntensity, U64_MAX)
        case Failed => Failed
        case Parsed(intensity, afterIntensity) =>
          match Multiseparator(afterIntensity)
          case Failed => Failed
          case Parsed(_, rest) => Parsed((mass, intensity), rest)
  }

  /** The counted part of `length_count`: exactly `count` pairs, in order. */
  function Pairs(input: string, count: nat): (r: Res<seq<(nat, nat)>>)
    ensures r.Parsed? ==> |r.value| == count && |r.rest| <= |input|
    decreases count
  {
    if count == 0 then Parsed([], input)
    else match Pair(input)
      case Failed => Failed
      case Parsed(pair, rest) =>
        match Pairs(rest, count - 1)
        case Failed => Failed
        case Parsed(pairs, rest') => Parsed([pair] + pairs, rest')
  }

  /** `name`: `Name:`, blanks, the rest of the line, blanks, a line ending. */
  function Name(input: string): (r: Res<string>)
  {
    match Tag(input, "Name:")
    case Failed => Failed
    case Parsed(_, afterTag) =>
      match NotLineEnding(Multiwhitespace(afterTag).rest)
      case Failed => Failed
      case Parsed(name, afterName) =>
        match LineEnding(Multiwhitespace(afterName).rest)
        case Failed => Failed
        case Parsed(_, rest) => Parsed(name, rest)
  }

  /** `db`: the optional `DB#:` line; on any error it yields `None` and leaves the input as it was. */
  function Db(input: string): (r: Res<Option<nat>>)
    ensures r.Parsed?
    ensures r.value.None? ==> r.rest == input
    ensures !("DB#:" <= input) ==> r == Parsed(None, input)
  {
    match Tag(input, "DB#:")
    case Failed => Parsed(None, input)
    case Parsed(_, afterTag) =>
      match Number(Multiwhitespace(afterTag).rest, U64_MAX)
      case Failed => Parsed(None, input)
      case Parsed(db, afterDb) =>
        match LineEnding(Multiwhitespace(afterDb).rest)
        case Failed => Parsed(None, input)
        case Parsed(_, rest) => Parsed(Some(db), rest)
  }

  /** The head of `peaks`: `Num Peaks:`, blanks, the announced count N as a `usize`, blanks, a line ending. */
  function CountLine(input: string): (r: Res<nat>)
    ensures r.Parsed? ==> "Num Peaks:" <= input && r.value <= USIZE_MAX
  {
    match Tag(input, "Num Peaks:")
    case Failed => Failed
    case Parsed(_, afterTag) =>
      match Number(Multiwhitespace(afterTag).rest, USIZE_MAX)
      case Failed => Failed
      case Parsed(count, afterCount) =>
        match LineEnding(Multiwhitespace(afterCount).rest)
        case Failed => Failed
        case Parsed(_, beforePairs) => Parsed(count, beforePairs)
  }

  /** `peaks`: the count line, then exactly N pairs, collected into an `IndexMap`. */
  function Peaks(input: string): (r: Res<Entries>)
  {
    match CountLine(input)
    case Failed => Failed
    case Parsed(count, beforePairs) =>
      match Pairs(beforePairs, count)
      case Failed => Failed
      case Parsed(pairs, rest) => Parsed(Collect(pairs), rest)
  }

  /** `parse`; leftover input trips `assert!(input.is_empty())`, a panic rather than an `Err`. */
  function Parse(input: string): (r: Outcome)
    ensures r.Ok? ==> "Name:" <= input
  {
    match Name(input)
    case Failed => Err
    case Parsed(name, afterName) =>
      var db := Db(afterName);
      match Peaks(db.rest)
      case Failed => Err
      case Parsed(peaks, rest) =>
        if rest == [] then Ok(File(name, db.value, peaks)) else Panic
  }

  // Properties of the grammar.

  lemma {:induction false} MultiwhitespaceOf(blanks: string, rest: string)
    requires forall i :: 0 <= i < |blanks| ==> IsBlank(blanks[i])
    requires rest == [] || !IsBlank(rest[0])
    ensures Multiwhitespace(blanks + rest) == Parsed(blanks, rest)
    decreases |blanks|
  {
    if blanks != [] {
      assert (blanks + rest)[1..] == blanks[1..] + rest;
      MultiwhitespaceOf(blanks[1..], rest);
      assert [blanks[0]] + blanks[1..] == blanks;
    } else {
      assert blanks + rest == rest;
    }
  }

  /** The text `name` accepts: it returns the line after `Name:` and its leading blanks, trailing blanks included. */
  lemma NameOfLine(blanks: string, name: string, lineEnding: string, rest: string)
    requires forall i :: 0 <= i < |blanks| ==> IsBlank(blanks[i])
    requires forall i :: 0 <= i < |name| ==> IsLineChar(name[i])
    requires name == [] || !IsBlank(name[0])
    requires lineEnding == "\n" || lineEnding == "\r\n"
    ensures Name("Name:" + (blanks + (name + (lineEnding + rest)))) == Parsed(name, rest)
  {
    var afterBlanks := name + (lineEnding + rest);
    assert Tag("Name:" + (blanks + afterBlanks), "Name:").rest == blanks + afterBlanks;
    if name == [] {
      assert afterBlanks == lineEnding + rest;
    }
    MultiwhitespaceOf(blanks, afterBlanks);
    NotLineEndingOfLine(name, lineEnding + rest);
    MultiwhitespaceOf([], lineEnding + rest);
    assert [] + (lineEnding + rest) == lineEnding + rest;
  }

  /** Conversely, whatever `name` accepts has that shape. */
  lemma NameShape(input: string)
    requires Name(input).Parsed?
    ensures exists blanks: string, lineEnding: string ::
      && (forall i :: 0 <= i < |blanks| ==> IsBlank(blanks[i]))
      && (forall i :: 0 <= i < |Name(input).value| ==> IsLineChar(Name(input).value[i]))
      && (Name(input).value == [] || !IsBlank(Name(input).value[0]))
      && (lineEnding == "\n" || lineEnding == "\r\n")
      && input == "Name:" + (blanks + (Name(input).value + (lineEnding + Name(input).rest)))
  {
    var afterTag := Tag(input, "Name:").rest;
    var ws := Multiwhitespace(afterTag);
    var line := NotLineEnding(ws.rest);
    var ws2 := Multiwhitespace(line.rest);
    var le := LineEnding(ws2.rest);
    assert ws2.rest == line.rest;
    assert line.value == Name(input).value && le.rest == Name(input).rest;
    assert line.rest == le.value + le.rest;
    assert ws.rest == line.value + (le.value + le.rest);
    assert afterTag == ws.value + (line.value + (le.value + le.rest));
  }

  /** `db` only ever consumes a prefix of its input. */
  lemma DbConsumesPrefix(input: string)
    ensures SuffixOf(Db(input).rest, input)
  {
    var r := Db(input);
    if r.value.None? {
      SuffixOfAppend([], input);
    } else {
      var afterTag := Tag(input, "DB#:").rest;
      var ws := Multiwhitespace(afterTag);
      var digits := Digit1(ws.rest);
      var ws2 := Multiwhitespace(digits.rest);
      var le := LineEnding(ws2.rest);
      assert le.rest == r.rest;
      SuffixOfAppend(le.value, le.rest);
      SuffixOfAppend(ws2.value, ws2.rest);
      SuffixOfTrans(r.rest, ws2.rest, digits.rest);
      SuffixOfAppend(digits.value, digits.rest);
      SuffixOfTrans(r.rest, digits.rest, ws.rest);
      SuffixOfAppend(ws.value, ws.rest);
      SuffixOfTrans(r.rest, ws.rest, afterTag);
      SuffixOfAppend("DB#:", afterTag);
      SuffixOfTrans(r.rest, afterTag, input);
    }
  }

  /** A successful parse starts with a `Name:` line. */
  lemma ParseStartsWithName(input: string)
    requires Parse(input).Ok?
    ensures Name(input).Parsed? && Parse(input).file.name == Name(input).value
  {
  }

  /** The peaks of a successful parse have distinct masses, no more than the announced count. */
  lemma PeaksDistinct(input: string)
    requires Peaks(input).Parsed?
    ensures DistinctKeys(Peaks(input).value)
    ensures CountLine(input).Parsed? && |Peaks(input).value| <= CountLine(input).value
  {
    var head := CountLine(input);
    CollectProperties(Pairs(head.rest, head.value).value);
  }

  // The canonical text of a file, and the round trip. Each piece is rendered in front
  // of the text that follows it, so that reading it back needs no regrouping.

  /** `m i` and a line ending, in front of `after`. */
  function RenderPair(p: (nat, nat), after: string): string
  {
    ToDecimal(p.0) + (" " + (ToDecimal(p.1) + ("\n" + after)))
  }

  function RenderPairs(pairs: seq<(nat, nat)>, after: string): string
    decreases |pairs|
  {
    if pairs == [] then after else RenderPair(pairs[0], RenderPairs(pairs[1..], after))
  }

  /** ` n` and a line ending, the value part of a header line. */
  function RenderValue(n: nat, after: string): string
  {
    " " + (ToDecimal(n) + ("\n" + after))
  }

  function RenderDb(db: Option<nat>, after: string): string
  {
    match db
    case Some(d) => "DB#:" + RenderValue(d, after)
    case None => after
  }

  /** `Name: n`, an optional `DB#: d` line, `Num Peaks: k`, then `m i` per pair, each line ended by `\n`. */
  function RenderThen(name: string, db: Option<nat>, pairs: seq<(nat, nat)>, after: string): string
  {
    "Name:" + (" " + (name + ("\n" + RenderDb(db, "Num Peaks:" + RenderValue(|pairs|, RenderPairs(pairs, after))))))
  }

  function Render(name: string, db: Option<nat>, pairs: seq<(nat, nat)>): string
  {
    RenderThen(name, db, pairs, "")
  }

  lemma SpaceBeforeDigits(x: string)
    requires x != [] && IsDigit(x[0])
    ensures Multiseparator(" " + x) == Parsed(" ", x)
  {
    var s := " " + x;
    assert s[0] == ' ' && s[1..] == x;
    assert SeparatorUnit(s) == Parsed(" ", x);
    assert SeparatorUnit(x).Failed?;
    assert SeparatorRun(x) == Parsed([], x);
    assert " " + [] == " ";
  }

  lemma NewlineBeforeRest(rest: string)
    requires SeparatorUnit(rest).Failed?
    ensures Multiseparator("\n" + rest) == Parsed("\n", rest)
  {
    var s := "\n" + rest;
    assert s[0] == '\n' && s[1..] == rest;
    assert SeparatorUnit(s) == Parsed("\n", rest);
    assert SeparatorRun(rest) == Parsed([], rest);
    assert "\n" + [] == "\n";
  }

  /** One canonical pair reads back, up to any text that does not begin with a separator. */
  lemma PairOfRendered(p: (nat, nat), rest: string)
    requires p.0 <= U64_MAX && p.1 <= U64_MAX
    requires SeparatorUnit(rest).Failed?
    ensures Pair(RenderPair(p, rest)) == Parsed(p, rest)
  {
    var afterIntensity := "\n" + rest;
    var beforeIntensity := ToDecimal(p.1) + afterIntensity;
    var afterMass := " " + beforeIntensity;
    assert afterMass[0] == ' ';
    NumberOfDecimal(p.0, U64_MAX, afterMass);
    SpaceBeforeDigits(beforeIntensity);
    assert afterIntensity[0] == '\n';
    NumberOfDecimal(p.1, U64_MAX, afterIntensity);
    NewlineBeforeRest(rest);
  }

  lemma TailStopsSeparators(pairs: seq<(nat, nat)>, rest: string)
    requires SeparatorUnit(rest).Failed?
    ensures SeparatorUnit(RenderPairs(pairs, rest)).Failed?
  {
    if pairs != [] {
      var text := RenderPairs(pairs, rest);
      var m := ToDecimal(pairs[0].0);
      assert text == m + (" " + (ToDecimal(pairs[0].1) + ("\n" + RenderPairs(pairs[1..], rest))));
      assert text[0] == m[0];
    }
  }

  /** The canonical pairs read back as exactly those pairs, in order. */
  lemma {:induction false} PairsOfRendered(pairs: seq<(nat, nat)>, rest: string)
    requires forall k :: 0 <= k < |pairs| ==> pairs[k].0 <= U64_MAX && pairs[k].1 <= U64_MAX
    requires SeparatorUnit(rest).Failed?
    ensures Pairs(RenderPairs(pairs, rest), |pairs|) == Parsed(pairs, rest)
    decreases |pairs|
  {
    if pairs != [] {
      var others := pairs[1..];
      var tail := RenderPairs(others, rest);
      var input := RenderPairs(pairs, rest);
      assert Pair(input) == Parsed(pairs[0], tail) by {
        TailStopsSeparators(others, rest);
        PairOfRendered(pairs[0], tail);
      }
      assert Pairs(tail, |others|) == Parsed(others, rest) by {
        PairsOfRendered(others, rest);
      }
      PairsStep(input, pairs, tail, rest);
    }
  }

  /** `Pairs` reads one pair, then the remaining count. */
  lemma PairsStep(input: string, pairs: seq<(nat, nat)>, tail: string, rest: string)
    requires pairs != []
    requires Pair(input) == Parsed(pairs[0], tail)
    requires Pairs(tail, |pairs[1..]|) == Parsed(pairs[1..], rest)
    ensures Pairs(input, |pairs|) == Parsed(pairs, rest)
  {
    assert [pairs[0]] + pairs[1..] == pairs;
  }

  /** The value part of a header line: one blank, the number, a line ending. */
  lemma HeaderValueOfRendered(n: nat, max: nat, rest: string)
    requires n <= max
    ensures Multiwhitespace(RenderValue(n, rest)).rest == ToDecimal(n) + ("\n" + rest)
    ensures Number(ToDecimal(n) + ("\n" + rest), max) == Parsed(n, "\n" + rest)
    ensures Multiwhitespace("\n" + rest) == Parsed([], "\n" + rest)
    ensures LineEnding("\n" + rest) == Parsed("\n", rest)
  {
    var d := ToDecimal(n);
    MultiwhitespaceOf(" ", d + ("\n" + rest));
    NumberOfDecimal(n, max, "\n" + rest);
    assert ("\n" + rest)[0] == '\n';
  }

  lemma DbOfRendered(db: Option<nat>, rest: string)
    requires db.Some? ==> db.value <= U64_MAX
    requires rest != [] && rest[0] == 'N'
    ensures Db(RenderDb(db, rest)) == Parsed(db, rest)
  {
    match db {
      case Some(d) =>
        var line := RenderValue(d, rest);
        assert Tag("DB#:" + line, "DB#:") == Parsed("DB#:", line);
        HeaderValueOfRendered(d, U64_MAX, rest);
      case None =>
        assert !("DB#:" <= rest) by {
          assert rest[0] != "DB#:"[0];
        }
    }
  }

  lemma PeaksOfRendered(pairs: seq<(nat, nat)>, rest: string)
    requires |pairs| <= USIZE_MAX
    requires forall k :: 0 <= k < |pairs| ==> pairs[k].0 <= U64_MAX && pairs[k].1 <= U64_MAX
    requires SeparatorUnit(rest).Failed?
    ensures Peaks("Num Peaks:" + RenderValue(|pairs|, RenderPairs(pairs, rest))) == Parsed(Collect(pairs), rest)
  {
    var body := RenderPairs(pairs, rest);
    var line := RenderValue(|pairs|, body);
    assert Tag("Num Peaks:" + line, "Num Peaks:") == Parsed("Num Peaks:", line);
    HeaderValueOfRendered(|pairs|, USIZE_MAX, body);
    PairsOfRendered(pairs, rest);
  }

  /** Parse, once each of its three stages is known. */
  lemma ParseOfStages(input: string, name: string, afterName: string, db: Option<nat>, peaksText: string, peaks: Entries, rest: string)
    requires Name(input) == Parsed(name, afterName)
    requires Db(afterName) == Parsed(db, peaksText)
    requires Peaks(peaksText) == Parsed(peaks, rest)
    ensures Parse(input) == if rest == [] then Ok(File(name, db, peaks)) else Panic
  {
  }

  /**
   * The canonical text parses back to its name, database id and the collected pairs,
   * and any further text that does not begin with a separator trips the panic. The
   * name must not begin with a blank nor hold a line-ending character.
   */
  lemma ParseOfRendered(name: string, db: Option<nat>, pairs: seq<(nat, nat)>, rest: string)
    requires forall i :: 0 <= i < |name| ==> IsLineChar(name[i])
    requires name == [] || !IsBlank(name[0])
    requires db.Some? ==> db.value <= U64_MAX
    requires |pairs| <= USIZE_MAX
    requires forall k :: 0 <= k < |pairs| ==> pairs[k].0 <= U64_MAX && pairs[k].1 <= U64_MAX
    requires SeparatorUnit(rest).Failed?
    ensures Parse(RenderThen(name, db, pairs, rest)) ==
      if rest == [] then Ok(File(name, db, Collect(pairs))) else Panic
  {
    var peaksText := "Num Peaks:" + RenderValue(|pairs|, RenderPairs(pairs, rest));
    var afterName := RenderDb(db, peaksText);
    NameOfLine(" ", name, "\n", afterName);
    assert peaksText[0] == 'N';
    DbOfRendered(db, peaksText);
    PeaksOfRendered(pairs, rest);
    ParseOfStages(RenderThen(name, db, pairs, rest), name, afterName, db, peaksText, Collect(pairs), rest);
  }

  /** With distinct masses the canonical text parses back to exactly what was written. */
  lemma ParseRoundTrip(name: string, db: Option<nat>, pairs: seq<(nat, nat)>)
    requires forall i :: 0 <= i < |name| ==> IsLineChar(name[i])
    requires name == [] || !IsBlank(name[0])
    requires db.Some? ==> db.value <= U64_MAX
    requires |pairs| <= USIZE_MAX
    requires forall k :: 0 <= k < |pairs| ==> pairs[k].0 <= U64_MAX && pairs[k].1 <= U64_MAX
    requires DistinctKeys(pairs)
    ensures Parse(Render(name, db, pairs)) == Ok(File(name, db, pairs))
  {
    ParseOfRendered(name, db, pairs, []);
    CollectDistinct(pairs);
  }
}
