/**
 * The parser of `emoji.go`: it reads the lines of Unicode's
 * `emoji-sequences.txt` (version 13.1) into emojis, each a list of runes.
 * Every imperative Go function is a method that works the way the Go code
 * does (its loop, its early returns), proved against a function that says
 * what the result is; the properties are proved about those functions.
 */
module Emoji {
  import opened Wrappers
  import opened GoStrings
  import opened HexParse
  import Utf8

  /** Go's `rune`: a signed 32-bit integer (a data file can spell a negative one, "-1"). */
  type Rune = Int32

  /** One emoji: the runes that render as a single symbol. */
  datatype Emoji = Emoji(runes: seq<Rune>)
  {
    /** `Emoji.String`: the runes as UTF-8 text. */
    function String(): seq<Utf8.Byte>
    {
      Utf8.Encode(runes)
    }
  }

  /** An emoji's text reads back as its runes, each rune that is not a
      Unicode scalar value reading as U+FFFD. */
  lemma StringDecodes(e: Emoji)
    ensures Utf8.Decode(e.String()) == Some(Utf8.Sanitize(e.runes))
    ensures (forall k | 0 <= k < |e.runes| :: Utf8.IsScalar(e.runes[k])) ==>
      Utf8.Decode(e.String()) == Some(e.runes)
  {
    Utf8.DecodeEncode(e.runes);
    if forall k | 0 <= k < |e.runes| :: Utf8.IsScalar(e.runes[k]) {
      Utf8.DecodeEncodeScalars(e.runes);
    }
  }

  /** Why a code-point field was rejected (Go builds these as formatted messages). */
  datatype ParseError =
    | RangeNotSupported                              // extractRunes met a '.'
    | NotARange(cpRange: string)                     // the field does not split into two parts around ".."
    | InvalidCodePoint(token: string, cause: NumError) // strconv.ParseInt refused the token

  /** Go's `(value, err)` pair read as a `Result`. */
  function AsResult<T>(value: T, err: Option<ParseError>): Result<T, ParseError>
  {
    if err.None? then Success(value) else Failure(err.value)
  }

  // ---------------------------------------------------------------------
  // Code-point decoder: extractRunes

  /** Every token parses as a 32-bit hex number. */
  predicate AllParse(tokens: seq<string>)
  {
    forall k | 0 <= k < |tokens| :: ParseHex32(tokens[k]).Success?
  }

  /** `k` is the first token that does not parse. */
  predicate FirstBad(tokens: seq<string>, k: int)
  {
    && 0 <= k < |tokens|
    && ParseHex32(tokens[k]).Failure?
    && forall j | 0 <= j < k :: ParseHex32(tokens[j]).Success?
  }

  lemma AllParseCons(tokens: seq<string>)
    requires |tokens| > 0
    ensures AllParse(tokens) <==> ParseHex32(tokens[0]).Success? && AllParse(tokens[1..])
  {
    if ParseHex32(tokens[0]).Success? && AllParse(tokens[1..]) {
      forall j | 0 <= j < |tokens| ensures ParseHex32(tokens[j]).Success? {
        if j > 0 { assert tokens[j] == tokens[1..][j - 1]; }
      }
    }
  }

  /** Decodes the tokens in order: one rune per token, or the error of the first bad token. */
  function DecodeTokens(tokens: seq<string>): (r: Result<seq<Rune>, ParseError>)
    ensures r.Success? <==> AllParse(tokens)
    ensures r.Success? ==>
      && |r.value| == |tokens|
      && forall k | 0 <= k < |tokens| :: r.value[k] == ParseHex32(tokens[k]).value
  {
    if tokens == [] then Success([])
    else
      AllParseCons(tokens);
      match ParseHex32(tokens[0])
      case Failure(e) => Failure(InvalidCodePoint(tokens[0], e))
      case Success(v) =>
        var rest := DecodeTokens(tokens[1..]);
        if rest.Failure? then rest else Success([v] + rest.value)
  }

  /** A failure names the first token that does not parse, with its cause. */
  lemma {:induction false} DecodeTokensFailure(tokens: seq<string>)
    requires DecodeTokens(tokens).Failure?
    ensures exists k ::
      && FirstBad(tokens, k)
      && DecodeTokens(tokens).error == InvalidCodePoint(tokens[k], ParseHex32(tokens[k]).error)
    decreases |tokens|
  {
    if ParseHex32(tokens[0]).Failure? {
      assert FirstBad(tokens, 0);
    } else {
      DecodeTokensFailure(tokens[1..]);
      var k :| FirstBad(tokens[1..], k) &&
        DecodeTokens(tokens[1..]).error == InvalidCodePoint(tokens[1..][k], ParseHex32(tokens[1..][k]).error);
      assert tokens[1..][k] == tokens[k + 1];
      assert FirstBad(tokens, k + 1) by {
        forall j | 0 <= j < k + 1 ensures ParseHex32(tokens[j]).Success? {
          if j > 0 { assert tokens[j] == tokens[1..][j - 1]; }
        }
      }
    }
  }

  /** The first token that does not parse decides the error. */
  lemma {:induction false} DecodeTokensFirstBad(tokens: seq<string>, i: int)
    requires FirstBad(tokens, i)
    ensures DecodeTokens(tokens) == Failure(InvalidCodePoint(tokens[i], ParseHex32(tokens[i]).error))
    decreases i
  {
    if i > 0 {
      assert FirstBad(tokens[1..], i - 1) by {
        forall j | 0 <= j < i - 1 ensures ParseHex32(tokens[1..][j]).Success? {
          assert tokens[1..][j] == tokens[j + 1];
        }
        assert tokens[1..][i - 1] == tokens[i];
      }
      DecodeTokensFirstBad(tokens[1..], i - 1);
    }
  }

  /** What `extractRunes` returns for a field: `.` is refused, otherwise the
      field is split on single spaces and every piece decoded. */
  function CodePoints(field: string): Result<seq<Rune>, ParseError>
  {
    if '.' in field then Failure(RangeNotSupported) else DecodeTokens(Split(field, " "))
  }

  /** `extractRunes`: one rune per space-separated token, in order; no runes and
      an error if the field holds a `.` or a token that is not 32-bit hex. */
  method ExtractRunes(codePoints: string) returns (runes: seq<Rune>, err: Option<ParseError>)
    ensures AsResult(runes, err) == CodePoints(codePoints)
    ensures err.None? <==> '.' !in codePoints && AllParse(Split(codePoints, " "))
    ensures err.None? ==>
      var tokens := Split(codePoints, " ");
      && |runes| == |tokens|
      && forall k | 0 <= k < |tokens| :: runes[k] == ParseHex32(tokens[k]).value
    ensures err.Some? ==> runes == []
    ensures '.' in codePoints ==> err == Some(RangeNotSupported)
  {
    if '.' in codePoints {
      return [], Some(RangeNotSupported);
    }
    var split := Split(codePoints, " ");
    runes := [];
    for i := 0 to |split|
      invariant |runes| == i
      invariant forall k | 0 <= k < i :: ParseHex32(split[k]).Success? && runes[k] == ParseHex32(split[k]).value
    {
      var codePoint := ParseHex32(split[i]);
      if codePoint.Failure? {
        DecodeTokensFirstBad(split, i);
        return [], Some(InvalidCodePoint(split[i], codePoint.error));
      }
      runes := runes + [codePoint.value];
    }
    assert DecodeTokens(split).value == runes;
    err := None;
  }

  /** A field written as tokens joined by single spaces, none holding a space
      or a `.`, is decoded token by token. */
  lemma CodePointsOfJoin(tokens: seq<string>)
    requires |tokens| >= 1
    requires forall k | 0 <= k < |tokens| :: ' ' !in tokens[k] && '.' !in tokens[k]
    ensures CodePoints(Join(tokens, " ")) == DecodeTokens(tokens)
  {
    assert " "[0] == ' ' && '.' !in " ";
    JoinAvoids(tokens, " ", '.');
    JoinSplit(tokens, " ");
  }

  // ---------------------------------------------------------------------
  // Range expander: expandCodePointRange

  /** The loop `for current != end` ends only if the start is not past the end;
      Go's program otherwise runs on without bound, so callers must exclude it. */
  predicate RangeTerminates(cpRange: string)
  {
    var parts := Split(cpRange, "..");
    (|parts| == 2 && ParseHex32(parts[0]).Success? && ParseHex32(parts[1]).Success?) ==>
      ParseHex32(parts[0]).value <= ParseHex32(parts[1]).value
  }

  /** The runes `lo, lo + 1, ..., hi - 1`: the interval [lo, hi), end excluded. */
  function HalfOpen(lo: Rune, hi: Rune): (r: seq<Rune>)
    requires lo <= hi
    ensures |r| == hi - lo
    ensures forall k | 0 <= k < |r| :: r[k] == lo + k
    decreases hi - lo
  {
    if lo == hi then [] else [lo] + HalfOpen(lo + 1, hi)
  }

  /** What `expandCodePointRange` returns for a field. */
  function Expansion(cpRange: string): Result<seq<Rune>, ParseError>
    requires RangeTerminates(cpRange)
  {
    var parts := Split(cpRange, "..");
    if |parts| != 2 then Failure(NotARange(cpRange))
    else
      match ParseHex32(parts[0])
      case Failure(e) => Failure(InvalidCodePoint(parts[0], e))
      case Success(first) =>
        match ParseHex32(parts[1])
        case Failure(e) => Failure(InvalidCodePoint(parts[1], e))
        case Success(end) => Success(HalfOpen(first, end))
  }

  /** `expandCodePointRange`: a field that is not two parts around ".." is
      refused; a bad start is reported before a bad end; otherwise the result
      is the end - start consecutive runes from the start, the end excluded. */
  method ExpandCodePointRange(cpRange: string) returns (runes: seq<Rune>, err: Option<ParseError>)
    requires RangeTerminates(cpRange)
    ensures AsResult(runes, err) == Expansion(cpRange)
    ensures err.Some? ==> runes == []
    ensures var parts := Split(cpRange, "..");
      && (|parts| != 2 ==> err == Some(NotARange(cpRange)))
      && (|parts| == 2 && ParseHex32(parts[0]).Failure? ==>
            err == Some(InvalidCodePoint(parts[0], ParseHex32(parts[0]).error)))
      && (|parts| == 2 && ParseHex32(parts[0]).Success? && ParseHex32(parts[1]).Failure? ==>
            err == Some(InvalidCodePoint(parts[1], ParseHex32(parts[1]).error)))
      && (|parts| == 2 && ParseHex32(parts[0]).Success? && ParseHex32(parts[1]).Success? ==>
            var start, end := ParseHex32(parts[0]).value, ParseHex32(parts[1]).value;
            && err == None
            && |runes| == end - start
            && forall k | 0 <= k < |runes| :: runes[k] == start + k)
  {
    var split := Split(cpRange, "..");
    if |split| != 2 {
      return [], Some(NotARange(cpRange));
    }
    var first := ParseHex32(split[0]);
    if first.Failure? {
      return [], Some(InvalidCodePoint(split[0], first.error));
    }
    var end := ParseHex32(split[1]);
    if end.Failure? {
      return [], Some(InvalidCodePoint(split[1], end.error));
    }
    runes := CountUp(first.value, end.value);
    err := None;
  }

  /** The loop of `expandCodePointRange`: append `current` and step it until it
      reaches the end. */
  method CountUp(first: Rune, end: Rune) returns (runes: seq<Rune>)
    requires first <= end
    ensures runes == HalfOpen(first, end)
  {
    runes := [];
    var current: int := first;
    while current != end
      invariant first <= current <= end
      invariant |runes| == current - first
      invariant forall k | 0 <= k < |runes| :: runes[k] == first + k
      decreases end - current
    {
      runes := runes + [current];
      current := current + 1;
    }
  }

  /** The range's own end is never produced, and a non-empty range starts at its start. */
  lemma ExpansionExcludesEnd(cpRange: string)
    requires RangeTerminates(cpRange)
    requires Expansion(cpRange).Success?
    ensures var parts := Split(cpRange, "..");
      && |parts| == 2
      && var start, end := ParseHex32(parts[0]).value, ParseHex32(parts[1]).value;
      && end !in Expansion(cpRange).value
      && (start < end ==> Expansion(cpRange).value[0] == start)
      && (start == end ==> Expansion(cpRange).value == [])
  {
  }

  /** The runes `lo, lo + 1, ..., hi`: the interval [lo, hi], both ends
      included, empty when the start is past the end. */
  function Closed(lo: Rune, hi: Rune): (r: seq<Rune>)
    ensures |r| == if lo <= hi then hi - lo + 1 else 0
    ensures forall k | 0 <= k < |r| :: r[k] == lo + k
    decreases hi - lo
  {
    if lo > hi then [] else if lo == hi then [lo] else [lo] + Closed(lo + 1, hi)
  }

  /** The expansion the data file means: in `emoji-sequences.txt` (UAX #51) a
      range `X..Y` lists every code point from X through Y. */
  function InclusiveExpansion(cpRange: string): Result<seq<Rune>, ParseError>
  {
    var parts := Split(cpRange, "..");
    if |parts| != 2 then Failure(NotARange(cpRange))
    else
      match ParseHex32(parts[0])
      case Failure(e) => Failure(InvalidCodePoint(parts[0], e))
      case Success(first) =>
        match ParseHex32(parts[1])
        case Failure(e) => Failure(InvalidCodePoint(parts[1], e))
        case Success(end) => Success(Closed(first, end))
  }

  /** `expandCodePointRange` with the loop condition `current <= end`: it
      always terminates, and a backwards range gives no runes. */
  method ExpandCodePointRangeInclusive(cpRange: string) returns (runes: seq<Rune>, err: Option<ParseError>)
    ensures AsResult(runes, err) == InclusiveExpansion(cpRange)
    ensures err.None? ==>
      var parts := Split(cpRange, "..");
      var start, end := ParseHex32(parts[0]).value, ParseHex32(parts[1]).value;
      && (start <= end ==> |runes| == end - start + 1 && runes[0] == start && runes[|runes| - 1] == end)
      && (start > end ==> runes == [])
  {
    var split := Split(cpRange, "..");
    if |split| != 2 {
      return [], Some(NotARange(cpRange));
    }
    var first := ParseHex32(split[0]);
    if first.Failure? {
      return [], Some(InvalidCodePoint(split[0], first.error));
    }
    var end := ParseHex32(split[1]);
    if end.Failure? {
      return [], Some(InvalidCodePoint(split[1], end.error));
    }
    runes := CountUpThrough(first.value, end.value);
    err := None;
  }

  /** The corrected loop: `for current <= end`. */
  method CountUpThrough(first: Rune, end: Rune) returns (runes: seq<Rune>)
    ensures runes == Closed(first, end)
  {
    runes := [];
    var current: int := first;
    while current <= end
      invariant first <= current <= end + 1 || (current == first && first > end)
      invariant |runes| == current - first
      invariant forall k | 0 <= k < |runes| :: runes[k] == first + k
      decreases end - current
    {
      runes := runes + [current];
      current := current + 1;
    }
  }

  /** The interval with its end is the half-open one followed by the end. */
  lemma ClosedIsHalfOpenPlusEnd(lo: Rune, hi: Rune)
    requires lo <= hi
    ensures Closed(lo, hi) == HalfOpen(lo, hi) + [hi]
  {
    assert |Closed(lo, hi)| == |HalfOpen(lo, hi) + [hi]|;
    forall k | 0 <= k < |Closed(lo, hi)| ensures Closed(lo, hi)[k] == (HalfOpen(lo, hi) + [hi])[k] {
    }
  }

  /** Where `expandCodePointRange` terminates, it returns the intended range
      with its last code point missing; on every other field the two agree. */
  lemma InclusiveExpansionAddsEnd(cpRange: string)
    requires RangeTerminates(cpRange)
    ensures Expansion(cpRange).Failure? ==> InclusiveExpansion(cpRange) == Expansion(cpRange)
    ensures Expansion(cpRange).Success? ==>
      var end := ParseHex32(Split(cpRange, "..")[1]).value;
      InclusiveExpansion(cpRange) == Success(Expansion(cpRange).value + [end])
  {
    var parts := Split(cpRange, "..");
    if |parts| == 2 && ParseHex32(parts[0]).Success? && ParseHex32(parts[1]).Success? {
      ClosedIsHalfOpenPlusEnd(ParseHex32(parts[0]).value, ParseHex32(parts[1]).value);
    }
  }

  // ---------------------------------------------------------------------
  // Record parser: parseEmoji

  /** The code-point field of a line: what stands before its first `;`, trimmed. */
  function CodePointField(line: string): string
    requires ';' in line
  {
    IndexOfChar(line, ';');
    TrimSpace(line[..Index(line, ";")])
  }

  /** The lines `parseEmoji` can be given: Go panics on a line without `;`
      (`line[:-1]`) and never returns on a backwards range. */
  predicate Parsable(line: string)
  {
    ';' in line && RangeTerminates(CodePointField(line))
  }

  /** Go's return pair of `parseEmoji`. */
  datatype Parsed = Parsed(emojis: seq<Emoji>, err: Option<ParseError>)

  /** One single-rune emoji per rune, in order. */
  function Singles(runes: seq<Rune>): (emojis: seq<Emoji>)
  {
    seq(|runes|, k requires 0 <= k < |runes| => Emoji([runes[k]]))
  }

  /** What `parseEmoji` returns for a code-point field. Without a `.`, one
      emoji wraps the decoded runes, and Go returns it (with no runes) even
      beside an error. */
  function ParsedField(field: string): Parsed
    requires RangeTerminates(field)
  {
    if '.' !in field then
      match CodePoints(field)
      case Success(runes) => Parsed([Emoji(runes)], None)
      case Failure(e) => Parsed([Emoji([])], Some(e))
    else
      match Expansion(field)
      case Success(runes) => Parsed(Singles(runes), None)
      case Failure(e) => Parsed([], Some(e))
  }

  /** What `parseEmoji` returns for a line. */
  function ParsedLine(line: string): Parsed
    requires Parsable(line)
  {
    ParsedField(CodePointField(line))
  }

  /** The loop at the end of `parseEmoji`: in a range each rune is an emoji of its own. */
  method SingleRuneEmojis(runes: seq<Rune>) returns (emojis: seq<Emoji>)
    ensures |emojis| == |runes|
    ensures forall k | 0 <= k < |runes| :: emojis[k] == Emoji([runes[k]])
  {
    var filled := new Emoji[|runes|];
    for i := 0 to |runes|
      invariant forall k | 0 <= k < i :: filled[k] == Emoji([runes[k]])
    {
      filled[i] := Emoji([runes[i]]);
    }
    emojis := filled[..];
  }

  /** `parseEmoji`: the code-point field is the trimmed text before the first
      `;`, and what the line gives is what that field gives. */
  method ParseEmoji(line: string) returns (emojis: seq<Emoji>, err: Option<ParseError>)
    requires Parsable(line)
    ensures Parsed(emojis, err) == ParsedLine(line)
  {
    IndexOfChar(line, ';');
    var endIndex := Index(line, ";");
    var codePointRange := TrimSpace(line[..endIndex]);
    assert codePointRange == CodePointField(line);
    emojis, err := ParseCodePointField(codePointRange);
  }

  /** The rest of `parseEmoji`, once the field is cut out: no `.` means one
      emoji of the decoded runes; otherwise the range's runes, one emoji each,
      filled into the result slice by index. */
  method ParseCodePointField(codePointRange: string) returns (emojis: seq<Emoji>, err: Option<ParseError>)
    requires RangeTerminates(codePointRange)
    ensures Parsed(emojis, err) == ParsedField(codePointRange)
  {
    if '.' !in codePointRange {
      var runes, e := ExtractRunes(codePointRange);
      return [Emoji(runes)], e;
    }
    var runes, e := ExpandCodePointRange(codePointRange);
    if e.Some? {
      return [], e;
    }
    emojis := SingleRuneEmojis(runes);
    err := None;
    assert emojis == Singles(runes);
  }

  /** The text after the first `;` plays no part: the field is the trimmed text before it. */
  lemma CodePointFieldOf(before: string, after: string)
    requires ';' !in before
    ensures ';' in before + ";" + after
    ensures CodePointField(before + ";" + after) == TrimSpace(before)
  {
    var line := before + ";" + after;
    assert line[|before|] == ';';
    IndexOfChar(line, ';');
    var i := Index(line, ";");
    assert line[..|before|] == before;
    assert i == |before|;
    assert line[..i] == before;
  }

  /** A field without `.` is one emoji: its runes are the tokens' values when
      every token parses, and no runes (with the error) otherwise. */
  lemma ParsedSequenceMeaning(field: string)
    requires RangeTerminates(field) && '.' !in field
    ensures var tokens, p := Split(field, " "), ParsedField(field);
      && |p.emojis| == 1
      && (p.err == None <==> AllParse(tokens))
      && (p.err == None ==>
            && |p.emojis[0].runes| == |tokens|
            && forall k | 0 <= k < |tokens| :: p.emojis[0].runes[k] == ParseHex32(tokens[k]).value)
      && (p.err != None ==> p.emojis[0].runes == [])
  {
  }

  /** The runes of a successful expansion, read off the two endpoints. */
  lemma ExpansionValues(cpRange: string)
    requires RangeTerminates(cpRange) && Expansion(cpRange).Success?
    ensures var parts := Split(cpRange, "..");
      && |parts| == 2 && ParseHex32(parts[0]).Success? && ParseHex32(parts[1]).Success?
      && var start, end := ParseHex32(parts[0]).value, ParseHex32(parts[1]).value;
      && |Expansion(cpRange).value| == end - start
      && forall k | 0 <= k < end - start :: Expansion(cpRange).value[k] == start + k
  {
  }

  /** A field with a `.` is a range: with an error there are no emojis, and
      otherwise one single-rune emoji per code point from the start up to,
      but not including, the end. */
  lemma ParsedRangeMeaning(field: string)
    requires RangeTerminates(field) && '.' in field
    ensures var parts, p := Split(field, ".."), ParsedField(field);
      && (p.err == None <==> Expansion(field).Success?)
      && (p.err != None ==> p.emojis == [])
      && (p.err == None ==>
            var start, end := ParseHex32(parts[0]).value, ParseHex32(parts[1]).value;
            && |p.emojis| == end - start
            && forall k | 0 <= k < |p.emojis| :: p.emojis[k] == Emoji([start + k]))
  {
    if Expansion(field).Success? {
      ExpansionValues(field);
    }
  }

  /** Without an error every emoji holds at least one rune, as the `Runes`
      field's comment says; an emoji from a range holds exactly one. */
  lemma ParsedEmojisNonEmpty(field: string)
    requires RangeTerminates(field) && ParsedField(field).err == None
    ensures forall e | e in ParsedField(field).emojis :: |e.runes| >= 1
    ensures '.' in field ==> forall e | e in ParsedField(field).emojis :: |e.runes| == 1
  {
    if '.' !in field {
      ParsedSequenceMeaning(field);
    }
  }

  // ---------------------------------------------------------------------
  // Table loop: the scanner loop of downloadAndParseEmojis

  /** Comment lines (a raw `#` prefix, not trimmed) and blank lines are skipped. */
  predicate Skipped(line: string)
  {
    HasPrefix(line, "#") || TrimSpace(line) == ""
  }

  /** A line the loop can process without panicking or hanging. */
  predicate Loadable(line: string)
  {
    Skipped(line) || Parsable(line)
  }

  predicate AllLoadable(lines: seq<string>)
  {
    forall k | 0 <= k < |lines| :: Loadable(lines[k])
  }

  /** What one line adds: nothing if it is skipped or fails to parse, else its
      emojis. A line that is neither skipped nor parsable is one Go cannot get
      past (it panics or loops); `ParseLines` excludes such lines, and here
      they add nothing. */
  function Contribution(line: string): seq<Emoji>
  {
    if Skipped(line) || !Parsable(line) then []
    else
      var p := ParsedLine(line);
      if p.err.Some? then [] else p.emojis
  }

  /** The results of `f` on each line, concatenated in line order. */
  function FlatMap(f: string -> seq<Emoji>, lines: seq<string>): seq<Emoji>
  {
    if lines == [] then [] else f(lines[0]) + FlatMap(f, lines[1..])
  }

  lemma {:induction false} FlatMapAppend(f: string -> seq<Emoji>, a: seq<string>, b: seq<string>)
    ensures FlatMap(f, a + b) == FlatMap(f, a) + FlatMap(f, b)
    decreases |a|
  {
    if a == [] {
      assert a + b == b;
    } else {
      assert (a + b)[1..] == a[1..] + b;
      assert (a + b)[0] == a[0];
      FlatMapAppend(f, a[1..], b);
    }
  }

  lemma {:induction false} FlatMapSources(f: string -> seq<Emoji>, lines: seq<string>, e: Emoji)
    requires e in FlatMap(f, lines)
    ensures exists k :: 0 <= k < |lines| && e in f(lines[k])
    decreases |lines|
  {
    if e !in f(lines[0]) {
      FlatMapSources(f, lines[1..], e);
      var k :| 0 <= k < |lines[1..]| && e in f(lines[1..][k]);
      assert lines[1..][k] == lines[k + 1];
    }
  }

  lemma {:induction false} FlatMapKeeps(f: string -> seq<Emoji>, lines: seq<string>, k: nat, e: Emoji)
    requires k < |lines| && e in f(lines[k])
    ensures e in FlatMap(f, lines)
    decreases k
  {
    if k > 0 {
      assert lines[1..][k - 1] == lines[k];
      FlatMapKeeps(f, lines[1..], k - 1, e);
    }
  }

  lemma FlatMapSnoc(f: string -> seq<Emoji>, lines: seq<string>, line: string)
    ensures FlatMap(f, lines + [line]) == FlatMap(f, lines) + f(line)
  {
    FlatMapAppend(f, lines, [line]);
    assert [line][1..] == [];
  }

  /** The table: the lines' contributions, concatenated in line order. */
  function Table(lines: seq<string>): seq<Emoji>
  {
    FlatMap(Contribution, lines)
  }

  /** Parsing two runs of lines one after the other parses their concatenation. */
  lemma TableAppend(a: seq<string>, b: seq<string>)
    ensures Table(a + b) == Table(a) + Table(b)
  {
    FlatMapAppend(Contribution, a, b);
  }

  /** Only the kept lines contribute: whatever a line adds comes from a line
      that is neither a comment nor blank and that parsed without an error,
      and it is part of what that line parsed to. */
  lemma ContributionSource(line: string, e: Emoji)
    requires e in Contribution(line)
    ensures !HasPrefix(line, "#") && TrimSpace(line) != "" && Parsable(line)
    ensures ParsedLine(line).err == None && e in ParsedLine(line).emojis
  {
  }

  /** Every entry of the table was contributed by one of the lines. */
  lemma TableSources(lines: seq<string>, e: Emoji)
    requires e in Table(lines)
    ensures exists k :: 0 <= k < |lines| && e in Contribution(lines[k])
  {
    FlatMapSources(Contribution, lines, e);
  }

  /** Nothing a kept line parses to is lost: it all appears in the table. */
  lemma TableKeeps(lines: seq<string>, k: nat, e: Emoji)
    requires k < |lines| && e in Contribution(lines[k])
    ensures e in Table(lines)
  {
    FlatMapKeeps(Contribution, lines, k, e);
  }

  /** Taking one more line adds that line's contribution. */
  lemma TableStep(lines: seq<string>, i: nat)
    requires i < |lines|
    ensures Table(lines[..i + 1]) == Table(lines[..i]) + Contribution(lines[i])
  {
    assert lines[..i + 1] == lines[..i] + [lines[i]];
    FlatMapSnoc(Contribution, lines[..i], lines[i]);
  }

  /** `for _, emoji := range emojis { allEmojis = append(allEmojis, emoji) }`. */
  method AppendEach(allEmojis: seq<Emoji>, emojis: seq<Emoji>) returns (extended: seq<Emoji>)
    ensures extended == allEmojis + emojis
  {
    extended := allEmojis;
    for j := 0 to |emojis|
      invariant extended == allEmojis + emojis[..j]
    {
      assert emojis[..j + 1] == emojis[..j] + [emojis[j]];
      extended := extended + [emojis[j]];
    }
    assert emojis[..|emojis|] == emojis;
  }

  /** The scanner loop: skip comments and blank lines, skip lines that fail to
      parse, append the emojis of the others one by one. */
  method ParseLines(lines: seq<string>) returns (allEmojis: seq<Emoji>)
    requires AllLoadable(lines)
    ensures allEmojis == Table(lines)
  {
    allEmojis := [];
    for i := 0 to |lines|
      invariant allEmojis == Table(lines[..i])
    {
      var line := lines[i];
      TableStep(lines, i);
      if HasPrefix(line, "#") || TrimSpace(line) == "" {
        continue;
      }
      var emojis, err := ParseEmoji(line);
      if err.Some? {
        continue;
      }
      allEmojis := AppendEach(allEmojis, emojis);
    }
    assert lines[..|lines|] == lines;
  }

  // ---------------------------------------------------------------------
  // Download: downloadAndParseEmojis

  /** What the HTTP round trip produced, as far as the parser is concerned:
      either `http.Get` failed, or a response arrived with a status code, the
      lines the scanner read from its body, and whether the scanner then
      reported a read error. */
  datatype Response =
    | Unreachable
    | Received(status: int, lines: seq<string>, readFailed: bool)

  /** Why no table was returned (Go reports these as wrapped errors). */
  datatype LoadError =
    | TransportFailed           // http.Get returned an error
    | BadStatus(status: int)    // the status was not 200 OK
    | ReadFailed                // scanner.Err() after the loop

  /** The status `http.StatusOK`. */
  const StatusOK := 200

  /** A response whose lines the parser can work through. */
  predicate Processable(resp: Response)
  {
    resp.Received? && resp.status == StatusOK ==> AllLoadable(resp.lines)
  }

  /** Go's return pair of `downloadAndParseEmojis` and `AllEmojis`. */
  datatype Loaded = Loaded(emojis: seq<Emoji>, err: Option<LoadError>)

  /** What `downloadAndParseEmojis` returns for a response: no emojis and an
      error unless the request went through with 200 OK and the whole body was
      read, in which case the table of its lines. */
  function Download(resp: Response): (l: Loaded)
    requires Processable(resp)
    ensures l.err.Some? ==> l.emojis == []
    ensures l.err.None? <==> resp.Received? && resp.status == StatusOK && !resp.readFailed
  {
    match resp
    case Unreachable => Loaded([], Some(TransportFailed))
    case Received(status, lines, readFailed) =>
      if status != StatusOK then Loaded([], Some(BadStatus(status)))
      else if readFailed then Loaded([], Some(ReadFailed))
      else Loaded(Table(lines), None)
  }

  /** `downloadAndParseEmojis`: the status is checked before the body is read,
      and a read error found after the loop discards what was parsed. */
  method DownloadAndParseEmojis(resp: Response) returns (emojis: seq<Emoji>, err: Option<LoadError>)
    requires Processable(resp)
    ensures Loaded(emojis, err) == Download(resp)
  {
    if resp.Unreachable? {
      return [], Some(TransportFailed);
    }
    if resp.status != StatusOK {
      return [], Some(BadStatus(resp.status));
    }
    var allEmojis := ParseLines(resp.lines);
    if resp.readFailed {
      return [], Some(ReadFailed);
    }
    return allEmojis, None;
  }

  /** A successful download holds exactly the entries of the body's kept lines. */
  lemma DownloadContents(resp: Response, e: Emoji)
    requires Processable(resp) && Download(resp).err.None?
    ensures e in Download(resp).emojis <==>
      exists k :: 0 <= k < |resp.lines| && e in Contribution(resp.lines[k])
  {
    if e in Download(resp).emojis {
      TableSources(resp.lines, e);
    }
    if exists k :: 0 <= k < |resp.lines| && e in Contribution(resp.lines[k]) {
      var k :| 0 <= k < |resp.lines| && e in Contribution(resp.lines[k]);
      TableKeeps(resp.lines, k, e);
    }
  }

  // ---------------------------------------------------------------------
  // The cache: AllEmojis and RandomEmoji

  /** The package state behind `AllEmojis`: the `emojiCache` slice. The
      download is not a call the model can make, so every operation that may
      need it is handed the response the request would get. */
  class Catalog {
    /** `emojiCache`. */
    var cache: seq<Emoji>
    /** How many downloads have been made; not in Go, it makes "download only
        while the cache is empty" something a contract can state. */
    ghost var downloads: nat

    /** The package as loaded: nothing cached, nothing downloaded. */
    constructor ()
      ensures cache == [] && downloads == 0
    {
      cache := [];
      downloads := 0;
    }

    /** `AllEmojis`: a non-empty cache is returned as it is; otherwise the
        table is downloaded and the result stored, whatever it is (an empty
        table or a failure leaves the cache empty, so the next call
        downloads again). */
    method AllEmojis(resp: Response) returns (emojis: seq<Emoji>, err: Option<LoadError>)
      requires Processable(resp)
      modifies this
      ensures old(cache) != [] ==>
        emojis == old(cache) && err == None && cache == old(cache) && downloads == old(downloads)
      ensures old(cache) == [] ==>
        Loaded(emojis, err) == Download(resp) && cache == emojis && downloads == old(downloads) + 1
    {
      if |cache| > 0 {
        return cache, None;
      }
      emojis, err := DownloadAndParseEmojis(resp);
      cache := emojis;
      downloads := downloads + 1;
    }

    /** `RandomEmoji`: the entry at a position `rand.Intn` chooses among all
        the emojis, here `pick` reduced modulo their number. Go panics when
        the table is empty, so a call that would load an empty table is
        excluded. */
    method RandomEmoji(resp: Response, pick: nat) returns (e: Emoji, err: Option<LoadError>)
      requires Processable(resp)
      requires cache == [] && Download(resp).err.None? ==> Download(resp).emojis != []
      modifies this
      ensures old(cache) != [] ==> cache == old(cache) && downloads == old(downloads)
      ensures old(cache) == [] ==> cache == Download(resp).emojis && downloads == old(downloads) + 1
      ensures err == (if old(cache) != [] then None else Download(resp).err)
      ensures err.Some? ==> e == Emoji([])
      ensures err.None? ==> |cache| > 0 && e == cache[pick % |cache|]
    {
      var emojis;
      emojis, err := AllEmojis(resp);
      if err.Some? {
        return Emoji([]), err;
      }
      var rndIndex := pick % |emojis|;
      e := emojis[rndIndex];
    }
  }

  /** Two calls of `AllEmojis` in a row: once the first has filled the cache,
      the second returns the same emojis without downloading again. */
  method AllEmojisTwice(c: Catalog, first: Response, second: Response)
      returns (a: seq<Emoji>, b: seq<Emoji>)
    requires Processable(first) && Processable(second)
    modifies c
    ensures a != [] ==> b == a && c.downloads == old(c.downloads) + (if old(c.cache) == [] then 1 else 0)
    ensures old(c.cache) == [] && a == [] ==> c.downloads == old(c.downloads) + 2 && b == Download(second).emojis
  {
    var err1, err2;
    a, err1 := c.AllEmojis(first);
    b, err2 := c.AllEmojis(second);
  }
}
