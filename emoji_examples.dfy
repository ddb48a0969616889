/**
 * The cases of `emoji_test.go`, stated about the model. Each expected value
 * is the one the model computes; where that differs from what the Go test
 * expects (the ranges), the corrected expander is shown to give the test's
 * value.
 */
module EmojiExamples {
  import opened Wrappers
  import opened GoStrings
  import opened HexParse
  import opened Emoji
  import Utf8

  // Many lemmas here take a literal through a parameter, `requires s ==
  // "…"`, rather than naming it in their `ensures`. The solver unfolds a
  // function applied to a literal as far as it likes; behind a parameter
  // it does so only inside the small lemma that states the fact, and the
  // lemmas that use the fact stay cheap.

  // ---------------------------------------------------------------------
  // Splitting the literal fields

  lemma PairFirstMatch(s: string)
    requires s == "00A9 FE0F"
    ensures MatchAt(s, " ", 4) && ' ' !in s[..4] && s[..4] == "00A9" && s[5..] == "FE0F"
  {
    assert s[4..5] == " ";
  }

  lemma SplitPair()
    ensures Split("00A9 FE0F", " ") == ["00A9", "FE0F"]
  {
    var s := "00A9 FE0F";
    PairFirstMatch(s);
    SplitAt(s, " ", 4);
    SplitNone("FE0F", " ");
  }

  lemma LeadingSpaceFirstMatch(s: string)
    requires s == " FE0F"
    ensures MatchAt(s, " ", 0) && ' ' !in s[..0] && s[..0] == "" && s[1..] == "FE0F"
  {
    assert s[0..1] == " ";
  }

  lemma SplitLeadingSpace()
    ensures Split(" FE0F", " ") == ["", "FE0F"]
  {
    var s := " FE0F";
    LeadingSpaceFirstMatch(s);
    SplitAt(s, " ", 0);
    SplitNone("FE0F", " ");
  }

  /** Where the first space of "00A9  FE0F" is, and what lies around it. */
  lemma DoubleSpaceFirstMatch(s: string)
    requires s == "00A9  FE0F"
    ensures MatchAt(s, " ", 4) && ' ' !in s[..4] && s[..4] == "00A9" && s[5..] == " FE0F"
  {
    assert s[4..5] == " ";
  }

  lemma SplitDoubleSpace()
    ensures Split("00A9  FE0F", " ") == ["00A9", "", "FE0F"]
  {
    var s := "00A9  FE0F";
    DoubleSpaceFirstMatch(s);
    SplitAt(s, " ", 4);
    SplitLeadingSpace();
  }

  lemma RangeFirstMatch(s: string)
    requires s == "231A..231B"
    ensures MatchAt(s, "..", 4) && '.' !in s[..4] && s[..4] == "231A" && s[6..] == "231B"
  {
    assert s[4..6] == "..";
  }

  lemma SplitRange()
    ensures Split("231A..231B", "..") == ["231A", "231B"]
  {
    var s := "231A..231B";
    RangeFirstMatch(s);
    SplitAt(s, "..", 4);
    SplitNone("231B", "..");
  }

  lemma OpenRangeFirstMatch(s: string)
    requires s == "23G0.."
    ensures MatchAt(s, "..", 4) && '.' !in s[..4] && s[..4] == "23G0" && s[6..] == ""
  {
    assert s[4..6] == "..";
  }

  lemma SplitOpenRange()
    ensures Split("23G0..", "..") == ["23G0", ""]
  {
    var s := "23G0..";
    OpenRangeFirstMatch(s);
    SplitAt(s, "..", 4);
    SplitNone("", "..");
  }

  lemma BadEndFirstMatch(s: string)
    requires s == "23F0..23G0"
    ensures MatchAt(s, "..", 4) && '.' !in s[..4] && s[..4] == "23F0" && s[6..] == "23G0"
  {
    assert s[4..6] == "..";
  }

  lemma SplitBadEnd()
    ensures Split("23F0..23G0", "..") == ["23F0", "23G0"]
  {
    var s := "23F0..23G0";
    BadEndFirstMatch(s);
    SplitAt(s, "..", 4);
    SplitNone("23G0", "..");
  }

  // ---------------------------------------------------------------------
  // strconv.ParseInt(s, 16, 32) on the tokens of the tests

  lemma ParseHex32Examples()
    ensures ParseHex32("23f0") == Success(0x23F0)
    ensures ParseHex32("1F30F") == Success(0x1F30F)
    ensures ParseHex32("000G") == Failure(ErrSyntax)
    ensures ParseHex32("") == Failure(ErrSyntax)
  {
  }

  lemma ParseHex32Pair()
    ensures ParseHex32("00A9") == Success(0xA9)
    ensures ParseHex32("FE0F") == Success(0xFE0F)
  {
  }

  lemma ParseHex32RangeEnds()
    ensures ParseHex32("231A") == Success(0x231A)
    ensures ParseHex32("231B") == Success(0x231B)
    ensures ParseHex32("23F0") == Success(0x23F0)
    ensures ParseHex32("23G0") == Failure(ErrSyntax)
  {
  }

  // ---------------------------------------------------------------------
  // extractRunes

  /** Which of the literal fields hold no `.` (and no space). */
  lemma DotFreeFields()
    ensures '.' !in "00A9 FE0F" && '.' !in "00A9  FE0F"
    ensures '.' !in "23f0" && ' ' !in "23f0"
    ensures '.' !in "000G" && ' ' !in "000G"
    ensures '.' !in "23F0"
  {
    assert "00A9 FE0F" == ['0', '0', 'A', '9', ' ', 'F', 'E', '0', 'F'];
    assert "00A9  FE0F" == ['0', '0', 'A', '9', ' ', ' ', 'F', 'E', '0', 'F'];
    assert "23f0" == ['2', '3', 'f', '0'];
    assert "000G" == ['0', '0', '0', 'G'];
    assert "23F0" == ['2', '3', 'F', '0'];
  }

  /** "Range not supported": a `.` anywhere is refused. */
  lemma ExtractRunesRefusesRange()
    ensures CodePoints("0000..0001") == Failure(RangeNotSupported)
  {
    assert "0000..0001"[4] == '.';
  }

  /** "Single 2 byte rune", in lower-case hex. */
  lemma ExtractRunesSingle()
    ensures CodePoints("23f0") == Success([0x23F0])
  {
    var s := "23f0";
    DotFreeFields();
    SplitNone(s, " ");
    ParseHex32Examples();
    assert DecodeTokens([s]).value == [0x23F0];
  }

  /** "Double 2 byte runes": one rune per space-separated token. */
  lemma ExtractRunesPair()
    ensures CodePoints("00A9 FE0F") == Success([0xA9, 0xFE0F])
  {
    var s := "00A9 FE0F";
    DotFreeFields();
    SplitPair();
    DecodePair();
  }

  lemma DecodePair()
    ensures DecodeTokens(["00A9", "FE0F"]) == Success([0xA9, 0xFE0F])
  {
    ParseHex32Pair();
    var tokens := ["00A9", "FE0F"];
    assert tokens[0] == "00A9" && tokens[1] == "FE0F";
    assert DecodeTokens(tokens).value == [0xA9, 0xFE0F];
  }

  /** "Invalid hex": the bad token is named, with the syntax error. */
  lemma ExtractRunesInvalidHex()
    ensures CodePoints("000G") == Failure(InvalidCodePoint("000G", ErrSyntax))
  {
    var s := "000G";
    DotFreeFields();
    SplitNone(s, " ");
    ParseHex32Examples();
  }

  /** Two spaces in a row leave an empty token, which is not a number. */
  lemma ExtractRunesDoubleSpace()
    ensures CodePoints("00A9  FE0F") == Failure(InvalidCodePoint("", ErrSyntax))
  {
    var s := "00A9  FE0F";
    DotFreeFields();
    SplitDoubleSpace();
    DecodeEmptyToken();
  }

  lemma DecodeEmptyToken()
    ensures DecodeTokens(["00A9", "", "FE0F"]) == Failure(InvalidCodePoint("", ErrSyntax))
  {
    ParseHex32Pair();
    ParseHex32Examples();
    var tokens := ["00A9", "", "FE0F"];
    assert tokens[0] == "00A9" && tokens[1] == "" && tokens[1..][0] == "";
    assert DecodeTokens(tokens) == DecodeTokens(tokens[1..]);
  }

  // ---------------------------------------------------------------------
  // expandCodePointRange

  /** "No range supplied". */
  lemma ExpansionOfSingle()
    ensures RangeTerminates("23F0") && Expansion("23F0") == Failure(NotARange("23F0"))
  {
    DotFreeFields();
    SplitNone("23F0", "..");
  }

  /** "Faulty start code point". */
  lemma ExpansionOfBadStart()
    ensures RangeTerminates("23G0..") && Expansion("23G0..") == Failure(InvalidCodePoint("23G0", ErrSyntax))
  {
    SplitOpenRange();
    ParseHex32RangeEnds();
  }

  /** "Faulty end code point": the start parses, the end is named. */
  lemma ExpansionOfBadEnd()
    ensures RangeTerminates("23F0..23G0") && Expansion("23F0..23G0") == Failure(InvalidCodePoint("23G0", ErrSyntax))
  {
    SplitBadEnd();
    ParseHex32RangeEnds();
  }

  /** "Range with two runes" as the loop `current != end` computes it: the
      end, U+231B, is missing, where the test expects both code points. */
  lemma ExpansionDropsRangeEnd()
    ensures RangeTerminates("231A..231B") && Expansion("231A..231B") == Success([0x231A])
  {
    SplitRange();
    ParseHex32RangeEnds();
    assert HalfOpen(0x231A, 0x231B) == [0x231A];
  }

  /** The corrected expander gives the test's two runes. */
  lemma InclusiveExpansionKeepsRangeEnd()
    ensures InclusiveExpansion("231A..231B") == Success([0x231A, 0x231B])
  {
    SplitRange();
    ParseHex32RangeEnds();
    assert Closed(0x231A, 0x231B) == [0x231A, 0x231B];
  }

  // ---------------------------------------------------------------------
  // Emoji.String

  /** "Single rune": U+1F413 is the four bytes F0 9F 90 93. */
  lemma StringOfRooster()
    ensures Emoji([0x1F413]).String() == [0xF0, 0x9F, 0x90, 0x93]
  {
  }

  /** A rune that is no character is written as U+FFFD. */
  lemma StringOfSurrogate()
    ensures Emoji([0xD800]).String() == [0xEF, 0xBF, 0xBD]
  {
  }

  // ---------------------------------------------------------------------
  // parseEmoji, whatever follows the first `;`

  lemma BasicFieldParses()
    ensures RangeTerminates("23F0") && ParsedField("23F0") == Parsed([Emoji([0x23F0])], None)
  {
    DotFreeFields();
    SplitNone("23F0", "..");
    SplitNone("23F0", " ");
    ParseHex32RangeEnds();
    assert DecodeTokens(["23F0"]).value == [0x23F0];
  }

  /** "Basic 2 byte rune": the line gives one emoji, U+23F0. */
  lemma ParseEmojiBasic(after: string)
    ensures var line := "23F0" + Spaces(10) + ";" + after;
      Parsable(line) && ParsedLine(line) == Parsed([Emoji([0x23F0])], None)
  {
    var before := "23F0" + Spaces(10);
    DotFreeFields();
    assert ';' !in before by { assert "23F0" == ['2', '3', 'F', '0']; }
    TrimSpacePadded("23F0", 10);
    CodePointFieldOf(before, after);
    BasicFieldParses();
  }

  lemma FastForwardFirstMatch(s: string)
    requires s == "23E9..23EC"
    ensures MatchAt(s, "..", 4) && '.' !in s[..4] && s[..4] == "23E9" && s[6..] == "23EC"
    ensures s[4] == '.' && ';' !in s && !IsSpace(s[0]) && !IsSpace(s[|s| - 1])
  {
    assert s == ['2', '3', 'E', '9', '.', '.', '2', '3', 'E', 'C'];
  }

  lemma FastForwardEnds()
    ensures ParseHex32("23E9") == Success(0x23E9)
    ensures ParseHex32("23EC") == Success(0x23EC)
    ensures '.' !in "23EC"
  {
    assert "23EC" == ['2', '3', 'E', 'C'];
  }

  lemma FastForwardValues()
    ensures HalfOpen(0x23E9, 0x23EC) == [0x23E9, 0x23EA, 0x23EB]
  {
  }

  lemma FastForwardExpansion()
    ensures RangeTerminates("23E9..23EC")
    ensures Expansion("23E9..23EC") == Success([0x23E9, 0x23EA, 0x23EB])
  {
    var s := "23E9..23EC";
    FastForwardFirstMatch(s);
    SplitAt(s, "..", 4);
    FastForwardEnds();
    SplitNone("23EC", "..");
    FastForwardValues();
  }

  lemma FastForwardSingles(runes: seq<Rune>)
    requires runes == [0x23E9, 0x23EA, 0x23EB]
    ensures Singles(runes) == [Emoji([0x23E9]), Emoji([0x23EA]), Emoji([0x23EB])]
  {
  }

  lemma RangeFieldParses(field: string)
    requires field == "23E9..23EC"
    ensures RangeTerminates(field)
    ensures ParsedField(field) == Parsed([Emoji([0x23E9]), Emoji([0x23EA]), Emoji([0x23EB])], None)
  {
    FastForwardFirstMatch(field);
    assert '.' in field by { assert field[4] == '.'; }
    FastForwardExpansion();
    FastForwardSingles(Expansion(field).value);
  }

  /** "Basic 2 byte rune range" as the code computes it: three single-rune
      emojis, where the test expects four (U+23EC is missing). */
  lemma ParseEmojiRangeDropsEnd(after: string)
    ensures var line := "23E9..23EC" + Spaces(4) + ";" + after;
      && Parsable(line)
      && ParsedLine(line) == Parsed([Emoji([0x23E9]), Emoji([0x23EA]), Emoji([0x23EB])], None)
  {
    var field := "23E9..23EC";
    FastForwardFirstMatch(field);
    assert ';' !in field + Spaces(4);
    TrimSpacePadded(field, 4);
    CodePointFieldOf(field + Spaces(4), after);
    RangeFieldParses(field);
  }

  // ---------------------------------------------------------------------
  // Multi-token fields, through the general lemmas

  /** A line made of a code-point field, any padding, `;` and any rest has
      that field as its code-point field. */
  lemma PaddedLine(field: string, n: nat, after: string)
    requires field != [] && !IsSpace(field[0]) && !IsSpace(field[|field| - 1]) && ';' !in field
    ensures var line := field + Spaces(n) + ";" + after;
      ';' in line && CodePointField(line) == field
  {
    var before := field + Spaces(n);
    assert ';' !in Spaces(n);
    TrimSpacePadded(field, n);
    CodePointFieldOf(before, after);
  }

  /** Tokens that each parse to the given value decode to those values. */
  lemma DecodeAll(tokens: seq<string>, values: seq<Rune>)
    requires |tokens| == |values|
    requires forall k | 0 <= k < |tokens| :: ParseHex32(tokens[k]) == Success(values[k])
    ensures DecodeTokens(tokens) == Success(values)
  {
    assert AllParse(tokens);
    assert DecodeTokens(tokens).value == values;
  }

  /** Hex tokens hold neither a space nor a `.`. */
  lemma HexTokensPlain(tokens: seq<string>)
    requires forall k | 0 <= k < |tokens| :: AllHex(tokens[k])
    ensures forall k | 0 <= k < |tokens| :: ' ' !in tokens[k] && '.' !in tokens[k]
  {
    forall k | 0 <= k < |tokens| ensures ' ' !in tokens[k] && '.' !in tokens[k] {
      var t := tokens[k];
      forall j | 0 <= j < |t| ensures t[j] != ' ' && t[j] != '.' {
        assert IsHexDigit(t[j]);
      }
    }
  }

  lemma WideTokenPlain(t: string)
    requires t == "1F30F"
    ensures ' ' !in t && '.' !in t
  {
    assert t == ['1', 'F', '3', '0', 'F'];
  }

  /** "2.5 byte rune". */
  lemma ExtractRunesWide(field: string)
    requires field == "1F30F"
    ensures CodePoints(field) == Success([0x1F30F])
  {
    var tokens := [field];
    assert field == Join(tokens, " ");
    WideTokenPlain(field);
    CodePointsOfJoin(tokens);
    ParseHex32Examples();
    DecodeAll(tokens, [0x1F30F]);
  }

  lemma ParseHex32Negative() ensures ParseHex32("1F170") == Success(0x1F170) {}
  lemma ParseHex32Selector() ensures ParseHex32("FE0F") == Success(0xFE0F) {}
  lemma ParseHex32Asterisk() ensures ParseHex32("002A") == Success(0x2A) {}
  lemma ParseHex32Keycap() ensures ParseHex32("20E3") == Success(0x20E3) {}

  lemma PairTokensHex()
    ensures AllHex("1F170") && AllHex("FE0F") && AllHex("002A") && AllHex("20E3")
  {
  }

  lemma WideAndNarrowTokens(tokens: seq<string>)
    requires tokens == ["1F170", "FE0F"]
    ensures forall k | 0 <= k < |tokens| :: ' ' !in tokens[k] && '.' !in tokens[k]
  {
    PairTokensHex();
    HexTokensPlain(tokens);
  }

  lemma WideAndNarrowDecode(tokens: seq<string>, values: seq<Rune>)
    requires tokens == ["1F170", "FE0F"] && values == [0x1F170, 0xFE0F]
    ensures DecodeTokens(tokens) == Success(values)
  {
    forall k | 0 <= k < |tokens| ensures ParseHex32(tokens[k]) == Success(values[k]) {
      if k == 0 { ParseHex32Negative(); } else { ParseHex32Selector(); }
    }
    DecodeAll(tokens, values);
  }

  /** "One 2.5 byte and one 2 byte runes". */
  lemma ExtractRunesWideAndNarrow(field: string)
    requires field == "1F170 FE0F"
    ensures CodePoints(field) == Success([0x1F170, 0xFE0F])
  {
    var tokens := ["1F170", "FE0F"];
    assert field == Join(tokens, " ");
    WideAndNarrowTokens(tokens);
    CodePointsOfJoin(tokens);
    WideAndNarrowDecode(tokens, [0x1F170, 0xFE0F]);
  }

  lemma KeycapJoin(field: string)
    requires field == "002A FE0F 20E3"
    ensures field == Join(["002A", "FE0F", "20E3"], " ")
  {
  }

  lemma KeycapTokens(tokens: seq<string>)
    requires tokens == ["002A", "FE0F", "20E3"]
    ensures forall k | 0 <= k < |tokens| :: ' ' !in tokens[k] && '.' !in tokens[k]
  {
    PairTokensHex();
    HexTokensPlain(tokens);
  }

  lemma KeycapDecode(tokens: seq<string>, values: seq<Rune>)
    requires tokens == ["002A", "FE0F", "20E3"] && values == [0x2A, 0xFE0F, 0x20E3]
    ensures DecodeTokens(tokens) == Success(values)
  {
    forall k | 0 <= k < |tokens| ensures ParseHex32(tokens[k]) == Success(values[k]) {
      if k == 0 { ParseHex32Asterisk(); }
      else if k == 1 { ParseHex32Selector(); }
      else { ParseHex32Keycap(); }
    }
    DecodeAll(tokens, values);
  }

  /** "Three 2 byte runes". */
  lemma ExtractRunesKeycap(field: string)
    requires field == "002A FE0F 20E3"
    ensures CodePoints(field) == Success([0x2A, 0xFE0F, 0x20E3])
  {
    var tokens := ["002A", "FE0F", "20E3"];
    KeycapJoin(field);
    KeycapTokens(tokens);
    CodePointsOfJoin(tokens);
    KeycapDecode(tokens, [0x2A, 0xFE0F, 0x20E3]);
  }

  // The seven tokens of the flag of England, a tag sequence: the black
  // flag U+1F3F4, the tag letters g, b, e, n, g and the cancel tag.

  lemma ParseHex32BlackFlag() ensures ParseHex32("1F3F4") == Success(0x1F3F4) {}
  lemma ParseHex32TagG() ensures ParseHex32("E0067") == Success(0xE0067) {}
  lemma ParseHex32TagB() ensures ParseHex32("E0062") == Success(0xE0062) {}
  lemma ParseHex32TagE() ensures ParseHex32("E0065") == Success(0xE0065) {}
  lemma ParseHex32TagN() ensures ParseHex32("E006E") == Success(0xE006E) {}
  lemma ParseHex32CancelTag() ensures ParseHex32("E007F") == Success(0xE007F) {}

  lemma FlagTokensHex()
    ensures AllHex("1F3F4") && AllHex("E0067") && AllHex("E0062")
    ensures AllHex("E0065") && AllHex("E006E") && AllHex("E007F")
  {
  }

  lemma FlagTokensPlain(tokens: seq<string>)
    requires tokens == ["1F3F4", "E0067", "E0062", "E0065", "E006E", "E0067", "E007F"]
    ensures forall k | 0 <= k < |tokens| :: ' ' !in tokens[k] && '.' !in tokens[k]
  {
    FlagTokensHex();
    HexTokensPlain(tokens);
  }

  lemma FlagTokensDecode(tokens: seq<string>, values: seq<Rune>)
    requires tokens == ["1F3F4", "E0067", "E0062", "E0065", "E006E", "E0067", "E007F"]
    requires values == [0x1F3F4, 0xE0067, 0xE0062, 0xE0065, 0xE006E, 0xE0067, 0xE007F]
    ensures DecodeTokens(tokens) == Success(values)
  {
    forall k | 0 <= k < |tokens| ensures ParseHex32(tokens[k]) == Success(values[k]) {
      if k == 0 { ParseHex32BlackFlag(); }
      else if k == 1 || k == 5 { ParseHex32TagG(); }
      else if k == 2 { ParseHex32TagB(); }
      else if k == 3 { ParseHex32TagE(); }
      else if k == 4 { ParseHex32TagN(); }
      else { ParseHex32CancelTag(); }
    }
    DecodeAll(tokens, values);
  }

  /** "Seven 2.5 byte runes". The test's field is these seven tokens joined
      by single spaces, and it is written here in that form. */
  lemma ExtractRunesFlag(tokens: seq<string>)
    requires tokens == ["1F3F4", "E0067", "E0062", "E0065", "E006E", "E0067", "E007F"]
    ensures CodePoints(Join(tokens, " "))
      == Success([0x1F3F4, 0xE0067, 0xE0062, 0xE0065, 0xE006E, 0xE0067, 0xE007F])
  {
    FlagTokensPlain(tokens);
    CodePointsOfJoin(tokens);
    FlagTokensDecode(tokens, [0x1F3F4, 0xE0067, 0xE0062, 0xE0065, 0xE006E, 0xE0067, 0xE007F]);
  }

  // ---------------------------------------------------------------------
  // The flag as text: each rune's four UTF-8 bytes, then the sequence
  // from its last rune back to its first

  lemma EncodeBlackFlag() ensures Utf8.EncodeRune(0x1F3F4) == [0xF0, 0x9F, 0x8F, 0xB4] {}
  lemma EncodeTagG() ensures Utf8.EncodeRune(0xE0067) == [0xF3, 0xA0, 0x81, 0xA7] {}
  lemma EncodeTagB() ensures Utf8.EncodeRune(0xE0062) == [0xF3, 0xA0, 0x81, 0xA2] {}
  lemma EncodeTagE() ensures Utf8.EncodeRune(0xE0065) == [0xF3, 0xA0, 0x81, 0xA5] {}
  lemma EncodeTagN() ensures Utf8.EncodeRune(0xE006E) == [0xF3, 0xA0, 0x81, 0xAE] {}
  lemma EncodeCancelTag() ensures Utf8.EncodeRune(0xE007F) == [0xF3, 0xA0, 0x81, 0xBF] {}

  lemma EncodeFlagFrom6(runes: seq<Rune>)
    requires runes == [0xE007F]
    ensures Utf8.Encode(runes) == [0xF3, 0xA0, 0x81, 0xBF]
  {
    Utf8.EncodeFrom(runes, 0);
    assert runes[0..] == runes && runes[1..] == [];
    EncodeCancelTag();
  }

  lemma EncodeFlagFrom5(runes: seq<Rune>)
    requires runes == [0xE0067, 0xE007F]
    ensures Utf8.Encode(runes) == [0xF3, 0xA0, 0x81, 0xA7] + [0xF3, 0xA0, 0x81, 0xBF]
  {
    EncodeFlagFrom6(runes[1..]);
    Utf8.EncodeFrom(runes, 0);
    assert runes[0..] == runes;
    EncodeTagG();
  }

  lemma EncodeFlagFrom4(runes: seq<Rune>)
    requires runes == [0xE006E, 0xE0067, 0xE007F]
    ensures Utf8.Encode(runes) == [0xF3, 0xA0, 0x81, 0xAE] + [0xF3, 0xA0, 0x81, 0xA7] + [0xF3, 0xA0, 0x81, 0xBF]
  {
    EncodeFlagFrom5(runes[1..]);
    Utf8.EncodeFrom(runes, 0);
    assert runes[0..] == runes;
    EncodeTagN();
  }

  lemma EncodeFlagFrom3(runes: seq<Rune>)
    requires runes == [0xE0065, 0xE006E, 0xE0067, 0xE007F]
    ensures Utf8.Encode(runes) == [0xF3, 0xA0, 0x81, 0xA5] + [0xF3, 0xA0, 0x81, 0xAE]
      + [0xF3, 0xA0, 0x81, 0xA7] + [0xF3, 0xA0, 0x81, 0xBF]
  {
    EncodeFlagFrom4(runes[1..]);
    Utf8.EncodeFrom(runes, 0);
    assert runes[0..] == runes;
    EncodeTagE();
  }

  lemma EncodeFlagFrom2(runes: seq<Rune>)
    requires runes == [0xE0062, 0xE0065, 0xE006E, 0xE0067, 0xE007F]
    ensures Utf8.Encode(runes) == [0xF3, 0xA0, 0x81, 0xA2] + [0xF3, 0xA0, 0x81, 0xA5]
      + [0xF3, 0xA0, 0x81, 0xAE] + [0xF3, 0xA0, 0x81, 0xA7] + [0xF3, 0xA0, 0x81, 0xBF]
  {
    EncodeFlagFrom3(runes[1..]);
    Utf8.EncodeFrom(runes, 0);
    assert runes[0..] == runes;
    EncodeTagB();
  }

  lemma EncodeFlagFrom1(runes: seq<Rune>)
    requires runes == [0xE0067, 0xE0062, 0xE0065, 0xE006E, 0xE0067, 0xE007F]
    ensures Utf8.Encode(runes) == [0xF3, 0xA0, 0x81, 0xA7] + [0xF3, 0xA0, 0x81, 0xA2]
      + [0xF3, 0xA0, 0x81, 0xA5] + [0xF3, 0xA0, 0x81, 0xAE] + [0xF3, 0xA0, 0x81, 0xA7]
      + [0xF3, 0xA0, 0x81, 0xBF]
  {
    EncodeFlagFrom2(runes[1..]);
    Utf8.EncodeFrom(runes, 0);
    assert runes[0..] == runes;
    EncodeTagG();
  }

  /** "Multiple runes": the seven runes of the flag, four bytes each. */
  lemma StringOfFlag(runes: seq<Rune>)
    requires runes == [0x1F3F4, 0xE0067, 0xE0062, 0xE0065, 0xE006E, 0xE0067, 0xE007F]
    ensures Emoji(runes).String() == [0xF0, 0x9F, 0x8F, 0xB4] + [0xF3, 0xA0, 0x81, 0xA7]
      + [0xF3, 0xA0, 0x81, 0xA2] + [0xF3, 0xA0, 0x81, 0xA5] + [0xF3, 0xA0, 0x81, 0xAE]
      + [0xF3, 0xA0, 0x81, 0xA7] + [0xF3, 0xA0, 0x81, 0xBF]
  {
    EncodeFlagFrom1(runes[1..]);
    Utf8.EncodeFrom(runes, 0);
    assert runes[0..] == runes;
    EncodeBlackFlag();
  }

  // ---------------------------------------------------------------------
  // The remaining ranges and table lines

  lemma ThreeByteFirstMatch(s: string)
    requires s == "1FAC0..1FAC2"
    ensures MatchAt(s, "..", 5) && '.' !in s[..5] && s[..5] == "1FAC0" && s[7..] == "1FAC2"
  {
    assert s[5..7] == "..";
  }

  lemma SplitThreeByte()
    ensures Split("1FAC0..1FAC2", "..") == ["1FAC0", "1FAC2"]
  {
    var s := "1FAC0..1FAC2";
    ThreeByteFirstMatch(s);
    SplitAt(s, "..", 5);
    SplitNone("1FAC2", "..");
  }

  lemma ParseHex32ThreeByte()
    ensures ParseHex32("1FAC0") == Success(0x1FAC0)
    ensures ParseHex32("1FAC2") == Success(0x1FAC2)
  {
  }

  /** "3 byte range" as the code computes it: U+1FAC2 is missing. */
  lemma ExpansionThreeByteDropsEnd()
    ensures RangeTerminates("1FAC0..1FAC2") && Expansion("1FAC0..1FAC2") == Success([0x1FAC0, 0x1FAC1])
  {
    SplitThreeByte();
    ParseHex32ThreeByte();
    assert HalfOpen(0x1FAC0, 0x1FAC2) == [0x1FAC0, 0x1FAC1];
  }

  /** The corrected expander gives the test's three runes. */
  lemma InclusiveExpansionThreeByte()
    ensures InclusiveExpansion("1FAC0..1FAC2") == Success([0x1FAC0, 0x1FAC1, 0x1FAC2])
  {
    SplitThreeByte();
    ParseHex32ThreeByte();
    assert Closed(0x1FAC0, 0x1FAC2) == [0x1FAC0, 0x1FAC1, 0x1FAC2];
  }

  lemma MahjongToken(t: string)
    requires t == "1F004"
    ensures '.' !in t && ' ' !in t && ';' !in t && !IsSpace(t[0]) && !IsSpace(t[|t| - 1])
  {
    assert t == ['1', 'F', '0', '0', '4'];
  }

  lemma MahjongFieldParses(field: string)
    requires field == "1F004"
    ensures RangeTerminates(field) && ParsedField(field) == Parsed([Emoji([0x1F004])], None)
  {
    MahjongToken(field);
    SplitNone(field, "..");
    SplitNone(field, " ");
    assert ParseHex32("1F004") == Success(0x1F004);
    assert DecodeTokens([field]).value == [0x1F004];
  }

  /** "Basic 2.5 byte rune": the line gives one emoji, U+1F004. */
  lemma ParseEmojiMahjong(after: string)
    ensures var line := "1F004" + Spaces(9) + ";" + after;
      Parsable(line) && ParsedLine(line) == Parsed([Emoji([0x1F004])], None)
  {
    MahjongToken("1F004");
    PaddedLine("1F004", 9, after);
    MahjongFieldParses("1F004");
  }

  lemma NewspaperFirstMatch(s: string)
    requires s == "1F4F0..1F4F4"
    ensures MatchAt(s, "..", 5) && '.' !in s[..5] && s[..5] == "1F4F0" && s[7..] == "1F4F4"
    ensures s[5] == '.' && ';' !in s && !IsSpace(s[0]) && !IsSpace(s[|s| - 1])
  {
    assert s == ['1', 'F', '4', 'F', '0', '.', '.', '1', 'F', '4', 'F', '4'];
  }

  lemma NewspaperEnds()
    ensures ParseHex32("1F4F0") == Success(0x1F4F0)
    ensures ParseHex32("1F4F4") == Success(0x1F4F4)
    ensures '.' !in "1F4F4"
  {
    assert "1F4F4" == ['1', 'F', '4', 'F', '4'];
  }

  lemma SplitNewspaper()
    ensures Split("1F4F0..1F4F4", "..") == ["1F4F0", "1F4F4"]
  {
    var s := "1F4F0..1F4F4";
    NewspaperFirstMatch(s);
    SplitAt(s, "..", 5);
    NewspaperEnds();
    SplitNone("1F4F4", "..");
  }

  lemma NewspaperValues()
    ensures HalfOpen(0x1F4F0, 0x1F4F4) == [0x1F4F0, 0x1F4F1, 0x1F4F2, 0x1F4F3]
  {
  }

  lemma NewspaperExpansion()
    ensures RangeTerminates("1F4F0..1F4F4")
    ensures Expansion("1F4F0..1F4F4") == Success([0x1F4F0, 0x1F4F1, 0x1F4F2, 0x1F4F3])
  {
    SplitNewspaper();
    NewspaperEnds();
    NewspaperValues();
  }

  lemma NewspaperSingles(runes: seq<Rune>)
    requires runes == [0x1F4F0, 0x1F4F1, 0x1F4F2, 0x1F4F3]
    ensures Singles(runes) == [Emoji([0x1F4F0]), Emoji([0x1F4F1]), Emoji([0x1F4F2]), Emoji([0x1F4F3])]
  {
  }

  lemma NewspaperFieldParses(field: string)
    requires field == "1F4F0..1F4F4"
    ensures RangeTerminates(field)
    ensures ParsedField(field)
      == Parsed([Emoji([0x1F4F0]), Emoji([0x1F4F1]), Emoji([0x1F4F2]), Emoji([0x1F4F3])], None)
  {
    NewspaperFirstMatch(field);
    assert '.' in field by { assert field[5] == '.'; }
    NewspaperExpansion();
    NewspaperSingles(Expansion(field).value);
  }

  /** "2.5 byte rune range" as the code computes it: four single-rune
      emojis, where the test expects five (U+1F4F4 is missing). */
  lemma ParseEmojiNewspaperDropsEnd(after: string)
    ensures var line := "1F4F0..1F4F4" + Spaces(2) + ";" + after;
      && Parsable(line)
      && ParsedLine(line)
        == Parsed([Emoji([0x1F4F0]), Emoji([0x1F4F1]), Emoji([0x1F4F2]), Emoji([0x1F4F3])], None)
  {
    NewspaperFirstMatch("1F4F0..1F4F4");
    PaddedLine("1F4F0..1F4F4", 2, after);
    NewspaperFieldParses("1F4F0..1F4F4");
  }

  lemma BadNewspaperFirstMatch(s: string)
    requires s == "1F4F0..1F4FG"
    ensures MatchAt(s, "..", 5) && '.' !in s[..5] && s[..5] == "1F4F0" && s[7..] == "1F4FG"
    ensures s[5] == '.' && ';' !in s && !IsSpace(s[0]) && !IsSpace(s[|s| - 1])
  {
    assert s == ['1', 'F', '4', 'F', '0', '.', '.', '1', 'F', '4', 'F', 'G'];
  }

  lemma BadNewspaperEnds()
    ensures ParseHex32("1F4F0") == Success(0x1F4F0)
    ensures ParseHex32("1F4FG") == Failure(ErrSyntax)
    ensures '.' !in "1F4FG"
  {
    assert "1F4FG" == ['1', 'F', '4', 'F', 'G'];
  }

  lemma BadNewspaperFieldParses(field: string)
    requires field == "1F4F0..1F4FG"
    ensures RangeTerminates(field)
    ensures ParsedField(field) == Parsed([], Some(InvalidCodePoint("1F4FG", ErrSyntax)))
  {
    BadNewspaperFirstMatch(field);
    assert '.' in field by { assert field[5] == '.'; }
    SplitAt(field, "..", 5);
    BadNewspaperEnds();
    SplitNone("1F4FG", "..");
  }

  /** "Invalid rune range": the end `1F4FG` is not hex, so the line gives
      no emojis and an error naming that token. */
  lemma ParseEmojiInvalidRange(after: string)
    ensures var line := "1F4F0..1F4FG" + Spaces(2) + ";" + after;
      && Parsable(line)
      && ParsedLine(line) == Parsed([], Some(InvalidCodePoint("1F4FG", ErrSyntax)))
  {
    BadNewspaperFirstMatch("1F4F0..1F4FG");
    PaddedLine("1F4F0..1F4FG", 2, after);
    BadNewspaperFieldParses("1F4F0..1F4FG");
  }
}
