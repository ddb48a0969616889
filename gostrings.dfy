/**
 * The parts of Go's `strings` and `unicode` packages that the emoji parser
 * relies on: `unicode.IsSpace`, `strings.TrimSpace`, `strings.Index`,
 * `strings.Split` (with a non-empty separator) and `strings.HasPrefix`.
 * Strings are sequences of code points; a byte offset in Go is a character
 * offset here, which agrees with Go for every separator used (`;`, ` `, `..`).
 */
module GoStrings {

  /** `unicode.IsSpace`: the Latin-1 spaces and the other White_Space code points. */
  predicate IsSpace(c: char)
  {
    || c == '\t' || c == '\n' || c == '\U{000B}' || c == '\U{000C}' || c == '\r' || c == ' '
    || c == '\U{0085}' || c == '\U{00A0}' || c == '\U{1680}'
    || ('\U{2000}' <= c <= '\U{200A}')
    || c == '\U{2028}' || c == '\U{2029}' || c == '\U{202F}' || c == '\U{205F}' || c == '\U{3000}'
  }

  predicate AllSpace(s: string)
  {
    forall k | 0 <= k < |s| :: IsSpace(s[k])
  }

  /** Drops the leading white space of `s`. */
  function TrimLeft(s: string): (r: string)
    ensures |r| <= |s| && r == s[|s| - |r|..]
    ensures AllSpace(s[..|s| - |r|])
    ensures r != [] ==> !IsSpace(r[0])
  {
    if |s| > 0 && IsSpace(s[0]) then
      var r := TrimLeft(s[1..]);
      TrimLeftStep(s, r);
      r
    else s
  }

  /** Trimming one more leading space keeps the trimmed part all white space. */
  lemma TrimLeftStep(s: string, r: string)
    requires |s| > 0 && IsSpace(s[0])
    requires |r| <= |s| - 1 && r == s[1..][|s| - 1 - |r|..] && AllSpace(s[1..][..|s| - 1 - |r|])
    ensures r == s[|s| - |r|..] && AllSpace(s[..|s| - |r|])
  {
    var dropped := s[..|s| - |r|];
    forall k | 0 <= k < |dropped| ensures IsSpace(dropped[k]) {
      if k > 0 { assert s[1..][..|s| - 1 - |r|][k - 1] == s[k]; }
    }
  }

  /** Drops the trailing white space of `s`. */
  function TrimRight(s: string): (r: string)
    ensures |r| <= |s| && r == s[..|r|]
    ensures AllSpace(s[|r|..])
    ensures r != [] ==> !IsSpace(r[|r| - 1])
  {
    if |s| > 0 && IsSpace(s[|s| - 1]) then
      var r := TrimRight(s[..|s| - 1]);
      TrimRightStep(s, r);
      r
    else s
  }

  /** Trimming one more trailing space keeps the trimmed part all white space. */
  lemma TrimRightStep(s: string, r: string)
    requires |s| > 0 && IsSpace(s[|s| - 1])
    requires |r| <= |s| - 1 && r == s[..|s| - 1][..|r|] && AllSpace(s[..|s| - 1][|r|..])
    ensures r == s[..|r|] && AllSpace(s[|r|..])
  {
    var t := s[..|s| - 1];
    var dropped := s[|r|..];
    forall j | 0 <= j < |dropped| ensures IsSpace(dropped[j]) {
      if j < |dropped| - 1 { assert t[|r|..][j] == dropped[j]; }
    }
  }

  /** `strings.TrimSpace`: `s` without its leading and trailing white space. */
  function TrimSpace(s: string): string
  {
    TrimRight(TrimLeft(s))
  }

  /** Trimming the front stops at the first character that is not a space, or before. */
  lemma {:induction false} TrimLeftStopsAt(s: string, k: int)
    requires 0 <= k < |s| && !IsSpace(s[k])
    ensures |s| - |TrimLeft(s)| <= k
    decreases k
  {
    if IsSpace(s[0]) {
      assert s[1..][k - 1] == s[k];
      TrimLeftStopsAt(s[1..], k - 1);
    }
  }

  /** A string with a non-space character keeps one after trimming its front. */
  lemma TrimLeftNonSpace(s: string)
    requires !AllSpace(s)
    ensures TrimLeft(s) != ""
  {
    var k :| 0 <= k < |s| && !IsSpace(s[k]);
    TrimLeftStopsAt(s, k);
  }

  /** `strings.TrimSpace(s) == ""` holds exactly for the strings made of white space only. */
  lemma TrimSpaceEmpty(s: string)
    ensures TrimSpace(s) == "" <==> AllSpace(s)
  {
    var l := TrimLeft(s);
    var n := |s| - |l|;
    if TrimSpace(s) == "" {
      assert AllSpace(l) by { assert l[0..] == l; }
      assert s[..n] == s;
    }
    if !AllSpace(s) {
      TrimLeftNonSpace(s);
      assert l[0] == s[n] && !IsSpace(l[0]);
      assert TrimRight(l)[0] == l[0];
    }
  }

  /** `TrimSpace` keeps a contiguous piece of its input. */
  lemma TrimSpaceInfix(s: string)
    ensures exists i, j :: 0 <= i <= j <= |s| && TrimSpace(s) == s[i..j]
  {
    var l := TrimLeft(s);
    var r := TrimRight(l);
    var i := |s| - |l|;
    assert l == s[i..] && r == l[..|r|];
    assert s[i..][..|r|] == s[i..i + |r|];
    assert TrimSpace(s) == s[i..i + |r|];
  }

  /** `n` spaces. */
  function Spaces(n: nat): (r: string)
    ensures |r| == n && AllSpace(r)
  {
    seq(n, _ => ' ')
  }

  /** Trailing padding is trimmed away: a text that neither starts nor ends
      with white space comes back out of `TrimSpace` on its own. */
  lemma {:induction false} TrimSpacePadded(word: string, n: nat)
    requires word != [] && !IsSpace(word[0]) && !IsSpace(word[|word| - 1])
    ensures TrimSpace(word + Spaces(n)) == word
    decreases n
  {
    var padded := word + Spaces(n);
    assert padded[0] == word[0];
    if n > 0 {
      assert padded[..|padded| - 1] == word + Spaces(n - 1);
      assert padded[|padded| - 1] == ' ';
      TrimSpacePadded(word, n - 1);
      assert TrimLeft(word + Spaces(n - 1)) == word + Spaces(n - 1);
    } else {
      assert padded == word;
    }
  }

  /** `strings.HasPrefix`. */
  predicate HasPrefix(s: string, prefix: string)
  {
    |prefix| <= |s| && s[..|prefix|] == prefix
  }

  /** `sep` occurs in `s` starting at position `i`. */
  predicate MatchAt(s: string, sep: string, i: int)
  {
    0 <= i && i + |sep| <= |s| && s[i..i + |sep|] == sep
  }

  /** The first occurrence of `sep` in `s` at or after position `k`, or -1. */
  function IndexFrom(s: string, sep: string, k: nat): (i: int)
    requires k <= |s|
    ensures i == -1 || (k <= i && MatchAt(s, sep, i))
    ensures forall j | k <= j < (if i < 0 then |s| + 1 else i) :: !MatchAt(s, sep, j)
    decreases |s| - k
  {
    if MatchAt(s, sep, k) then k
    else if k == |s| then -1
    else IndexFrom(s, sep, k + 1)
  }

  /** `strings.Index`: the position of the first occurrence of `sep` in `s`, or -1. */
  function Index(s: string, sep: string): (i: int)
    ensures i == -1 || MatchAt(s, sep, i)
    ensures forall j | 0 <= j < (if i < 0 then |s| + 1 else i) :: !MatchAt(s, sep, j)
  {
    IndexFrom(s, sep, 0)
  }

  /** For a one-character separator, `Index` finds something exactly when the character occurs. */
  lemma IndexOfChar(s: string, c: char)
    ensures Index(s, [c]) >= 0 <==> c in s
    ensures Index(s, [c]) >= 0 ==> s[Index(s, [c])] == c && c !in s[..Index(s, [c])]
  {
    var i := Index(s, [c]);
    if c in s {
      var k :| 0 <= k < |s| && s[k] == c;
      assert s[k..k + 1] == [c];
      assert MatchAt(s, [c], k);
    }
    if i >= 0 {
      assert s[i..i + 1] == [c];
      assert s[i] == c;
      forall k | 0 <= k < i ensures s[k] != c {
        if s[k] == c { assert s[k..k + 1] == [c]; assert MatchAt(s, [c], k); }
      }
    }
  }

  /** A match with no earlier match is the one `Index` finds. */
  lemma IndexIs(s: string, sep: string, i: int)
    requires MatchAt(s, sep, i)
    requires forall j | 0 <= j < i :: !MatchAt(s, sep, j)
    ensures Index(s, sep) == i
  {
  }

  /** A separator cannot start where its first character is missing. */
  lemma NoMatchAt(s: string, sep: string, j: int)
    requires |sep| > 0 && 0 <= j < |s| && s[j] != sep[0]
    ensures !MatchAt(s, sep, j)
  {
  }

  /** A string without the separator's first character has no occurrence of it. */
  lemma IndexNone(s: string, sep: string)
    requires |sep| > 0 && sep[0] !in s
    ensures Index(s, sep) == -1
  {
    var i := Index(s, sep);
    if i >= 0 {
      assert false;
    }
  }

  /** `strings.Split` with a non-empty separator: the pieces of `s` between the
      non-overlapping, leftmost occurrences of `sep`. */
  function Split(s: string, sep: string): (parts: seq<string>)
    requires |sep| > 0
    ensures |parts| >= 1
    decreases |s|
  {
    var i := Index(s, sep);
    if i < 0 then [s] else [s[..i]] + Split(s[i + |sep|..], sep)
  }

  /** Splitting at the first occurrence of the separator. */
  lemma SplitAtIndex(s: string, sep: string, i: int)
    requires |sep| > 0 && MatchAt(s, sep, i)
    requires forall j | 0 <= j < i :: !MatchAt(s, sep, j)
    ensures Split(s, sep) == [s[..i]] + Split(s[i + |sep|..], sep)
  {
    IndexIs(s, sep, i);
  }

  /** The common special case of `SplitAtIndex`: no earlier match is possible
      because the separator's first character does not occur before `i`. */
  lemma SplitAt(s: string, sep: string, i: int)
    requires |sep| > 0 && MatchAt(s, sep, i) && sep[0] !in s[..i]
    ensures Split(s, sep) == [s[..i]] + Split(s[i + |sep|..], sep)
  {
    forall j | 0 <= j < i ensures !MatchAt(s, sep, j) {
      assert s[..i][j] == s[j];
      NoMatchAt(s, sep, j);
    }
    SplitAtIndex(s, sep, i);
  }

  /** A string without the separator is one piece. */
  lemma SplitNone(s: string, sep: string)
    requires |sep| > 0 && sep[0] !in s
    ensures Split(s, sep) == [s]
  {
    IndexNone(s, sep);
  }

  /** `strings.Join`: the pieces with `sep` between each two neighbours. */
  function Join(parts: seq<string>, sep: string): string
  {
    if |parts| == 0 then ""
    else if |parts| == 1 then parts[0]
    else parts[0] + sep + Join(parts[1..], sep)
  }

  lemma JoinCons(p: string, tail: seq<string>, sep: string)
    requires |tail| >= 1
    ensures Join([p] + tail, sep) == p + sep + Join(tail, sep)
  {
    assert ([p] + tail)[1..] == tail;
  }

  lemma MatchSplits(s: string, sep: string, i: int)
    requires MatchAt(s, sep, i)
    ensures s == s[..i] + sep + s[i + |sep|..]
  {
    assert s[i..i + |sep|] == sep;
    assert s[..i] + s[i..i + |sep|] + s[i + |sep|..] == s;
  }

  /** A character found neither in the pieces nor in the separator is not in their join. */
  lemma {:induction false} JoinAvoids(parts: seq<string>, sep: string, c: char)
    requires c !in sep
    requires forall k | 0 <= k < |parts| :: c !in parts[k]
    ensures c !in Join(parts, sep)
    decreases |parts|
  {
    if |parts| > 1 {
      JoinAvoids(parts[1..], sep, c);
      assert parts[1..][0] == parts[1];
      assert c !in parts[0];
    } else if |parts| == 1 {
      assert c !in parts[0];
    }
  }

  /** Joining pieces that lack the separator's first character and splitting
      the result again gives back the pieces. */
  lemma {:induction false} JoinSplit(parts: seq<string>, sep: string)
    requires |sep| > 0 && |parts| >= 1
    requires forall k | 0 <= k < |parts| :: sep[0] !in parts[k]
    ensures Split(Join(parts, sep), sep) == parts
    decreases |parts|
  {
    if |parts| == 1 {
      SplitNone(parts[0], sep);
    } else {
      var p, tail := parts[0], parts[1..];
      assert parts == [p] + tail;
      JoinCons(p, tail, sep);
      var s := Join(parts, sep);
      assert s == p + sep + Join(tail, sep);
      assert s[..|p|] == p;
      assert s[|p|..|p| + |sep|] == sep;
      assert s[|p| + |sep|..] == Join(tail, sep);
      assert sep[0] !in p;
      SplitAt(s, sep, |p|);
      forall k | 0 <= k < |tail| ensures sep[0] !in tail[k] {
        assert tail[k] == parts[k + 1];
      }
      JoinSplit(tail, sep);
    }
  }

  /** Splitting loses nothing: joining the pieces back gives the input. */
  lemma {:induction false} SplitJoin(s: string, sep: string)
    requires |sep| > 0
    ensures Join(Split(s, sep), sep) == s
    decreases |s|
  {
    var i := Index(s, sep);
    if i >= 0 {
      var rest := s[i + |sep|..];
      SplitJoin(rest, sep);
      JoinCons(s[..i], Split(rest, sep), sep);
      MatchSplits(s, sep, i);
    }
  }

  /** No piece of a split contains the separator. */
  lemma {:induction false} SplitPiecesAvoidSep(s: string, sep: string)
    requires |sep| > 0
    ensures forall k | 0 <= k < |Split(s, sep)| :: Index(Split(s, sep)[k], sep) == -1
    decreases |s|
  {
    var i := Index(s, sep);
    if i >= 0 {
      var rest := s[i + |sep|..];
      SplitPiecesAvoidSep(rest, sep);
      var p := s[..i];
      var j := Index(p, sep);
      if j >= 0 {
        assert p[j..j + |sep|] == s[j..j + |sep|];
        assert MatchAt(s, sep, j);
      }
    }
  }
}
