/**
 * The anchored patterns of `LinkedInJobNameRegex` written as string
 * functions: SLASH (`\s*\/\s*`), START (`^[^\w\(]+`), END (`[^\w\)]+$`)
 * and BOUND (`\s*[-,:;@\(\)]+\s*`), with `normalize` built from the first
 * three. The TERMS and TITLE patterns are kept as their source text only;
 * what they match is left to the regular-expression engine.
 */
module JobNameRegex {
  import opened Text

  // ---------------------------------------------------------------------
  // The pattern list
  // ---------------------------------------------------------------------

  const SPECIAL := @"[^\s\w]*"
  const SEP := @"(?:\W)*"
  const SUFFIX := @"(?:[a-z]*)"
  const FN_WORDS := @"(?:\s(?:of|or)\s)*"

  /** The six noise terms, in the order `whittle` tries them. */
  const TERMS: seq<string> := [
    @"W2|Only|No|H1b",
    @"(?:Immediate|Urgen|Requir|Need)" + SUFFIX + FN_WORDS,
    @"100\%|Remote",
    @"Only|(?:[a-z]{4}\sTime)",
    @"Opening|Opportunity|Job|Position",
    @"(?:Contract)+[a-z\s]*"
  ]

  /** `build_pattern`: the source text of one case-insensitive noise pattern. */
  function BuildPattern(term: string): (p: string)
    ensures |p| == |SPECIAL| + |SEP| + |term| + 5
    ensures p[..|SPECIAL| + |SEP|] == SPECIAL + SEP
    ensures p[|SPECIAL| + |SEP| + 3..|p| - 2] == term
  {
    SPECIAL + SEP + "(?:" + term + ")+"
  }

  /** The list `LinkedInJobNameRegex()` holds: one pattern per term, in order. */
  function PatternList(): (ps: seq<string>)
    ensures |ps| == |TERMS| == 6
    ensures forall i :: 0 <= i < |ps| ==> ps[i] == BuildPattern(TERMS[i])
  {
    seq(|TERMS|, i requires 0 <= i < |TERMS| => BuildPattern(TERMS[i]))
  }

  // ---------------------------------------------------------------------
  // SLASH: whitespace around '/' is removed
  // ---------------------------------------------------------------------

  predicate NotSpace(c: char) {
    !IsSpace(c)
  }

  /** The number of whitespace characters at the start of `s`. */
  function SpaceRun(s: string): (n: nat)
    ensures n <= |s| && (n < |s| ==> !IsSpace(s[n]))
    ensures forall k :: 0 <= k < n ==> IsSpace(s[k])
  {
    WordLength(s, NotSpace)
  }

  /** `SLASH` matches at the start of `s`: a whitespace run, then '/'. */
  predicate SlashAtStart(s: string) {
    SpaceRun(s) < |s| && s[SpaceRun(s)] == '/'
  }

  /** A '/' with whitespace right after or right before it. */
  predicate SlashSpacePair(c: char, d: char) {
    (c == '/' && IsSpace(d)) || (IsSpace(c) && d == '/')
  }

  /** No whitespace character stands next to a '/'. */
  predicate NoSpaceAroundSlash(s: string) {
    forall i, j :: 0 <= i < |s| && 0 <= j < |s| && j == i + 1 ==> !SlashSpacePair(s[i], s[j])
  }

  /** `SLASH.sub("/", s)`: each match, taken left to right, becomes a bare "/". */
  function SlashSub(s: string): (r: string)
    ensures |r| == 0 <==> |s| == 0
    ensures |r| > 0 && r[0] == '/' <==> SlashAtStart(s)
    ensures |s| > 0 && !IsSpace(s[0]) && s[0] != '/' ==> r[0] == s[0]
    ensures |s| > 0 && !IsSpace(s[0]) ==> !IsSpace(r[0])
    ensures NoSpaceAroundSlash(r)
    decreases |s|
  {
    if |s| == 0 then ""
    else
      var k := SpaceRun(s);
      if k < |s| && s[k] == '/' then
        var rest := s[k + 1..];
        var tail := SlashSub(rest[SpaceRun(rest)..]);
        "/" + tail
      else
        assert IsSpace(s[0]) ==> SpaceRun(s[1..]) == k - 1;
        [s[0]] + SlashSub(s[1..])
  }

  lemma NoSpaceBeforeSlash(s: string, i: nat)
    requires NoSpaceAroundSlash(s) && 0 < i < |s| && s[i] == '/'
    ensures !IsSpace(s[i - 1])
  {
    assert !SlashSpacePair(s[i - 1], s[i]);
  }

  /** Text with no whitespace next to a slash is left alone by `SLASH.sub`. */
  lemma {:induction false} SlashSubKeeps(s: string)
    requires NoSpaceAroundSlash(s)
    ensures SlashSub(s) == s
    decreases |s|
  {
    if |s| > 0 {
      var k := SpaceRun(s);
      assert NoSpaceAroundSlash(s[1..]);
      if k < |s| && s[k] == '/' {
        if k > 0 {
          NoSpaceBeforeSlash(s, k);
        }
        var rest := s[1..];
        assert SpaceRun(rest) == 0;
        SlashSubKeeps(rest);
      } else {
        SlashSubKeeps(s[1..]);
      }
    }
  }

  // ---------------------------------------------------------------------
  // START, END and normalize
  // ---------------------------------------------------------------------

  /** Characters `START` strips from the front: neither `\w` nor '('. */
  predicate StartJunk(c: char) {
    !IsWordChar(c) && c != '('
  }

  /** Characters `END` strips from the back: neither `\w` nor ')'. */
  predicate EndJunk(c: char) {
    !IsWordChar(c) && c != ')'
  }

  /** `END.sub("", START.sub("", SLASH.sub("/", s)))`. */
  function Normalize(s: string): (r: string)
  {
    TrimEnd(TrimStart(SlashSub(s), StartJunk), EndJunk)
  }

  /** A stretch of text with no whitespace next to a slash has none either. */
  lemma NoSpaceAroundSlashInStretch(t: string, a: nat, u: string)
    requires a + |u| <= |t| && t[a..a + |u|] == u && NoSpaceAroundSlash(t)
    ensures NoSpaceAroundSlash(u)
  {
    forall i, j | 0 <= i < |u| && 0 <= j < |u| && j == i + 1
      ensures !SlashSpacePair(u[i], u[j])
    {
      assert u[i] == t[a + i] && u[j] == t[a + j];
    }
  }

  lemma WordCharNotSpace(c: char)
    requires IsWordChar(c) || c == '(' || c == ')'
    ensures !IsSpace(c)
  {
  }

  /** Trimming the front keeps "no whitespace next to a slash". */
  lemma TrimStartKeepsNoSpaceAroundSlash(t: string, p: char -> bool)
    requires NoSpaceAroundSlash(t)
    ensures NoSpaceAroundSlash(TrimStart(t, p))
  {
    var u := TrimStart(t, p);
    assert t[|t| - |u|..|t| - |u| + |u|] == u;
    NoSpaceAroundSlashInStretch(t, |t| - |u|, u);
  }

  /** Trimming the back keeps "no whitespace next to a slash". */
  lemma TrimEndKeepsNoSpaceAroundSlash(t: string, p: char -> bool)
    requires NoSpaceAroundSlash(t)
    ensures NoSpaceAroundSlash(TrimEnd(t, p))
  {
    var u := TrimEnd(t, p);
    assert t[0..0 + |u|] == u;
    NoSpaceAroundSlashInStretch(t, 0, u);
  }

  /** Trimming junk off both ends keeps "no whitespace next to a slash". */
  lemma TrimmedKeepsNoSpaceAroundSlash(t: string)
    requires NoSpaceAroundSlash(t)
    ensures NoSpaceAroundSlash(TrimEnd(TrimStart(t, StartJunk), EndJunk))
  {
    TrimStartKeepsNoSpaceAroundSlash(t, StartJunk);
    TrimEndKeepsNoSpaceAroundSlash(TrimStart(t, StartJunk), EndJunk);
  }

  /** `normalize` keeps no whitespace next to a '/'. */
  lemma NormalizeNoSpaceAroundSlash(s: string)
    ensures NoSpaceAroundSlash(Normalize(s))
  {
    TrimmedKeepsNoSpaceAroundSlash(SlashSub(s));
  }

  /** `normalize` leaves a word character or a parenthesis at each end. */
  lemma NormalizeEnds(s: string)
    ensures var r := Normalize(s);
      && (r == [] || IsWordChar(r[0]) || r[0] == '(')
      && (r == [] || IsWordChar(r[|r| - 1]) || r[|r| - 1] == ')')
  {
    var r := Normalize(s);
    TrimBothEnds(SlashSub(s), StartJunk, EndJunk);
    if r != [] {
      assert !StartJunk(r[0]) && !EndJunk(r[|r| - 1]);
    }
  }

  /** What `normalize` leaves: a stretch that starts with `\w` or '(', ends with `\w` or ')', has no whitespace next to a '/' and no whitespace at either end. */
  lemma NormalizeShape(s: string)
    ensures var r := Normalize(s);
      && (r == [] || IsWordChar(r[0]) || r[0] == '(')
      && (r == [] || IsWordChar(r[|r| - 1]) || r[|r| - 1] == ')')
      && NoSpaceAroundSlash(r)
      && (r == [] || (!IsSpace(r[0]) && !IsSpace(r[|r| - 1])))
  {
    NormalizeEnds(s);
    NormalizeNoSpaceAroundSlash(s);
    var r := Normalize(s);
    if r != [] {
      WordCharNotSpace(r[0]);
      WordCharNotSpace(r[|r| - 1]);
    }
  }

  /** Normalizing twice changes nothing more than normalizing once. */
  lemma NormalizeIdempotent(s: string)
    ensures Normalize(Normalize(s)) == Normalize(s)
  {
    var r := Normalize(s);
    assert SlashSub(r) == r by {
      NormalizeNoSpaceAroundSlash(s);
      SlashSubKeeps(r);
    }
    NormalizeEnds(s);
    TrimStartNothing(r, StartJunk);
    TrimEndNothing(r, EndJunk);
  }

  // ---------------------------------------------------------------------
  // BOUND: the delimiters `shorten_name` splits a title on
  // ---------------------------------------------------------------------

  /** The delimiter class `[-,:;@\(\)]`. */
  predicate IsBound(c: char) {
    c == '-' || c == ',' || c == ':' || c == ';' || c == '@' || c == '(' || c == ')'
  }

  predicate NotBound(c: char) {
    !IsBound(c)
  }

  /** The length of the `BOUND` match at the start of `s`, or 0 when there is none. */
  function BoundMatchLength(s: string): (m: nat)
    ensures m <= |s|
    ensures m > 0 && m < |s| ==> !IsSpace(s[m])
    ensures m == 0 ==> !(SpaceRun(s) < |s| && IsBound(s[SpaceRun(s)]))
  {
    var k := SpaceRun(s);
    if k < |s| && IsBound(s[k]) then
      var b := k + WordLength(s[k..], NotBound);
      b + SpaceRun(s[b..])
    else 0
  }

  /** `re.split` on `BOUND`, with `piece` the text gathered since the last match. */
  function BoundSplitFrom(s: string, piece: string): (ps: seq<string>)
    ensures |ps| >= 1
    decreases |s|
  {
    if |s| == 0 then [piece]
    else
      var m := BoundMatchLength(s);
      if m > 0 then [piece] + BoundSplitFrom(s[m..], "")
      else BoundSplitFrom(s[1..], piece + [s[0]])
  }

  /** `BOUND.split(s)`. */
  function BoundSplit(s: string): (ps: seq<string>)
  {
    BoundSplitFrom(s, "")
  }

  predicate BoundFree(p: string) {
    forall i :: 0 <= i < |p| ==> !IsBound(p[i])
  }

  /** Every piece is free of delimiters; a piece that a match follows does not end in whitespace, and one that a match precedes does not start with it. */
  predicate WellSplit(ps: seq<string>) {
    && (forall k :: 0 <= k < |ps| ==> BoundFree(ps[k]))
    && (forall k :: 0 <= k < |ps| - 1 ==> ps[k] == [] || !IsSpace(Last(ps[k])))
    && (forall k :: 0 < k < |ps| ==> ps[k] == [] || !IsSpace(ps[k][0]))
  }

  /** The first piece carries on the text gathered so far; with nothing gathered, it does not start with whitespace unless `s` does. */
  lemma {:induction false} BoundSplitFromHead(s: string, piece: string)
    ensures var ps := BoundSplitFrom(s, piece);
      && |ps[0]| >= |piece| && ps[0][..|piece|] == piece
      && (piece == [] && (|s| == 0 || !IsSpace(s[0])) ==> ps[0] == [] || !IsSpace(ps[0][0]))
    decreases |s|
  {
    if |s| > 0 && BoundMatchLength(s) == 0 {
      var p2 := piece + [s[0]];
      BoundSplitFromHead(s[1..], p2);
      var ps := BoundSplitFrom(s[1..], p2);
      assert BoundSplitFrom(s, piece) == ps;
      assert ps[0][..|piece|] == p2[..|piece|] == piece;
      assert ps[0][0] == p2[0];
    }
  }

  /** Putting a delimiter-free piece that does not end in whitespace in front of a well-split list whose first piece does not start with whitespace keeps it well split. */
  lemma WellSplitCons(piece: string, tail: seq<string>)
    requires BoundFree(piece) && (piece == [] || !IsSpace(Last(piece)))
    requires |tail| >= 1 && WellSplit(tail) && (tail[0] == [] || !IsSpace(tail[0][0]))
    ensures WellSplit([piece] + tail)
  {
    var ps := [piece] + tail;
    forall k | 0 < k < |ps| ensures ps[k] == tail[k - 1] { }
  }

  lemma {:induction false} BoundSplitFromShape(s: string, piece: string)
    requires BoundFree(piece)
    requires piece == [] || !IsSpace(Last(piece)) || !(SpaceRun(s) < |s| && IsBound(s[SpaceRun(s)]))
    ensures WellSplit(BoundSplitFrom(s, piece))
    decreases |s|
  {
    if |s| == 0 {
      assert BoundSplitFrom(s, piece) == [piece];
    } else {
      var m := BoundMatchLength(s);
      if m > 0 {
        BoundSplitFromShape(s[m..], "");
        BoundSplitFromHead(s[m..], "");
        var tail := BoundSplitFrom(s[m..], "");
        assert BoundSplitFrom(s, piece) == [piece] + tail;
        WellSplitCons(piece, tail);
      } else {
        var p2 := piece + [s[0]];
        assert BoundFree(p2);
        assert IsSpace(s[0]) ==> SpaceRun(s[1..]) == SpaceRun(s) - 1;
        BoundSplitFromShape(s[1..], p2);
        assert BoundSplitFrom(s, piece) == BoundSplitFrom(s[1..], p2);
      }
    }
  }

  /** The pieces `BOUND.split` returns are delimiter-free and trimmed at the cut points. */
  lemma BoundSplitShape(s: string)
    ensures WellSplit(BoundSplit(s))
  {
    BoundSplitFromShape(s, "");
  }

  /** Text without delimiters is returned whole. */
  lemma {:induction false} BoundSplitNoDelimiter(s: string, piece: string)
    requires BoundFree(s)
    ensures BoundSplitFrom(s, piece) == [piece + s]
    decreases |s|
  {
    if |s| > 0 {
      assert BoundMatchLength(s) == 0 by {
        var k := SpaceRun(s);
        if k < |s| { assert !IsBound(s[k]); }
      }
      assert BoundFree(s[1..]);
      assert BoundSplitFrom(s, piece) == BoundSplitFrom(s[1..], piece + [s[0]]);
      BoundSplitNoDelimiter(s[1..], piece + [s[0]]);
      assert s == [s[0]] + s[1..];
      assert piece + [s[0]] + s[1..] == piece + s;
    } else {
      assert piece + s == piece;
    }
  }
}
