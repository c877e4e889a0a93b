/**
 * The Python `str` and sequence built-ins that the email bot leans on,
 * written out with the semantics CPython gives them: `find`, `rfind`,
 * `in`, `split`, `strip`, `replace`, `join`, `removesuffix` and slicing
 * with possibly negative bounds.
 */
module Text {

  // ---------------------------------------------------------------------
  // Character classes
  // ---------------------------------------------------------------------

  /** The characters for which `str.isspace()` holds, which is also what `\s` matches in a `str` pattern. */
  predicate IsSpace(c: char) {
    var n := c as int;
    (9 <= n <= 13) || (28 <= n <= 32) || n == 0x85 || n == 0xA0 || n == 0x1680
    || (0x2000 <= n <= 0x200A) || n == 0x2028 || n == 0x2029 || n == 0x202F
    || n == 0x205F || n == 0x3000
  }

  /** The bytes for which `bytes.isspace()` holds: space, tab, LF, VT, FF, CR. */
  predicate IsAsciiSpace(c: char) {
    c == ' ' || ('\t' <= c <= '\r')
  }

  /** `[a-zA-Z]`. */
  predicate IsAsciiLetter(c: char) {
    ('a' <= c <= 'z') || ('A' <= c <= 'Z')
  }

  /** `\d`, restricted to the ASCII digits. */
  predicate IsDigit(c: char) {
    '0' <= c <= '9'
  }

  /** `\w`, restricted to ASCII letters, digits and the underscore. */
  predicate IsWordChar(c: char) {
    IsAsciiLetter(c) || IsDigit(c) || c == '_'
  }

  predicate HasDigit(s: string) {
    exists k :: 0 <= k < |s| && IsDigit(s[k])
  }

  // ---------------------------------------------------------------------
  // Occurrences of a substring
  // ---------------------------------------------------------------------

  /** `sub` occurs in `s` starting at index `i`. */
  predicate OccursAt(s: string, sub: string, i: int) {
    0 <= i && i + |sub| <= |s| && s[i..i + |sub|] == sub
  }

  /** Python's `sub in s`. */
  predicate Contains(s: string, sub: string) {
    exists i :: 0 <= i <= |s| - |sub| && OccursAt(s, sub, i)
  }

  lemma OccursInPrefix(s: string, sub: string, n: nat, j: int)
    requires n <= |s| && OccursAt(s[..n], sub, j)
    ensures OccursAt(s, sub, j)
  {
    assert s[..n][j..j + |sub|] == s[j..j + |sub|];
  }

  lemma OccursInSuffix(s: string, sub: string, n: nat, j: int)
    requires n <= |s| && OccursAt(s[n..], sub, j)
    ensures OccursAt(s, sub, j + n)
  {
    assert s[n..][j..j + |sub|] == s[j + n..j + n + |sub|];
  }

  /** Python's `s.find(sub)`: the first index at which `sub` occurs, or -1. */
  function Find(s: string, sub: string): (i: int)
    ensures i == -1 || OccursAt(s, sub, i)
    ensures forall j :: 0 <= j && (i == -1 || j < i) ==> !OccursAt(s, sub, j)
    decreases |s|
  {
    if |s| < |sub| then -1
    else if s[..|sub|] == sub then 0
    else
      var r := Find(s[1..], sub);
      assert forall j :: 1 <= j <= |s| - |sub| ==> (OccursAt(s, sub, j) <==> OccursAt(s[1..], sub, j - 1)) by {
        forall j | 1 <= j <= |s| - |sub| ensures OccursAt(s, sub, j) <==> OccursAt(s[1..], sub, j - 1) {
          assert s[1..][j - 1..j - 1 + |sub|] == s[j..j + |sub|];
        }
      }
      if r == -1 then -1 else r + 1
  }

  /** `find` answers -1 exactly when the substring does not occur. */
  lemma FindContains(s: string, sub: string)
    ensures Find(s, sub) == -1 <==> !Contains(s, sub)
  {
  }

  /**
   * Python's `s.rfind(sub, start)` for a start within the string: the
   * largest index at or after `start` at which `sub` occurs, or -1.
   */
  function RFind(s: string, sub: string, start: nat): (i: int)
    ensures i == -1 || (start <= i && OccursAt(s, sub, i))
    ensures i >= 0 ==> forall j :: i < j <= |s| - |sub| ==> !OccursAt(s, sub, j)
    ensures i == -1 ==> forall j :: start <= j <= |s| - |sub| ==> !OccursAt(s, sub, j)
    decreases |s|
  {
    if |s| < |sub| + start then -1
    else if s[|s| - |sub|..] == sub then |s| - |sub|
    else
      var r := RFind(s[..|s| - 1], sub, start);
      assert forall j :: 0 <= j <= |s| - 1 - |sub| ==> (OccursAt(s, sub, j) <==> OccursAt(s[..|s| - 1], sub, j)) by {
        forall j | 0 <= j <= |s| - 1 - |sub| ensures OccursAt(s, sub, j) <==> OccursAt(s[..|s| - 1], sub, j) {
          assert s[..|s| - 1][j..j + |sub|] == s[j..j + |sub|];
        }
      }
      r
  }

  // ---------------------------------------------------------------------
  // split, join, replace
  // ---------------------------------------------------------------------

  /** Python's `s.split(sep)` for a non-empty separator: the pieces between non-overlapping occurrences, scanned from the left. */
  function Split(s: string, sep: string): (parts: seq<string>)
    requires |sep| > 0
    ensures |parts| >= 1
    decreases |s|
  {
    var i := Find(s, sep);
    if i < 0 then [s] else [s[..i]] + Split(s[i + |sep|..], sep)
  }

  /** No piece of `s.split(sep)` holds the separator. */
  lemma {:induction false} SplitPiecesFree(s: string, sep: string)
    requires |sep| > 0
    ensures forall k :: 0 <= k < |Split(s, sep)| ==> !Contains(Split(s, sep)[k], sep)
    decreases |s|
  {
    var i := Find(s, sep);
    if i >= 0 {
      assert !Contains(s[..i], sep) by {
        forall j | 0 <= j <= i - |sep| ensures !OccursAt(s[..i], sep, j) {
          if OccursAt(s[..i], sep, j) { OccursInPrefix(s, sep, i, j); }
        }
      }
      SplitPiecesFree(s[i + |sep|..], sep);
    }
  }

  function Last<T>(s: seq<T>): T
    requires |s| > 0
  {
    s[|s| - 1]
  }

  /** `piece` is the tail of `s`, and when `sep in s` a separator stands right before it. */
  predicate TailAfterSeparator(s: string, piece: string, sep: string) {
    && |piece| <= |s| && s[|s| - |piece|..] == piece
    && (Contains(s, sep) ==> |piece| + |sep| <= |s| && s[|s| - |piece| - |sep|..|s| - |piece|] == sep)
    && (!Contains(s, sep) ==> piece == s)
  }

  /** A tail after a separator in the text after an occurrence at `i` is such a tail in the whole text. */
  lemma TailExtends(s: string, sep: string, i: nat, last: string)
    requires |sep| > 0 && OccursAt(s, sep, i)
    requires TailAfterSeparator(s[i + |sep|..], last, sep)
    ensures TailAfterSeparator(s, last, sep)
  {
    var rest := s[i + |sep|..];
    assert Contains(s, sep);
    assert s[|s| - |last|..] == rest[|rest| - |last|..];
    if Contains(rest, sep) {
      assert rest[|rest| - |last| - |sep|..|rest| - |last|] == s[|s| - |last| - |sep|..|s| - |last|];
    }
  }

  /** The last piece of a split at an occurrence is the last piece of the split after it. */
  lemma SplitLastStep(s: string, sep: string, i: nat, parts: seq<string>)
    requires |sep| > 0 && OccursAt(s, sep, i) && |parts| >= 1
    requires Split(s, sep) == [s[..i]] + parts
    requires TailAfterSeparator(s[i + |sep|..], Last(parts), sep)
    ensures TailAfterSeparator(s, Last(Split(s, sep)), sep)
  {
    assert Last(Split(s, sep)) == Last(parts);
    TailExtends(s, sep, i, Last(parts));
  }

  /** The text after the last separator `split` consumes: a suffix of `s` that holds no separator and, when `s` holds one, follows one. */
  lemma {:induction false} SplitLast(s: string, sep: string)
    requires |sep| > 0
    ensures TailAfterSeparator(s, Last(Split(s, sep)), sep)
    decreases |s|
  {
    var i := Find(s, sep);
    if i >= 0 {
      var rest := s[i + |sep|..];
      SplitLast(rest, sep);
      SplitLastStep(s, sep, i, Split(rest, sep));
    } else {
      FindContains(s, sep);
      assert Split(s, sep) == [s];
      assert s[|s| - |s|..] == s;
    }
  }

  /** `len(s.split(sep)) > 1` exactly when `sep in s`; the first piece is the text before the first occurrence. */
  lemma SplitHead(s: string, sep: string)
    requires |sep| > 0
    ensures |Split(s, sep)| > 1 <==> Contains(s, sep)
    ensures Split(s, sep)[0] == if Contains(s, sep) then s[..Find(s, sep)] else s
    ensures Contains(s, sep) ==> Split(s, sep)[1] == Split(s[Find(s, sep) + |sep|..], sep)[0]
  {
    var i := Find(s, sep);
    FindContains(s, sep);
    if i >= 0 {
      var rest := Split(s[i + |sep|..], sep);
      assert Split(s, sep) == [s[..i]] + rest;
      assert |rest| >= 1;
    } else {
      assert Split(s, sep) == [s];
    }
  }

  lemma OccursChar(s: string, c: char, i: int)
    ensures OccursAt(s, [c], i) <==> 0 <= i < |s| && s[i] == c
  {
    if 0 <= i < |s| {
      assert s[i..i + 1] == [s[i]];
    }
  }

  /** `c in s` for a one-character string is membership of the character. */
  lemma ContainsChar(s: string, c: char)
    ensures Contains(s, [c]) <==> c in s
  {
    if c in s {
      var i :| 0 <= i < |s| && s[i] == c;
      OccursChar(s, c, i);
    }
    if Contains(s, [c]) {
      var i :| 0 <= i <= |s| - 1 && OccursAt(s, [c], i);
      OccursChar(s, c, i);
    }
  }

  /** A separator cannot occur at an index of `s` whose character differs from the separator's first. */
  lemma NotOccursAtOtherChar(s: string, sep: string, j: int)
    requires |sep| > 0 && 0 <= j < |s| && s[j] != sep[0]
    ensures !OccursAt(s, sep, j)
  {
    if j + |sep| <= |s| {
      assert s[j..j + |sep|][0] == s[j];
    }
  }

  /** Splitting where the first stretch lacks the separator's first character cuts exactly after that stretch. */
  lemma SplitSepCons(a: string, sep: string, b: string)
    requires |sep| > 0 && sep[0] !in a
    ensures Split(a + sep + b, sep) == [a] + Split(b, sep)
  {
    var s := a + sep + b;
    assert s[|a|..|a| + |sep|] == sep;
    assert OccursAt(s, sep, |a|);
    forall j | 0 <= j < |a| ensures !OccursAt(s, sep, j) {
      assert s[j] == a[j];
      NotOccursAtOtherChar(s, sep, j);
    }
    var i := Find(s, sep);
    assert i == |a|;
    assert s[..i] == a && s[i + |sep|..] == b;
  }

  /** Splitting text that lacks the separator's first character returns the text whole. */
  lemma SplitSepAbsent(s: string, sep: string)
    requires |sep| > 0 && sep[0] !in s
    ensures Split(s, sep) == [s]
  {
    forall j | 0 <= j < |s| ensures !OccursAt(s, sep, j) {
      NotOccursAtOtherChar(s, sep, j);
    }
    var i := Find(s, sep);
    assert i == -1 || i < |s|;
  }

  /** Python's `sep.join(parts)`. */
  function Join(parts: seq<string>, sep: string): (r: string)
    ensures |parts| == 1 ==> r == parts[0]
    decreases |parts|
  {
    if |parts| == 0 then ""
    else if |parts| == 1 then parts[0]
    else parts[0] + sep + Join(parts[1..], sep)
  }

  /** A character that neither the parts nor the separator hold is not in the joined text. */
  lemma {:induction false} JoinFree(parts: seq<string>, sep: string, c: char)
    requires c !in sep
    requires forall k :: 0 <= k < |parts| ==> c !in parts[k]
    ensures c !in Join(parts, sep)
    decreases |parts|
  {
    if |parts| > 1 {
      JoinFree(parts[1..], sep, c);
    }
  }

  /** Joining on a separator whose first character no part holds, then splitting on it, gives the parts back. */
  lemma {:induction false} SplitJoin(parts: seq<string>, sep: string)
    requires |parts| >= 1 && |sep| > 0
    requires forall k :: 0 <= k < |parts| ==> sep[0] !in parts[k]
    ensures Split(Join(parts, sep), sep) == parts
    decreases |parts|
  {
    if |parts| == 1 {
      SplitSepAbsent(parts[0], sep);
    } else {
      SplitJoin(parts[1..], sep);
      SplitSepCons(parts[0], sep, Join(parts[1..], sep));
      assert parts == [parts[0]] + parts[1..];
    }
  }

  /** Python's `s.replace(target, repl)` for a non-empty `target`: occurrences are replaced left to right without overlap. */
  function ReplaceAll(s: string, target: string, repl: string): (r: string)
    requires |target| > 0
    ensures !Contains(s, target) ==> r == s
    decreases |s|
  {
    if |s| < |target| then s
    else if s[..|target|] == target then
      assert OccursAt(s, target, 0);
      repl + ReplaceAll(s[|target|..], target, repl)
    else
      assert !Contains(s, target) ==> !Contains(s[1..], target) by {
        if Contains(s[1..], target) {
          var j :| 0 <= j <= |s| - 1 - |target| && OccursAt(s[1..], target, j);
          OccursInSuffix(s, target, 1, j);
        }
      }
      [s[0]] + ReplaceAll(s[1..], target, repl)
  }

  lemma JoinConsHead(c: char, parts: seq<string>, sep: string)
    requires |parts| >= 1
    ensures Join([[c] + parts[0]] + parts[1..], sep) == [c] + Join(parts, sep)
  {
    var q := [[c] + parts[0]] + parts[1..];
    if |parts| > 1 {
      assert q[1..] == parts[1..];
    }
  }

  /** When the first occurrence is not at the front, dropping the first character moves it one place left. */
  lemma {:induction false} FindShift(s: string, sub: string)
    requires Find(s, sub) > 0
    ensures Find(s[1..], sub) == Find(s, sub) - 1
  {
    var i := Find(s, sub);
    var t := s[1..];
    assert OccursAt(t, sub, i - 1) by { assert t[i - 1..i - 1 + |sub|] == s[i..i + |sub|]; }
  }

  lemma {:induction false} SplitShift(s: string, sep: string)
    requires |sep| > 0 && Find(s, sep) > 0
    ensures Split(s, sep) == [[s[0]] + Split(s[1..], sep)[0]] + Split(s[1..], sep)[1..]
  {
    var i := Find(s, sep);
    var t := s[1..];
    var rest := s[i + |sep|..];
    var pt := Split(t, sep);
    assert pt[0] == t[..i - 1] && pt[1..] == Split(rest, sep) by {
      FindShift(s, sep);
      assert t[i - 1 + |sep|..] == rest;
      assert pt == [t[..i - 1]] + Split(rest, sep);
    }
    assert [s[0]] + t[..i - 1] == s[..i];
    assert Split(s, sep) == [s[..i]] + Split(rest, sep);
  }

  /** `s.replace(target, repl)` equals `repl.join(s.split(target))`: the two built-ins agree on what an occurrence is. */
  lemma {:induction false} ReplaceIsJoinOfSplit(s: string, target: string, repl: string)
    requires |target| > 0
    ensures ReplaceAll(s, target, repl) == Join(Split(s, target), repl)
    decreases |s|
  {
    var i := Find(s, target);
    if i < 0 {
    } else if i == 0 {
      assert s[..|target|] == target;
      ReplaceIsJoinOfSplit(s[|target|..], target, repl);
    } else {
      assert s[..|target|] != target by { assert !OccursAt(s, target, 0); }
      ReplaceIsJoinOfSplit(s[1..], target, repl);
      SplitShift(s, target);
      JoinConsHead(s[0], Split(s[1..], target), repl);
    }
  }

  // ---------------------------------------------------------------------
  // strip and whitespace split
  // ---------------------------------------------------------------------

  /** Drops the leading characters that satisfy `p` (Python's `lstrip`). */
  function TrimStart(s: string, p: char -> bool): (r: string)
    ensures |r| <= |s| && r == s[|s| - |r|..]
    ensures r == [] || !p(r[0])
    decreases |s|
  {
    if |s| > 0 && p(s[0]) then TrimStart(s[1..], p) else s
  }

  /** Drops the trailing characters that satisfy `p` (Python's `rstrip`). */
  function TrimEnd(s: string, p: char -> bool): (r: string)
    ensures |r| <= |s| && r == s[..|r|]
    ensures r == [] || !p(r[|r| - 1])
    decreases |s|
  {
    if |s| > 0 && p(s[|s| - 1]) then TrimEnd(s[..|s| - 1], p) else s
  }

  /** Every character `TrimStart` drops satisfies `p`. */
  lemma {:induction false} TrimStartDropped(s: string, p: char -> bool)
    ensures forall k :: 0 <= k < |s| - |TrimStart(s, p)| ==> p(s[k])
    decreases |s|
  {
    if |s| > 0 && p(s[0]) {
      TrimStartDropped(s[1..], p);
      assert forall k :: 1 <= k < |s| ==> s[k] == s[1..][k - 1];
    }
  }

  /** Every character `TrimEnd` drops satisfies `p`. */
  lemma {:induction false} TrimEndDropped(s: string, p: char -> bool)
    ensures forall k :: |TrimEnd(s, p)| <= k < |s| ==> p(s[k])
    decreases |s|
  {
    if |s| > 0 && p(s[|s| - 1]) {
      TrimEndDropped(s[..|s| - 1], p);
      assert forall k :: 0 <= k < |s| - 1 ==> s[k] == s[..|s| - 1][k];
    }
  }

  /** Nothing to trim at the front leaves the text alone. */
  lemma TrimStartDropsOne(c: char, s: string, p: char -> bool)
    requires p(c)
    ensures TrimStart([c] + s, p) == TrimStart(s, p)
  {
    assert ([c] + s)[1..] == s;
  }

  lemma TrimEndDropsOne(s: string, c: char, p: char -> bool)
    requires p(c)
    ensures TrimEnd(s + [c], p) == TrimEnd(s, p)
  {
    assert (s + [c])[..|s|] == s;
  }

  lemma TrimStartNothing(s: string, p: char -> bool)
    requires s == [] || !p(s[0])
    ensures TrimStart(s, p) == s
  {
  }

  /** Nothing to trim at the back leaves the text alone. */
  lemma TrimEndNothing(s: string, p: char -> bool)
    requires s == [] || !p(s[|s| - 1])
    ensures TrimEnd(s, p) == s
  {
  }

  /** Every character `TrimStart` removes satisfies `p`. */
  lemma {:induction false} TrimStartRemoved(s: string, p: char -> bool)
    ensures forall k :: 0 <= k < |s| - |TrimStart(s, p)| ==> p(s[k])
    decreases |s|
  {
    if |s| > 0 && p(s[0]) {
      TrimStartRemoved(s[1..], p);
      forall k | 0 < k < |s| - |TrimStart(s, p)| ensures p(s[k]) {
        assert s[k] == s[1..][k - 1];
      }
    }
  }

  /** Every character `TrimEnd` removes satisfies `p`. */
  lemma {:induction false} TrimEndRemoved(s: string, p: char -> bool)
    ensures forall k :: |TrimEnd(s, p)| <= k < |s| ==> p(s[k])
    decreases |s|
  {
    if |s| > 0 && p(s[|s| - 1]) {
      TrimEndRemoved(s[..|s| - 1], p);
      forall k | |TrimEnd(s, p)| <= k < |s| - 1 ensures p(s[k]) {
        assert s[k] == s[..|s| - 1][k];
      }
    }
  }

  /** Python's `s.strip()`. */
  function Strip(s: string): (r: string)
  {
    TrimEnd(TrimStart(s, IsSpace), IsSpace)
  }

  /** Trimming the front by `p` and then the back by `q` leaves end characters that fail them. */
  lemma TrimBothEnds(s: string, p: char -> bool, q: char -> bool)
    ensures var r := TrimEnd(TrimStart(s, p), q);
      r == [] || (!p(r[0]) && !q(r[|r| - 1]))
  {
    var t := TrimStart(s, p);
    var r := TrimEnd(t, q);
    if r != [] {
      assert r[0] == t[0];
    }
  }

  /** The number of leading characters of `s` that do not satisfy `isSep`. */
  function WordLength(s: string, isSep: char -> bool): (n: nat)
    ensures n <= |s| && (n < |s| ==> isSep(s[n]))
    ensures forall k :: 0 <= k < n ==> !isSep(s[k])
    decreases |s|
  {
    if |s| == 0 || isSep(s[0]) then 0 else 1 + WordLength(s[1..], isSep)
  }

  /** Python's `s.split()`: the maximal runs of non-separator characters, in order. */
  function Words(s: string, isSep: char -> bool): (ws: seq<string>)
    ensures forall k :: 0 <= k < |ws| ==> |ws[k]| > 0
    ensures forall k, i :: 0 <= k < |ws| && 0 <= i < |ws[k]| ==> !isSep(ws[k][i])
    decreases |s|
  {
    if |s| == 0 then []
    else if isSep(s[0]) then Words(s[1..], isSep)
    else
      var n := WordLength(s, isSep);
      [s[..n]] + Words(s[n..], isSep)
  }

  /** Python's `s.removesuffix(suffix)`. */
  function RemoveSuffix(s: string, suffix: string): (r: string)
  {
    if |suffix| <= |s| && s[|s| - |suffix|..] == suffix then s[..|s| - |suffix|] else s
  }

  /** `list.index(x)`: the position of the first `x`. */
  function IndexOf<T(==)>(s: seq<T>, x: T): (i: nat)
    requires x in s
    ensures i < |s| && s[i] == x && x !in s[..i]
  {
    if s[0] == x then 0
    else
      assert s[1..][IndexOf(s[1..], x)] == x;
      1 + IndexOf(s[1..], x)
  }

  // ---------------------------------------------------------------------
  // Slicing with Python's index rules
  // ---------------------------------------------------------------------

  /** How Python turns a slice bound into an index of a sequence of length `n`. */
  function SliceIndex(i: int, n: nat): (k: nat)
    ensures k <= n
  {
    if i < 0 then (if i + n < 0 then 0 else i + n) else if i > n then n else i
  }

  /** Python's `s[i:j]`. */
  function Slice<T>(s: seq<T>, i: int, j: int): (r: seq<T>)
  {
    var a, b := SliceIndex(i, |s|), SliceIndex(j, |s|);
    if a < b then s[a..b] else []
  }

  /** `list(reversed(s))`, built from the last element so that popping the end of it walks `s` from the front. */
  function Reversed<T>(s: seq<T>): (r: seq<T>)
    ensures |r| == |s|
    ensures forall i :: 0 <= i < |s| ==> r[i] == s[|s| - 1 - i]
  {
    if |s| == 0 then [] else [s[|s| - 1]] + Reversed(s[..|s| - 1])
  }

  lemma ReversedTwice<T>(s: seq<T>)
    ensures Reversed(Reversed(s)) == s
  {
    assert forall i :: 0 <= i < |s| ==> Reversed(Reversed(s))[i] == s[i];
  }

  /** `s.replace(c, "")` for one character `c`: the text with every `c` dropped. */
  function RemoveChar(s: string, c: char): (r: string)
    ensures c !in r && |r| <= |s|
    ensures c !in s ==> r == s
  {
    if |s| == 0 then ""
    else
      assert s == [s[0]] + s[1..];
      (if s[0] == c then "" else [s[0]]) + RemoveChar(s[1..], c)
  }

  /** Every other character is kept, as often as it occurs. */
  lemma {:induction false} RemoveCharKeeps(s: string, c: char, d: char)
    requires d != c
    ensures multiset(RemoveChar(s, c))[d] == multiset(s)[d]
    decreases |s|
  {
    if |s| > 0 {
      RemoveCharKeeps(s[1..], c, d);
      assert s == [s[0]] + s[1..];
    }
  }

  /** Replacing a one-character target by nothing removes that character and nothing else. */
  lemma {:induction false} ReplaceCharByNothing(s: string, c: char)
    ensures ReplaceAll(s, [c], "") == RemoveChar(s, c)
    decreases |s|
  {
    if |s| > 0 {
      ReplaceCharByNothing(s[1..], c);
      assert s[..1] == [s[0]];
    }
  }
}
