/** Character classes and the handful of Python `str` operations the item
    manager relies on: `strip`, `lower`, `upper`, `in`, `split` and `join`. */
module Text {

  /** Python's `str.isspace`, restricted to code points below U+0100:
      tab through carriage return, the four information separators,
      space, NEL and no-break space. The regex class `\s` uses the same set. */
  predicate IsSpace(c: char) {
    var k := c as int;
    (9 <= k <= 13) || (28 <= k <= 32) || k == 0x85 || k == 0xA0
  }

  predicate AllSpace(s: string) {
    forall i | 0 <= i < |s| :: IsSpace(s[i])
  }

  /** A string `strip` leaves unchanged. */
  predicate IsTrimmed(s: string) {
    s == [] || (!IsSpace(s[0]) && !IsSpace(s[|s| - 1]))
  }

  /** The first position at or after `i` that does not hold whitespace. */
  function SkipSpace(s: string, i: nat): (j: nat)
    requires i <= |s|
    ensures i <= j <= |s|
    ensures forall k | i <= k < j :: IsSpace(s[k])
    ensures j == |s| || !IsSpace(s[j])
    decreases |s| - i
  {
    if i < |s| && IsSpace(s[i]) then SkipSpace(s, i + 1) else i
  }

  /** The position just after the last non-whitespace character before `j`. */
  function SkipSpaceBack(s: string, j: nat): (i: nat)
    requires j <= |s|
    ensures i <= j
    ensures forall k | i <= k < j :: IsSpace(s[k])
    ensures i == 0 || !IsSpace(s[i - 1])
  {
    if j > 0 && IsSpace(s[j - 1]) then SkipSpaceBack(s, j - 1) else j
  }

  /** `str.lstrip()`: the suffix left after dropping leading whitespace. */
  function TrimStart(s: string): string {
    s[SkipSpace(s, 0)..]
  }

  /** `str.rstrip()`: the prefix left after dropping trailing whitespace. */
  function TrimEnd(s: string): string {
    s[..SkipSpaceBack(s, |s|)]
  }

  /** `str.strip()`. */
  function Trim(s: string): (r: string)
    ensures IsTrimmed(r)
    ensures |r| <= |s|
  {
    TrimEnd(TrimStart(s))
  }

  function LowerChar(c: char): char {
    if 'A' <= c <= 'Z' then (c as int + 32) as char else c
  }

  function UpperChar(c: char): char {
    if 'a' <= c <= 'z' then (c as int - 32) as char else c
  }

  /** `str.lower()` on ASCII letters. */
  function Lower(s: string): (r: string)
    ensures |r| == |s|
  {
    seq(|s|, i requires 0 <= i < |s| => LowerChar(s[i]))
  }

  /** `str.upper()` on ASCII letters. */
  function Upper(s: string): (r: string)
    ensures |r| == |s|
  {
    seq(|s|, i requires 0 <= i < |s| => UpperChar(s[i]))
  }

  predicate StartsWith(s: string, prefix: string) {
    |prefix| <= |s| && s[..|prefix|] == prefix
  }

  /** `sub` occurs in `s` at position `i`. */
  predicate OccursAt(s: string, sub: string, i: nat) {
    i + |sub| <= |s| && s[i..i + |sub|] == sub
  }

  /** `sub` occurs in `s` at `i` or at a later position. */
  predicate ContainsFrom(s: string, sub: string, i: nat)
    requires i <= |s|
    decreases |s| - i
  {
    OccursAt(s, sub, i) || (i < |s| && ContainsFrom(s, sub, i + 1))
  }

  /** Python's `sub in s`: `sub` starts at some position of `s`. */
  predicate Contains(s: string, sub: string) {
    ContainsFrom(s, sub, 0)
  }

  /** `c * n` for a one-character string `c`. */
  function Repeat(c: char, n: nat): (r: string)
    ensures |r| == n
    ensures forall i | 0 <= i < n :: r[i] == c
  {
    seq(n, _ => c)
  }

  /** `delim.join(parts)`. */
  function Join(parts: seq<string>, delim: string): string
  {
    if |parts| == 0 then ""
    else if |parts| == 1 then parts[0]
    else parts[0] + delim + Join(parts[1..], delim)
  }

  /** The position of the first `sep` at or after `i`, or `|s|`. */
  function NextSep(s: string, sep: char, i: nat): (j: nat)
    requires i <= |s|
    ensures i <= j <= |s|
    ensures forall k | i <= k < j :: s[k] != sep
    ensures j < |s| ==> s[j] == sep
    decreases |s| - i
  {
    if i == |s| || s[i] == sep then i else NextSep(s, sep, i + 1)
  }

  /** The pieces of `s[i..]` between consecutive separators. */
  function SplitFrom(s: string, sep: char, i: nat): (parts: seq<string>)
    requires i <= |s|
    ensures |parts| >= 1
    decreases |s| - i
  {
    var j := NextSep(s, sep, i);
    if j == |s| then [s[i..]] else [s[i..j]] + SplitFrom(s, sep, j + 1)
  }

  /** `s.split(sep)` for a one-character separator: the pieces between
      consecutive separators, in order (SplitJoin states what they are). */
  function Split(s: string, sep: char): (parts: seq<string>)
    ensures |parts| >= 1
  {
    SplitFrom(s, sep, 0)
  }

  // ---------------------------------------------------------------------
  // Lemmas

  lemma LowerAppend(a: string, b: string)
    ensures Lower(a + b) == Lower(a) + Lower(b)
  {
  }

  /** Lower-casing leaves whitespace where it was. */
  lemma LowerKeepsSpace(s: string)
    ensures AllSpace(s) ==> Lower(s) == s
    ensures IsTrimmed(s) ==> IsTrimmed(Lower(s))
  {
  }

  lemma LowerOfUpper(s: string)
    ensures Lower(Upper(s)) == Lower(s)
  {
  }

  /** SkipSpace is determined by what it promises: the end of the run of
      whitespace starting at `i`. */
  lemma {:induction false} SkipSpaceIs(s: string, i: nat, j: nat)
    requires i <= j <= |s| && (forall k | i <= k < j :: IsSpace(s[k]))
    requires j == |s| || !IsSpace(s[j])
    ensures SkipSpace(s, i) == j
    decreases |s| - i
  {
    if i < j {
      SkipSpaceIs(s, i + 1, j);
    }
  }

  lemma {:induction false} SkipSpaceBackIs(s: string, i: nat, j: nat)
    requires i <= j <= |s| && (forall k | i <= k < j :: IsSpace(s[k]))
    requires i == 0 || !IsSpace(s[i - 1])
    ensures SkipSpaceBack(s, j) == i
  {
    if i < j {
      SkipSpaceBackIs(s, i, j - 1);
    }
  }

  lemma TrimStartOfSpacePrefix(ws: string, s: string)
    requires AllSpace(ws)
    ensures TrimStart(ws + s) == TrimStart(s)
  {
    var t, j := ws + s, SkipSpace(s, 0);
    assert forall k | 0 <= k < |ws| + j :: t[k] == if k < |ws| then ws[k] else s[k - |ws|];
    SkipSpaceIs(t, 0, |ws| + j);
    assert t[|ws| + j..] == s[j..];
  }

  lemma TrimEndOfSpaceSuffix(s: string, ws: string)
    requires AllSpace(ws)
    ensures TrimEnd(s + ws) == TrimEnd(s)
  {
    var t, i := s + ws, SkipSpaceBack(s, |s|);
    assert forall k | i <= k < |t| :: t[k] == if k < |s| then s[k] else ws[k - |s|];
    SkipSpaceBackIs(t, i, |t|);
    assert t[..i] == s[..i];
  }

  /** Stripping the start of `s + t` leaves `t` alone once `s` holds a
      non-space character, and swallows `t`'s whitespace otherwise. */
  lemma TrimStartAppend(s: string, t: string)
    ensures !AllSpace(s) ==> TrimStart(s + t) == TrimStart(s) + t
    ensures AllSpace(s) ==> TrimStart(s + t) == TrimStart(t)
  {
    if AllSpace(s) {
      TrimStartOfSpacePrefix(s, t);
    } else {
      var j := SkipSpace(s, 0);
      assert j < |s|;
      SkipSpaceIs(s + t, 0, j);
      assert (s + t)[j..] == s[j..] + t;
    }
  }

  lemma TrimAllSpace(s: string)
    requires AllSpace(s)
    ensures TrimStart(s) == [] && Trim(s) == []
  {
  }

  /** `strip` ignores surrounding whitespace. */
  lemma TrimPadded(ws1: string, s: string, ws2: string)
    requires AllSpace(ws1) && AllSpace(ws2)
    ensures Trim(ws1 + s + ws2) == Trim(s)
  {
    assert ws1 + s + ws2 == ws1 + (s + ws2);
    TrimStartOfSpacePrefix(ws1, s + ws2);
    assert Trim(ws1 + s + ws2) == TrimEnd(TrimStart(s + ws2));
    TrimStartAppend(s, ws2);
    if AllSpace(s) {
      TrimAllSpace(s);
      TrimAllSpace(ws2);
    } else {
      TrimEndOfSpaceSuffix(TrimStart(s), ws2);
    }
  }

  /** `strip` is the identity on strings with no surrounding whitespace, so
      it is idempotent. */
  lemma TrimOfTrimmed(s: string)
    requires IsTrimmed(s)
    ensures Trim(s) == s
  {
  }

  lemma TrimIdempotent(s: string)
    ensures Trim(Trim(s)) == Trim(s)
  {
    TrimOfTrimmed(Trim(s));
  }

  /** Nothing is found in a string shorter than itself. */
  lemma NotContainsLonger(s: string, sub: string)
    requires |sub| > |s|
    ensures !Contains(s, sub)
  {
    NotContainsFromLonger(s, sub, 0);
  }

  lemma {:induction false} NotContainsFromLonger(s: string, sub: string, i: nat)
    requires i <= |s| < |sub|
    ensures !ContainsFrom(s, sub, i)
    decreases |s| - i
  {
    if i < |s| {
      NotContainsFromLonger(s, sub, i + 1);
    }
  }

  /** An occurrence at or after `i` is found from `i`. */
  lemma {:induction false} ContainsFromOccurrence(s: string, sub: string, i: nat, k: nat)
    requires i <= k <= |s| && OccursAt(s, sub, k)
    ensures ContainsFrom(s, sub, i)
    decreases k - i
  {
    if i < k {
      ContainsFromOccurrence(s, sub, i + 1, k);
    }
  }

  /** `sub in s` holds exactly when `sub` occurs at some position of `s`. */
  lemma ContainsIff(s: string, sub: string)
    ensures Contains(s, sub) <==> exists k | 0 <= k <= |s| :: OccursAt(s, sub, k)
  {
    ContainsFromIff(s, sub, 0);
  }

  lemma {:induction false} ContainsFromIff(s: string, sub: string, i: nat)
    requires i <= |s|
    ensures ContainsFrom(s, sub, i) <==> exists k | i <= k <= |s| :: OccursAt(s, sub, k)
    decreases |s| - i
  {
    if exists k | i <= k <= |s| :: OccursAt(s, sub, k) {
      var k :| i <= k <= |s| && OccursAt(s, sub, k);
      ContainsFromOccurrence(s, sub, i, k);
    } else if i < |s| {
      ContainsFromIff(s, sub, i + 1);
    }
  }

  /** Whatever a string is embedded in contains it. */
  lemma ContainsMiddle(a: string, b: string, c: string)
    ensures Contains(a + b + c, b)
  {
    var s := a + b + c;
    assert s[|a|..|a| + |b|] == b;
    ContainsFromOccurrence(s, b, 0, |a|);
  }

  /** The pieces of `s[i..]` contain no separator... */
  lemma {:induction false} SplitFromPieces(s: string, sep: char, i: nat)
    requires i <= |s|
    ensures forall k | 0 <= k < |SplitFrom(s, sep, i)| :: sep !in SplitFrom(s, sep, i)[k]
    decreases |s| - i
  {
    var j := NextSep(s, sep, i);
    assert sep !in s[i..j];
    if j < |s| {
      SplitFromPieces(s, sep, j + 1);
      var parts := SplitFrom(s, sep, i);
      forall k | 0 <= k < |parts| ensures sep !in parts[k] {
        if k > 0 {
          assert parts[k] == SplitFrom(s, sep, j + 1)[k - 1];
        }
      }
    }
  }

  /** ...and joining them with it gives back `s[i..]`. */
  lemma {:induction false} SplitFromJoin(s: string, sep: char, i: nat)
    requires i <= |s|
    ensures Join(SplitFrom(s, sep, i), [sep]) == s[i..]
    decreases |s| - i
  {
    var j := NextSep(s, sep, i);
    if j < |s| {
      var rest := SplitFrom(s, sep, j + 1);
      JoinCons(s[i..j], rest, [sep]);
      SplitFromJoin(s, sep, j + 1);
      SliceAround(s, i, j);
    }
  }

  lemma JoinCons(first: string, rest: seq<string>, delim: string)
    requires |rest| >= 1
    ensures Join([first] + rest, delim) == first + delim + Join(rest, delim)
  {
    assert ([first] + rest)[1..] == rest;
  }

  lemma SliceAround(s: string, i: nat, j: nat)
    requires i <= j < |s|
    ensures s[i..] == s[i..j] + [s[j]] + s[j + 1..]
  {
  }

  /** The pieces contain no separator and joining them with it gives back
      `s`, which determines them uniquely. */
  lemma SplitJoin(s: string, sep: char)
    ensures forall k | 0 <= k < |Split(s, sep)| :: sep !in Split(s, sep)[k]
    ensures Join(Split(s, sep), [sep]) == s
  {
    SplitFromPieces(s, sep, 0);
    SplitFromJoin(s, sep, 0);
    assert s[0..] == s;
  }

  /** A string without the separator is a single piece. */
  lemma SplitWithout(s: string, sep: char)
    requires sep !in s
    ensures Split(s, sep) == [s]
  {
    assert s[0..] == s;
  }

  /** A joined non-empty list starts with its first element. */
  lemma JoinStartsWithFirst(parts: seq<string>, delim: string)
    requires |parts| >= 1
    ensures Join(parts, delim)[..|parts[0]|] == parts[0]
  {
  }
}
