/**
 * The string operations the port-mapping code relies on, with Python's
 * meaning: `str.split(sep)`, `sep.join(parts)` and `str.strip()`.
 * A Python `str` is a `seq<char>` here.
 */
module Text {

  /** `t` occurs in `s` starting at index `k`. */
  predicate OccursAt(s: string, t: string, k: int) {
    0 <= k <= |s| - |t| && s[k..k + |t|] == t
  }

  /** Python's `t in s` for strings. */
  predicate Contains(s: string, t: string) {
    exists k :: 0 <= k <= |s| && OccursAt(s, t, k)
  }

  lemma ContainsMiddle(before: string, t: string, after: string)
    ensures Contains(before + t + after, t)
  {
    assert OccursAt(before + t + after, t, |before|);
  }

  /** The second and the fourth of five concatenated strings occur in the whole. */
  lemma ContainsSecondAndFourth(a: string, b: string, c: string, d: string, e: string)
    ensures Contains(a + b + c + d + e, b) && Contains(a + b + c + d + e, d)
  {
    ContainsMiddle(a, b, c + d + e);
    assert a + b + c + d + e == a + b + (c + d + e);
    ContainsMiddle(a + b + c, d, e);
  }

  /** Python's `sep.join(parts)`. */
  function Join(parts: seq<string>, sep: string): string {
    if parts == [] then ""
    else if |parts| == 1 then parts[0]
    else parts[0] + sep + Join(parts[1..], sep)
  }

  /**
   * Python's `s.split(sep)` for a non-empty separator: the pieces between
   * the leftmost non-overlapping occurrences of `sep`; always at least one.
   */
  function Split(s: string, sep: string): (parts: seq<string>)
    requires sep != ""
    ensures |parts| >= 1
    decreases |s|
  {
    if |sep| <= |s| && s[..|sep|] == sep then [""] + Split(s[|sep|..], sep)
    else if s == [] then [""]
    else
      var rest := Split(s[1..], sep);
      [[s[0]] + rest[0]] + rest[1..]
  }

  /** Joining the pieces of a split with the same separator gives back the string. */
  lemma {:induction false} JoinSplit(s: string, sep: string)
    requires sep != ""
    ensures Join(Split(s, sep), sep) == s
    decreases |s|
  {
    if |sep| <= |s| && s[..|sep|] == sep {
      JoinSplit(s[|sep|..], sep);
      JoinEmptyFirst(Split(s[|sep|..], sep), sep);
      assert s == sep + s[|sep|..];
    } else if s == [] {
    } else {
      JoinSplit(s[1..], sep);
      JoinFirstLonger(s[0], Split(s[1..], sep), sep);
      assert s == [s[0]] + s[1..];
    }
  }

  /** An empty first part puts a separator in front of the joined string. */
  lemma JoinEmptyFirst(parts: seq<string>, sep: string)
    requires |parts| >= 1
    ensures Join([""] + parts, sep) == sep + Join(parts, sep)
  {
    assert ([""] + parts)[1..] == parts;
  }

  /** Putting a character in front of the first part puts it in front of the joined string. */
  lemma JoinFirstLonger(c: char, parts: seq<string>, sep: string)
    requires |parts| >= 1
    ensures Join([[c] + parts[0]] + parts[1..], sep) == [c] + Join(parts, sep)
  {
    var longer := [[c] + parts[0]] + parts[1..];
    assert longer[1..] == parts[1..];
  }

  /** No piece of a split on a single character contains that character. */
  lemma {:induction false} SplitPiecesFree(s: string, c: char)
    ensures forall k :: 0 <= k < |Split(s, [c])| ==> c !in Split(s, [c])[k]
    decreases |s|
  {
    if s != [] {
      SplitPiecesFree(s[1..], c);
    }
  }

  /** Splitting on a character gives more than one piece exactly when the character occurs. */
  lemma SplitFindsSeparator(s: string, c: char)
    ensures |Split(s, [c])| >= 2 <==> c in s
  {
    var parts := Split(s, [c]);
    JoinSplit(s, [c]);
    SplitPiecesFree(s, c);
    if |parts| >= 2 {
      assert s == parts[0] + [c] + Join(parts[1..], [c]);
      assert s[|parts[0]|] == c;
    } else {
      assert s == parts[0];
    }
  }

  /** A string without the separator character splits into itself alone. */
  lemma SplitWithoutSeparator(s: string, c: char)
    requires c !in s
    ensures Split(s, [c]) == [s]
  {
    SplitFindsSeparator(s, c);
    JoinSplit(s, [c]);
  }

  /** A piece without the separator character ends at the first occurrence of it. */
  lemma {:induction false} SplitAfterPiece(x: string, c: char, rest: string)
    requires c !in x
    ensures Split(x + [c] + rest, [c]) == [x] + Split(rest, [c])
    decreases |x|
  {
    var s := x + [c] + rest;
    if x == [] {
      assert s == [c] + rest;
      assert s[1..] == rest;
    } else {
      assert s[..1] != [c] by { assert s[..1][0] == x[0]; }
      assert s[1..] == x[1..] + [c] + rest;
      SplitAfterPiece(x[1..], c, rest);
      assert [x[0]] + x[1..] == x;
    }
  }

  /** The separator of a shell command list, `cmd1 && cmd2`. */
  const AndSep := " && "

  /** A piece with no `&` ends at the first `" && "` after it. */
  lemma {:induction false} SplitAndAfterPiece(x: string, rest: string)
    requires '&' !in x
    ensures Split(x + AndSep + rest, AndSep) == [x] + Split(rest, AndSep)
    decreases |x|
  {
    var s := x + AndSep + rest;
    if x == [] {
      assert s == AndSep + rest;
    } else {
      assert s[1] != '&' by {
        if |x| >= 2 { assert s[1] == x[1]; } else { assert s[1] == ' '; }
      }
      assert s[..|AndSep|] != AndSep by { assert AndSep[1] == '&'; }
      assert s[1..] == x[1..] + AndSep + rest;
      SplitAndAfterPiece(x[1..], rest);
      assert [x[0]] + x[1..] == x;
    }
  }

  /** A string with no `&` does not split on `" && "`. */
  lemma {:induction false} SplitAndNoSeparator(x: string)
    requires '&' !in x
    ensures Split(x, AndSep) == [x]
    decreases |x|
  {
    if x != [] {
      assert !(|AndSep| <= |x| && x[..|AndSep|] == AndSep) by {
        if |AndSep| <= |x| { assert x[..|AndSep|][1] == x[1] != '&'; assert AndSep[1] == '&'; }
      }
      SplitAndNoSeparator(x[1..]);
      assert [x[0]] + x[1..] == x;
    }
  }

  /**
   * A non-empty list of pieces without `&`, joined with `" && "`, splits back
   * into exactly those pieces in the same order.
   */
  lemma {:induction false} SplitJoinAnd(parts: seq<string>)
    requires parts != []
    requires forall k :: 0 <= k < |parts| ==> '&' !in parts[k]
    ensures Split(Join(parts, AndSep), AndSep) == parts
    decreases |parts|
  {
    if |parts| == 1 {
      SplitAndNoSeparator(parts[0]);
    } else {
      SplitJoinAnd(parts[1..]);
      SplitAndAfterPiece(parts[0], Join(parts[1..], AndSep));
      assert [parts[0]] + parts[1..] == parts;
    }
  }

  /**
   * The characters Python's `str.strip()` removes when given no argument
   * (those for which `str.isspace()` holds).
   */
  predicate IsSpace(c: char) {
    || '\t' <= c <= '\r'
    || '\U{1C}' <= c <= ' '
    || c == '\U{85}' || c == '\U{A0}' || c == '\U{1680}'
    || '\U{2000}' <= c <= '\U{200A}'
    || c == '\U{2028}' || c == '\U{2029}' || c == '\U{202F}' || c == '\U{205F}'
    || c == '\U{3000}'
  }

  /** Python's `s.lstrip()`: the suffix of `s` that starts at its first non-space. */
  function StripStart(s: string): (r: string)
    ensures |r| <= |s| && r == s[|s| - |r|..]
    ensures r == [] || !IsSpace(r[0])
    decreases |s|
  {
    if s != [] && IsSpace(s[0]) then StripStart(s[1..]) else s
  }

  /** Python's `s.rstrip()`: the prefix of `s` that ends at its last non-space. */
  function StripEnd(s: string): (r: string)
    ensures |r| <= |s| && r == s[..|r|]
    ensures r == [] || !IsSpace(r[|r| - 1])
    decreases |s|
  {
    if s != [] && IsSpace(s[|s| - 1]) then StripEnd(s[..|s| - 1]) else s
  }

  /** Everything `StripStart` removes is whitespace. */
  lemma {:induction false} StripStartRemovesSpaces(s: string)
    ensures forall k :: 0 <= k < |s| - |StripStart(s)| ==> IsSpace(s[k])
    decreases |s|
  {
    if s != [] && IsSpace(s[0]) {
      StripStartRemovesSpaces(s[1..]);
      forall k | 1 <= k < |s| - |StripStart(s)| ensures IsSpace(s[k]) {
        assert s[k] == s[1..][k - 1];
      }
    }
  }

  /** Everything `StripEnd` removes is whitespace. */
  lemma {:induction false} StripEndRemovesSpaces(s: string)
    ensures forall k :: |StripEnd(s)| <= k < |s| ==> IsSpace(s[k])
    decreases |s|
  {
    if s != [] && IsSpace(s[|s| - 1]) {
      StripEndRemovesSpaces(s[..|s| - 1]);
      forall k | |StripEnd(s)| <= k < |s| - 1 ensures IsSpace(s[k]) {
        assert s[k] == s[..|s| - 1][k];
      }
    }
  }

  /** Python's `s.strip()`. */
  function Strip(s: string): string {
    StripEnd(StripStart(s))
  }

  lemma StripEmpty()
    ensures Strip("") == ""
  {
  }

  /**
   * `r` is the slice of `s` at index `i`, and everything in `s` before and
   * after that slice is whitespace.
   */
  predicate SpacesAround(s: string, r: string, i: int) {
    && OccursAt(s, r, i)
    && (forall k :: 0 <= k < i ==> IsSpace(s[k]))
    && (forall k :: i + |r| <= k < |s| ==> IsSpace(s[k]))
  }

  /**
   * `Strip(s)` is what is left of `s` once its leading and its trailing
   * whitespace are removed: it neither starts nor ends with whitespace.
   */
  lemma StripTrims(s: string)
    ensures exists i :: 0 <= i <= |s| && SpacesAround(s, Strip(s), i)
    ensures Strip(s) == [] || (!IsSpace(Strip(s)[0]) && !IsSpace(Strip(s)[|Strip(s)| - 1]))
  {
    var i := |s| - |StripStart(s)|;
    StripStartRemovesSpaces(s);
    StripInside(s);
    StripTrailing(s);
    assert SpacesAround(s, Strip(s), i);
  }

  /** `Strip(s)` sits in `s` where `StripStart` cut it, and starts where `StripStart(s)` does. */
  lemma StripInside(s: string)
    ensures OccursAt(s, Strip(s), |s| - |StripStart(s)|)
    ensures Strip(s) == [] || Strip(s)[0] == StripStart(s)[0]
  {
    var t := StripStart(s);
    var r := StripEnd(t);
    PrefixOfSuffix(s, |s| - |t|, |r|);
  }

  lemma PrefixOfSuffix<T>(s: seq<T>, i: nat, n: nat)
    requires i + n <= |s|
    ensures s[i..][..n] == s[i..i + n]
  {
  }

  /** Everything in `s` after `Strip(s)` is whitespace. */
  lemma StripTrailing(s: string)
    ensures forall k :: |s| - |StripStart(s)| + |Strip(s)| <= k < |s| ==> IsSpace(s[k])
  {
    var t := StripStart(s);
    var i := |s| - |t|;
    StripEndRemovesSpaces(t);
    forall k | i + |Strip(s)| <= k < |s| ensures IsSpace(s[k]) {
      assert s[k] == t[k - i];
    }
  }

  /** Stripping twice is stripping once. */
  lemma StripIdempotent(s: string)
    ensures Strip(Strip(s)) == Strip(s)
  {
    var r := Strip(s);
    StripTrims(s);
    assert StripStart(r) == r;
    assert StripEnd(r) == r;
  }
}
