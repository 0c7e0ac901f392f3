/**
 * JavaScript string primitives used by the UI components: `slice`/`substring`
 * with a non-negative bound, `trim`, `toLowerCase` and `includes`.
 * A JavaScript string is modelled as a sequence of Dafny characters, which
 * are Unicode scalar values; JavaScript counts UTF-16 code units instead, so
 * a character outside the Basic Multilingual Plane is one character here and
 * two there.
 */
module JsText {

  /** `s.substring(0, n)`: a bound past the end is clamped to the length and a
      negative one to zero. For a bound `n >= 0` this is also `s.slice(0, n)`;
      `slice` counts a negative end from the end of the string instead, a case
      the components never reach, since they pass it 16 and 40 only. */
  function Prefix(s: string, n: int): (r: string)
    ensures |r| == if n <= 0 then 0 else if n < |s| then n else |s|
    ensures r <= s
  {
    if n <= 0 then [] else if n < |s| then s[..n] else s
  }

  /** The characters `String.prototype.trim` removes: the WhiteSpace and
      LineTerminator productions of ECMAScript (section 12.2 and 12.3 of
      ECMA-262), with every Unicode space separator (category Zs) listed. */
  predicate IsJsWhitespace(c: char)
  {
    || c == '\t' || c == '\n' || c == '\U{000B}' || c == '\U{000C}' || c == '\r'
    || c == ' ' || c == '\U{00A0}' || c == '\U{1680}'
    || ('\U{2000}' <= c <= '\U{200A}')
    || c == '\U{2028}' || c == '\U{2029}' || c == '\U{202F}' || c == '\U{205F}'
    || c == '\U{3000}' || c == '\U{FEFF}'
  }

  /** Drops the leading whitespace. The result is a suffix of `s`, does not
      start with whitespace, and everything dropped was whitespace. */
  function TrimStart(s: string): (r: string)
    ensures |r| <= |s| && r == s[|s| - |r|..]
    ensures r == [] || !IsJsWhitespace(r[0])
    ensures forall k :: 0 <= k < |s| - |r| ==> IsJsWhitespace(s[k])
  {
    if s == [] || !IsJsWhitespace(s[0]) then s else TrimStart(s[1..])
  }

  /** Drops the trailing whitespace. The result is a prefix of `s`, does not
      end with whitespace, and everything dropped was whitespace. */
  function TrimEnd(s: string): (r: string)
    ensures |r| <= |s| && r == s[..|r|]
    ensures r == [] || !IsJsWhitespace(r[|r| - 1])
    ensures forall k :: |r| <= k < |s| ==> IsJsWhitespace(s[k])
  {
    if s == [] || !IsJsWhitespace(s[|s| - 1]) then s else TrimEnd(s[..|s| - 1])
  }

  /** `r` occurs in `s` at index `i`, and everything before and after that
      occurrence is whitespace. */
  predicate WhitespaceAround(s: string, r: string, i: int)
  {
    && OccursAt(s, r, i)
    && (forall k :: 0 <= k < i ==> IsJsWhitespace(s[k]))
    && (forall k :: i + |r| <= k < |s| ==> IsJsWhitespace(s[k]))
  }

  /** `s.trim()`: a contiguous piece of `s` with whitespace on neither end,
      cut out of `s` by removing whitespace only. */
  function Trim(s: string): (r: string)
    ensures |r| <= |s|
    ensures r == [] || (!IsJsWhitespace(r[0]) && !IsJsWhitespace(r[|r| - 1]))
    ensures exists i :: WhitespaceAround(s, r, i)
  {
    TrimmedPieces(s);
    TrimEnd(TrimStart(s))
  }

  /** Trimming the start and then the end removes whitespace only: the result
      sits in `s` right after the dropped leading whitespace. */
  lemma TrimmedPieces(s: string)
    ensures WhitespaceAround(s, TrimEnd(TrimStart(s)), |s| - |TrimStart(s)|)
  {
    WhitespaceAroundSuffixPrefix(s, TrimStart(s), TrimEnd(TrimStart(s)));
  }

  /** A prefix `r` of a suffix `t` of `s`, where what `s` drops before `t`
      and what `t` drops after `r` is whitespace, sits in `s` with only
      whitespace around it. */
  lemma WhitespaceAroundSuffixPrefix(s: string, t: string, r: string)
    requires |t| <= |s| && t == s[|s| - |t|..]
    requires |r| <= |t| && r == t[..|r|]
    requires forall k :: 0 <= k < |s| - |t| ==> IsJsWhitespace(s[k])
    requires forall k :: |r| <= k < |t| ==> IsJsWhitespace(t[k])
    ensures WhitespaceAround(s, r, |s| - |t|)
  {
    var i := |s| - |t|;
    assert s[i..i + |r|] == r;
    forall k | i + |r| <= k < |s|
      ensures IsJsWhitespace(s[k])
    {
      assert s[k] == t[k - i];
    }
  }

  /** A string that is already trimmed is its own trim. */
  lemma TrimIdempotent(s: string)
    ensures Trim(Trim(s)) == Trim(s)
  {
    var r := Trim(s);
    if r != [] {
      assert TrimStart(r) == r;
      assert TrimEnd(r) == r;
    }
  }

  /** A string made of whitespace only trims to the empty string, and a string
      holding any other character does not. */
  lemma TrimEmptyIff(s: string)
    ensures Trim(s) == [] <==> forall k :: 0 <= k < |s| ==> IsJsWhitespace(s[k])
  {
    if Trim(s) == [] {
      TrimmedAwayIsWhitespace(s);
    }
    WhitespaceTrimsAway(s);
  }

  /** When trimming leaves nothing, every character was whitespace. */
  lemma TrimmedAwayIsWhitespace(s: string)
    requires Trim(s) == []
    ensures forall k :: 0 <= k < |s| ==> IsJsWhitespace(s[k])
  {
    // nothing is left for the trailing trim: the leading one took it all
    assert TrimStart(s) == [];
  }

  /** A string of whitespace only trims to nothing. */
  lemma WhitespaceTrimsAway(s: string)
    ensures (forall k :: 0 <= k < |s| ==> IsJsWhitespace(s[k])) ==> Trim(s) == []
  {
    var t := TrimStart(s);
    var d := |s| - |t|;
    assert t != [] ==> t[0] == s[d];
  }

  /** `toLowerCase` on one character, for the ASCII range. */
  function LowerChar(c: char): (d: char)
    ensures 'A' <= c <= 'Z' ==> 'a' <= d <= 'z'
    ensures !('A' <= c <= 'Z') ==> d == c
  {
    if 'A' <= c <= 'Z' then (c as int - 'A' as int + 'a' as int) as char else c
  }

  /** `s.toLowerCase()`, character by character, for the ASCII range. */
  function Lower(s: string): (r: string)
    ensures |r| == |s|
    ensures forall k :: 0 <= k < |s| ==> r[k] == LowerChar(s[k])
  {
    seq(|s|, k requires 0 <= k < |s| => LowerChar(s[k]))
  }

  /** `t` occurs in `s` starting at index `i`. */
  predicate OccursAt(s: string, t: string, i: int)
  {
    0 <= i <= |s| - |t| && s[i..i + |t|] == t
  }

  /** `s.includes(t)`: `t` occurs in `s` starting at some position. */
  predicate Includes(s: string, t: string)
    decreases |s|
  {
    t <= s || (s != [] && Includes(s[1..], t))
  }

  /** `Includes` holds exactly when `t` occurs in `s` at some index. */
  lemma {:induction false} IncludesAt(s: string, t: string)
    ensures Includes(s, t) <==> exists i :: OccursAt(s, t, i)
  {
    if t <= s {
      assert OccursAt(s, t, 0);
    } else if s == [] {
    } else {
      IncludesAt(s[1..], t);
      if Includes(s[1..], t) {
        var i :| OccursAt(s[1..], t, i);
        assert s[1..][i..i + |t|] == s[i + 1..i + 1 + |t|];
        assert OccursAt(s, t, i + 1);
      }
      if exists i :: OccursAt(s, t, i) {
        var i :| OccursAt(s, t, i);
        assert i != 0;
        assert s[1..][i - 1..i - 1 + |t|] == s[i..i + |t|];
        assert OccursAt(s[1..], t, i - 1);
      }
    }
  }

  /** Every string includes the empty string. */
  lemma IncludesEmpty(s: string)
    ensures Includes(s, [])
  {
  }
}
