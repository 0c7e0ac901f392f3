/**
 * The preview of a note in the note list: the content is cut into lines of
 * at most `charsPerLine` characters by the global regular expression
 * `.{1,charsPerLine}`, and at most three of them are shown, the third one
 * shortened and followed by an ellipsis when more lines were cut.
 * `charsPerLine` comes from the width of the list entry, which is an input
 * here.
 */
module NoteListItem {
  import opened JsText

  /** The characters `.` does not match without the `s` flag: the
      LineTerminator production of ECMA-262 (section 12.3). */
  predicate IsLineTerminator(c: char)
  {
    c == '\n' || c == '\r' || c == '\U{2028}' || c == '\U{2029}'
  }

  predicate NoLineTerminators(s: string)
  {
    forall k :: 0 <= k < |s| ==> !IsLineTerminator(s[k])
  }

  /** How many characters `.{1,n}` takes at the start of `s`: the longest
      run of at most `n` characters that are not line terminators. */
  function Run(s: string, n: nat): (k: nat)
    ensures k <= n && k <= |s|
    ensures NoLineTerminators(s[..k])
    ensures k < n && k < |s| ==> IsLineTerminator(s[k])
  {
    if n == 0 || s == [] || IsLineTerminator(s[0]) then 0
    else
      var k := 1 + Run(s[1..], n - 1);
      assert s[..k] == [s[0]] + s[1..][..k - 1];
      k
  }

  /** `content.match(/.{1,n}/g) || []`: scanning from the left, a line
      terminator is skipped (no match starts there) and otherwise the
      longest run is taken as the next match. Every match has between 1 and
      `n` characters and holds no line terminator. */
  function Chunks(s: string, n: nat): (r: seq<string>)
    requires n >= 1
    ensures forall i :: 0 <= i < |r| ==> 1 <= |r[i]| <= n && NoLineTerminators(r[i])
    decreases |s|
  {
    if s == [] then []
    else if IsLineTerminator(s[0]) then Chunks(s[1..], n)
    else
      var k := Run(s, n);
      [s[..k]] + Chunks(s[k..], n)
  }

  /** The strings of a list, one after the other. */
  function Flatten(ss: seq<string>): string
  {
    if ss == [] then [] else ss[0] + Flatten(ss[1..])
  }

  /** `s` with its line terminators taken out. */
  function StripLineTerminators(s: string): string
  {
    if s == [] then []
    else (if IsLineTerminator(s[0]) then [] else [s[0]]) + StripLineTerminators(s[1..])
  }

  lemma {:induction false} StripConcat(a: string, b: string)
    ensures StripLineTerminators(a + b) == StripLineTerminators(a) + StripLineTerminators(b)
  {
    if a == [] {
      assert a + b == b;
    } else {
      assert (a + b)[1..] == a[1..] + b;
      StripConcat(a[1..], b);
    }
  }

  lemma {:induction false} StripNothing(s: string)
    requires NoLineTerminators(s)
    ensures StripLineTerminators(s) == s
  {
    if s != [] {
      assert NoLineTerminators(s[1..]);
      StripNothing(s[1..]);
    }
  }

  /** The matches, put back together, are the content without its line
      terminators: nothing else is lost, nothing is repeated, and the order
      is kept. */
  lemma {:induction false} ChunksConcat(s: string, n: nat)
    requires n >= 1
    ensures Flatten(Chunks(s, n)) == StripLineTerminators(s)
    decreases |s|
  {
    if s == [] {
    } else if IsLineTerminator(s[0]) {
      ChunksConcat(s[1..], n);
    } else {
      var k := Run(s, n);
      ChunksConcat(s[k..], n);
      assert s == s[..k] + s[k..];
      StripConcat(s[..k], s[k..]);
      StripNothing(s[..k]);
      var r := Chunks(s, n);
      assert r == [s[..k]] + Chunks(s[k..], n);
      assert r[1..] == Chunks(s[k..], n);
      assert Flatten(r) == s[..k] + Flatten(Chunks(s[k..], n));
    }
  }

  /** Content without line terminators comes back whole from its matches. */
  lemma ChunksRoundTrip(s: string, n: nat)
    requires n >= 1 && NoLineTerminators(s)
    ensures Flatten(Chunks(s, n)) == s
  {
    ChunksConcat(s, n);
    StripNothing(s);
  }

  /** For content without line terminators, every match but the last has
      exactly `n` characters. */
  lemma {:induction false} ChunksFull(s: string, n: nat)
    requires n >= 1 && NoLineTerminators(s)
    ensures var r := Chunks(s, n);
            forall i :: 0 <= i < |r| - 1 ==> |r[i]| == n
    decreases |s|
  {
    if s != [] {
      var k := Run(s, n);
      assert k == n || k == |s|;
      assert NoLineTerminators(s[k..]);
      ChunksFull(s[k..], n);
      var r := Chunks(s, n);
      assert r[1..] == Chunks(s[k..], n);
      if k == |s| {
        assert s[k..] == [];
      }
    }
  }

  /** Empty content has no match, so no preview line. */
  lemma ChunksEmpty(n: nat)
    requires n >= 1
    ensures Chunks("", n) == []
  {
  }

  /** How many lines the preview shows at most. */
  const PreviewLines := 3

  /** The preview lines for `content` at `charsPerLine` characters per line:
      the first three matches, the third one cut to `charsPerLine - 3`
      characters and followed by "..." exactly when there are more than
      three matches. */
  function Preview(content: string, charsPerLine: nat): (r: seq<string>)
    requires charsPerLine >= 1
    ensures var lines := Chunks(content, charsPerLine);
            && |r| == (if |lines| < PreviewLines then |lines| else PreviewLines)
            && (forall i :: 0 <= i < |r| && i < 2 ==> r[i] == lines[i])
            && (|r| == PreviewLines ==>
                  r[2] == if |lines| > PreviewLines then Prefix(lines[2], charsPerLine - 3) + "..." else lines[2])
  {
    var lines := Chunks(content, charsPerLine);
    var shown := lines[..if |lines| < PreviewLines then |lines| else PreviewLines];
    seq(|shown|, i requires 0 <= i < |shown| =>
      if i == 2 && |lines| > PreviewLines then Prefix(shown[i], charsPerLine - 3) + "..." else shown[i])
  }

  /** Empty content shows no preview line. */
  lemma PreviewEmpty(charsPerLine: nat)
    requires charsPerLine >= 1
    ensures Preview("", charsPerLine) == []
  {
    ChunksEmpty(charsPerLine);
  }

  /** When each line holds at least three characters, no preview line is
      wider than a line: the shortened third line and its ellipsis fit too. */
  lemma PreviewFitsWidth(content: string, charsPerLine: nat)
    requires charsPerLine >= 3
    ensures forall line :: line in Preview(content, charsPerLine) ==> |line| <= charsPerLine
  {
  }

  /** Content without line terminators that makes at most three matches is
      shown whole. */
  lemma PreviewShowsShortContent(content: string, charsPerLine: nat)
    requires charsPerLine >= 1 && NoLineTerminators(content)
    requires |Chunks(content, charsPerLine)| <= PreviewLines
    ensures Flatten(Preview(content, charsPerLine)) == content
  {
    var lines := Chunks(content, charsPerLine);
    assert Preview(content, charsPerLine) == lines;
    ChunksRoundTrip(content, charsPerLine);
  }
}
