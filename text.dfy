/** The three Python string operations the submission parser relies on:
    `str.strip()` (no argument), `str.split(" ")` and, as its inverse,
    `" ".join(...)`. Strings are sequences of code points. */
module Text {
  import opened Sequences

  /** Python's `str.isspace` for a single code point: the ASCII blanks and
      control separators, NEL, NO-BREAK SPACE and the Unicode space separators. */
  predicate IsSpace(c: char) {
    var n := c as int;
    n == 32 || 9 <= n <= 13 || 28 <= n <= 31 || n == 133 || n == 160 || n == 5760
    || 8192 <= n <= 8202 || n == 8232 || n == 8233 || n == 8239 || n == 8287 || n == 12288
  }

  predicate AllSpace(s: string) {
    forall k :: 0 <= k < |s| ==> IsSpace(s[k])
  }

  /** No code point of `s` is whitespace. */
  predicate NoSpace(s: string) {
    forall k :: 0 <= k < |s| ==> !IsSpace(s[k])
  }

  /** `s` has no leading and no trailing whitespace. */
  predicate Trimmed(s: string) {
    s == [] || (!IsSpace(s[0]) && !IsSpace(s[|s| - 1]))
  }

  /** Every whitespace code point of `s` is a plain space. */
  predicate OnlyPlainBlanks(s: string) {
    forall k :: 0 <= k < |s| && IsSpace(s[k]) ==> s[k] == ' '
  }

  /** Number of occurrences of the plain space in `s`. */
  function CountSpaces(s: string): nat {
    if s == [] then 0 else (if s[0] == ' ' then 1 else 0) + CountSpaces(s[1..])
  }

  /** `s.lstrip()`: `s` without its leading whitespace. */
  function StripLeft(s: string): string
    decreases |s|
  {
    if |s| > 0 && IsSpace(s[0]) then StripLeft(s[1..]) else s
  }

  /** `lstrip()` keeps the longest suffix of `s` that does not start with
      whitespace: what it drops is all whitespace. */
  lemma {:induction false} StripLeftSpec(s: string)
    ensures var r := StripLeft(s);
      |r| <= |s| && r == s[|s| - |r|..] && AllSpace(s[..|s| - |r|]) && (r == [] || !IsSpace(r[0]))
    decreases |s|
  {
    if |s| > 0 && IsSpace(s[0]) {
      StripLeftSpec(s[1..]);
      var r := StripLeft(s);
      assert s[1..][|s| - 1 - |r|..] == s[|s| - |r|..];
      assert s[..|s| - |r|] == [s[0]] + s[1..][..|s| - 1 - |r|];
    }
  }

  /** `s.rstrip()`: `s` without its trailing whitespace. */
  function StripRight(s: string): string
    decreases |s|
  {
    if |s| > 0 && IsSpace(s[|s| - 1]) then StripRight(s[..|s| - 1]) else s
  }

  /** `rstrip()` keeps the longest prefix of `s` that does not end with
      whitespace: what it drops is all whitespace. */
  lemma {:induction false} StripRightSpec(s: string)
    ensures var r := StripRight(s);
      |r| <= |s| && r == s[..|r|] && AllSpace(s[|r|..]) && (r == [] || !IsSpace(r[|r| - 1]))
    decreases |s|
  {
    if |s| > 0 && IsSpace(s[|s| - 1]) {
      var init := s[..|s| - 1];
      StripRightSpec(init);
      var r := StripRight(s);
      assert init[..|r|] == s[..|r|];
      forall k | 0 <= k < |s| - |r| ensures IsSpace(s[|r|..][k]) {
        if k < |s| - 1 - |r| { assert s[|r|..][k] == init[|r|..][k]; }
      }
    }
  }

  /** `s.strip()`: `s` without its leading and trailing whitespace. */
  function Strip(s: string): string {
    StripRight(StripLeft(s))
  }

  /** What `strip()` promises: the result is the slice of `s` between an
      all-whitespace prefix and an all-whitespace suffix, has no whitespace at
      either end, and is empty exactly when `s` is all whitespace. */
  lemma StripSpec(s: string)
    ensures var a := |s| - |StripLeft(s)|; var b := a + |Strip(s)|;
      0 <= a <= b <= |s| && Strip(s) == s[a..b] && AllSpace(s[..a]) && AllSpace(s[b..])
    ensures Trimmed(Strip(s))
    ensures Strip(s) == [] <==> AllSpace(s)
  {
    StripIsSlice(s);
    StripEmptyIffBlank(s);
    StripLeftSpec(s);
    StripRightSpec(StripLeft(s));
    var l := StripLeft(s);
    var r := StripRight(l);
    assert r != [] ==> r[0] == l[0];
  }

  lemma StripIsSlice(s: string)
    ensures var a := |s| - |StripLeft(s)|; var b := a + |Strip(s)|;
      0 <= a <= b <= |s| && Strip(s) == s[a..b] && AllSpace(s[..a]) && AllSpace(s[b..])
  {
    StripLeftSpec(s);
    var l := StripLeft(s);
    StripRightSpec(l);
    var r := StripRight(l);
    var a, b := |s| - |l|, |s| - |l| + |r|;
    assert r == s[a..b];
    assert s[b..] == l[|r|..];
  }

  lemma StripEmptyIffBlank(s: string)
    ensures StripRight(StripLeft(s)) == [] <==> AllSpace(s)
  {
    StripLeftSpec(s);
    StripRightSpec(StripLeft(s));
    var l := StripLeft(s);
    if l == [] {
      assert s[..|s|] == s;
    } else {
      assert l[0] == s[|s| - |l|] && !IsSpace(l[0]);
    }
  }

  /** Stripping introduces no space. */
  lemma StripKeepsChars(s: string)
    requires ' ' !in s
    ensures ' ' !in Strip(s)
  {
    StripLeftSpec(s);
    StripRightSpec(StripLeft(s));
    var l := StripLeft(s);
    assert forall k :: 0 <= k < |Strip(s)| ==> Strip(s)[k] == s[k + (|s| - |l|)];
  }

  /** Stripping keeps the property that every blank is a plain space. */
  lemma StripKeepsPlainBlanks(s: string)
    requires OnlyPlainBlanks(s)
    ensures OnlyPlainBlanks(Strip(s))
  {
    StripLeftSpec(s);
    StripRightSpec(StripLeft(s));
    var l := StripLeft(s);
    var r := Strip(s);
    forall k | 0 <= k < |r| && IsSpace(r[k]) ensures r[k] == ' ' {
      assert r[k] == l[k] == s[k + (|s| - |l|)];
    }
  }

  /** `s.split(" ")`: the pieces between single spaces. Every space starts a new
      piece, so there is one piece more than there are spaces, adjacent spaces
      give empty pieces and "" gives [""]. */
  function SplitOnSpace(s: string): (r: seq<string>)
    ensures |r| > 0
    decreases |s|
  {
    if s == [] then [""]
    else
      var rest := SplitOnSpace(s[1..]);
      if s[0] == ' ' then [""] + rest
      else [[s[0]] + rest[0]] + rest[1..]
  }

  /** There is one piece more than there are spaces, and no piece holds a space. */
  lemma {:induction false} SplitSpec(s: string)
    ensures |SplitOnSpace(s)| == CountSpaces(s) + 1
    ensures forall k :: 0 <= k < |SplitOnSpace(s)| ==> ' ' !in SplitOnSpace(s)[k]
    decreases |s|
  {
    if s != [] {
      SplitSpec(s[1..]);
    }
  }

  /** When every blank of `s` is a plain space, the pieces of `s` hold no
      whitespace at all. */
  lemma {:induction false} SplitPiecesHaveNoBlank(s: string)
    requires OnlyPlainBlanks(s)
    ensures forall k :: 0 <= k < |SplitOnSpace(s)| ==> NoSpace(SplitOnSpace(s)[k])
    decreases |s|
  {
    if s != [] {
      forall k | 0 <= k < |s[1..]| && IsSpace(s[1..][k]) ensures s[1..][k] == ' ' {
        assert s[1..][k] == s[k + 1];
      }
      SplitPiecesHaveNoBlank(s[1..]);
    }
  }

  /** `" ".join(parts)`. */
  function JoinWithSpace(parts: seq<string>): string {
    if parts == [] then ""
    else if |parts| == 1 then parts[0]
    else parts[0] + " " + JoinWithSpace(parts[1..])
  }

  /** Splitting and joining on single spaces are inverse: joining the pieces of
      any string gives that string back. */
  lemma {:induction false} JoinSplit(s: string)
    ensures JoinWithSpace(SplitOnSpace(s)) == s
    decreases |s|
  {
    if s != [] {
      var rest := SplitOnSpace(s[1..]);
      JoinSplit(s[1..]);
      if s[0] == ' ' {
        assert SplitOnSpace(s) == [""] + rest;
        assert JoinWithSpace(SplitOnSpace(s)) == "" + " " + JoinWithSpace(rest);
        assert s == [s[0]] + s[1..];
      } else if |rest| == 1 {
        assert SplitOnSpace(s) == [[s[0]] + rest[0]];
        assert s == [s[0]] + s[1..];
      } else {
        assert SplitOnSpace(s) == [[s[0]] + rest[0]] + rest[1..];
        assert JoinWithSpace(rest) == rest[0] + " " + JoinWithSpace(rest[1..]);
        assert ([[s[0]] + rest[0]] + rest[1..])[1..] == rest[1..];
        assert s == [s[0]] + s[1..];
      }
    }
  }

  /** A string without spaces is a single piece. */
  lemma {:induction false} SplitWithoutSpace(s: string)
    requires ' ' !in s
    ensures SplitOnSpace(s) == [s]
    decreases |s|
  {
    if s != [] {
      SplitWithoutSpace(s[1..]);
      assert s[0] != ' ';
      assert [s[0]] + s[1..] == s;
    }
  }

  /** One step of `split(" ")` on a non-empty string. */
  lemma SplitUnfold(s: string)
    requires s != []
    ensures SplitOnSpace(s) ==
      if s[0] == ' ' then [""] + SplitOnSpace(s[1..])
      else [[s[0]] + SplitOnSpace(s[1..])[0]] + SplitOnSpace(s[1..])[1..]
  {
  }

  /** A space in the middle of a string splits it into the pieces of either side. */
  lemma {:induction false} SplitAround(a: string, b: string)
    ensures SplitOnSpace(a + " " + b) == SplitOnSpace(a) + SplitOnSpace(b)
    decreases |a|
  {
    if a == [] {
      assert a + " " + b == [' '] + b;
      SplitUnfold([' '] + b);
      assert ([' '] + b)[1..] == b;
    } else {
      SplitAround(a[1..], b);
      SplitAroundStep(a, b);
    }
  }

  /** The step of `SplitAround`: the claim for `a` follows from the claim for
      `a` without its first code point. */
  lemma SplitAroundStep(a: string, b: string)
    requires a != []
    requires SplitOnSpace(a[1..] + " " + b) == SplitOnSpace(a[1..]) + SplitOnSpace(b)
    ensures SplitOnSpace(a + " " + b) == SplitOnSpace(a) + SplitOnSpace(b)
  {
    assert (a + " " + b)[0] == a[0] && (a + " " + b)[1..] == a[1..] + " " + b;
    SplitUnfold(a + " " + b);
    SplitUnfold(a);
    var pa, pb := SplitOnSpace(a[1..]), SplitOnSpace(b);
    if a[0] == ' ' {
      AppendAssoc([""], pa, pb);
    } else {
      AppendHead(pa, pb);
      AppendAssoc([[a[0]] + pa[0]], pa[1..], pb);
    }
  }

  /** Splitting undoes joining when no piece contains a space: the pieces come
      back in order, with repeats and empty pieces kept. */
  lemma {:induction false} SplitJoin(parts: seq<string>)
    requires |parts| > 0
    requires forall k :: 0 <= k < |parts| ==> ' ' !in parts[k]
    ensures SplitOnSpace(JoinWithSpace(parts)) == parts
    decreases |parts|
  {
    SplitWithoutSpace(parts[0]);
    if |parts| > 1 {
      SplitJoin(parts[1..]);
      SplitAround(parts[0], JoinWithSpace(parts[1..]));
      assert parts == [parts[0]] + parts[1..];
    }
  }

  /** Adjacent spaces at positions i and i + 1 give an empty piece; it is the
      piece whose index is the number of spaces up to and including position i. */
  lemma {:induction false} AdjacentSpacesGiveEmptyPiece(s: string, i: nat)
    requires i + 1 < |s| && s[i] == ' ' && s[i + 1] == ' '
    ensures CountSpaces(s[..i + 1]) < |SplitOnSpace(s)|
    ensures SplitOnSpace(s)[CountSpaces(s[..i + 1])] == ""
    decreases i
  {
    var rest := SplitOnSpace(s[1..]);
    assert s[..i + 1][1..] == s[1..][..i];
    if i == 0 {
      assert s[1..][0] == ' ';
      assert rest == [""] + SplitOnSpace(s[1..][1..]);
    } else {
      AdjacentSpacesGiveEmptyPiece(s[1..], i - 1);
      if s[0] != ' ' {
        SpaceIsCounted(s[1..][..i], i - 1);
      }
    }
  }

  lemma {:induction false} SpaceIsCounted(s: string, j: nat)
    requires j < |s| && s[j] == ' '
    ensures CountSpaces(s) > 0
    decreases j
  {
    if j > 0 { SpaceIsCounted(s[1..], j - 1); }
  }

  /** A string whose first and last code points are not whitespace is its own
      strip; in particular a string without whitespace is. */
  lemma StripTrimmed(s: string)
    requires Trimmed(s)
    ensures Strip(s) == s
  {
  }

  /** The first code point of a join is that of its first piece, the last that
      of its last piece, when those pieces are not empty. */
  lemma {:induction false} JoinEnds(parts: seq<string>)
    requires |parts| > 0 && forall k :: 0 <= k < |parts| ==> parts[k] != []
    ensures var j := JoinWithSpace(parts);
      |j| > 0 && j[0] == parts[0][0] && j[|j| - 1] == parts[|parts| - 1][|parts[|parts| - 1]| - 1]
    decreases |parts|
  {
    if |parts| > 1 {
      JoinEnds(parts[1..]);
    }
  }
}
