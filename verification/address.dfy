/** Python's `str.replace` and `str.split`, and the address clean-up built on
    them: the listing heading's inner HTML with every `<br/>` turned into a
    space. */
module Address {

  /** The line-break marker that separates the lines of a listing's heading. */
  const LineBreak: string := "<br/>"

  /** `pat` occurs in `s` starting at position `i`. */
  predicate OccursAt(s: string, pat: string, i: nat)
    requires i + |pat| <= |s|
  {
    s[i..i + |pat|] == pat
  }

  /** `pat` occurs nowhere in `s`. */
  predicate Free(s: string, pat: string) {
    forall i: nat :: i + |pat| <= |s| ==> !OccursAt(s, pat, i)
  }

  /** No proper suffix of `pat` is also a prefix of it, so two occurrences of
      `pat` can never overlap. */
  predicate BorderFree(pat: string) {
    forall k :: 0 < k < |pat| ==> pat[k..] != pat[..|pat| - k]
  }

  /** `s.replace(pat, rep)`: occurrences are found left to right and do not
      overlap. A replacement no longer than the pattern never makes the text
      longer. */
  function Replace(s: string, pat: string, rep: string): (r: string)
    requires |pat| > 0
    ensures |rep| <= |pat| ==> |r| <= |s|
    decreases |s|
  {
    if |s| < |pat| then s
    else if s[..|pat|] == pat then rep + Replace(s[|pat|..], pat, rep)
    else [s[0]] + Replace(s[1..], pat, rep)
  }

  /** Text without the pattern is left alone. */
  lemma {:induction false} ReplaceFree(s: string, pat: string, rep: string)
    requires |pat| > 0 && Free(s, pat)
    ensures Replace(s, pat, rep) == s
    decreases |s|
  {
    if |s| >= |pat| {
      assert !OccursAt(s, pat, 0);
      FreeTail(s, pat);
      ReplaceFree(s[1..], pat, rep);
      assert [s[0]] + s[1..] == s;
    }
  }

  /** `s.split(pat)`: the pieces between the occurrences Replace would find. */
  function Split(s: string, pat: string): (parts: seq<string>)
    requires |pat| > 0
    ensures |parts| > 0
    decreases |s|
  {
    if |s| < |pat| then [s]
    else if s[..|pat|] == pat then [""] + Split(s[|pat|..], pat)
    else
      var t := Split(s[1..], pat);
      [[s[0]] + t[0]] + t[1..]
  }

  /** `sep.join(parts)`. */
  function Join(parts: seq<string>, sep: string): string
    requires |parts| > 0
    decreases |parts|
  {
    if |parts| == 1 then parts[0] else parts[0] + sep + Join(parts[1..], sep)
  }

  /** Dropping the first character keeps text free of the pattern. */
  lemma FreeTail(s: string, pat: string)
    requires |s| > 0
    ensures Free(s, pat) ==> Free(s[1..], pat)
  {
    if Free(s, pat) {
      forall i: nat | i + |pat| <= |s[1..]|
        ensures !OccursAt(s[1..], pat, i)
      {
        assert s[1..][i..i + |pat|] == s[i + 1..i + 1 + |pat|];
        assert !OccursAt(s, pat, i + 1);
      }
    }
  }

  /** Replace copies a prefix unchanged when no occurrence starts inside it. */
  lemma {:induction false} ReplaceSkips(p: string, y: string, pat: string, rep: string)
    requires |pat| > 0
    requires forall i: nat :: i < |p| && i + |pat| <= |p + y| ==> !OccursAt(p + y, pat, i)
    ensures Replace(p + y, pat, rep) == p + Replace(y, pat, rep)
    decreases |p|
  {
    if |p| == 0 {
      assert p + y == y;
    } else if |p + y| < |pat| {
      assert Replace(y, pat, rep) == y;
    } else {
      var s := p + y;
      ReplaceNoMatchAtStart(s, pat, rep);
      assert s[1..] == p[1..] + y;
      NoMatchInTail(p, y, pat);
      ReplaceSkips(p[1..], y, pat, rep);
      assert [s[0]] + (p[1..] + Replace(y, pat, rep)) == p + Replace(y, pat, rep);
    }
  }

  /** Without a match at the start, Replace copies the first character. */
  lemma ReplaceNoMatchAtStart(s: string, pat: string, rep: string)
    requires |pat| > 0 && |s| >= |pat| && !OccursAt(s, pat, 0)
    ensures Replace(s, pat, rep) == [s[0]] + Replace(s[1..], pat, rep)
  {
    assert s[..|pat|] != pat;
  }

  /** No match starting inside `p` means none starting inside `p[1..]`. */
  lemma NoMatchInTail(p: string, y: string, pat: string)
    requires |p| > 0
    requires forall i: nat :: i < |p| && i + |pat| <= |p + y| ==> !OccursAt(p + y, pat, i)
    ensures forall i: nat :: i < |p[1..]| && i + |pat| <= |p[1..] + y| ==> !OccursAt(p[1..] + y, pat, i)
  {
    var s := p + y;
    forall i: nat | i < |p[1..]| && i + |pat| <= |p[1..] + y|
      ensures !OccursAt(p[1..] + y, pat, i)
    {
      assert (p[1..] + y)[i..i + |pat|] == s[i + 1..i + 1 + |pat|];
      assert !OccursAt(s, pat, i + 1);
    }
  }

  /** A piece without the pattern, then the pattern, is rewritten as the piece
      and the replacement: with a border-free pattern no occurrence can start
      inside the piece and run into the marker. */
  lemma ReplaceAtMarker(p: string, y: string, pat: string, rep: string)
    requires |pat| > 0 && BorderFree(pat) && Free(p, pat)
    ensures Replace(p + pat + y, pat, rep) == p + rep + Replace(y, pat, rep)
  {
    var s := p + (pat + y);
    assert p + pat + y == s;
    forall i: nat | i < |p| && i + |pat| <= |s|
      ensures !OccursAt(s, pat, i)
    {
      if i + |pat| <= |p| {
        assert s[i..i + |pat|] == p[i..i + |pat|];
        assert !OccursAt(p, pat, i);
      } else {
        var k := |p| - i;
        assert s[i..i + |pat|] == p[i..] + pat[..|pat| - k];
        assert pat[k..] != pat[..|pat| - k];
      }
    }
    ReplaceSkips(p, pat + y, pat, rep);
    assert (pat + y)[..|pat|] == pat;
    assert (pat + y)[|pat|..] == y;
  }

  /** Replacing is re-joining: text made of pattern-free pieces separated by
      the pattern comes out as the same pieces separated by the replacement. */
  lemma {:induction false} ReplaceJoin(parts: seq<string>, pat: string, rep: string)
    requires |parts| > 0 && |pat| > 0 && BorderFree(pat)
    requires forall j :: 0 <= j < |parts| ==> Free(parts[j], pat)
    ensures Replace(Join(parts, pat), pat, rep) == Join(parts, rep)
    decreases |parts|
  {
    if |parts| == 1 {
      ReplaceFree(parts[0], pat, rep);
    } else {
      ReplaceAtMarker(parts[0], Join(parts[1..], pat), pat, rep);
      ReplaceJoin(parts[1..], pat, rep);
    }
  }

  /** Joining with an empty first piece starts with the separator. */
  lemma JoinEmptyHead(t: seq<string>, sep: string)
    requires |t| > 0
    ensures Join([""] + t, sep) == sep + Join(t, sep)
  {
    assert ([""] + t)[1..] == t;
  }

  /** Joining with one more character on the first piece puts that character
      in front of the whole join. */
  lemma JoinConsHead(c: char, t: seq<string>, sep: string)
    requires |t| > 0
    ensures Join([[c] + t[0]] + t[1..], sep) == [c] + Join(t, sep)
  {
    var parts := [[c] + t[0]] + t[1..];
    assert parts[0] == [c] + t[0];
    if |t| > 1 {
      assert parts[1..] == t[1..];
      assert ([c] + t[0]) + sep + Join(t[1..], sep) == [c] + (t[0] + sep + Join(t[1..], sep));
    }
  }

  /** Split's pieces re-join to the text they came from. */
  lemma {:induction false} SplitJoinsBack(s: string, pat: string)
    requires |pat| > 0
    ensures Join(Split(s, pat), pat) == s
    decreases |s|
  {
    if |s| < |pat| {
    } else if s[..|pat|] == pat {
      SplitJoinsBack(s[|pat|..], pat);
      JoinEmptyHead(Split(s[|pat|..], pat), pat);
      assert s == s[..|pat|] + s[|pat|..];
    } else {
      SplitJoinsBack(s[1..], pat);
      JoinConsHead(s[0], Split(s[1..], pat), pat);
      assert s == [s[0]] + s[1..];
    }
  }

  /** No piece of a split contains the pattern. */
  lemma {:induction false} SplitPiecesFree(s: string, pat: string)
    requires |pat| > 0
    ensures forall j :: 0 <= j < |Split(s, pat)| ==> Free(Split(s, pat)[j], pat)
    decreases |s|
  {
    var parts := Split(s, pat);
    if |s| < |pat| {
    } else if s[..|pat|] == pat {
      var t := Split(s[|pat|..], pat);
      SplitPiecesFree(s[|pat|..], pat);
      assert parts == [""] + t;
      forall j | 0 <= j < |parts|
        ensures Free(parts[j], pat)
      {
        if j > 0 {
          assert parts[j] == t[j - 1];
        }
      }
    } else {
      var t := Split(s[1..], pat);
      SplitPiecesFree(s[1..], pat);
      var head := [s[0]] + t[0];
      assert parts == [head] + t[1..];
      SplitJoinsBack(s[1..], pat);
      FirstPieceIsPrefix(s[1..], pat);
      HeadFree(s, t[0], pat);
      forall j | 0 <= j < |parts|
        ensures Free(parts[j], pat)
      {
        if j > 0 {
          assert parts[j] == t[j];
        }
      }
    }
  }

  /** The first piece of a split is a prefix of the text. */
  lemma FirstPieceIsPrefix(s: string, pat: string)
    requires |pat| > 0
    ensures |Split(s, pat)[0]| <= |s| && Split(s, pat)[0] == s[..|Split(s, pat)[0]|]
  {
    var t := Split(s, pat);
    SplitJoinsBack(s, pat);
    if |t| > 1 {
      assert s == t[0] + (pat + Join(t[1..], pat));
    }
  }

  /** Prepending the first character of a text that does not start with the
      pattern keeps a pattern-free prefix of the rest pattern-free. */
  lemma HeadFree(s: string, t0: string, pat: string)
    requires |pat| > 0 && |s| >= |pat| && s[..|pat|] != pat
    requires |t0| <= |s| - 1 && t0 == s[1..][..|t0|] && Free(t0, pat)
    ensures Free([s[0]] + t0, pat)
  {
    var head := [s[0]] + t0;
    assert head == s[..|head|];
    forall i: nat | i + |pat| <= |head|
      ensures !OccursAt(head, pat, i)
    {
      if i == 0 {
        assert head[..|pat|] == s[..|pat|];
      } else {
        assert head[i..i + |pat|] == t0[i - 1..i - 1 + |pat|];
        assert !OccursAt(t0, pat, i - 1);
      }
    }
  }

  /** Python's replace is `rep.join(s.split(pat))`. */
  lemma {:induction false} ReplaceIsSplitJoin(s: string, pat: string, rep: string)
    requires |pat| > 0
    ensures Replace(s, pat, rep) == Join(Split(s, pat), rep)
    decreases |s|
  {
    if |s| < |pat| {
    } else if s[..|pat|] == pat {
      ReplaceIsSplitJoin(s[|pat|..], pat, rep);
      JoinEmptyHead(Split(s[|pat|..], pat), rep);
    } else {
      ReplaceIsSplitJoin(s[1..], pat, rep);
      JoinConsHead(s[0], Split(s[1..], pat), rep);
    }
  }

  lemma LineBreakIsBorderFree()
    ensures BorderFree(LineBreak)
  {
    forall k | 0 < k < |LineBreak|
      ensures LineBreak[k..] != LineBreak[..|LineBreak| - k]
    {
      assert LineBreak[k..][0] != '<';
      assert LineBreak[..|LineBreak| - k][0] == '<';
    }
  }

  /** The address: the heading's inner HTML with every line break turned into
      a space, that is the pieces between line breaks joined by spaces. A
      heading without line breaks comes out as it went in. */
  function NormaliseAddress(html: string): (a: string)
    ensures a == Join(Split(html, LineBreak), " ")
    ensures Free(html, LineBreak) ==> a == html
    ensures |a| <= |html|
  {
    ReplaceIsSplitJoin(html, LineBreak, " ");
    ReplaceFreeWhenFree(html, LineBreak, " ");
    Replace(html, LineBreak, " ")
  }

  lemma ReplaceFreeWhenFree(s: string, pat: string, rep: string)
    requires |pat| > 0
    ensures Free(s, pat) ==> Replace(s, pat, rep) == s
  {
    if Free(s, pat) {
      ReplaceFree(s, pat, rep);
    }
  }

  /** Lines of the heading come out joined by single spaces. */
  lemma AddressJoinsLines(lines: seq<string>)
    requires |lines| > 0
    requires forall j :: 0 <= j < |lines| ==> Free(lines[j], LineBreak)
    ensures NormaliseAddress(Join(lines, LineBreak)) == Join(lines, " ")
  {
    LineBreakIsBorderFree();
    ReplaceJoin(lines, LineBreak, " ");
  }

  /** A two-line heading becomes one line with a single space between the
      lines: "123 Main St<br/>Honolulu, HI" gives "123 Main St Honolulu, HI". */
  lemma TwoLineAddress(first: string, second: string)
    requires Free(first, LineBreak) && Free(second, LineBreak)
    ensures NormaliseAddress(first + LineBreak + second) == first + " " + second
  {
    var lines := [first, second];
    assert lines[1..] == [second];
    assert Join(lines, LineBreak) == first + LineBreak + second;
    assert Join(lines, " ") == first + " " + second;
    AddressJoinsLines(lines);
  }
}
