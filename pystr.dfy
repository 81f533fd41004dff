/** The Python `str` operations that report.py relies on: `rfind`, `strip`,
    `split` with a one-character separator, `join`, and `splitlines`.
    A Python `str` is a sequence of code points, here `seq<char>`. */
module PyStr {

  /** `str.isspace()` for a single code point: the ASCII controls TAB to CR,
      the four information separators, SPACE, NEL, NO-BREAK SPACE and the
      Unicode space separators, line and paragraph separators. */
  predicate IsSpace(c: char) {
    ('\U{09}' <= c <= '\U{0D}') || ('\U{1C}' <= c <= '\U{20}')
    || c == '\U{85}' || c == '\U{A0}' || c == '\U{1680}'
    || ('\U{2000}' <= c <= '\U{200A}') || c == '\U{2028}' || c == '\U{2029}'
    || c == '\U{202F}' || c == '\U{205F}' || c == '\U{3000}'
  }

  predicate AllSpace(s: string) {
    forall k | 0 <= k < |s| :: IsSpace(s[k])
  }

  /** A line boundary of `str.splitlines()`: LF, VT, FF, CR, FS, GS, RS, NEL,
      LINE SEPARATOR and PARAGRAPH SEPARATOR (CR LF counts as one boundary). */
  predicate IsLineBreak(c: char) {
    ('\U{0A}' <= c <= '\U{0D}') || ('\U{1C}' <= c <= '\U{1E}')
    || c == '\U{85}' || c == '\U{2028}' || c == '\U{2029}'
  }

  predicate NoLineBreak(s: string) {
    forall k | 0 <= k < |s| :: !IsLineBreak(s[k])
  }

  /** `s.rfind(c)`: the index of the last occurrence of `c`, or -1. */
  function RFind(s: string, c: char): (k: int)
    ensures -1 <= k < |s|
    ensures k == -1 ==> c !in s
    ensures 0 <= k ==> s[k] == c && c !in s[k + 1..]
  {
    if s == [] then -1
    else if s[|s| - 1] == c then |s| - 1
    else
      var k := RFind(s[..|s| - 1], c);
      assert s[k + 1..] == s[..|s| - 1][k + 1..] + [s[|s| - 1]];
      k
  }

  /** `s.lstrip()`: drops the leading whitespace and nothing else. */
  function LStrip(s: string): (r: string)
    ensures |r| <= |s| && r == s[|s| - |r|..]
    ensures AllSpace(s[..|s| - |r|])
    ensures r == [] || !IsSpace(r[0])
  {
    if s != [] && IsSpace(s[0]) then
      var r := LStrip(s[1..]);
      LStripStep(s, r);
      r
    else s
  }

  /** Dropping one more leading space: what `LStrip` promises of `s[1..]`
      it promises of `s`, the slices shifted by one. */
  lemma LStripStep(s: string, r: string)
    requires s != [] && IsSpace(s[0])
    requires |r| <= |s| - 1 && r == s[1..][|s| - 1 - |r|..]
    requires AllSpace(s[1..][..|s| - 1 - |r|])
    ensures r == s[|s| - |r|..]
    ensures AllSpace(s[..|s| - |r|])
  {
    var t, m := s[1..], |s| - 1 - |r|;
    assert t[m..] == s[1 + m..];
    forall k | 1 <= k < 1 + m ensures IsSpace(s[k]) {
      assert s[k] == t[..m][k - 1];
    }
  }

  /** `s.rstrip()`: drops the trailing whitespace and nothing else. */
  function RStrip(s: string): (r: string)
    ensures |r| <= |s| && r == s[..|r|]
    ensures AllSpace(s[|r|..])
    ensures r == [] || !IsSpace(r[|r| - 1])
  {
    if s != [] && IsSpace(s[|s| - 1]) then
      var t := s[..|s| - 1];
      var r := RStrip(t);
      assert t[..|r|] == s[..|r|];
      assert s[|r|..] == t[|r|..] + [s[|s| - 1]];
      AllSpaceAppend(t[|r|..], [s[|s| - 1]]);
      r
    else s
  }

  /** `s.strip()`: whitespace removed from both ends. */
  function Strip(s: string): (r: string)
    ensures r == [] || (!IsSpace(r[0]) && !IsSpace(r[|r| - 1]))
    ensures r == [] <==> AllSpace(s)
    ensures forall c | c in r :: c in s
  {
    var l := LStrip(s);
    var r := RStrip(l);
    StripEmpty(s, l, r);
    StripInside(s, l, r);
    r
  }

  lemma AllSpaceAppend(a: string, b: string)
    requires AllSpace(a) && AllSpace(b)
    ensures AllSpace(a + b)
  {
  }

  /** Whatever is left after stripping was in the string. */
  lemma StripInside(s: string, l: string, r: string)
    requires |l| <= |s| && l == s[|s| - |l|..]
    requires |r| <= |l| && r == l[..|r|]
    ensures forall c | c in r :: c in s
  {
    forall c | c in r ensures c in s {
      var i :| 0 <= i < |r| && r[i] == c;
      assert s[|s| - |l| + i] == c;
    }
  }

  /** A string cut into whitespace, a part `l` that does not start with
      whitespace, and whitespace again, where `r` is the part of `l` before
      the trailing whitespace: `r` is empty exactly when all of it is
      whitespace. */
  lemma StripEmpty(s: string, l: string, r: string)
    requires |l| <= |s| && l == s[|s| - |l|..] && AllSpace(s[..|s| - |l|])
    requires l == [] || !IsSpace(l[0])
    requires |r| <= |l| && r == l[..|r|] && AllSpace(l[|r|..])
    ensures r == [] <==> AllSpace(s)
  {
    var n := |s| - |l|;
    if r == [] {
      assert l[|r|..] == l;
      assert s == s[..n] + l;
      AllSpaceAppend(s[..n], l);
    } else {
      assert s[n] == l[0];
    }
  }

  /** Strip removes exactly the surrounding whitespace: whatever whitespace
      is put around a word that neither starts nor ends with whitespace, the
      word comes back. */
  lemma {:induction false} StripSurrounded(lead: string, word: string, trail: string)
    requires AllSpace(lead) && AllSpace(trail)
    requires word == [] || (!IsSpace(word[0]) && !IsSpace(word[|word| - 1]))
    ensures Strip(lead + word + trail) == word
  {
    var s := lead + word + trail;
    if word == [] {
      assert s == lead + trail;
      AllSpaceAppend(lead, trail);
    } else {
      LStripSkips(lead, word + trail);
      assert s == lead + (word + trail);
      RStripSkips(word, trail);
    }
  }

  /** What `pwd` prints: a name followed by a newline strips to the name. */
  lemma StripNewline(base: string)
    requires base != [] && !IsSpace(base[0]) && !IsSpace(base[|base| - 1])
    ensures Strip(base + "\n") == base
  {
    assert AllSpace("\n");
    StripSurrounded([], base, "\n");
    assert [] + base + "\n" == base + "\n";
  }

  lemma {:induction false} LStripSkips(lead: string, rest: string)
    requires AllSpace(lead)
    requires rest != [] && !IsSpace(rest[0])
    ensures LStrip(lead + rest) == rest
  {
    if lead != [] {
      assert (lead + rest)[1..] == lead[1..] + rest;
      LStripSkips(lead[1..], rest);
    }
  }

  lemma {:induction false} RStripSkips(word: string, trail: string)
    requires AllSpace(trail)
    requires word != [] && !IsSpace(word[|word| - 1])
    ensures RStrip(word + trail) == word
  {
    if trail != [] {
      var t := trail[..|trail| - 1];
      assert (word + trail)[..|word + trail| - 1] == word + t;
      RStripSkips(word, t);
    } else {
      assert word + trail == word;
    }
  }

  /** Index of the first occurrence of `c` in `s`. */
  function IndexOf(s: string, c: char): (i: nat)
    requires c in s
    ensures i < |s| && s[i] == c && c !in s[..i]
  {
    if s[0] == c then 0
    else
      var i := IndexOf(s[1..], c);
      assert s[..i + 1] == [s[0]] + s[1..][..i];
      i + 1
  }

  /** `s.split(sep)` with no limit: every occurrence of `sep` separates two
      fields, so `k` separators give `k + 1` fields, none containing `sep`. */
  function Split(s: string, sep: char): (fields: seq<string>)
    ensures |fields| == multiset(s)[sep] + 1
    ensures forall f | f in fields :: sep !in f
    decreases |s|
  {
    if sep !in s then [s]
    else
      var i := IndexOf(s, sep);
      assert s == s[..i] + [sep] + s[i + 1..];
      [s[..i]] + Split(s[i + 1..], sep)
  }

  /** `sep.join(fields)`. */
  function Join(fields: seq<string>, sep: char): string {
    if fields == [] then []
    else if |fields| == 1 then fields[0]
    else fields[0] + [sep] + Join(fields[1..], sep)
  }

  /** Joining the fields of a split gives back the string. */
  lemma {:induction false} JoinSplit(s: string, sep: char)
    ensures Join(Split(s, sep), sep) == s
    decreases |s|
  {
    if sep in s {
      var i := IndexOf(s, sep);
      JoinSplit(s[i + 1..], sep);
      assert s == s[..i] + [sep] + s[i + 1..];
    }
  }

  /** Splitting a join gives back the fields, provided no field holds the
      separator. */
  lemma {:induction false} SplitJoin(fields: seq<string>, sep: char)
    requires fields != []
    requires forall f | f in fields :: sep !in f
    ensures Split(Join(fields, sep), sep) == fields
  {
    if |fields| > 1 {
      var rest := Join(fields[1..], sep);
      assert Join(fields, sep) == fields[0] + [sep] + rest;
      assert fields[0] in fields;
      SplitAfter(fields[0], sep, rest);
      assert forall f | f in fields[1..] :: f in fields;
      SplitJoin(fields[1..], sep);
      assert fields == [fields[0]] + fields[1..];
    }
  }

  lemma {:induction false} IndexOfPrefix(p: string, c: char, rest: string)
    requires c !in p
    ensures IndexOf(p + [c] + rest, c) == |p|
  {
    if p != [] {
      assert (p + [c] + rest)[1..] == p[1..] + [c] + rest;
      IndexOfPrefix(p[1..], c, rest);
    }
  }

  lemma SplitAfter(field: string, sep: char, rest: string)
    requires sep !in field
    ensures Split(field + [sep] + rest, sep) == [field] + Split(rest, sep)
  {
    IndexOfPrefix(field, sep, rest);
    var s := field + [sep] + rest;
    assert s[|field|] == sep;
    assert s[..|field|] == field && s[|field| + 1..] == rest;
  }

  /** Joining separator-free fields and a last field, then splitting, gives
      back the fields followed by the split of the last one. */
  lemma {:induction false} SplitJoinLast(fields: seq<string>, last: string, sep: char)
    requires forall f | f in fields :: sep !in f
    ensures Split(Join(fields + [last], sep), sep) == fields + Split(last, sep)
  {
    if fields == [] {
      assert fields + [last] == [last];
    } else {
      var rest := fields[1..] + [last];
      var joined := Join(rest, sep);
      assert Join(fields + [last], sep) == fields[0] + [sep] + joined by {
        assert (fields + [last])[1..] == rest;
      }
      SplitAfter(fields[0], sep, joined);
      assert forall f | f in fields[1..] :: f in fields;
      SplitJoinLast(fields[1..], last, sep);
      ConsAppend(fields, Split(last, sep));
    }
  }

  /** Regrouping a concatenation after its first element. A lemma of its own
      keeps the sequence axioms out of the proofs that use it. */
  lemma ConsAppend<T>(s: seq<T>, t: seq<T>)
    requires s != []
    ensures [s[0]] + (s[1..] + t) == s + t
  {
  }

  /** Index of the first line boundary in `s`, or `|s|`. */
  function LineEnd(s: string): (i: nat)
    ensures i <= |s| && NoLineBreak(s[..i])
    ensures i < |s| ==> IsLineBreak(s[i])
  {
    if s == [] || IsLineBreak(s[0]) then 0
    else
      var i := LineEnd(s[1..]);
      assert s[..i + 1] == [s[0]] + s[1..][..i];
      i + 1
  }

  lemma {:induction false} LineEndPrefix(p: string, rest: string)
    requires NoLineBreak(p)
    requires rest == [] || IsLineBreak(rest[0])
    ensures LineEnd(p + rest) == |p|
  {
    if p != [] {
      assert !IsLineBreak(p[0]);
      assert (p + rest)[1..] == p[1..] + rest;
      LineEndPrefix(p[1..], rest);
    } else {
      assert p + rest == rest;
    }
  }

  /** `s.splitlines()`: the lines of `s` without their boundaries. A boundary
      ends a line rather than separating two, so a final boundary does not
      start an empty last line, and the empty string has no lines at all. */
  function SplitLines(s: string): (lines: seq<string>)
    ensures lines == [] <==> s == []
    ensures forall l | l in lines :: NoLineBreak(l)
    decreases |s|
  {
    if s == [] then []
    else
      var i := LineEnd(s);
      if i == |s| then [s]
      else
        var next := BreakEnd(s, i);
        [s[..i]] + SplitLines(s[next..])
  }

  /** Where the text after the boundary at `i` resumes: CR LF is one
      boundary, every other boundary is one character. */
  function BreakEnd(s: string, i: nat): (next: nat)
    requires i < |s|
    ensures i < next <= |s|
  {
    if s[i] == '\r' && i + 1 < |s| && s[i + 1] == '\n' then i + 2 else i + 1
  }

  /** A boundary that ends a line: CR LF, or one boundary character. */
  predicate IsBoundary(e: string) {
    e == "\r\n" || (|e| == 1 && IsLineBreak(e[0]))
  }

  /** The boundary that ended each line of `SplitLines(s)`, as
      `s.splitlines(keepends=True)` keeps it; empty after a last line that
      has none. */
  function LineEnds(s: string): seq<string>
    decreases |s|
  {
    if s == [] then []
    else
      var i := LineEnd(s);
      if i == |s| then [[]]
      else
        var next := BreakEnd(s, i);
        [s[i..next]] + LineEnds(s[next..])
  }

  /** Each line followed by its boundary, all concatenated. */
  function Rejoin(lines: seq<string>, ends: seq<string>): string
    requires |lines| == |ends|
  {
    if lines == [] then [] else lines[0] + ends[0] + Rejoin(lines[1..], ends[1..])
  }

  /** Lines joined with LF, the last one not empty, split back into the same
      lines. */
  lemma {:induction false} SplitLinesJoin(lines: seq<string>)
    requires lines != [] && lines[|lines| - 1] != []
    requires forall l | l in lines :: NoLineBreak(l)
    ensures SplitLines(Join(lines, '\n')) == lines
  {
    var l := lines[0];
    if |lines| == 1 {
      LineEndPrefix(l, []);
      assert l + [] == l;
    } else {
      var rest := Join(lines[1..], '\n');
      var s := Join(lines, '\n');
      assert s == l + ['\n'] + rest;
      LineEndPrefix(l, ['\n'] + rest);
      assert s == l + (['\n'] + rest);
      var i := LineEnd(s);
      assert s[..i] == l;
      assert s[i + 1..] == rest;
      SplitLinesJoin(lines[1..]);
      assert lines == [l] + lines[1..];
    }
  }

  /** The first line of a text that holds a boundary, and that boundary. */
  lemma SplitLinesStep(s: string)
    requires s != [] && LineEnd(s) < |s|
    ensures SplitLines(s) == [s[..LineEnd(s)]] + SplitLines(s[BreakEnd(s, LineEnd(s))..])
    ensures LineEnds(s) == [s[LineEnd(s)..BreakEnd(s, LineEnd(s))]] + LineEnds(s[BreakEnd(s, LineEnd(s))..])
  {
  }

  /** What `BreakEnd` skips over is a boundary. */
  lemma BoundaryAt(s: string, i: nat)
    requires i < |s| && IsLineBreak(s[i])
    ensures IsBoundary(s[i..BreakEnd(s, i)])
  {
    if BreakEnd(s, i) == i + 2 {
      assert s[i..i + 2] == "\r\n";
    } else {
      assert s[i..i + 1] == [s[i]];
    }
  }

  /** A text without a boundary is one line, ended by nothing. */
  lemma SplitLinesLast(s: string)
    requires s != [] && LineEnd(s) == |s|
    ensures SplitLines(s) == [s] && LineEnds(s) == [[]]
  {
    assert s[..|s|] == s;
  }

  lemma SliceThree(s: string, i: nat, j: nat)
    requires i <= j <= |s|
    ensures s == s[..i] + s[i..j] + s[j..]
  {
  }

  lemma RejoinCons(l: string, e: string, lines: seq<string>, ends: seq<string>)
    requires |lines| == |ends|
    ensures Rejoin([l] + lines, [e] + ends) == l + e + Rejoin(lines, ends)
  {
    assert ([l] + lines)[1..] == lines && ([e] + ends)[1..] == ends;
  }

  /** Nothing is lost by `splitlines`: the lines rejoined with the
      boundaries that ended them give back the text. */
  lemma {:induction false} SplitLinesRejoin(s: string)
    ensures |LineEnds(s)| == |SplitLines(s)|
    ensures Rejoin(SplitLines(s), LineEnds(s)) == s
    decreases |s|
  {
    if s != [] {
      var i := LineEnd(s);
      if i == |s| {
        SplitLinesLast(s);
        RejoinCons(s, [], [], []);
        assert s + [] + [] == s;
      } else {
        var next := BreakEnd(s, i);
        var rest := s[next..];
        SplitLinesStep(s);
        SplitLinesRejoin(rest);
        RejoinCons(s[..i], s[i..next], SplitLines(rest), LineEnds(rest));
        SliceThree(s, i, next);
      }
    }
  }

  /** The first line of a non-empty text, followed by its boundary, starts
      with the text's first character. */
  lemma FirstPiece(s: string)
    requires s != []
    ensures SplitLines(s) != [] && LineEnds(s) != []
    ensures [s[0]] <= SplitLines(s)[0] + LineEnds(s)[0]
  {
    var i := LineEnd(s);
    if i == |s| {
      SplitLinesLast(s);
      assert (s + [])[0] == s[0];
    } else {
      SplitLinesStep(s);
      var next := BreakEnd(s, i);
      var piece := s[..i] + s[i..next];
      assert |piece| >= 1;
      if i > 0 {
        assert piece[0] == s[..i][0];
      } else {
        assert piece[0] == s[i..next][0];
      }
    }
  }

  /** The first line ended by a lone CR: the text after it does not start
      with LF, or `BreakEnd` would have taken the two as one CR LF boundary. */
  lemma FirstCarriageReturn(s: string)
    requires 1 < |LineEnds(s)| && 1 < |SplitLines(s)|
    requires LineEnds(s)[0] == "\r"
    ensures !("\n" <= SplitLines(s)[1] + LineEnds(s)[1])
  {
    var i := LineEnd(s);
    if i == |s| {
      SplitLinesLast(s);
      assert false;
    }
    var next := BreakEnd(s, i);
    SplitLinesStep(s);
    var rest := s[next..];
    assert s[i..next] == "\r";
    assert next == i + 1 && s[i] == '\r';
    FirstPiece(rest);
    assert rest[0] == s[i + 1] != '\n';
    var piece := SplitLines(s)[1] + LineEnds(s)[1];
    assert piece == SplitLines(rest)[0] + LineEnds(rest)[0];
    assert piece[0] != '\n';
  }

  /** A line ended by a lone CR is never followed by a line that starts
      with LF. */
  lemma {:induction false} LoneCarriageReturn(s: string, k: nat)
    requires k + 1 < |LineEnds(s)| && k + 1 < |SplitLines(s)|
    requires LineEnds(s)[k] == "\r"
    ensures !("\n" <= SplitLines(s)[k + 1] + LineEnds(s)[k + 1])
    decreases |s|
  {
    if k == 0 {
      FirstCarriageReturn(s);
    } else {
      var i := LineEnd(s);
      if i == |s| {
        SplitLinesLast(s);
        assert false;
      }
      SplitLinesStep(s);
      LoneCarriageReturn(s[BreakEnd(s, i)..], k - 1);
    }
  }

  /** The boundaries between the lines. */
  lemma {:induction false} LineEndsBetween(s: string)
    ensures |LineEnds(s)| == |SplitLines(s)|
    ensures forall k | 0 <= k < |LineEnds(s)| - 1 :: IsBoundary(LineEnds(s)[k])
    decreases |s|
  {
    if s != [] {
      var i := LineEnd(s);
      if i == |s| {
        SplitLinesLast(s);
      } else {
        var next := BreakEnd(s, i);
        SplitLinesStep(s);
        BoundaryAt(s, i);
        LineEndsBetween(s[next..]);
        var ends, rest := LineEnds(s), LineEnds(s[next..]);
        forall k | 0 <= k < |ends| - 1 ensures IsBoundary(ends[k]) {
          if k > 0 {
            assert ends[k] == rest[k - 1];
          }
        }
      }
    }
  }

  /** The last line ends in a boundary, or in the end of the text, and then
      it is not empty. */
  lemma {:induction false} LastLineEnd(s: string)
    requires s != []
    ensures SplitLines(s) != [] && LineEnds(s) != []
    ensures var last, end := SplitLines(s)[|SplitLines(s)| - 1], LineEnds(s)[|LineEnds(s)| - 1];
      (end == [] && last != []) || IsBoundary(end)
    decreases |s|
  {
    var i := LineEnd(s);
    if i == |s| {
      SplitLinesLast(s);
    } else {
      var next := BreakEnd(s, i);
      SplitLinesStep(s);
      if next == |s| {
        BoundaryAt(s, i);
        assert LineEnds(s) == [s[i..next]];
      } else {
        LastLineEnd(s[next..]);
      }
    }
  }

  /** Every line but the last ends in a boundary, CR LF or one of the
      boundary characters; the last one in a boundary or the end of the
      text. A final boundary does not start an empty last line, and a CR
      directly followed by LF is never split into two boundaries. */
  lemma LineEndsBoundaries(s: string)
    ensures |LineEnds(s)| == |SplitLines(s)|
    ensures forall k | 0 <= k < |LineEnds(s)| - 1 :: IsBoundary(LineEnds(s)[k])
    ensures LineEnds(s) != [] ==>
      LineEnds(s)[|LineEnds(s)| - 1] == [] || IsBoundary(LineEnds(s)[|LineEnds(s)| - 1])
    ensures LineEnds(s) != [] && LineEnds(s)[|LineEnds(s)| - 1] == [] ==>
      SplitLines(s)[|SplitLines(s)| - 1] != []
    ensures forall k | 0 <= k < |LineEnds(s)| - 1 && LineEnds(s)[k] == "\r" ::
      !("\n" <= SplitLines(s)[k + 1] + LineEnds(s)[k + 1])
  {
    LineEndsBetween(s);
    if s != [] {
      LastLineEnd(s);
    }
    forall k | 0 <= k < |LineEnds(s)| - 1 && LineEnds(s)[k] == "\r"
      ensures !("\n" <= SplitLines(s)[k + 1] + LineEnds(s)[k + 1])
    {
      LoneCarriageReturn(s, k);
    }
  }
}
