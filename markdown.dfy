/** `formatContent` of `components/ChatMessage.tsx`: a message's text becomes one paragraph per
    line, and each line a run of plain, code, bold and italic pieces.

    Each level is a JavaScript `split` on a regular expression with one capturing group that
    spans the whole pattern, so the pieces alternate between text the pattern did not match and
    the matches themselves (`RegExp.prototype[@@split]` of ECMAScript). A piece is then
    classified by its shape alone (`startsWith`/`endsWith`), not by whether it was a match. */
module Markdown {
  import opened Base

  /** One rendered piece of a line: a text node, `<code>`, `<strong>` or `<em>` with its text. */
  datatype Inline = Text(s: string) | Code(s: string) | Bold(s: string) | Italic(s: string)

  type Width = w: nat | w > 0 witness 1

  /** The three patterns are all "`width` marks, one or more non-marks, `width` marks". */
  datatype Delimiter = Delimiter(mark: char, width: Width)

  /** `` /(`[^`]+`)/ `` */
  const CodeDelim := Delimiter('`', 1)
  /** `/(\*\*[^*]+\*\*)/` */
  const BoldDelim := Delimiter('*', 2)
  /** `/(\*[^*]+\*)/` */
  const ItalicDelim := Delimiter('*', 1)

  /** `width` marks in a row at position q. */
  predicate RunAt(s: string, q: nat, d: Delimiter)
  {
    q + d.width <= |s| && forall k :: q <= k < q + d.width ==> s[k] == d.mark
  }

  /** The strings the pattern matches in full. */
  predicate IsSpan(t: string, d: Delimiter)
  {
    |t| > 2 * d.width && RunAt(t, 0, d) && RunAt(t, |t| - d.width, d)
    && forall k :: d.width <= k < |t| - d.width ==> t[k] != d.mark
  }

  /** No substring of t is matched by the pattern. */
  predicate SpanFree(t: string, d: Delimiter)
  {
    forall a, b :: 0 <= a < b <= |t| ==> !IsSpan(t[a..b], d)
  }

  /** The end of the pattern's match anchored at q, if there is one. The non-mark run is greedy
      and is followed by a mark, so the closing run can only start at the first mark after the
      opening run. */
  function MatchAt(s: string, q: nat, d: Delimiter): (r: Option<nat>)
    ensures r.Some? ==> q < r.value <= |s|
  {
    if !RunAt(s, q, d) then None
    else match FindFirst(s[q + d.width..], IsMark(d))
      case None => None
      case Some(k) =>
        if k > 0 && RunAt(s, q + d.width + k, d) then Some(q + d.width + k + d.width) else None
  }

  /** The mark test the non-mark run stops at. */
  function IsMark(d: Delimiter): char -> bool
  {
    (c: char) => c == d.mark
  }

  lemma MatchIsSpan(s: string, q: nat, d: Delimiter, e: nat)
    requires q <= e <= |s|
    requires MatchAt(s, q, d) == Some(e)
    ensures IsSpan(s[q..e], d)
  {
    var w := d.width;
    var t := s[q..e];
    var rest := s[q + w..];
    var k := e - w - (q + w);
    assert FindFirst(rest, IsMark(d)) == Some(k);
    assert forall i :: 0 <= i < k ==> rest[i] != d.mark;
    forall i | w <= i < |t| - w
      ensures t[i] != d.mark
    {
      assert t[i] == rest[i - w];
    }
    forall i | 0 <= i < w
      ensures t[i] == d.mark
    {
      assert t[i] == s[q + i];
    }
    forall i | |t| - w <= i < |t|
      ensures t[i] == d.mark
    {
      assert t[i] == s[q + i];
    }
  }

  lemma SpanIsMatch(s: string, q: nat, d: Delimiter, e: nat)
    requires q <= e <= |s|
    requires IsSpan(s[q..e], d)
    ensures MatchAt(s, q, d) == Some(e)
  {
    var w := d.width;
    var t := s[q..e];
    var rest := s[q + w..];
    var k := e - w - (q + w);
    forall i | q <= i < q + w
      ensures s[i] == d.mark
    {
      assert s[i] == t[i - q];
    }
    forall i | e - w <= i < e
      ensures s[i] == d.mark
    {
      assert s[i] == t[i - q];
    }
    assert rest[k] == d.mark;
    forall i | 0 <= i < k
      ensures rest[i] != d.mark
    {
      assert rest[i] == t[w + i];
    }
    var r := FindFirst(rest, IsMark(d));
    assert IsMark(d)(rest[k]);
    assert r.Some?;
    assert r.value == k;
  }

  /** A match anchored at q ends at e exactly when `s[q..e]` is a string the pattern matches. */
  lemma MatchAtSpan(s: string, q: nat, d: Delimiter, e: nat)
    requires q <= e <= |s|
    ensures MatchAt(s, q, d) == Some(e) <==> IsSpan(s[q..e], d)
  {
    if MatchAt(s, q, d) == Some(e) {
      MatchIsSpan(s, q, d, e);
    }
    if IsSpan(s[q..e], d) {
      SpanIsMatch(s, q, d, e);
    }
  }

  /** `s.split(pattern)` from position q on, where p is where the current unmatched piece began:
      try the pattern anchored at q; on a match emit the piece before it and the match and go on
      after it, otherwise move q one on; at the end emit the last piece. */
  function SplitFrom(s: string, d: Delimiter, p: nat, q: nat): seq<string>
    requires p <= q <= |s|
    decreases |s| - q
  {
    if q == |s| then [s[p..]]
    else match MatchAt(s, q, d)
      case Some(e) => [s[p..q], s[q..e]] + SplitFrom(s, d, e, e)
      case None => SplitFrom(s, d, p, q + 1)
  }

  function Split(s: string, d: Delimiter): seq<string>
  {
    SplitFrom(s, d, 0, 0)
  }

  /** Odd in number, every piece with an odd index is a match, and the pieces in between hold
      no match at all. */
  predicate Alternates(r: seq<string>, d: Delimiter)
  {
    |r| % 2 == 1
    && forall i :: 0 <= i < |r| ==> if i % 2 == 1 then IsSpan(r[i], d) else SpanFree(r[i], d)
  }

  lemma SliceOfSlice(s: string, p: nat, q: nat, a: nat, b: nat)
    requires p <= q <= |s| && a < b <= q - p
    ensures s[p..q][a..b] == s[p + a..p + b]
  {
    var t := s[p..q];
    assert |t[a..b]| == |s[p + a..p + b]|;
    forall i | 0 <= i < b - a
      ensures t[a..b][i] == s[p + a..p + b][i]
    {
      assert t[a..b][i] == t[a + i] == s[p + a + i];
    }
  }

  lemma AlternatesCons(a: string, b: string, rest: seq<string>, d: Delimiter)
    requires SpanFree(a, d) && IsSpan(b, d) && Alternates(rest, d)
    ensures Alternates([a, b] + rest, d)
  {
    var r := [a, b] + rest;
    forall i | 2 <= i < |r|
      ensures if i % 2 == 1 then IsSpan(r[i], d) else SpanFree(r[i], d)
    {
      assert r[i] == rest[i - 2];
    }
  }

  /** Where no match starts, the text holds no match. */
  lemma NoMatchSpanFree(s: string, d: Delimiter, p: nat, q: nat)
    requires p <= q <= |s|
    requires forall k :: p <= k < q ==> MatchAt(s, k, d).None?
    ensures SpanFree(s[p..q], d)
  {
    forall a, b | 0 <= a < b <= q - p
      ensures !IsSpan(s[p..q][a..b], d)
    {
      SliceOfSlice(s, p, q, a, b);
      MatchAtSpan(s, p + a, d, p + b);
    }
  }

  lemma {:induction false} SplitFromConcat(s: string, d: Delimiter, p: nat, q: nat)
    requires p <= q <= |s|
    ensures Concat(SplitFrom(s, d, p, q)) == s[p..]
    decreases |s| - q
  {
    var r := SplitFrom(s, d, p, q);
    if q == |s| {
      assert Concat(r) == s[p..] + Concat([]);
    } else {
      match MatchAt(s, q, d)
      case Some(e) =>
        var rest := SplitFrom(s, d, e, e);
        SplitFromConcat(s, d, e, e);
        assert r[1..] == [s[q..e]] + rest;
        assert r[1..][1..] == rest;
        assert Concat(r) == s[p..q] + (s[q..e] + Concat(rest));
        assert s[p..] == s[p..q] + (s[q..e] + s[e..]);
      case None =>
        SplitFromConcat(s, d, p, q + 1);
    }
  }

  lemma {:induction false} SplitFromAlternates(s: string, d: Delimiter, p: nat, q: nat)
    requires p <= q <= |s|
    requires forall k :: p <= k < q ==> MatchAt(s, k, d).None?
    ensures Alternates(SplitFrom(s, d, p, q), d)
    decreases |s| - q
  {
    var r := SplitFrom(s, d, p, q);
    if q == |s| {
      NoMatchSpanFree(s, d, p, q);
      assert r[0] == s[p..q];
    } else {
      match MatchAt(s, q, d)
      case Some(e) =>
        var rest := SplitFrom(s, d, e, e);
        SplitFromAlternates(s, d, e, e);
        NoMatchSpanFree(s, d, p, q);
        MatchAtSpan(s, q, d, e);
        AlternatesCons(s[p..q], s[q..e], rest, d);
      case None =>
        SplitFromAlternates(s, d, p, q + 1);
    }
  }

  /** Splitting loses nothing, and cuts the text into unmatched and matched pieces by turns. */
  lemma SplitShape(s: string, d: Delimiter)
    ensures Concat(Split(s, d)) == s
    ensures Alternates(Split(s, d), d)
  {
    SplitFromConcat(s, d, 0, 0);
    SplitFromAlternates(s, d, 0, 0);
  }

  /** The pattern's matches over one text, as a function from start position to end. */
  function Matcher(s: string, d: Delimiter): nat -> Option<nat>
  {
    k => MatchAt(s, k, d)
  }

  /** No match starts anywhere in `[p, q)`. */
  predicate NoMatchIn(f: nat -> Option<nat>, p: nat, q: nat)
  {
    forall k :: p <= k < q ==> f(k).None?
  }

  /** The leftmost-first reading of a split, stated on the pieces: starting at p, the first
      piece runs up to the first position where a match starts (or to the end of the text,
      with no match anywhere in it), the second piece is that match, and the rest is read the
      same way from the end of the match. */
  predicate ScanFrom(s: string, f: nat -> Option<nat>, p: nat, r: seq<string>)
    decreases |r|
  {
    p <= |s| && |r| % 2 == 1
    && if |r| == 1 then r[0] == s[p..] && NoMatchIn(f, p, |s|)
       else
         var m := p + |r[0]|;
         var e := m + |r[1]|;
         m < e <= |s| && r[0] == s[p..m] && r[1] == s[m..e]
         && NoMatchIn(f, p, m) && f(m) == Some(e)
         && ScanFrom(s, f, e, r[2..])
  }

  lemma {:induction false} SplitFromScan(s: string, d: Delimiter, p: nat, q: nat)
    requires p <= q <= |s|
    requires NoMatchIn(Matcher(s, d), p, q)
    ensures ScanFrom(s, Matcher(s, d), p, SplitFrom(s, d, p, q))
    decreases |s| - q
  {
    if q == |s| {
      ScanLast(s, Matcher(s, d), p);
    } else {
      match MatchAt(s, q, d)
      case Some(e) =>
        SplitFromScan(s, d, e, e);
        ScanCons(s, Matcher(s, d), p, q, e, SplitFrom(s, d, e, e));
      case None =>
        SplitFromScan(s, d, p, q + 1);
    }
  }

  lemma ScanLast(s: string, f: nat -> Option<nat>, p: nat)
    requires p <= |s| && NoMatchIn(f, p, |s|)
    ensures ScanFrom(s, f, p, [s[p..]])
  {
  }

  lemma ScanCons(s: string, f: nat -> Option<nat>, p: nat, m: nat, e: nat, rest: seq<string>)
    requires p <= m < e <= |s|
    requires NoMatchIn(f, p, m) && f(m) == Some(e) && ScanFrom(s, f, e, rest)
    ensures ScanFrom(s, f, p, [s[p..m], s[m..e]] + rest)
  {
    var r := [s[p..m], s[m..e]] + rest;
    assert r[2..] == rest;
  }

  /** At most one list of pieces is a leftmost-first reading of the text. */
  lemma {:induction false} ScanUnique(s: string, f: nat -> Option<nat>, p: nat, r1: seq<string>, r2: seq<string>)
    requires ScanFrom(s, f, p, r1) && ScanFrom(s, f, p, r2)
    ensures r1 == r2
    decreases |r1|
  {
    if |r1| == 1 {
      ScanSingle(s, f, p, r1, r2);
    } else if |r2| == 1 {
      ScanSingle(s, f, p, r2, r1);
    } else {
      var m1, e1 := ScanHead(s, f, p, r1);
      var m2, e2 := ScanHead(s, f, p, r2);
      FirstMatch(f, p, m1, e1, m2, e2);
      ScanUnique(s, f, e1, r1[2..], r2[2..]);
      SameParts(r1, r2);
    }
  }

  /** A reading of a single piece leaves no room for a match, so every reading is that one. */
  lemma ScanSingle(s: string, f: nat -> Option<nat>, p: nat, r1: seq<string>, r2: seq<string>)
    requires ScanFrom(s, f, p, r1) && |r1| == 1 && ScanFrom(s, f, p, r2)
    ensures r2 == r1
  {
    if |r2| > 1 {
      var m, e := ScanHead(s, f, p, r2);
      assert false;
    }
  }

  /** The first two pieces of a longer reading: the text before the first match and that match. */
  lemma ScanHead(s: string, f: nat -> Option<nat>, p: nat, r: seq<string>) returns (m: nat, e: nat)
    requires ScanFrom(s, f, p, r) && |r| > 1
    ensures p <= m < e <= |s|
    ensures m == p + |r[0]| && e == m + |r[1]|
    ensures r[0] == s[p..m] && r[1] == s[m..e]
    ensures NoMatchIn(f, p, m) && f(m) == Some(e)
    ensures ScanFrom(s, f, e, r[2..])
  {
    m := p + |r[0]|;
    e := m + |r[1]|;
  }

  /** Two positions that each are the first match after p are the same match. */
  lemma FirstMatch(f: nat -> Option<nat>, p: nat, m1: nat, e1: nat, m2: nat, e2: nat)
    requires p <= m1 && p <= m2
    requires NoMatchIn(f, p, m1) && f(m1) == Some(e1)
    requires NoMatchIn(f, p, m2) && f(m2) == Some(e2)
    ensures m1 == m2 && e1 == e2
  {
  }

  lemma SameParts(r1: seq<string>, r2: seq<string>)
    requires |r1| > 1 && |r2| > 1
    requires r1[0] == r2[0] && r1[1] == r2[1] && r1[2..] == r2[2..]
    ensures r1 == r2
  {
    assert r1 == [r1[0], r1[1]] + r1[2..];
    assert r2 == [r2[0], r2[1]] + r2[2..];
  }

  /** `split` takes matches leftmost first and never overlapping: its pieces are the one
      leftmost-first reading of the text, and any reading of that kind is the split. */
  lemma SplitLeftmost(s: string, d: Delimiter, r: seq<string>)
    ensures ScanFrom(s, Matcher(s, d), 0, Split(s, d))
    ensures ScanFrom(s, Matcher(s, d), 0, r) <==> r == Split(s, d)
  {
    SplitFromScan(s, d, 0, 0);
    if ScanFrom(s, Matcher(s, d), 0, r) {
      ScanUnique(s, Matcher(s, d), 0, r, Split(s, d));
    }
  }

  lemma {:induction false} SplitFromPlain(s: string, d: Delimiter, p: nat, q: nat)
    requires p <= q <= |s|
    requires forall k :: q <= k < |s| ==> s[k] != d.mark
    ensures SplitFrom(s, d, p, q) == [s[p..]]
    decreases |s| - q
  {
    if q < |s| {
      assert s[q] != d.mark;
      assert !RunAt(s, q, d);
      SplitFromPlain(s, d, p, q + 1);
    }
  }

  /** Text without the mark is a single piece. */
  lemma SplitPlain(s: string, d: Delimiter)
    requires forall k :: 0 <= k < |s| ==> s[k] != d.mark
    ensures Split(s, d) == [s]
  {
    SplitFromPlain(s, d, 0, 0);
  }

  predicate IsNewline(c: char)
  {
    c == '\n'
  }

  /** `text.split('\n')` */
  function Lines(s: string): seq<string>
    decreases |s|
  {
    match FindFirst(s, IsNewline)
    case None => [s]
    case Some(i) => [s[..i]] + Lines(s[i + 1..])
  }

  /** `lines.join('\n')` */
  function JoinLines(ls: seq<string>): string
    requires |ls| > 0
  {
    if |ls| == 1 then ls[0] else ls[0] + "\n" + JoinLines(ls[1..])
  }

  lemma {:induction false} LinesCount(s: string)
    ensures |Lines(s)| == multiset(s)['\n'] + 1
    decreases |s|
  {
    match FindFirst(s, IsNewline)
    case None =>
      assert '\n' !in s;
    case Some(i) =>
      var tail := s[i + 1..];
      LinesCount(tail);
      assert s == s[..i] + [s[i]] + tail;
      assert '\n' !in s[..i] by {
        assert forall j :: 0 <= j < i ==> s[..i][j] == s[j];
      }
      assert multiset(s) == multiset(s[..i]) + multiset([s[i]]) + multiset(tail);
  }

  lemma {:induction false} LinesJoin(s: string)
    ensures JoinLines(Lines(s)) == s
    decreases |s|
  {
    match FindFirst(s, IsNewline)
    case None =>
    case Some(i) =>
      var tail := s[i + 1..];
      LinesJoin(tail);
      assert s == s[..i] + "\n" + tail;
      assert Lines(s)[1..] == Lines(tail);
  }

  lemma {:induction false} LinesNoBreak(s: string)
    ensures forall i :: 0 <= i < |Lines(s)| ==> '\n' !in Lines(s)[i]
    decreases |s|
  {
    match FindFirst(s, IsNewline)
    case None =>
    case Some(i) =>
      var tail := s[i + 1..];
      LinesNoBreak(tail);
      assert '\n' !in s[..i] by {
        assert forall j :: 0 <= j < i ==> s[..i][j] == s[j];
      }
      forall j | 0 <= j < |Lines(s)|
        ensures '\n' !in Lines(s)[j]
      {
        if j > 0 {
          assert Lines(s)[j] == Lines(tail)[j - 1];
        }
      }
  }

  /** One line per line break plus one; the lines hold no break and joined give the text back. */
  lemma LinesShape(s: string)
    ensures |Lines(s)| == multiset(s)['\n'] + 1
    ensures JoinLines(Lines(s)) == s
    ensures forall i :: 0 <= i < |Lines(s)| ==> '\n' !in Lines(s)[i]
  {
    LinesCount(s);
    LinesJoin(s);
    LinesNoBreak(s);
  }

  /** The innermost level: `*text*` of more than two characters becomes italic. */
  function ItalicPart(t: string): Inline
  {
    if StartsWith(t, "*") && EndsWith(t, "*") && |t| > 2 then Italic(Slice(t, 1)) else Text(t)
  }

  function ItalicParts(ts: seq<string>): (r: seq<Inline>)
    ensures |r| == |ts|
  {
    if ts == [] then [] else [ItalicPart(ts[0])] + ItalicParts(ts[1..])
  }

  /** A piece of the bold split: bold when it has the shape `**...**`, otherwise split for italic. */
  function BoldPart(t: string): seq<Inline>
  {
    if StartsWith(t, "**") && EndsWith(t, "**") then [Bold(Slice(t, 2))]
    else ItalicParts(Split(t, ItalicDelim))
  }

  function BoldParts(ts: seq<string>): seq<Inline>
  {
    if ts == [] then [] else BoldPart(ts[0]) + BoldParts(ts[1..])
  }

  /** A piece of the code split: code when it has the shape `` `...` ``, otherwise split for bold. */
  function CodePart(t: string): seq<Inline>
  {
    if StartsWith(t, "`") && EndsWith(t, "`") then [Code(Slice(t, 1))]
    else BoldParts(Split(t, BoldDelim))
  }

  function CodeParts(ts: seq<string>): seq<Inline>
  {
    if ts == [] then [] else CodePart(ts[0]) + CodeParts(ts[1..])
  }

  /** The children of one paragraph, flattened as React renders the nested arrays. */
  function FormatLine(line: string): seq<Inline>
  {
    CodeParts(Split(line, CodeDelim))
  }

  /** `formatContent`: one paragraph per line, so one per line break plus one, each the
      formatting of its line. */
  function FormatContent(text: string): (r: seq<seq<Inline>>)
    ensures |r| == |Lines(text)| == multiset(text)['\n'] + 1
    ensures forall i :: 0 <= i < |r| ==> r[i] == FormatLine(Lines(text)[i])
  {
    LinesCount(text);
    var ls := Lines(text);
    seq(|ls|, i requires 0 <= i < |ls| => FormatLine(ls[i]))
  }

  /** A code match becomes one code element of the text between its backticks, which holds no
      backtick and is not searched for bold or italic. */
  lemma CodeSpanPart(t: string)
    requires IsSpan(t, CodeDelim)
    ensures CodePart(t) == [Code(t[1..|t| - 1])]
    ensures '`' !in t[1..|t| - 1]
  {
    assert [t[0]] == t[..1];
    assert [t[|t| - 1]] == t[|t| - 1..];
  }

  /** A bold match becomes one bold element of the text between its `**`, which holds no `*`
      and is not searched for italic. */
  lemma BoldSpanPart(t: string)
    requires IsSpan(t, BoldDelim)
    ensures BoldPart(t) == [Bold(t[2..|t| - 2])]
    ensures '*' !in t[2..|t| - 2]
  {
    assert t[..2] == ['*', '*'];
    assert t[|t| - 2..] == ['*', '*'];
  }

  /** An italic match becomes an italic element of the text between its `*`, which holds no `*`. */
  lemma ItalicSpanPart(t: string)
    requires IsSpan(t, ItalicDelim)
    ensures ItalicPart(t) == Italic(t[1..|t| - 1])
    ensures '*' !in t[1..|t| - 1]
  {
    assert [t[0]] == t[..1];
    assert [t[|t| - 1]] == t[|t| - 1..];
  }

  /** A piece with the italic shape of at most two characters stays text. */
  lemma ShortItalicIsText(t: string)
    requires |t| <= 2
    ensures ItalicPart(t) == Text(t)
  {
  }

  /** A line with neither backtick nor asterisk is one text element holding the line. */
  lemma PlainLine(line: string)
    requires forall k :: 0 <= k < |line| ==> line[k] != '`' && line[k] != '*'
    ensures FormatLine(line) == [Text(line)]
  {
    SplitPlain(line, CodeDelim);
    SplitPlain(line, BoldDelim);
    SplitPlain(line, ItalicDelim);
    if line != [] {
      assert line[0] == line[..1][0];
    }
    assert !StartsWith(line, "`") && !StartsWith(line, "**");
    assert CodeParts([line]) == CodePart(line) + CodeParts([]);
    assert BoldParts([line]) == BoldPart(line) + BoldParts([]);
  }

  /** Shape, not matching, decides: a lone backtick is an empty code element, and so are two. */
  lemma LoneBackticks()
    ensures FormatLine("`") == [Code("")]
    ensures FormatLine("``") == [Code("")]
  {
    assert MatchAt("`", 0, CodeDelim).None?;
    assert Split("`", CodeDelim) == ["`"];
    assert CodeParts(["`"]) == CodePart("`") + CodeParts([]);
    assert MatchAt("``", 0, CodeDelim).None?;
    assert MatchAt("``", 1, CodeDelim).None?;
    assert Split("``", CodeDelim) == ["``"];
    assert CodeParts(["``"]) == CodePart("``") + CodeParts([]);
  }

  /** A match at either end of a line leaves an empty text piece beside it. */
  lemma ItalicLine(line: string)
    requires line == "*i*"
    ensures FormatLine(line) == [Text(""), Italic(line[1..2]), Text("")]
  {
    SplitPlain(line, CodeDelim);
    assert MatchAt(line, 0, BoldDelim).None?;
    assert MatchAt(line, 1, BoldDelim).None?;
    assert MatchAt(line, 2, BoldDelim).None?;
    assert SplitFrom(line, BoldDelim, 0, 3) == [line[0..]];
    assert SplitFrom(line, BoldDelim, 0, 2) == SplitFrom(line, BoldDelim, 0, 3);
    assert SplitFrom(line, BoldDelim, 0, 1) == SplitFrom(line, BoldDelim, 0, 2);
    assert Split(line, BoldDelim) == SplitFrom(line, BoldDelim, 0, 1);
    assert line[0..] == line;
    assert line[0..3] == line && line[0..0] == "" && line[3..] == "";
    SpanIsMatch(line, 0, ItalicDelim, 3);
    assert SplitFrom(line, ItalicDelim, 3, 3) == [line[3..]];
    assert Split(line, ItalicDelim) == [line[0..0], line[0..3]] + SplitFrom(line, ItalicDelim, 3, 3);
    assert Split(line, ItalicDelim) == ["", line, ""];
    ItalicSpanPart(line);
    assert ["", line, ""][1..] == [line, ""] && [line, ""][1..] == [""];
    assert ItalicPart("") == Text("");
    assert ItalicParts([""]) == [Text("")] + ItalicParts([]);
    assert ItalicParts([line, ""]) == [Italic(line[1..2])] + ItalicParts([""]);
    assert ItalicParts(["", line, ""]) == [Text(""), Italic(line[1..2]), Text("")];
    assert !StartsWith(line, "**");
    assert BoldPart(line) == [Text(""), Italic(line[1..2]), Text("")];
    assert BoldParts([line]) == BoldPart(line) + BoldParts([]);
    assert !StartsWith(line, "`");
    assert CodePart(line) == BoldParts([line]);
    assert CodeParts([line]) == CodePart(line) + CodeParts([]);
  }
}
