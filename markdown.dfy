/**
  The text formatter of the forecast page. The forecast service returns its
  risk and impact analyses as loosely Markdown-shaped text; the page cuts it
  into `### ` sections (each with a title and a list of bullets or
  paragraphs), or, when there are no headings, into paragraphs, and rewrites
  `**x**` and `*x*` as `<strong>` and `<em>`. The handful of regular
  expressions involved are written out below as a `Pattern` with its
  leftmost-match semantics.
*/
module Markdown {
  import opened ClimaTypes
  import opened JsStrings

  // ------------------------------------------------------------ patterns

  /** The number of leading white-space characters: the greedy `\s*`. */
  function SpaceRun(t: string): (n: nat)
    ensures n <= |t|
  {
    if |t| > 0 && IsSpace(t[0]) then 1 + SpaceRun(t[1..]) else 0
  }

  lemma {:induction false} SpaceRunIsMaximal(t: string)
    ensures AllSpace(t[..SpaceRun(t)])
    ensures SpaceRun(t) == |t| || !IsSpace(t[SpaceRun(t)])
  {
    if |t| > 0 && IsSpace(t[0]) {
      SpaceRunIsMaximal(t[1..]);
      assert t[..SpaceRun(t)] == [t[0]] + t[1..][..SpaceRun(t[1..])];
    }
  }

  /** The number of leading newlines: the greedy `\n+` once two newlines are seen. */
  function NewlineRun(t: string): (n: nat)
    ensures n <= |t|
  {
    if |t| > 0 && t[0] == '\n' then 1 + NewlineRun(t[1..]) else 0
  }

  lemma {:induction false} NewlineRunIsMaximal(t: string)
    ensures forall j :: 0 <= j < NewlineRun(t) ==> t[j] == '\n'
    ensures NewlineRun(t) == |t| || t[NewlineRun(t)] != '\n'
  {
    if |t| > 0 && t[0] == '\n' {
      NewlineRunIsMaximal(t[1..]);
      assert forall j :: 1 <= j < NewlineRun(t) ==> t[j] == t[1..][j - 1];
    }
  }

  /** The text opens with `h` hash signs. */
  predicate HashRun(t: string, h: nat)
    decreases h
  {
    h == 0 || (|t| > 0 && t[0] == '#' && HashRun(t[1..], h - 1))
  }

  /**
    The separators the page splits on:
    `Heading(3)` is `/###\s+/`, `Heading(4)` is `/####\s+/`,
    `Bullet` is `/\n\s*-\s+/` and `ParagraphBreak` is `/\n\n+/`.
  */
  datatype Pattern = Heading(hashes: nat) | Bullet | ParagraphBreak

  /**
    The length of the match of `p` at the very start of `t`, or 0 when it
    does not match there. Every quantifier is greedy and none can give back
    characters usefully, so each match is the longest one.
  */
  function MatchLength(p: Pattern, t: string): (n: nat)
    ensures n == 0 || 1 <= n <= |t|
  {
    match p
    case Heading(h) =>
      if h < |t| && HashRun(t, h) && IsSpace(t[h]) then h + SpaceRun(t[h..]) else 0
    case Bullet =>
      if |t| > 0 && t[0] == '\n' then
        var k := 1 + SpaceRun(t[1..]);
        if k + 1 < |t| && t[k] == '-' && IsSpace(t[k + 1]) then k + 1 + SpaceRun(t[k + 1..]) else 0
      else 0
    case ParagraphBreak =>
      if |t| >= 2 && t[0] == '\n' && t[1] == '\n' then NewlineRun(t) else 0
  }

  datatype Match = Match(start: nat, len: nat)

  /** `p` matches at no position from `lo` up to, not including, `hi`. */
  ghost predicate NoMatchBetween(s: string, p: Pattern, lo: nat, hi: nat)
    decreases hi - lo
  {
    lo >= hi || (lo <= |s| && MatchLength(p, s[lo..]) == 0 && NoMatchBetween(s, p, lo + 1, hi))
  }

  lemma {:induction false} NoMatchAt(s: string, p: Pattern, lo: nat, hi: nat, j: nat)
    requires NoMatchBetween(s, p, lo, hi) && lo <= j < hi && j <= |s|
    ensures MatchLength(p, s[j..]) == 0
    decreases j - lo
  {
    if lo < j {
      NoMatchAt(s, p, lo + 1, hi, j);
    }
  }

  /** The leftmost match of `p` at or after position `k`. */
  function FirstMatchFrom(s: string, p: Pattern, k: nat): (r: Option<Match>)
    requires k <= |s|
    decreases |s| - k
    ensures r.Some? ==> k <= r.value.start && r.value.start + r.value.len <= |s| && r.value.len > 0
    ensures r.Some? ==> MatchLength(p, s[r.value.start..]) == r.value.len
    ensures r.Some? ==> NoMatchBetween(s, p, k, r.value.start)
    ensures r.None? ==> NoMatchBetween(s, p, k, |s| + 1)
  {
    var n := MatchLength(p, s[k..]);
    if n > 0 then Some(Match(k, n))
    else if k == |s| then None
    else
      var r := FirstMatchFrom(s, p, k + 1);
      assert MatchLength(p, s[k..]) == 0;
      r
  }

  lemma {:induction false} HashRunExtends(t: string, u: string, h: nat)
    requires HashRun(t, h)
    ensures HashRun(t + u, h)
    decreases h
  {
    if h > 0 {
      assert (t + u)[1..] == t[1..] + u;
      HashRunExtends(t[1..], u, h - 1);
    }
  }

  lemma {:induction false} SpaceRunExtends(t: string, u: string)
    requires SpaceRun(t) < |t|
    ensures SpaceRun(t + u) == SpaceRun(t)
  {
    if IsSpace(t[0]) {
      assert (t + u)[1..] == t[1..] + u;
      SpaceRunExtends(t[1..], u);
    }
  }

  /** A match at the start of a text is still a match once more text follows. */
  lemma MatchExtends(p: Pattern, t: string, u: string)
    ensures MatchLength(p, t) > 0 ==> MatchLength(p, t + u) > 0
  {
    if MatchLength(p, t) > 0 {
      match p
      case Heading(h) =>
        HashRunExtends(t, u, h);
        assert (t + u)[h] == t[h];
      case Bullet =>
        var k := 1 + SpaceRun(t[1..]);
        assert (t + u)[1..] == t[1..] + u;
        SpaceRunExtends(t[1..], u);
        assert (t + u)[k] == t[k] && (t + u)[k + 1] == t[k + 1];
      case ParagraphBreak =>
        assert (t + u)[0] == '\n' && (t + u)[1] == '\n';
    }
  }

  /** No match of `p` starts anywhere in `x`. */
  ghost predicate NoMatchIn(x: string, p: Pattern) {
    forall j :: 0 <= j < |x| ==> MatchLength(p, x[j..]) == 0
  }

  /**
    When no match starts before `i` in `s`, none starts in `s[..i]` on its
    own either: a match there would extend to one in `s`.
  */
  lemma {:induction false} PieceBeforeMatchHasNoMatch(s: string, p: Pattern, i: nat)
    requires i <= |s| && NoMatchBetween(s, p, 0, i)
    ensures NoMatchIn(s[..i], p)
  {
    var piece := s[..i];
    forall j | 0 <= j < |piece|
      ensures MatchLength(p, piece[j..]) == 0
    {
      assert piece[j..] == s[j..i];
      assert s[j..i] + s[i..] == s[j..];
      NoMatchAt(s, p, 0, i, j);
      MatchExtends(p, piece[j..], s[i..]);
    }
  }

  /** With no match at any position, the whole text holds none. */
  lemma NoMatchAnywhere(s: string, p: Pattern)
    requires NoMatchBetween(s, p, 0, |s| + 1)
    ensures NoMatchIn(s, p)
  {
    forall j | 0 <= j < |s|
      ensures MatchLength(p, s[j..]) == 0
    {
      NoMatchAt(s, p, 0, |s| + 1, j);
    }
  }

  /** The pieces with the separators put back between them. */
  function Interleave(pieces: seq<string>, seps: seq<string>): string
    requires |pieces| == |seps| + 1
    decreases |seps|
  {
    if seps == [] then pieces[0] else pieces[0] + seps[0] + Interleave(pieces[1..], seps[1..])
  }

  /** What a split produces: the pieces, and the separators it consumed between them. */
  datatype SplitResult = SplitResult(pieces: seq<string>, separators: seq<string>)

  /** The result with its first piece and separator taken off. */
  function Tail(r: SplitResult): SplitResult
    requires |r.pieces| >= 1 && |r.separators| >= 1
  {
    SplitResult(r.pieces[1..], r.separators[1..])
  }

  /**
    `r` is the split of `s` at the leftmost matches of `p`: the first piece
    runs up to the first position where `p` matches, the first separator is
    exactly that match, and the rest is the split of what follows it; with no
    separator left, `p` matches nowhere and the piece is the whole text.
  */
  ghost predicate IsLeftmostSplit(r: SplitResult, s: string, p: Pattern)
    decreases |r.separators|
  {
    && |r.pieces| == |r.separators| + 1
    && if r.separators == [] then
         r.pieces[0] == s && NoMatchBetween(s, p, 0, |s| + 1)
       else
         var i := |r.pieces[0]|;
         var j := i + |r.separators[0]|;
         && i < j <= |s|
         && r.pieces[0] == s[..i] && r.separators[0] == s[i..j]
         && NoMatchBetween(s, p, 0, i)
         && MatchLength(p, s[i..]) == j - i
         && IsLeftmostSplit(Tail(r), s[j..], p)
  }

  /** Two positions that both start a match with no match before them are the same position. */
  lemma LeftmostMatchUnique(s: string, p: Pattern, i1: nat, i2: nat)
    requires i1 <= |s| && NoMatchBetween(s, p, 0, i1) && MatchLength(p, s[i1..]) > 0
    requires i2 <= |s| && NoMatchBetween(s, p, 0, i2) && MatchLength(p, s[i2..]) > 0
    ensures i1 == i2
  {
    forall k | 0 <= k < i1
      ensures MatchLength(p, s[k..]) == 0
    {
      NoMatchAt(s, p, 0, i1, k);
    }
    forall k | 0 <= k < i2
      ensures MatchLength(p, s[k..]) == 0
    {
      NoMatchAt(s, p, 0, i2, k);
    }
  }

  /** A split with no separator is the only leftmost split: the pattern matches nowhere. */
  lemma LeftmostSplitWithoutMatch(r1: SplitResult, r2: SplitResult, s: string, p: Pattern)
    requires IsLeftmostSplit(r1, s, p) && IsLeftmostSplit(r2, s, p) && r1.separators == []
    ensures r1 == r2
  {
    NoMatchAnywhere(s, p);
    assert r2.separators == [];
    assert r1.pieces == [s] == r2.pieces;
  }

  /** Two leftmost splits with separators start with the same piece and the same separator. */
  lemma LeftmostSplitFirstCut(r1: SplitResult, r2: SplitResult, s: string, p: Pattern)
    requires IsLeftmostSplit(r1, s, p) && IsLeftmostSplit(r2, s, p)
    requires r1.separators != [] && r2.separators != []
    ensures r1.pieces[0] == r2.pieces[0] && r1.separators[0] == r2.separators[0]
  {
    LeftmostMatchUnique(s, p, |r1.pieces[0]|, |r2.pieces[0]|);
  }

  /** Two results with the same first piece, the same first separator and the same rest are the same. */
  lemma SameCutSameSplit(r1: SplitResult, r2: SplitResult)
    requires |r1.pieces| >= 1 && |r1.separators| >= 1 && |r2.pieces| >= 1 && |r2.separators| >= 1
    requires r1.pieces[0] == r2.pieces[0] && r1.separators[0] == r2.separators[0] && Tail(r1) == Tail(r2)
    ensures r1 == r2
  {
    assert r1.pieces == [r1.pieces[0]] + Tail(r1).pieces;
    assert r2.pieces == [r2.pieces[0]] + Tail(r2).pieces;
    assert r1.separators == [r1.separators[0]] + Tail(r1).separators;
    assert r2.separators == [r2.separators[0]] + Tail(r2).separators;
  }

  /** There is only one leftmost split: any two agree piece for piece and separator for separator. */
  lemma {:induction false} LeftmostSplitUnique(r1: SplitResult, r2: SplitResult, s: string, p: Pattern)
    requires IsLeftmostSplit(r1, s, p) && IsLeftmostSplit(r2, s, p)
    ensures r1 == r2
    decreases |s|
  {
    if r1.separators == [] {
      LeftmostSplitWithoutMatch(r1, r2, s, p);
    } else if r2.separators == [] {
      LeftmostSplitWithoutMatch(r2, r1, s, p);
    } else {
      LeftmostSplitFirstCut(r1, r2, s, p);
      LeftmostSplitUnique(Tail(r1), Tail(r2), s[|r1.pieces[0]| + |r1.separators[0]|..], p);
      SameCutSameSplit(r1, r2);
    }
  }

  /** The pieces of a leftmost split, with the separators put back between them, give back the text. */
  lemma {:induction false} LeftmostSplitRebuilds(r: SplitResult, s: string, p: Pattern)
    requires IsLeftmostSplit(r, s, p)
    ensures Interleave(r.pieces, r.separators) == s
    decreases |r.separators|
  {
    if r.separators != [] {
      var i := |r.pieces[0]|;
      var j := i + |r.separators[0]|;
      LeftmostSplitRebuilds(Tail(r), s[j..], p);
      assert s == s[..i] + s[i..j] + s[j..];
    }
  }

  /** No piece of a leftmost split holds a match of the pattern. */
  lemma {:induction false} LeftmostSplitPiecesHaveNoMatch(r: SplitResult, s: string, p: Pattern)
    requires IsLeftmostSplit(r, s, p)
    ensures forall k :: 0 <= k < |r.pieces| ==> NoMatchIn(r.pieces[k], p)
    decreases |r.separators|
  {
    if r.separators == [] {
      NoMatchAnywhere(s, p);
    } else {
      var i := |r.pieces[0]|;
      var j := i + |r.separators[0]|;
      PieceBeforeMatchHasNoMatch(s, p, i);
      LeftmostSplitPiecesHaveNoMatch(Tail(r), s[j..], p);
      assert forall k :: 1 <= k < |r.pieces| ==> r.pieces[k] == Tail(r).pieces[k - 1];
    }
  }

  /** `s.split(p)` together with the text of each leftmost match it cut out. */
  function SplitParts(s: string, p: Pattern): (r: SplitResult)
    ensures IsLeftmostSplit(r, s, p)
    decreases |s|
  {
    match FirstMatchFrom(s, p, 0)
    case None => SplitResult([s], [])
    case Some(m) =>
      var rest := SplitParts(s[m.start + m.len..], p);
      var r := SplitResult([s[..m.start]] + rest.pieces, [s[m.start..m.start + m.len]] + rest.separators);
      assert Tail(r) == rest;
      r
  }

  /** `s.split(p)`: the pieces between the successive leftmost matches. */
  function Split(s: string, p: Pattern): (r: seq<string>)
    ensures |r| >= 1
  {
    SplitParts(s, p).pieces
  }

  // -------------------------------------------------- the trailing marker

  predicate TrailingMarkerAt(s: string, i: nat) {
    i + 3 <= |s| && s[i..i + 3] == "###" && AllSpace(s[i + 3..])
  }

  function TrailingMarkerFrom(s: string, k: nat): (r: Option<nat>)
    requires k <= |s|
    decreases |s| - k
    ensures r.Some? ==> k <= r.value && TrailingMarkerAt(s, r.value)
    ensures r.None? ==> forall j :: k <= j <= |s| ==> !TrailingMarkerAt(s, j)
  {
    if TrailingMarkerAt(s, k) then Some(k)
    else if k == |s| then None
    else TrailingMarkerFrom(s, k + 1)
  }

  /**
    `content.replace(/###\s*$/, '')`: a `###` followed by nothing but white
    space at the end of the text is cut off, with that white space; any
    other text is left as it is.
  */
  function StripTrailingMarker(s: string): (r: string)
    ensures r == s <==> forall j :: 0 <= j <= |s| ==> !TrailingMarkerAt(s, j)
    ensures r != s ==> |r| < |s| && r == s[..|r|] && TrailingMarkerAt(s, |r|)
  {
    match TrailingMarkerFrom(s, 0)
    case None => s
    case Some(i) => s[..i]
  }

  // ------------------------------------------------------ section parts

  /** No line terminator and no `-`: what a title may hold. */
  predicate TitleChars(s: string) {
    forall j :: 0 <= j < |s| ==> !IsLineTerminator(s[j]) && s[j] != '-'
  }

  /** Trimming keeps a piece of the text, so it keeps every property of all its characters. */
  lemma TrimKeepsTitleChars(x: string)
    requires TitleChars(x)
    ensures TitleChars(Trim(x))
  {
    var t := Trim(x);
    var a := TrimOffset(x);
    TrimIsSlice(x);
    assert forall i :: 0 <= i < |t| ==> t[i] == x[a + i];
  }

  /** What ends the lazy `(.*?)` of a title: a newline, a carriage return or `-`. */
  predicate IsTitleStop(c: char) {
    c == '\n' || c == '\r' || c == '-'
  }

  /** The end of a title: the first newline, carriage return or `-`, provided `.` reaches it. */
  function TitleEnd(s: string, k: nat): (r: Option<nat>)
    requires k <= |s|
    decreases |s| - k
    ensures r.Some? ==> k <= r.value < |s| && IsTitleStop(s[r.value])
    ensures r.Some? ==> TitleChars(s[k..r.value])
  {
    if k == |s| then None
    else if IsTitleStop(s[k]) then Some(k)
    else if IsLineTerminator(s[k]) then None
    else
      var r := TitleEnd(s, k + 1);
      assert r.Some? ==> s[k..r.value] == [s[k]] + s[k + 1..r.value];
      r
  }

  /** When no end is found, no stop character can be reached by `.` from `k`: the title pattern fails. */
  lemma {:induction false} TitleEndNoneMeansNoStop(s: string, k: nat)
    requires k <= |s| && TitleEnd(s, k).None?
    ensures forall j :: k <= j < |s| && TitleChars(s[k..j]) ==> !IsTitleStop(s[j])
    decreases |s| - k
  {
    if k < |s| && !IsLineTerminator(s[k]) {
      TitleEndNoneMeansNoStop(s, k + 1);
      forall j | k + 1 <= j < |s| && TitleChars(s[k..j])
        ensures TitleChars(s[k + 1..j])
      {
        assert s[k + 1..j] == s[k..j][1..];
      }
    } else if k < |s| {
      forall j | k < j < |s|
        ensures !TitleChars(s[k..j])
      {
        assert s[k..j][0] == s[k];
      }
    }
  }

  /**
    `section.match(/^(.*?)(?:[\n\r]|-)/)`, trimmed: the text before the first
    line break or `-`, or "" when the first line has neither. The title is
    trimmed and lies within the first line.
  */
  function SectionTitle(section: string): (t: string)
    ensures IsTrimmed(t)
    ensures TitleChars(t)
    ensures TitleEnd(section, 0).None? ==> t == ""
    ensures TitleEnd(section, 0).Some? ==> t == Trim(section[..TitleEnd(section, 0).value])
  {
    match TitleEnd(section, 0)
    case None => ""
    case Some(j) =>
      TrimKeepsTitleChars(section[..j]);
      Trim(section[..j])
  }

  /**
    The section with its title taken out (first occurrence) and trimmed; with
    no title, the whole section trimmed.
  */
  function ContentWithoutTitle(section: string): (r: string)
    ensures IsTrimmed(r)
    ensures SectionTitle(section) == "" ==> r == Trim(section)
    ensures TitleEnd(section, 0).Some? ==> r == Trim(section[TitleEnd(section, 0).value..])
  {
    var title := SectionTitle(section);
    TitleRemoval(section);
    if title == "" then ReplaceEmptyIsIdentity(section); Trim(ReplaceFirst(section, title, ""))
    else Trim(ReplaceFirst(section, title, ""))
  }

  /** With the title found at end `e`, taking it out and trimming leaves the text from `e` on, trimmed. */
  lemma TitleRemoval(section: string)
    ensures TitleEnd(section, 0).Some? ==>
      Trim(ReplaceFirst(section, SectionTitle(section), "")) == Trim(section[TitleEnd(section, 0).value..])
  {
    match TitleEnd(section, 0)
    case None =>
    case Some(e) =>
      assert section == section[..e] + section[e..];
      TitleRemovalLeavesRest(section[..e], section[e..]);
  }

  /**
    Removing the first occurrence of `x.trim()` from `x + y` and trimming
    gives `y.trim()`: only white space comes before the trimmed text in `x`,
    so its first occurrence is where `trim()` found it, and only white space
    is left around it.
  */
  lemma TitleRemovalLeavesRest(x: string, y: string)
    ensures Trim(ReplaceFirst(x + y, Trim(x), "")) == Trim(y)
  {
    var s, t := x + y, Trim(x);
    if t == "" {
      ReplaceEmptyIsIdentity(s);
      TrimEmptyIffAllSpace(x);
      TrimSkipsLeadingSpace(x, y);
    } else {
      var o := TrimOffset(x);
      TrimmedTextFirstOccurrence(x, y);
      TrimIsSlice(x);
      RemoveFromPrefix(x, y, t, o);
      AllSpaceConcat(x[..o], x[o + |t|..]);
      TrimSkipsLeadingSpace(x[..o] + x[o + |t|..], y);
    }
  }

  /** `.map(x => x.trim()).filter(x => x)`. */
  function TrimmedNonEmpty(pieces: seq<string>): (r: seq<string>)
    ensures |r| <= |pieces|
    ensures forall i :: 0 <= i < |r| ==> r[i] != "" && IsTrimmed(r[i])
  {
    if pieces == [] then []
    else
      var t := Trim(pieces[0]);
      var rest := TrimmedNonEmpty(pieces[1..]);
      if t == "" then rest
      else
        var r := [t] + rest;
        assert r[0] == t && r[1..] == rest;
        r
  }

  /** No piece with text is lost: its trimmed text is among the items. */
  lemma {:induction false} TrimmedNonEmptyKeepsText(pieces: seq<string>, i: nat)
    requires i < |pieces| && Trim(pieces[i]) != ""
    ensures Trim(pieces[i]) in TrimmedNonEmpty(pieces)
  {
    var rest := TrimmedNonEmpty(pieces[1..]);
    var t := Trim(pieces[0]);
    if i == 0 {
      assert TrimmedNonEmpty(pieces) == [t] + rest;
    } else {
      assert pieces[i] == pieces[1..][i - 1];
      TrimmedNonEmptyKeepsText(pieces[1..], i - 1);
      if t == "" {
        assert TrimmedNonEmpty(pieces) == rest;
      } else {
        assert TrimmedNonEmpty(pieces) == [t] + rest;
      }
    }
  }

  /** The map-and-filter works piece by piece: it distributes over concatenation. */
  lemma {:induction false} TrimmedNonEmptyAppend(a: seq<string>, b: seq<string>)
    ensures TrimmedNonEmpty(a + b) == TrimmedNonEmpty(a) + TrimmedNonEmpty(b)
    decreases |a|
  {
    if a == [] {
      assert a + b == b;
    } else {
      assert (a + b)[0] == a[0] && (a + b)[1..] == a[1..] + b;
      TrimmedNonEmptyAppend(a[1..], b);
    }
  }

  /** One piece gives its trimmed text, or nothing when it is blank. */
  lemma TrimmedNonEmptyOne(x: string)
    ensures TrimmedNonEmpty([x]) == if Trim(x) == "" then [] else [Trim(x)]
  {
    assert [x][1..] == [];
  }

  /** `.filter(section => section.trim())`: the pieces that are not all white space, untrimmed. */
  function KeepNonBlank(pieces: seq<string>): (r: seq<string>)
    ensures |r| <= |pieces|
    ensures forall i :: 0 <= i < |r| ==> Trim(r[i]) != "" && r[i] in pieces
    ensures forall i :: 0 <= i < |pieces| && Trim(pieces[i]) != "" ==> pieces[i] in r
  {
    if pieces == [] then []
    else
      var rest := KeepNonBlank(pieces[1..]);
      assert forall i :: 1 <= i < |pieces| ==> pieces[i] == pieces[1..][i - 1];
      if Trim(pieces[0]) == "" then rest else [pieces[0]] + rest
  }

  /** The filter works piece by piece: it distributes over concatenation. */
  lemma {:induction false} KeepNonBlankAppend(a: seq<string>, b: seq<string>)
    ensures KeepNonBlank(a + b) == KeepNonBlank(a) + KeepNonBlank(b)
    decreases |a|
  {
    if a == [] {
      assert a + b == b;
    } else {
      assert (a + b)[0] == a[0] && (a + b)[1..] == a[1..] + b;
      KeepNonBlankAppend(a[1..], b);
    }
  }

  /** One piece is kept as it is exactly when it is not blank. */
  lemma KeepNonBlankOne(x: string)
    ensures KeepNonBlank([x]) == if Trim(x) == "" then [] else [x]
  {
    assert [x][1..] == [];
  }

  /**
    The items of a section body. Under a `###` heading: bullets when the body
    contains "- ", paragraphs otherwise; under a `####` heading always bullets.
  */
  function SectionItems(level: nat, content: string): (r: seq<string>)
    ensures forall i :: 0 <= i < |r| ==> r[i] != "" && IsTrimmed(r[i])
    ensures level == 3 && !Contains(content, "- ") ==> r == TrimmedNonEmpty(Split(content, ParagraphBreak))
    ensures level != 3 || Contains(content, "- ") ==> r == TrimmedNonEmpty(Split(content, Bullet))
  {
    if level == 3 && !Contains(content, "- ") then TrimmedNonEmpty(Split(content, ParagraphBreak))
    else TrimmedNonEmpty(Split(content, Bullet))
  }

  // ------------------------------------------------- inline emphasis

  /**
    The lazy `(.*?)` of the emphasis patterns: the first closing delimiter at
    or after `k` on the same line.
  */
  function FindClosing(s: string, d: string, k: nat): (r: Option<nat>)
    requires k <= |s|
    decreases |s| - k
    ensures r.Some? ==> k <= r.value && r.value + |d| <= |s| && s[r.value..r.value + |d|] == d
    ensures r.Some? ==> forall j {:trigger IsLineTerminator(s[j])} :: k <= j < r.value ==> !IsLineTerminator(s[j])
    ensures r.Some? ==> forall j {:trigger OccursAt(s, d, j)} :: k <= j < r.value ==> !OccursAt(s, d, j)
  {
    if k + |d| <= |s| && s[k..k + |d|] == d then Some(k)
    else if k == |s| || IsLineTerminator(s[k]) then None
    else FindClosing(s, d, k + 1)
  }

  /** No line terminator in the text. */
  predicate OnOneLine(x: string) {
    forall j :: 0 <= j < |x| ==> !IsLineTerminator(x[j])
  }

  /** When no closing delimiter is found, none occurs anywhere `.` can reach from `k`. */
  lemma {:induction false} FindClosingNoneMeansNoClose(s: string, d: string, k: nat)
    requires k <= |s| && FindClosing(s, d, k).None?
    ensures forall j :: k <= j <= |s| && OnOneLine(s[k..j]) ==> !OccursAt(s, d, j)
    decreases |s| - k
  {
    if k < |s| && !IsLineTerminator(s[k]) {
      FindClosingNoneMeansNoClose(s, d, k + 1);
      forall j | k + 1 <= j <= |s| && OnOneLine(s[k..j])
        ensures OnOneLine(s[k + 1..j])
      {
        assert s[k + 1..j] == s[k..j][1..];
      }
    } else if k < |s| {
      forall j | k < j <= |s|
        ensures !OnOneLine(s[k..j])
      {
        assert s[k..j][0] == s[k];
      }
    }
  }

  /** `c` does not occur in `s`, stated one character at a time. */
  predicate Lacks(s: string, c: char)
    decreases |s|
  {
    s == [] || (s[0] != c && Lacks(s[1..], c))
  }

  lemma {:induction false} LacksIffNotIn(s: string, c: char)
    ensures Lacks(s, c) <==> c !in s
    decreases |s|
  {
    if s != [] {
      LacksIffNotIn(s[1..], c);
      assert s == [s[0]] + s[1..];
    }
  }

  /**
    A global replace of `d(.*?)d` by `open$1close`: scanning left to right,
    every delimiter with a closing one later on its line wraps the text in
    between; scanning resumes after the closing delimiter.
  */
  /** Where the phrase `s` opens with ends: a delimiter, then a closing one later on its line. */
  function PhraseEnd(s: string, d: string): (r: Option<nat>)
    ensures r.Some? ==> |d| <= r.value && r.value + |d| <= |s|
  {
    if |d| <= |s| && s[..|d|] == d then FindClosing(s, d, |d|) else None
  }

  function ReplaceDelimited(s: string, d: string, open: string, close: string): (r: string)
    requires |d| > 0
    ensures Lacks(s, d[0]) ==> r == s
    decreases |s|
  {
    if s == [] then []
    else match PhraseEnd(s, d)
      case Some(j) =>
        assert s[..|d|][0] == s[0];
        open + s[|d|..j] + close + ReplaceDelimited(s[j + |d|..], d, open, close)
      case None =>
        assert [s[0]] + s[1..] == s;
        [s[0]] + ReplaceDelimited(s[1..], d, open, close)
  }

  function StrongOpen(textClass: string): string {
    "<strong class=\"" + textClass + "\">"
  }

  /** The opening `<strong>` tag holds no star when the colour class holds none. */
  lemma StrongOpenHasNoStar(textClass: string)
    requires '*' !in textClass
    ensures '*' !in StrongOpen(textClass)
  {
  }

  /** `**x**` becomes `<strong class="…">x</strong>`, then `*x*` becomes `<em>x</em>`. */
  function FormatInline(text: string, textClass: string): (r: string)
    ensures '*' !in text ==> r == text
  {
    LacksIffNotIn(text, '*');
    var strong := ReplaceDelimited(text, "**", StrongOpen(textClass), "</strong>");
    ReplaceDelimited(strong, "*", "<em>", "</em>")
  }

  /** Text without the delimiter is left exactly as it is. */
  lemma {:induction false} ReplaceDelimitedWithoutDelimiter(s: string, d: string, open: string, close: string)
    requires |d| > 0
    requires forall k :: 0 <= k <= |s| ==> !OccursAt(s, d, k)
    ensures ReplaceDelimited(s, d, open, close) == s
    decreases |s|
  {
    if s != [] {
      assert !OccursAt(s, d, 0);
      forall k | 0 <= k <= |s| - 1
        ensures !OccursAt(s[1..], d, k)
      {
        if OccursAt(s[1..], d, k) {
          assert s[k + 1..k + 1 + |d|] == s[1..][k..k + |d|];
          assert OccursAt(s, d, k + 1);
        }
      }
      ReplaceDelimitedWithoutDelimiter(s[1..], d, open, close);
    }
  }

  /**
    The lazy `(.*?)` reaches `j` whenever no delimiter starts, and no line
    ends, between `k` and `j`: a single star inside a `**` phrase does not
    stop it.
  */
  lemma {:induction false} FindClosingReaches(s: string, d: string, k: nat, j: nat)
    requires |d| > 0 && k <= j && j + |d| <= |s| && s[j..j + |d|] == d
    requires forall m :: k <= m < j ==> !OccursAt(s, d, m) && !IsLineTerminator(s[m])
    ensures FindClosing(s, d, k) == Some(j)
    decreases j - k
  {
    if k < j {
      assert !OccursAt(s, d, k);
      FindClosingReaches(s, d, k + 1, j);
    }
  }

  /** Text without the delimiter's first character starts no delimiter, even one that runs into a closing delimiter. */
  lemma NoFirstCharNoDelimiter(x: string, d: string)
    requires |d| > 0 && d[0] !in x
    ensures forall m :: 0 <= m < |x| ==> !OccursAt(x + d, d, m)
  {
    forall m | 0 <= m < |x|
      ensures !OccursAt(x + d, d, m)
    {
      assert (x + d)[m..m + |d|][0] == (x + d)[m] == x[m];
    }
  }

  lemma NoStarNoOccurrence(s: string, d: string)
    requires |d| > 0 && d[0] == '*' && '*' !in s
    ensures forall k :: 0 <= k <= |s| ==> !OccursAt(s, d, k)
  {
    forall k | 0 <= k <= |s|
      ensures !OccursAt(s, d, k)
    {
      if k + |d| <= |s| {
        assert s[k..k + |d|][0] == s[k];
      }
    }
  }

  /** One step of the scan where the text does not open with the delimiter. */
  lemma {:induction false} ReplaceDelimitedPlainStep(s: string, d: string, open: string, close: string)
    requires |d| > 0 && s != [] && s[0] != d[0]
    ensures ReplaceDelimited(s, d, open, close) == [s[0]] + ReplaceDelimited(s[1..], d, open, close)
  {
    if |d| <= |s| {
      assert s[..|d|][0] == s[0];
    }
  }

  /** One step of the scan where the text opens with the delimiter and a closing one follows on the same line. */
  lemma {:induction false} ReplaceDelimitedPhraseStep(s: string, d: string, open: string, close: string, j: nat)
    requires |d| > 0 && PhraseEnd(s, d) == Some(j)
    ensures |d| <= j && j + |d| <= |s|
    ensures ReplaceDelimited(s, d, open, close) == open + s[|d|..j] + close + ReplaceDelimited(s[j + |d|..], d, open, close)
  {
  }

  /** Text before the first character of the delimiter is copied as it is, and the scan goes on after it. */
  lemma {:induction false} ReplaceDelimitedCopiesPlainText(y: string, z: string, d: string, open: string, close: string)
    requires |d| > 0 && d[0] !in y
    ensures ReplaceDelimited(y + z, d, open, close) == y + ReplaceDelimited(z, d, open, close)
    decreases |y|
  {
    if y == [] {
      assert y + z == z;
    } else {
      var rest := ReplaceDelimited(z, d, open, close);
      FirstThenRest(y, z, rest, d[0]);
      ReplaceDelimitedPlainStep(y + z, d, open, close);
      ReplaceDelimitedCopiesPlainText(y[1..], z, d, open, close);
    }
  }

  /** Taking the first character off `y + z` and putting it back on, with `c` not in `y`. */
  lemma FirstThenRest(y: string, z: string, w: string, c: char)
    requires y != [] && c !in y
    ensures (y + z)[0] == y[0] != c && (y + z)[1..] == y[1..] + z
    ensures c !in y[1..] && [y[0]] + (y[1..] + w) == y + w
  {
    assert y == [y[0]] + y[1..];
  }

  /**
    A delimited phrase on one line is wrapped in the opening and closing
    text, and the scan goes on after its closing delimiter. The phrase may
    hold the delimiter's first character, as long as no delimiter starts
    inside it.
  */
  lemma DelimitedPhraseThenRest(x: string, z: string, d: string, open: string, close: string)
    requires |d| > 0 && OnOneLine(x)
    requires forall m :: 0 <= m < |x| ==> !OccursAt(x + d, d, m)
    ensures ReplaceDelimited(d + x + d + z, d, open, close) == open + x + close + ReplaceDelimited(z, d, open, close)
  {
    var s := d + x + d + z;
    PhraseCloses(x, z, d);
    assert PhraseEnd(s, d) == Some(|d| + |x|);
    ReplaceDelimitedPhraseStep(s, d, open, close, |d| + |x|);
  }

  /** In `d + x + d + z` the phrase opened at the start closes right after `x`. */
  lemma PhraseCloses(x: string, z: string, d: string)
    requires |d| > 0 && OnOneLine(x)
    requires forall m :: 0 <= m < |x| ==> !OccursAt(x + d, d, m)
    ensures var s := d + x + d + z;
      && |d| <= |s| && s[..|d|] == d && FindClosing(s, d, |d|) == Some(|d| + |x|)
      && s[|d|..|d| + |x|] == x && s[|d| + |x| + |d|..] == z
  {
    var s := d + x + d + z;
    var j := |d| + |x|;
    PhraseInside(x, z, d);
    assert s[j..j + |d|] == d;
    FindClosingReaches(s, d, |d|, j);
    assert s[..|d|] == d;
    assert s[|d|..j] == x;
    assert s[j + |d|..] == z;
  }

  /** Inside the phrase of `d + x + d + z` no delimiter starts and no line ends. */
  lemma PhraseInside(x: string, z: string, d: string)
    requires |d| > 0 && OnOneLine(x)
    requires forall m :: 0 <= m < |x| ==> !OccursAt(x + d, d, m)
    ensures var s := d + x + d + z;
      forall m :: |d| <= m < |d| + |x| ==> !OccursAt(s, d, m) && !IsLineTerminator(s[m])
  {
    var s, w := d + x + d + z, x + d;
    assert s == d + w + z;
    forall m | |d| <= m < |d| + |x|
      ensures !OccursAt(s, d, m) && !IsLineTerminator(s[m])
    {
      assert s[m..m + |d|] == w[m - |d|..m - |d| + |d|];
      assert !OccursAt(w, d, m - |d|);
      assert s[m] == x[m - |d|];
    }
  }

  /** A text that is exactly one delimited phrase on one line is wrapped in the opening and closing text. */
  lemma DelimitedWraps(x: string, d: string, open: string, close: string)
    requires |d| > 0 && OnOneLine(x)
    requires forall m :: 0 <= m < |x| ==> !OccursAt(x + d, d, m)
    ensures ReplaceDelimited(d + x + d, d, open, close) == open + x + close
  {
    DelimitedPhraseThenRest(x, [], d, open, close);
    assert d + x + d + [] == d + x + d;
    assert open + x + close + [] == open + x + close;
  }

  /** `**x**` on one line becomes a `<strong>` in the section's text colour. */
  lemma StrongWraps(x: string, textClass: string)
    requires '*' !in x && '*' !in textClass
    requires forall j :: 0 <= j < |x| ==> !IsLineTerminator(x[j])
    ensures FormatInline("**" + x + "**", textClass) == StrongOpen(textClass) + x + "</strong>"
  {
    var open := StrongOpen(textClass);
    NoFirstCharNoDelimiter(x, "**");
    DelimitedWraps(x, "**", open, "</strong>");
    StrongOpenHasNoStar(textClass);
    var strong := open + x + "</strong>";
    assert '*' !in strong;
    LacksIffNotIn(strong, '*');
    assert FormatInline("**" + x + "**", textClass) == ReplaceDelimited(strong, "*", "<em>", "</em>");
  }

  /** `*x*` on one line, x not empty, becomes an `<em>`. */
  lemma EmWraps(x: string, textClass: string)
    requires x != "" && '*' !in x
    requires forall j :: 0 <= j < |x| ==> !IsLineTerminator(x[j])
    ensures FormatInline("*" + x + "*", textClass) == "<em>" + x + "</em>"
  {
    var e := "*" + x + "*";
    forall k | 0 <= k <= |e|
      ensures !OccursAt(e, "**", k)
    {
      if k + 2 <= |e| {
        assert e[k..k + 2][0] == e[k] && e[k..k + 2][1] == e[k + 1];
        if k == 0 { assert e[1] == x[0]; } else { assert e[k] == x[k - 1]; }
      }
    }
    ReplaceDelimitedWithoutDelimiter(e, "**", StrongOpen(textClass), "</strong>");
    NoFirstCharNoDelimiter(x, "*");
    DelimitedWraps(x, "*", "<em>", "</em>");
  }

  /** `a*b*c`, with star-free parts and `b`, `c` not empty, starts no `**`, not even one running into a closing `**`. */
  lemma SingleStarsStartNoDoubleStar(a: string, b: string, c: string)
    requires '*' !in a && '*' !in b && '*' !in c && b != [] && c != []
    ensures var x := a + "*" + b + "*" + c;
      forall m :: 0 <= m < |x| ==> !OccursAt(x + "**", "**", m)
  {
    var x := a + "*" + b + "*" + c;
    var w := x + "**";
    var p1, p2 := |a|, |a| + 1 + |b|;
    forall m | 0 <= m < |x|
      ensures !OccursAt(w, "**", m)
    {
      assert w[m..m + 2][0] == w[m] && w[m..m + 2][1] == w[m + 1];
      if m < p1 {
        assert w[m] == a[m];
      } else if m == p1 {
        assert w[m + 1] == b[0];
      } else if m < p2 {
        assert w[m] == b[m - p1 - 1];
      } else if m == p2 {
        assert w[m + 1] == c[0];
      } else {
        assert w[m] == c[m - p2 - 1];
      }
    }
  }

  lemma OnOneLineStarred(a: string, b: string, c: string)
    requires OnOneLine(a) && OnOneLine(b) && OnOneLine(c)
    ensures OnOneLine(a + "*" + b + "*" + c)
  {
    var x := a + "*" + b + "*" + c;
    var p1, p2 := |a|, |a| + 1 + |b|;
    forall m | 0 <= m < |x|
      ensures !IsLineTerminator(x[m])
    {
      if m < p1 {
        assert x[m] == a[m];
      } else if m == p1 || m == p2 {
        assert x[m] == '*';
      } else if m < p2 {
        assert x[m] == b[m - p1 - 1];
      } else {
        assert x[m] == c[m - p2 - 1];
      }
    }
  }

  /** A phrase between two stretches of plain text is wrapped and the plain text on both sides is copied. */
  lemma PhraseBetweenPlainText(head: string, x: string, tail: string, d: string, open: string, close: string)
    requires |d| > 0 && d[0] !in head && d[0] !in x && d[0] !in tail && OnOneLine(x)
    ensures ReplaceDelimited(head + (d + x + d + tail), d, open, close) == head + (open + x + close + tail)
  {
    ReplaceDelimitedCopiesPlainText(head, d + x + d + tail, d, open, close);
    NoFirstCharNoDelimiter(x, d);
    DelimitedPhraseThenRest(x, tail, d, open, close);
    LacksIffNotIn(tail, d[0]);
  }

  /** Regrouping seven texts put together. */
  lemma Regroup(p: string, a: string, m1: string, b: string, m2: string, c: string, q: string)
    ensures p + a + m1 + b + m2 + c + q == p + (a + m1 + b + m2 + c) + q
    ensures p + a + m1 + b + m2 + c + q == (p + a) + (m1 + b + m2 + (c + q))
  {
  }

  /** The `<strong>` pass wraps `**a*b*c**` whole, running over its single stars. */
  lemma StrongPassOverSingleStars(a: string, b: string, c: string, open: string)
    requires '*' !in a && '*' !in b && '*' !in c && b != [] && c != []
    requires OnOneLine(a) && OnOneLine(b) && OnOneLine(c)
    ensures ReplaceDelimited("**" + a + "*" + b + "*" + c + "**", "**", open, "</strong>")
      == open + a + "*" + b + "*" + c + "</strong>"
  {
    var x := a + "*" + b + "*" + c;
    SingleStarsStartNoDoubleStar(a, b, c);
    OnOneLineStarred(a, b, c);
    DelimitedWraps(x, "**", open, "</strong>");
    Regroup("**", a, "*", b, "*", c, "**");
    Regroup(open, a, "*", b, "*", c, "</strong>");
  }

  /** The `<em>` pass then wraps the single-starred `*b*` and copies the star-free text around it. */
  lemma EmPassAfterStrong(a: string, b: string, c: string, open: string)
    requires '*' !in a && '*' !in b && '*' !in c && '*' !in open && OnOneLine(b)
    ensures ReplaceDelimited(open + a + "*" + b + "*" + c + "</strong>", "*", "<em>", "</em>")
      == open + a + "<em>" + b + "</em>" + c + "</strong>"
  {
    Regroup(open, a, "*", b, "*", c, "</strong>");
    PhraseBetweenPlainText(open + a, b, c + "</strong>", "*", "<em>", "</em>");
    Regroup(open, a, "<em>", b, "</em>", c, "</strong>");
  }

  /**
    Nested emphasis: `**a *b* c**` on one line becomes a `<strong>` holding
    an `<em>`, as the two passes of `replace` give.
  */
  lemma StrongHoldingEm(a: string, b: string, c: string, textClass: string)
    requires '*' !in a && '*' !in b && '*' !in c && '*' !in textClass && b != [] && c != []
    requires OnOneLine(a) && OnOneLine(b) && OnOneLine(c)
    ensures FormatInline("**" + a + "*" + b + "*" + c + "**", textClass)
      == StrongOpen(textClass) + a + "<em>" + b + "</em>" + c + "</strong>"
  {
    var open := StrongOpen(textClass);
    StrongOpenHasNoStar(textClass);
    StrongPassOverSingleStars(a, b, c, open);
    EmPassAfterStrong(a, b, c, open);
  }

  // ----------------------------------------------------------- colours

  datatype Style = Style(bg: string, border: string, text: string)

  const SectionBg: seq<string> := ["bg-green-50", "bg-blue-50", "bg-amber-50", "bg-purple-50"]
  const SectionBorder: seq<string> := ["border-green-200", "border-blue-200", "border-amber-200", "border-purple-200"]
  const SectionText: seq<string> := ["text-green-800", "text-blue-800", "text-amber-800", "text-purple-800"]

  /** The colours of the section at a position: position mod 4 in each palette. */
  function SectionStyle(index: nat): (st: Style)
    ensures st.bg in SectionBg && st.border in SectionBorder && st.text in SectionText
  {
    var k := index % 4;
    Style(SectionBg[k], SectionBorder[k], SectionText[k])
  }

  /** The paragraph palettes are the first three colours of the section ones. */
  function ParagraphStyle(index: nat): (st: Style)
    ensures st.bg in SectionBg[..3] && st.border in SectionBorder[..3] && st.text in SectionText[..3]
  {
    var k := index % 3;
    Style(SectionBg[k], SectionBorder[k], SectionText[k])
  }

  /** Section colours repeat every four sections, and neighbouring sections differ. */
  lemma SectionStylesCycle(index: nat)
    ensures SectionStyle(index + 4) == SectionStyle(index)
    ensures SectionStyle(index) != SectionStyle(index + 1)
  {
  }

  /** Paragraph colours repeat every three paragraphs, and neighbouring paragraphs differ. */
  lemma ParagraphStylesCycle(index: nat)
    ensures ParagraphStyle(index + 3) == ParagraphStyle(index)
    ensures ParagraphStyle(index) != ParagraphStyle(index + 1)
  {
  }

  /** The bullet dot: the section's text colour with `text-` turned into `bg-`. */
  function BulletDotClass(st: Style): (r: string)
    ensures |st.text| >= 5 && st.text[..5] == "text-" ==> r == "bg-" + st.text[5..]
  {
    if |st.text| >= 5 && st.text[..5] == "text-" then
      assert OccursAt(st.text, "text-", 0);
      ReplaceFirst(st.text, "text-", "bg-")
    else ReplaceFirst(st.text, "text-", "bg-")
  }

  lemma BulletDotMatchesSectionColour(index: nat)
    ensures BulletDotClass(SectionStyle(index)) == "bg-" + SectionStyle(index).text[5..]
  {
    var t := SectionStyle(index).text;
    assert t[..5] == "text-";
    assert OccursAt(t, "text-", 0);
    assert IndexOf(t, "text-") == Some(0);
  }

  // ------------------------------------------------------------ sections

  datatype BulletItem = BulletItem(text: string, html: string)

  datatype Section = Section(title: string, style: Style, dotClass: string, bullets: seq<BulletItem>)

  /** The properties every rendered section has. */
  ghost predicate WellFormedSection(sec: Section) {
    && !HasDoubleStar(sec.title)
    && forall k :: 0 <= k < |sec.bullets| ==> sec.bullets[k].text != "" && IsTrimmed(sec.bullets[k].text)
  }

  /** The bullets of a section: each item with its emphasis formatted in the section's text colour. */
  function BulletItems(items: seq<string>, textClass: string): (r: seq<BulletItem>)
    ensures |r| == |items|
    ensures forall k :: 0 <= k < |r| ==> r[k].text == items[k] && r[k].html == FormatInline(items[k], textClass)
  {
    seq(|items|, k requires 0 <= k < |items| => BulletItem(items[k], FormatInline(items[k], textClass)))
  }

  /**
    One section: its title with every `**` removed, its colours by position,
    and its items, each non-empty and trimmed, formatted with the section's
    text colour.
  */
  function BuildSection(level: nat, section: string, index: nat): (sec: Section)
    ensures WellFormedSection(sec)
    ensures sec.title == RemoveDoubleStars(SectionTitle(section))
    ensures sec.style == SectionStyle(index) && sec.dotClass == BulletDotClass(sec.style)
    ensures sec.bullets == BulletItems(SectionItems(level, ContentWithoutTitle(section)), sec.style.text)
  {
    var title := SectionTitle(section);
    RemoveDoubleStarsLeavesNone(title);
    var style := SectionStyle(index);
    var items := SectionItems(level, ContentWithoutTitle(section));
    Section(RemoveDoubleStars(title), style, BulletDotClass(style), BulletItems(items, style.text))
  }

  /** The sections in order, the one at position i coloured by i. */
  function BuildSections(level: nat, sections: seq<string>): (r: seq<Section>)
    ensures |r| == |sections|
    ensures forall i :: 0 <= i < |r| ==> r[i] == BuildSection(level, sections[i], i)
    ensures forall i :: 0 <= i < |r| ==> WellFormedSection(r[i]) && r[i].style == SectionStyle(i)
  {
    var r := seq(|sections|, i requires 0 <= i < |sections| => BuildSection(level, sections[i], i));
    assert forall i :: 0 <= i < |r| ==> r[i] == BuildSection(level, sections[i], i);
    r
  }

  // ---------------------------------------------------------- paragraphs

  datatype Paragraph = Paragraph(numbered: bool, html: string, style: Style)

  /** The number of leading ASCII digits. */
  function DigitRun(t: string): (n: nat)
    ensures n <= |t| && (forall j :: 0 <= j < n ==> '0' <= t[j] <= '9') && (n == |t| || !('0' <= t[n] <= '9'))
  {
    if |t| > 0 && '0' <= t[0] <= '9' then 1 + DigitRun(t[1..]) else 0
  }

  /** `/^\d+\.\s/.test(p)`: digits, a dot and white space open the paragraph. */
  predicate IsNumberedItem(p: string) {
    var n := DigitRun(p);
    n >= 1 && n + 1 < |p| && p[n] == '.' && IsSpace(p[n + 1])
  }

  /** The pattern read as written: some number of digits, at least one, then a dot and white space. */
  ghost predicate OpensWithNumber(p: string, n: nat) {
    && 1 <= n && n + 1 < |p|
    && (forall j :: 0 <= j < n ==> '0' <= p[j] <= '9')
    && p[n] == '.' && IsSpace(p[n + 1])
  }

  /** The greedy digit scan accepts exactly the paragraphs the pattern matches. */
  lemma IsNumberedItemMatchesPattern(p: string)
    ensures IsNumberedItem(p) <==> exists n: nat :: OpensWithNumber(p, n)
  {
    if IsNumberedItem(p) {
      assert OpensWithNumber(p, DigitRun(p));
    }
    if n: nat :| OpensWithNumber(p, n) {
      assert DigitRun(p) == n;
    }
  }

  /** The paragraph drawn for the piece at position `idx`. */
  function BuildParagraph(piece: string, idx: nat): Paragraph {
    Paragraph(IsNumberedItem(piece), FormatInline(piece, ParagraphStyle(idx).text), ParagraphStyle(idx))
  }

  /** `paragraphs.map((paragraph, idx) => ...)`. */
  function BuildParagraphs(pieces: seq<string>): (r: seq<Paragraph>)
    ensures |r| == |pieces|
    ensures forall i :: 0 <= i < |r| ==>
      && r[i].style == ParagraphStyle(i)
      && r[i].numbered == IsNumberedItem(pieces[i])
      && r[i].html == FormatInline(pieces[i], ParagraphStyle(i).text)
  {
    seq(|pieces|, i requires 0 <= i < |pieces| => BuildParagraph(pieces[i], i))
  }

  // ------------------------------------------------------------- parsing

  datatype Rendered = Sections(level: nat, sections: seq<Section>) | Paragraphs(paragraphs: seq<Paragraph>)

  /**
    `formatParagraphText`: nothing for empty text, otherwise one paragraph per
    piece between runs of two or more newlines, unfiltered.
  */
  function FormatParagraphText(text: string): (r: Option<Rendered>)
    ensures r.None? <==> text == ""
    ensures r.Some? ==> r.value.Paragraphs? && |r.value.paragraphs| == |Split(text, ParagraphBreak)|
    ensures r.Some? ==> r.value.paragraphs == BuildParagraphs(Split(text, ParagraphBreak))
  {
    if text == "" then None
    else Some(Paragraphs(BuildParagraphs(Split(text, ParagraphBreak))))
  }

  /** The level of the `####` headings the parser also looks for. */
  const SubHeadingLevel: nat := 4

  /**
    `parseMarkdownContent`: nothing for empty content or content that is only
    a trailing `###`; sections when the cleaned text has a `### ` heading (the
    `#### ` branch after it is kept as written); paragraphs otherwise.
  */
  function ParseMarkdownContent(content: string): (r: Option<Rendered>)
    ensures r.None? <==> StripTrailingMarker(content) == ""
    ensures r.Some? ==> (r.value.Sections? <==> Contains(StripTrailingMarker(content), "### "))
    ensures r.Some? && r.value.Sections? ==>
      && r.value.level == 3
      && r.value.sections == BuildSections(3, KeepNonBlank(Split(StripTrailingMarker(content), Heading(3))))
    ensures r.Some? && r.value.Sections? ==>
      forall i :: 0 <= i < |r.value.sections| ==> WellFormedSection(r.value.sections[i])
    ensures r.Some? && r.value.Paragraphs? ==> r == FormatParagraphText(StripTrailingMarker(content))
  {
    if content == "" then None
    else
      var cleaned := StripTrailingMarker(content);
      FourHashesContainThree(cleaned);
      if Contains(cleaned, "### ") then
        Some(Sections(3, BuildSections(3, KeepNonBlank(Split(cleaned, Heading(3))))))
      else if Contains(cleaned, "#### ") then
        Some(Sections(SubHeadingLevel, BuildSections(SubHeadingLevel, KeepNonBlank(Split(cleaned, Heading(SubHeadingLevel))))))
      else FormatParagraphText(cleaned)
  }

  /** Every text containing `#### ` contains `### `, one character further on. */
  lemma FourHashesContainThree(s: string)
    ensures Contains(s, "#### ") ==> Contains(s, "### ")
  {
    if Contains(s, "#### ") {
      var i := IndexOf(s, "#### ").value;
      assert s[i + 1..i + 5] == s[i..i + 5][1..];
      ContainsWitness(s, "### ", i + 1);
    }
  }

  // ------------------------------------------------- counting paragraphs

  /**
    The number of runs of two or more newlines, counted character by
    character: a run starts at a newline followed by a newline and not
    preceded by one.
  */
  function BreakRuns(s: string, afterNewline: bool): nat
    decreases |s|
  {
    if |s| < 2 then 0
    else (if !afterNewline && s[0] == '\n' && s[1] == '\n' then 1 else 0) + BreakRuns(s[1..], s[0] == '\n')
  }

  lemma {:induction false} BreakRunsSkip(s: string, f: bool, i: nat)
    requires i <= |s|
    requires forall j :: 0 <= j < i ==> MatchLength(ParagraphBreak, s[j..]) == 0
    ensures BreakRuns(s, f) == BreakRuns(s[i..], if i == 0 then f else s[i - 1] == '\n')
    decreases i
  {
    if i > 0 {
      forall j | 0 <= j < i - 1
        ensures MatchLength(ParagraphBreak, s[1..][j..]) == 0
      {
        assert s[1..][j..] == s[j + 1..];
      }
      BreakRunsSkip(s[1..], s[0] == '\n', i - 1);
      assert s[1..][i - 1..] == s[i..];
      if |s| >= 2 {
        assert MatchLength(ParagraphBreak, s[0..]) == 0;
        assert s[0..] == s;
      }
      if i > 1 { assert s[1..][i - 2] == s[i - 1]; }
    }
  }

  lemma {:induction false} BreakRunsInsideRun(t: string, n: nat, k: nat)
    requires 1 <= k <= n <= |t|
    requires forall j :: 0 <= j < n ==> t[j] == '\n'
    requires n == |t| || t[n] != '\n'
    ensures BreakRuns(t[k..], true) == BreakRuns(t[n..], false)
    decreases n - k
  {
    if k < n {
      BreakRunsInsideRun(t, n, k + 1);
      assert t[k..][1..] == t[k + 1..];
    } else if |t[n..]| >= 2 {
      assert t[n..][1..] == t[n + 1..];
    }
  }

  /** Text with no paragraph break has no run of newlines to count. */
  lemma NoBreakNoRuns(s: string)
    requires NoMatchBetween(s, ParagraphBreak, 0, |s| + 1)
    ensures BreakRuns(s, false) == 0
  {
    forall j | 0 <= j < |s|
      ensures MatchLength(ParagraphBreak, s[j..]) == 0
    {
      NoMatchAt(s, ParagraphBreak, 0, |s| + 1, j);
    }
    BreakRunsSkip(s, false, |s|);
  }

  /** The leftmost break counts one run, and counting resumes after it. */
  lemma BreakRunsAtMatch(s: string, i: nat, n: nat)
    requires i + n <= |s| && n > 0
    requires NoMatchBetween(s, ParagraphBreak, 0, i)
    requires MatchLength(ParagraphBreak, s[i..]) == n
    ensures BreakRuns(s, false) == 1 + BreakRuns(s[i + n..], false)
  {
    forall j | 0 <= j < i
      ensures MatchLength(ParagraphBreak, s[j..]) == 0
    {
      NoMatchAt(s, ParagraphBreak, 0, i, j);
    }
    var t := s[i..];
    if i > 0 {
      assert s[i - 1..][1] == t[0];
    }
    BreakRunsSkip(s, false, i);
    NewlineRunIsMaximal(t);
    BreakRunsInsideRun(t, n, 1);
    assert t[n..] == s[i + n..];
  }

  /** A leftmost split on `\n\n+` has one more piece than the text has runs of two or more newlines. */
  lemma {:induction false} BreakSplitCount(r: SplitResult, s: string)
    requires IsLeftmostSplit(r, s, ParagraphBreak)
    ensures |r.pieces| == BreakRuns(s, false) + 1
    decreases |r.separators|
  {
    if r.separators == [] {
      NoBreakNoRuns(s);
    } else {
      var i := |r.pieces[0]|;
      var n := |r.separators[0]|;
      BreakRunsAtMatch(s, i, n);
      BreakSplitCount(Tail(r), s[i + n..]);
    }
  }

  /** Every run of two or more newlines separates two paragraphs: there is one more paragraph than runs. */
  lemma ParagraphCount(s: string)
    ensures |Split(s, ParagraphBreak)| == BreakRuns(s, false) + 1
  {
    BreakSplitCount(SplitParts(s, ParagraphBreak), s);
  }

  ghost predicate HasBlankLine(p: string) {
    exists j :: 0 <= j < |p| - 1 && p[j] == '\n' && p[j + 1] == '\n'
  }

  /** No paragraph contains an empty line: each blank line was a split point. */
  lemma ParagraphsHaveNoBlankLine(s: string)
    ensures forall k :: 0 <= k < |Split(s, ParagraphBreak)| ==> !HasBlankLine(Split(s, ParagraphBreak)[k])
  {
    var pieces := Split(s, ParagraphBreak);
    LeftmostSplitPiecesHaveNoMatch(SplitParts(s, ParagraphBreak), s, ParagraphBreak);
    forall k, j | 0 <= k < |pieces| && 0 <= j < |pieces[k]| - 1
      ensures !(pieces[k][j] == '\n' && pieces[k][j + 1] == '\n')
    {
      var t := pieces[k][j..];
      assert MatchLength(ParagraphBreak, t) == 0;
      assert t[0] == pieces[k][j] && t[1] == pieces[k][j + 1];
    }
  }
}
