/** When applying a template twice equals applying it once: exactly when, line by line and for whole texts. */
module HeaderLaws {
  import opened Basics
  import opened LicenseHeaders

  /** One block comment that the scanner reads to its last line, with a license or year line in it. */
  ghost predicate BlockHeader(s: Style, p: Patterns, h: seq<string>)
    requires h != []
  {
    var last := |h| - 1;
    && s.blockStart(h[0]) && s.blockEnd(h[last]) && !p.license(h[last])
    && (forall k :: 0 <= k < last ==> p.license(h[k]) || !s.blockEnd(h[k]))
    && (exists k :: 0 <= k < last && (p.license(h[k]) || p.years(h[k])))
  }

  /** Line comments only, with a license or year line among them. */
  ghost predicate LineHeader(s: Style, p: Patterns, h: seq<string>)
    requires h != []
  {
    && !s.blockStart(h[0]) && (forall k :: 0 <= k < |h| ==> s.lineStart(h[k]))
    && (exists k :: 0 <= k < |h| && (p.license(h[k]) || p.years(h[k])))
  }

  /** The header reads back as itself when these lines follow it. */
  ghost predicate Settles(s: Style, p: Patterns, h: seq<string>, after: seq<string>)
    requires h != []
  {
    && !p.empty(h[0])
    && (BlockHeader(s, p, h) || (LineHeader(s, p, h) && (after != [] ==> !s.lineStart(after[0]))))
  }

  // ----- Line by line

  /** The scanner finds the very header in this file, and counts it as a license. */
  ghost predicate FindsIt(s: Style, p: Patterns, h: seq<string>, x: seq<string>) {
    var info := Scan(s, p, x);
    info.header.Some? && info.haveLicense && x[info.header.value.0..info.header.value.1 + 1] == h
  }

  lemma ReplacedByItself<T>(x: seq<T>, i: nat, j: nat, h: seq<T>)
    requires i <= j <= |x|
    ensures x[..i] + h + x[j..] == x <==> x[i..j] == h
  {
    var r := x[..i] + h + x[j..];
    if r == x {
      assert |h| == j - i && r[i..j] == h;
    }
    if x[i..j] == h {
      assert x == x[..i] + x[i..j] + x[j..];
    }
  }

  /** Rewriting leaves a file as it is exactly when the scanner finds the very header in it. */
  lemma FixedPoint(s: Style, p: Patterns, h: seq<string>, x: seq<string>)
    requires h != []
    ensures Rewritten(s, p, h, x) == x <==> FindsIt(s, p, h, x)
  {
    var info := Scan(s, p, x);
    hide Scan;
    if info.header.Some? && info.haveLicense {
      ReplacedByItself(x, info.header.value.0, info.header.value.1 + 1, h);
    } else {
      assert |Rewritten(s, p, h, x)| > |x|;
    }
  }

  /** The scanner gets as far as the inserted header. */
  lemma {:induction false} ReachesHeader(s: Style, p: Patterns, h: seq<string>, lines: seq<string>)
    requires h != [] && !s.keepFirst(h[0])
    ensures var b, once := |Before(s, p, lines)|, Rewritten(s, p, h, lines);
            && Kept(s, once) == Kept(s, lines) <= b
            && (!p.empty(h[0]) ==> NonEmpty(p, once, Kept(s, once)) == b)
  {
    hide Kept, NonEmpty;
    var b, skip, once := |Before(s, p, lines)|, Kept(s, lines), Rewritten(s, p, h, lines);
    BeforeIs(s, p, lines);
    assert once[b] == h[0] && forall i :: 0 <= i < b ==> once[i] == lines[i];
    hide Rewritten, Before;
    KeptIs(s, once, skip);
    NonEmptyPasses(p, once, skip, b);
  }

  /** The part before the header: the kept lines, and behind them blank ones up to a line that is not. */
  lemma {:induction false} BeforeIs(s: Style, p: Patterns, lines: seq<string>)
    ensures var b, skip := |Before(s, p, lines)|, Kept(s, lines);
            && skip <= b <= |lines| && Before(s, p, lines) == lines[..b]
            && (forall i :: skip <= i < b ==> p.empty(lines[i])) && (b < |lines| || b == skip)
  {
    hide Kept, NonEmpty;
  }

  lemma {:induction false} KeptIs(s: Style, x: seq<string>, n: nat)
    requires n < |x| && !s.keepFirst(x[n]) && forall i :: 0 <= i < n ==> s.keepFirst(x[i])
    ensures Kept(s, x) == n
  {
  }

  lemma {:induction false} NonEmptyPasses(p: Patterns, x: seq<string>, i: nat, n: nat)
    requires i <= n < |x| && forall k :: i <= k < n ==> p.empty(x[k])
    ensures !p.empty(x[n]) ==> NonEmpty(p, x, i) == n
  {
  }

  lemma {:induction false} BlockReadsBack(s: Style, p: Patterns, h: seq<string>, x: seq<string>, b: nat)
    requires h != [] && b + |h| <= |x| && x[b..b + |h|] == h && s.blockStart(h[0])
    ensures var j := BlockLast(s, p, x, b);
            BlockHeader(s, p, h) <==> j < |x| && Licensed(p, x, b, j) && x[b..j + 1] == h
  {
    var j, last := BlockLast(s, p, x, b), |h| - 1;
    assert forall k :: 0 <= k < |h| ==> h[k] == x[b + k];
    if BlockHeader(s, p, h) {
      assert j == b + last;
      var k :| 0 <= k < last && (p.license(h[k]) || p.years(h[k]));
      assert p.license(x[b + k]) || p.years(x[b + k]);
    }
    if j < |x| && Licensed(p, x, b, j) && x[b..j + 1] == h {
      assert |x[b..j + 1]| == j + 1 - b;
      var k :| b <= k < j && (p.license(x[k]) || p.years(x[k]));
      assert h[k - b] == x[k];
    }
  }

  lemma {:induction false} LinesReadBack(s: Style, p: Patterns, h: seq<string>, x: seq<string>, b: nat)
    requires h != [] && b + |h| <= |x| && x[b..b + |h|] == h && !s.blockStart(h[0]) && s.lineStart(h[0])
    ensures var j := LineEnd(s, x, b);
            (LineHeader(s, p, h) && (b + |h| < |x| ==> !s.lineStart(x[b + |h|])))
            <==> (Licensed(p, x, b, j) && x[b..j] == h)
  {
    var j := LineEnd(s, x, b);
    assert forall k :: 0 <= k < |h| ==> h[k] == x[b + k];
    if LineHeader(s, p, h) && (b + |h| < |x| ==> !s.lineStart(x[b + |h|])) {
      assert j == b + |h|;
      var k :| 0 <= k < |h| && (p.license(h[k]) || p.years(h[k]));
      assert p.license(x[b + k]) || p.years(x[b + k]);
    }
    if Licensed(p, x, b, j) && x[b..j] == h {
      assert |x[b..j]| == j - b;
      var k :| b <= k < j && (p.license(x[k]) || p.years(x[k]));
      assert h[k - b] == x[k];
    }
  }

  lemma BlankNotFound(s: Style, p: Patterns, h: seq<string>, x: seq<string>)
    requires h != [] && p.empty(h[0])
    ensures !FindsIt(s, p, h, x)
  {
    var info := Scan(s, p, x);
    if info.header.Some? {
      var (first, last) := info.header.value;
      assert x[first..last + 1][0] == x[first];
    }
  }

  lemma {:induction false} BlockFound(s: Style, p: Patterns, h: seq<string>, x: seq<string>, b: nat)
    requires h != [] && b + |h| <= |x| && x[b..b + |h|] == h
    requires NonEmpty(p, x, Kept(s, x)) == b && s.blockStart(h[0])
    ensures FindsIt(s, p, h, x) <==> BlockHeader(s, p, h)
  {
    hide BlockHeader, Licensed, Kept, NonEmpty, BlockLast;
    assert x[b] == x[b..b + |h|][0];
    BlockReadsBack(s, p, h, x, b);
  }

  lemma {:induction false} LinesFound(s: Style, p: Patterns, h: seq<string>, x: seq<string>, b: nat)
    requires h != [] && b + |h| <= |x| && x[b..b + |h|] == h
    requires NonEmpty(p, x, Kept(s, x)) == b && !s.blockStart(h[0])
    ensures FindsIt(s, p, h, x) <==> LineHeader(s, p, h) && (b + |h| < |x| ==> !s.lineStart(x[b + |h|]))
  {
    hide LineHeader, Licensed, Kept, NonEmpty;
    assert x[b] == x[b..b + |h|][0];
    NotBoth(s, p, h);
    if s.lineStart(h[0]) {
      LinesReadBack(s, p, h, x, b);
      hide LineEnd;
    }
  }

  /** A header at line b, where the scanner gets to, is found exactly when it settles before the lines after it. */
  lemma {:induction false} FoundWhenSettled(s: Style, p: Patterns, h: seq<string>, x: seq<string>, b: nat)
    requires h != [] && b + |h| <= |x| && x[b..b + |h|] == h
    requires !p.empty(h[0]) ==> NonEmpty(p, x, Kept(s, x)) == b
    ensures FindsIt(s, p, h, x) <==> Settles(s, p, h, x[b + |h|..])
  {
    NotBoth(s, p, h);
    hide BlockHeader, LineHeader, FindsIt, Kept, NonEmpty;
    if p.empty(h[0]) {
      BlankNotFound(s, p, h, x);
    } else if s.blockStart(h[0]) {
      BlockFound(s, p, h, x, b);
    } else {
      LinesFound(s, p, h, x, b);
    }
  }

  /** For every file: the second application changes nothing exactly when the header settles in it. */
  lemma TwiceIsOnce(s: Style, p: Patterns, h: seq<string>, lines: seq<string>)
    requires h != [] && !s.keepFirst(h[0])
    ensures var once := Rewritten(s, p, h, lines);
            Rewritten(s, p, h, once) == once <==> Settles(s, p, h, After(s, p, lines))
  {
    var before, after, once := Before(s, p, lines), After(s, p, lines), Rewritten(s, p, h, lines);
    var b := |before|;
    assert once[b..b + |h|] == h && once[b + |h|..] == after;
    ReachesHeader(s, p, h, lines);
    hide Rewritten, Before, After, FindsIt, Settles, NonEmpty, Kept;
    FoundWhenSettled(s, p, h, once, b);
    FixedPoint(s, p, h, once);
  }

  lemma NotBoth(s: Style, p: Patterns, h: seq<string>)
    requires h != []
    ensures BlockHeader(s, p, h) ==> s.blockStart(h[0])
    ensures LineHeader(s, p, h) ==> !s.blockStart(h[0]) && s.lineStart(h[0])
  {
  }

  // ----- Which headers settle

  /** Blank lines and block comment starts are not line comments, and "\n" is blank. */
  ghost predicate Ordinary(s: Style, p: Patterns) {
    p.empty("\n") && forall l :: s.lineStart(l) ==> !p.empty(l) && !s.blockStart(l)
  }

  /** A line comment follows the new header exactly when it directly followed the block comment replaced. */
  lemma FollowedByLineComment(s: Style, p: Patterns, lines: seq<string>)
    requires Ordinary(s, p)
    ensures var info, after := Scan(s, p, lines), After(s, p, lines);
            after != [] && s.lineStart(after[0]) <==>
              && info.header.Some? && info.haveLicense && s.blockStart(lines[info.header.value.0])
              && info.header.value.1 + 1 < |lines| && s.lineStart(lines[info.header.value.1 + 1])
  {
    var skip := Kept(s, lines);
    if skip < |lines| && s.lineStart(lines[skip]) {
      assert NonEmpty(p, lines, skip) == skip;
    }
  }

  /** The block header of a style whose start and end lines are a block comment's. */
  lemma RenderedBlock(s: Style, p: Patterns, template: seq<string>)
    requires s.headerStart.Some? && s.headerEnd.Some?
    requires var (first, last) := (s.headerStart.value, s.headerEnd.value);
             && s.blockStart(first) && !s.blockEnd(first) && s.blockEnd(last) && !p.license(last)
    requires forall l <- template :: p.license(RenderLine(s, l)) || !s.blockEnd(RenderLine(s, l))
    requires exists l <- template :: p.license(RenderLine(s, l)) || p.years(RenderLine(s, l))
    ensures BlockHeader(s, p, Render(s, template))
  {
    var h := Render(s, template);
    assert forall k :: 0 <= k < |template| ==> h[k + 1] == RenderLine(s, template[k]);
    forall k | 0 <= k < |h| - 1 ensures p.license(h[k]) || !s.blockEnd(h[k]) {
      if k > 0 { assert h[k] == RenderLine(s, template[k - 1]); }
    }
    var l :| l in template && (p.license(RenderLine(s, l)) || p.years(RenderLine(s, l)));
    var i :| 0 <= i < |template| && template[i] == l;
    assert p.license(h[i + 1]) || p.years(h[i + 1]);
  }

  /** The header of a style whose start and end lines, if any, and prefixed lines are all line comments. */
  lemma RenderedLines(s: Style, p: Patterns, template: seq<string>)
    requires s.headerStart.Some? ==> s.lineStart(s.headerStart.value)
    requires s.headerEnd.Some? ==> s.lineStart(s.headerEnd.value)
    requires forall l <- template :: s.lineStart(RenderLine(s, l))
    requires exists l <- template :: p.license(RenderLine(s, l)) || p.years(RenderLine(s, l))
    ensures var h := Render(s, template); h != [] && (LineHeader(s, p, h) <==> !s.blockStart(h[0]))
  {
    hide RenderLine;
    var h, n := Render(s, template), |ToList(s.headerStart)|;
    assert forall k :: 0 <= k < |template| ==> h[n + k] == RenderLine(s, template[k]);
    forall k | 0 <= k < |h| ensures s.lineStart(h[k]) {
      if n <= k < n + |template| { assert h[k] == RenderLine(s, template[k - n]); }
    }
    var l :| l in template && (p.license(RenderLine(s, l)) || p.years(RenderLine(s, l)));
    var i :| 0 <= i < |template| && template[i] == l;
    hide Render, RenderLines;
    assert h[n + i] == RenderLine(s, l);
    assert p.license(h[n + i]) || p.years(h[n + i]);
  }

  lemma {:induction false} WrittenAt(s: Style, p: Patterns, h: seq<string>, x: seq<string>, b: nat, j: nat)
    requires b < |x| && NonEmpty(p, x, Kept(s, x)) == b && !s.blockStart(x[b]) && s.lineStart(x[b])
    requires j == LineEnd(s, x, b) && Licensed(p, x, b, j)
    ensures Rewritten(s, p, h, x) == x[..b] + h + x[j..]
  {
    hide Licensed, LineEnd, NonEmpty, Kept;
  }

  /**
   A style that ends a line comment header with any other line settles for no file: the second run
   keeps that line and writes it again.
   */
  lemma ForeignEndGrows(s: Style, p: Patterns, h: seq<string>, end: string, lines: seq<string>)
    requires h != [] && !s.keepFirst(h[0]) && !p.empty(h[0]) && LineHeader(s, p, h) && !s.lineStart(end)
    ensures var once := Rewritten(s, p, h + [end], lines);
            Rewritten(s, p, h + [end], once) == Before(s, p, lines) + (h + [end]) + ([end] + After(s, p, lines))
  {
    assert (h + [end])[0] == h[0];
    ReachesHeader(s, p, h + [end], lines);
    hide Before, After, LineHeader, NonEmpty, Kept;
    ForeignEndAgain(s, p, h, end, Before(s, p, lines), After(s, p, lines));
  }

  lemma {:induction false} ForeignEndAgain(
    s: Style, p: Patterns, h: seq<string>, end: string, before: seq<string>, after: seq<string>)
    requires h != [] && LineHeader(s, p, h) && !s.lineStart(end)
    requires var x := before + (h + [end]) + after; NonEmpty(p, x, Kept(s, x)) == |before|
    ensures Rewritten(s, p, h + [end], before + (h + [end]) + after)
         == before + (h + [end]) + ([end] + after)
  {
    var x := before + (h + [end]) + after;
    hide Rewritten, LineHeader, Licensed, LineEnd, NonEmpty, Kept;
    Spliced(before, h, end, after);
    LinesEndAt(s, p, h, x, |before|);
    WrittenAt(s, p, h + [end], x, |before|, |before| + |h|);
  }

  /** The file after n runs. */
  function Runs(s: Style, p: Patterns, h: seq<string>, lines: seq<string>, n: nat): seq<string> {
    if n == 0 then lines else Rewritten(s, p, h, Runs(s, p, h, lines, n - 1))
  }

  /** Every run after the first adds one more line, for ever. */
  lemma {:induction false} GrowsForever(
    s: Style, p: Patterns, h: seq<string>, end: string, lines: seq<string>, n: nat)
    requires h != [] && !s.keepFirst(h[0]) && !p.empty(h[0]) && LineHeader(s, p, h) && !s.lineStart(end)
    ensures |Runs(s, p, h + [end], lines, n + 1)| == |Runs(s, p, h + [end], lines, 1)| + n
  {
    if n > 0 {
      GrowsForever(s, p, h, end, lines, n - 1);
      ForeignEndGrows(s, p, h, end, Runs(s, p, h + [end], lines, n - 1));
    }
  }

  lemma LinesEndAt(s: Style, p: Patterns, h: seq<string>, x: seq<string>, b: nat)
    requires h != [] && LineHeader(s, p, h) && b + |h| < |x| && x[b..b + |h|] == h && !s.lineStart(x[b + |h|])
    ensures LineEnd(s, x, b) == b + |h| && Licensed(p, x, b, b + |h|)
    ensures x[b] == h[0] && s.lineStart(x[b]) && !s.blockStart(x[b])
  {
    NotBoth(s, p, h);
    assert x[b] == x[b..b + |h|][0];
    LinesReadBack(s, p, h, x, b);
    assert |x[b..LineEnd(s, x, b)]| == LineEnd(s, x, b) - b;
  }

  lemma Spliced<T>(before: seq<T>, h: seq<T>, end: T, after: seq<T>)
    requires h != []
    ensures var x, b, n := before + (h + [end]) + after, |before|, |before| + |h|;
            && n < |x| && x[b] == h[0] && x[n] == end
            && x[..b] == before && x[b..n] == h && x[n..] == [end] + after
  {
  }
}
