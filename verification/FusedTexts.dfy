/** Headers that lack a final newline, and files that do: what fuses, and what a second run then does. */
module FusedTexts {
  import opened Basics
  import opened LicenseHeaders
  import opened HeaderLaws
  import opened KeptHeaders
  import opened HeaderTexts

  /** A header that ends with a newline, or has nothing behind it, is seen as it was written. */
  lemma {:induction false} SeenWhole(s: Style, p: Patterns, header: string, x: seq<string>)
    requires WellFormed(x) && header != "" && (header[|header| - 1] == '\n' || After(s, p, x) == [])
    ensures Seen(s, p, header, x) == SplitLines(header) + After(s, p, x)
  {
    var h, after := SplitLines(header), After(s, p, x);
    AfterWellFormed(s, p, x);
    LastTerminated(header);
    hide After, SplitLines;
    if after == [] {
      assert header + Flatten(after) == header && h + after == h;
    } else {
      hide Flatten;
      Appended(h, after);
      FlattenAppend(h, after);
      ReadsBack(h + after);
    }
  }

  /** A header that does not, fuses with the next line. */
  lemma {:induction false} SeenFused(s: Style, p: Patterns, header: string, x: seq<string>)
    requires WellFormed(x) && header != "" && header[|header| - 1] != '\n' && After(s, p, x) != []
    ensures var h, after := SplitLines(header), After(s, p, x);
            var n := |h| - 1;
            h != [] && Seen(s, p, header, x) == h[..n] + ([h[n] + after[0]] + after[1..])
  {
    var h, after := SplitLines(header), After(s, p, x);
    var n := |h| - 1;
    AfterWellFormed(s, p, x);
    LastTerminated(header);
    assert h != [] by { hide WellFormed; }
    LastLine(h);
    hide After, SplitLines, Flatten, WellFormed, Terminated, NoNewline;
    FlattenLast(h[..n], h[n]);
    Assoc(Flatten(h[..n]), h[n], Flatten(after));
    Fused(h[..n], h[n], after);
  }

  /** The line at which the rewritten header starts is neither kept nor blank, as it then stands. */
  ghost predicate Stands(s: Style, p: Patterns, header: string, x: seq<string>)
    requires header != ""
  {
    var seen := Seen(s, p, header, x);
    seen != [] && !s.keepFirst(seen[0]) && !p.empty(seen[0])
  }

  lemma {:induction false} StopsAtOnce(s: Style, p: Patterns, w: seq<string>, lines: seq<string>)
    requires w != [] && !s.keepFirst(w[0]) && !p.empty(w[0])
    ensures NonEmpty(p, w, LooksFrom(s, p, w, lines)) == 0
  {
    hide Before;
  }

  lemma OtherLineNeverSettles(s: Style, p: Patterns, h: seq<string>, w: seq<string>, lines: seq<string>)
    requires w != [] && !s.keepFirst(w[0]) && !p.empty(w[0])
    requires h != [] && |h| <= |w| && w[|h| - 1] != h[|h| - 1]
    ensures !SettlesAmong(s, p, h, w, lines)
  {
    StopsAtOnce(s, p, w, lines);
    hide NonEmpty, LooksFrom, Settles;
    DiffersAt(w, h, |h| - 1);
  }

  lemma {:induction false} FusedNeverSettles(s: Style, p: Patterns, header: string, x: seq<string>)
    requires WellFormed(x) && header != "" && header[|header| - 1] != '\n' && After(s, p, x) != []
    requires Stands(s, p, header, x)
    ensures !SettlesAmong(s, p, SplitLines(header), Seen(s, p, header, x), x)
  {
    hide Seen, SplitLines, After, SettlesAmong, IsLine, NoNewline;
    var h, seen, after := SplitLines(header), Seen(s, p, header, x), After(s, p, x);
    AfterWellFormed(s, p, x);
    assert after[0] != "";
    hide WellFormed;
    SeenFused(s, p, header, x);
    assert |seen[|h| - 1]| == |h[|h| - 1]| + |after[0]|;
    OtherLineNeverSettles(s, p, h, seen, x);
  }

  lemma DiffersAt<T>(x: seq<T>, h: seq<T>, n: nat)
    requires n < |h| && n < |x| && x[n] != h[n]
    ensures |h| <= |x| ==> x[0..|h|] != h
  {
    assert |h| <= |x| ==> x[0..|h|][n] == x[n];
  }

  /** Neither does the part before the header fuse with it, nor the header with the part after it. */
  predicate NothingFuses(s: Style, p: Patterns, header: string, text: string)
    requires header != ""
  {
    var x := SplitLines(text);
    && (text == "" || text[|text| - 1] == '\n' || Kept(s, x) < |x|)
    && (header[|header| - 1] == '\n' || After(s, p, x) == [])
  }

  /**
   For every text, and every header that starts with an ordinary line: a second run changes nothing if and
   only if nothing fuses and the header settles before the lines after it.
   */
  lemma {:induction false} TwiceIsOnceOrdinary(s: Style, p: Patterns, template: seq<string>, text: string)
    requires var header := Flatten(Render(s, template)); header != "" && Stands(s, p, header, SplitLines(text))
    ensures var once, x, header :=
              RewriteText(s, p, template, text), SplitLines(text), Flatten(Render(s, template));
            RewriteText(s, p, template, once) == once <==>
              NothingFuses(s, p, header, text) && Settles(s, p, SplitLines(header), After(s, p, x))
  {
    hide Render, Flatten, SplitLines, RewriteText, Before, After, Settles, SettlesAmong, Seen, Stands, Kept, WellFormed,
      Terminated;
    var header, x := Flatten(Render(s, template)), SplitLines(text);
    TwiceIsOnceText(s, p, template, text);
    BeforeTerminated(s, p, text);
    if header[|header| - 1] == '\n' || After(s, p, x) == [] {
      WholeSettles(s, p, header, x);
    } else {
      FusedNeverSettles(s, p, header, x);
    }
  }

  lemma {:induction false} WholeSettles(s: Style, p: Patterns, header: string, x: seq<string>)
    requires WellFormed(x) && header != "" && (header[|header| - 1] == '\n' || After(s, p, x) == [])
    requires Stands(s, p, header, x)
    ensures SettlesAmong(s, p, SplitLines(header), Seen(s, p, header, x), x)
        <==> Settles(s, p, SplitLines(header), After(s, p, x))
  {
    var h, after := SplitLines(header), After(s, p, x);
    SeenWhole(s, p, header, x);
    assert h != [] && (h + after)[0] == h[0] by { hide WellFormed, Seen; }
    hide SplitLines, After, Seen, Settles, SettlesAmong;
    SettlesInPlace(s, p, h, x);
  }

  lemma {:induction false} LineEndShift(s: Style, front: seq<string>, w: seq<string>, i: nat)
    requires i <= |w|
    ensures LineEnd(s, front + w, |front| + i) == |front| + LineEnd(s, w, i)
    decreases |w| - i
  {
    if i < |w| && s.lineStart(w[i]) {
      LineEndShift(s, front, w, i + 1);
    }
  }

  lemma {:induction false} LineEndSkips(s: Style, w: seq<string>, i: nat, n: nat)
    requires i <= n <= |w| && forall k :: i <= k < n ==> s.lineStart(w[k])
    ensures LineEnd(s, w, i) == LineEnd(s, w, n)
    decreases n - i
  {
    if i < n {
      LineEndSkips(s, w, i + 1, n);
    }
  }

  /** The line comments that start here: the header's lines, the fused one last, and those that follow. */
  lemma {:induction false} FusedLineEnd(s: Style, front: seq<string>, l: string, rest: seq<string>)
    requires forall k :: 0 <= k < |front| ==> s.lineStart(front[k])
    requires s.lineStart(l)
    ensures LineEnd(s, front + ([l] + rest), 0) == |front| + 1 + LineEnd(s, rest, 0)
  {
    hide LineEnd;
    Assoc(front, [l], rest);
    LineEndSkips(s, front + [l] + rest, 0, |front| + 1);
    LineEndShift(s, front + [l], rest, 0);
  }

  lemma LicensedMore(p: Patterns, before: seq<string>, w: seq<string>, n: nat, j: nat)
    requires n <= j <= |w| && Licensed(p, w, 0, n)
    ensures Licensed(p, before + w, |before|, |before| + j)
  {
    var k :| 0 <= k < n && (p.license(w[k]) || p.years(w[k]));
    assert (before + w)[|before| + k] == w[k];
  }

  lemma {:induction false} LinesHeader(s: Style, p: Patterns, w: seq<string>, n: nat)
    requires 0 < n <= |w| && LineHeader(s, p, w[..n])
    ensures LineEnd(s, w, 0) >= n && Licensed(p, w, 0, n) && s.lineStart(w[0]) && !s.blockStart(w[0])
  {
    assert forall k :: 0 <= k < n ==> w[..n][k] == w[k];
    var k :| 0 <= k < n && (p.license(w[..n][k]) || p.years(w[..n][k]));
    assert p.license(w[k]) || p.years(w[k]);
    LineEndSkips(s, w, 0, n);
  }

  lemma Behinds<T>(before: seq<T>, w: seq<T>, j: nat)
    requires 0 < |w| && j <= |w|
    ensures var x := before + w;
            x[|before|] == w[0] && x[..|before|] == before && x[|before| + j..] == w[j..]
  {
  }

  /** The second run replaces the first line comments of w, where the scanner stops, by the header. */
  lemma {:induction false} LinesReplaced(
      s: Style, p: Patterns, chunks: seq<string>, before: seq<string>, w: seq<string>, n: nat)
    requires 0 < n <= |w| && NonEmpty(p, before + w, Kept(s, before + w)) == |before|
    requires LineHeader(s, p, w[..n])
    ensures Rewritten(s, p, chunks, before + w) == before + chunks + w[LineEnd(s, w, 0)..]
  {
    hide LineHeader, Licensed, LineEnd, NonEmpty, Kept, Rewritten;
    var b, j := |before|, LineEnd(s, w, 0);
    LinesHeader(s, p, w, n);
    LicensedMore(p, before, w, n, j);
    LineEndShift(s, before, w, 0);
    Behinds(before, w, j);
    WrittenAt(s, p, chunks, before + w, b, b + j);
  }

  lemma FusedStarts(s: Style, p: Patterns, front: seq<string>, l: string, rest: seq<string>)
    requires LineHeader(s, p, (front + ([l] + rest))[..|front| + 1])
    ensures s.lineStart(l) && forall k :: 0 <= k < |front| ==> s.lineStart(front[k])
  {
    var t := (front + ([l] + rest))[..|front| + 1];
    assert t[|front|] == l && forall k :: 0 <= k < |front| ==> t[k] == front[k];
  }

  lemma DropBehind<T>(front: seq<T>, l: T, rest: seq<T>, j: nat)
    requires j <= |rest|
    ensures (front + ([l] + rest))[|front| + 1 + j..] == rest[j..]
  {
  }

  lemma {:induction false} FusedReplaced(
    s: Style, p: Patterns, chunks: seq<string>, before: seq<string>, front: seq<string>, l: string, rest: seq<string>)
    requires var w := front + ([l] + rest);
             NonEmpty(p, before + w, Kept(s, before + w)) == |before| && LineHeader(s, p, w[..|front| + 1])
    ensures Rewritten(s, p, chunks, before + (front + ([l] + rest)))
         == before + chunks + rest[LineEnd(s, rest, 0)..]
  {
    hide LineHeader, LineEnd, NonEmpty, Kept, Rewritten;
    LinesReplaced(s, p, chunks, before, front + ([l] + rest), |front| + 1);
    FusedStarts(s, p, front, l, rest);
    FusedLineEnd(s, front, l, rest);
    DropBehind(front, l, rest, LineEnd(s, rest, 0));
  }

  lemma {:induction false} ThreeTexts(a: seq<string>, b: seq<string>, c: seq<string>)
    ensures Flatten(a + b + c) == Flatten(a) + (Flatten(b) + Flatten(c))
  {
    hide Flatten;
    FlattenAppend(a + b, c);
    FlattenAppend(a, b);
    Assoc(Flatten(a), Flatten(b), Flatten(c));
  }

  /**
   A line header that fused is replaced together with the line behind it, and all line comments that
   follow: the second run deletes them.
   */
  lemma {:induction false} FusedLineLost(s: Style, p: Patterns, template: seq<string>, text: string)
    requires var (header, x) := (Flatten(Render(s, template)), SplitLines(text));
             && header != "" && header[|header| - 1] != '\n' && After(s, p, x) != []
             && Terminated(Before(s, p, x)) && Stands(s, p, header, x)
             && |SplitLines(header)| <= |Seen(s, p, header, x)|
             && LineHeader(s, p, Seen(s, p, header, x)[..|SplitLines(header)|])
    ensures var header, x := Flatten(Render(s, template)), SplitLines(text);
            var before, after := Before(s, p, x), After(s, p, x);
            && RewriteText(s, p, template, text) == Flatten(before) + (header + Flatten(after))
            && RewriteText(s, p, template, RewriteText(s, p, template, text))
               == Flatten(before) + (header + Flatten(after[1..][LineEnd(s, after[1..], 0)..]))
  {
    hide Render, Flatten, SplitLines, Before, After, Rewritten, NonEmpty, Kept, LineEnd, Seen, LineHeader,
      Terminated, WellFormed, IsLine, NoNewline;
    var chunks, x := Render(s, template), SplitLines(text);
    var header := Flatten(chunks);
    var h, before, after, seen := SplitLines(header), Before(s, p, x), After(s, p, x), Seen(s, p, header, x);
    OnceSeen(s, p, chunks, x);
    SeenFused(s, p, header, x);
    Reached(s, p, seen, x);
    StopsAtOnce(s, p, seen, x);
    hide Stands, LooksFrom;
    FlattenRewritten(s, p, chunks, x);
    FusedReplaced(s, p, chunks, before, h[..|h| - 1], h[|h| - 1] + after[0], after[1..]);
    ThreeTexts(before, chunks, after[1..][LineEnd(s, after[1..], 0)..]);
  }
}
