/** From lines to whole texts: what is written reads back as the lines it was made of. */
module HeaderTexts {
  import opened Basics
  import opened LicenseHeaders
  import opened HeaderLaws
  import opened KeptHeaders

  ghost predicate Terminated(lines: seq<string>) { forall i :: 0 <= i < |lines| ==> IsLine(lines[i]) }

  lemma {:induction false} FlattenAppend(xs: seq<string>, ys: seq<string>)
    ensures Flatten(xs + ys) == Flatten(xs) + Flatten(ys)
  {
    if xs == [] {
      assert xs + ys == ys;
    } else {
      FlattenAppend(xs[1..], ys);
      assert (xs + ys)[0] == xs[0] && (xs + ys)[1..] == xs[1..] + ys;
      Assoc(xs[0], Flatten(xs[1..]), Flatten(ys));
    }
  }

  lemma {:induction false} FirstLine(l: string, rest: string)
    requires l != "" && NoNewline(l[..|l| - 1]) && (rest != "" ==> IsLine(l))
    ensures LineLength(l + rest) == |l|
  {
    var t := l + rest;
    var n := LineLength(t);
    forall i | 0 <= i < |l| - 1 ensures t[i] != '\n' {
      assert l[..|l| - 1][i] == t[i];
    }
    forall i | 0 <= i < n - 1 ensures t[i] != '\n' {
      assert t[..n - 1][i] == t[i];
    }
    assert rest != "" ==> t[|l| - 1] == '\n';
  }

  /** Lines that are well formed are exactly what a reader of their text sees. */
  lemma {:induction false} ReadsBack(lines: seq<string>)
    requires WellFormed(lines)
    ensures SplitLines(Flatten(lines)) == lines
  {
    if lines != [] {
      var l, rest := lines[0], lines[1..];
      NonEmptyText(rest);
      FirstLine(l, Flatten(rest));
      ReadsBack(rest);
      assert (l + Flatten(rest))[..|l|] == l && (l + Flatten(rest))[|l|..] == Flatten(rest);
    }
  }

  lemma {:induction false} NonEmptyText(lines: seq<string>)
    requires WellFormed(lines)
    ensures Flatten(lines) == "" <==> lines == []
    ensures lines != [] ==>
      Flatten(lines)[|Flatten(lines)| - 1] == lines[|lines| - 1][|lines[|lines| - 1]| - 1]
  {
    if lines != [] {
      var n := |lines| - 1;
      FlattenAppend(lines[..n], [lines[n]]);
      assert lines == lines[..n] + [lines[n]] && [lines[n]][1..] == [];
    }
  }

  lemma {:induction false} EndsWithNewline(text: string)
    requires text == "" || text[|text| - 1] == '\n'
    ensures Terminated(SplitLines(text))
  {
    var lines := SplitLines(text);
    NonEmptyText(lines);
    hide SplitLines, Flatten, NoNewline;
    forall i | 0 <= i < |lines| ensures IsLine(lines[i]) {
      assert i < |lines| - 1 ==> IsLine(lines[i]);
    }
  }

  lemma Appended(xs: seq<string>, ys: seq<string>)
    requires Terminated(xs) && WellFormed(ys)
    ensures WellFormed(xs + ys)
  {
  }

  lemma {:induction false} Parts(s: Style, p: Patterns, x: seq<string>)
    requires WellFormed(x) && (Kept(s, x) < |x| || Terminated(x))
    ensures Terminated(Before(s, p, x)) && WellFormed(After(s, p, x))
  {
    hide IsLine, NoNewline, WellFormed, Terminated;
    AfterWellFormed(s, p, x);
    PrefixTerminated(x, |Before(s, p, x)|);
  }

  lemma PrefixTerminated(x: seq<string>, n: nat)
    requires WellFormed(x) && n <= |x| && (n < |x| || Terminated(x))
    ensures Terminated(x[..n])
  {
    hide IsLine, NoNewline;
  }

  lemma AfterWellFormed(s: Style, p: Patterns, x: seq<string>)
    requires WellFormed(x)
    ensures WellFormed(After(s, p, x))
  {
    hide NoNewline, WellFormed;
    var info := Scan(s, p, x);
    if info.header.Some? && info.haveLicense {
      SuffixWellFormed(x, info.header.value.1 + 1);
    } else {
      SuffixWellFormed(x, info.skip);
      Blank();
      Appended(if info.header.Some? then ["\n"] else [], x[info.skip..]);
    }
  }

  lemma SuffixWellFormed(x: seq<string>, n: nat)
    requires WellFormed(x) && n <= |x|
    ensures WellFormed(x[n..])
  {
    hide IsLine, NoNewline;
  }

  lemma Blank()
    ensures Terminated(["\n"]) && Terminated([])
  {
  }

  /** Only the text of the header matters, not how it was put together. */
  lemma {:induction false} SameText(s: Style, p: Patterns, h: seq<string>, k: seq<string>, x: seq<string>)
    requires Flatten(h) == Flatten(k)
    ensures Flatten(Rewritten(s, p, h, x)) == Flatten(Rewritten(s, p, k, x))
  {
    var before, after := Before(s, p, x), After(s, p, x);
    hide Flatten, Before, After;
    FlattenAppend(before + h, after);
    FlattenAppend(before, h);
    FlattenAppend(before + k, after);
    FlattenAppend(before, k);
  }

  lemma SameMiddle(a: string, b: string, c: string, d: string)
    ensures a + (b + d) == a + (c + d) <==> b == c
  {
    if a + (b + d) == a + (c + d) {
      assert |b| == |c|;
      forall i | 0 <= i < |b| ensures b[i] == c[i] {
        assert (a + (b + d))[|a| + i] == b[i] && (a + (c + d))[|a| + i] == c[i];
      }
    }
  }

  lemma {:induction false} InTwo(x: seq<string>, i: nat)
    requires i <= |x|
    ensures Flatten(x) == Flatten(x[..i]) + Flatten(x[i..])
  {
    hide Flatten;
    FlattenAppend(x[..i], x[i..]);
    assert x == x[..i] + x[i..];
  }

  lemma Slices<T>(x: seq<T>, i: nat, j: nat)
    requires i <= j <= |x|
    ensures x[i..][..j - i] == x[i..j] && x[i..][j - i..] == x[j..]
  {
  }

  lemma {:induction false} InThree(x: seq<string>, i: nat, j: nat)
    requires i <= j <= |x|
    ensures Flatten(x) == Flatten(x[..i]) + (Flatten(x[i..j]) + Flatten(x[j..]))
  {
    hide Flatten;
    InTwo(x, i);
    InTwo(x[i..], j - i);
    Slices(x, i, j);
  }

  lemma {:induction false} FlattenRewritten(s: Style, p: Patterns, h: seq<string>, x: seq<string>)
    ensures Flatten(Rewritten(s, p, h, x))
         == Flatten(Before(s, p, x)) + (Flatten(h) + Flatten(After(s, p, x)))
  {
    WrittenAs(s, p, h, x);
    hide Flatten, Before, After, Rewritten;
    FlattenAppend(Before(s, p, x), h + After(s, p, x));
    FlattenAppend(h, After(s, p, x));
  }

  /** The scanner finds this very text, and counts it as a license. */
  ghost predicate FindsText(s: Style, p: Patterns, header: string, x: seq<string>) {
    var info := Scan(s, p, x);
    && info.header.Some? && info.haveLicense
    && Flatten(x[info.header.value.0..info.header.value.1 + 1]) == header
  }

  /**
   For every text and every header that is not empty, terminated or not: rewriting changes nothing
   exactly when the scanner finds that very text and counts it as a license.
   */
  lemma {:induction false} FixedPointText(s: Style, p: Patterns, template: seq<string>, text: string)
    requires Flatten(Render(s, template)) != ""
    ensures RewriteText(s, p, template, text) == text
        <==> FindsText(s, p, Flatten(Render(s, template)), SplitLines(text))
  {
    var x, h := SplitLines(text), Render(s, template);
    var info := Scan(s, p, x);
    FlattenRewritten(s, p, h, x);
    hide Scan, SplitLines, Render;
    if info.header.Some? && info.haveLicense {
      var (first, last) := info.header.value;
      InThree(x, first, last + 1);
      hide Flatten;
      SameMiddle(Flatten(x[..first]), Flatten(h), Flatten(x[first..last + 1]), Flatten(x[last + 1..]));
    } else {
      hide Flatten;
      InTwo(x, info.skip);
      FlattenAppend(if info.header.Some? then ["\n"] else [], x[info.skip..]);
    }
  }

  // ----- Twice

  lemma SliceWellFormed(x: seq<string>, i: nat, j: nat)
    requires WellFormed(x) && i <= j <= |x|
    ensures WellFormed(x[i..j])
  {
  }

  lemma {:induction false} SameLines(lines: seq<string>, text: string)
    requires WellFormed(lines)
    ensures Flatten(lines) == text <==> lines == SplitLines(text)
  {
    hide SplitLines, Flatten, WellFormed;
    ReadsBack(lines);
  }

  lemma {:induction false} FindsLines(s: Style, p: Patterns, header: string, x: seq<string>)
    requires WellFormed(x)
    ensures FindsText(s, p, header, x) <==> FindsIt(s, p, SplitLines(header), x)
  {
    var info := Scan(s, p, x);
    hide Scan, SplitLines, Flatten, WellFormed;
    if info.header.Some? {
      var (first, last) := info.header.value;
      SliceWellFormed(x, first, last + 1);
      SameLines(x[first..last + 1], header);
    }
  }

  /** What the reader of a rewritten text sees behind the part before the header. */
  function Seen(s: Style, p: Patterns, header: string, x: seq<string>): seq<string> {
    SplitLines(header + Flatten(After(s, p, x)))
  }

  lemma {:induction false} OnceSeen(s: Style, p: Patterns, h: seq<string>, x: seq<string>)
    requires Terminated(Before(s, p, x))
    ensures SplitLines(Flatten(Rewritten(s, p, h, x))) == Before(s, p, x) + Seen(s, p, Flatten(h), x)
  {
    var before, seen := Before(s, p, x), Seen(s, p, Flatten(h), x);
    FlattenRewritten(s, p, h, x);
    hide Before, After, Rewritten, SplitLines, Flatten;
    Appended(before, seen);
    FlattenAppend(before, seen);
    ReadsBack(before + seen);
  }

  /** The part before the header ends with a newline unless the whole file is kept and does not. */
  lemma {:induction false} BeforeTerminated(s: Style, p: Patterns, text: string)
    ensures Terminated(Before(s, p, SplitLines(text)))
        <==> (text == "" || text[|text| - 1] == '\n' || Kept(s, SplitLines(text)) < |SplitLines(text)|)
  {
    var x := SplitLines(text);
    hide SplitLines, Flatten, Before, Terminated, IsLine, Kept;
    LastTerminated(text);
    if Kept(s, x) < |x| || Terminated(x) {
      Parts(s, p, x);
    } else {
      AllKept(s, p, x);
    }
  }

  lemma {:induction false} LastTerminated(text: string)
    ensures Terminated(SplitLines(text)) <==> text == "" || text[|text| - 1] == '\n'
  {
    var x := SplitLines(text);
    NonEmptyText(x);
    if text == "" || text[|text| - 1] == '\n' {
      EndsWithNewline(text);
    } else {
      hide SplitLines, Flatten;
      assert !IsLine(x[|x| - 1]);
    }
  }

  /** A last line without a newline fuses with what is written behind it. */
  lemma {:induction false} Fused(front: seq<string>, u: string, v: seq<string>)
    requires Terminated(front) && u != "" && NoNewline(u) && WellFormed(v) && v != []
    ensures SplitLines(Flatten(front) + (u + Flatten(v))) == front + ([u + v[0]] + v[1..])
  {
    var w := [u + v[0]] + v[1..];
    assert Flatten(w) == u + v[0] + Flatten(v[1..]) by { assert w[1..] == v[1..]; }
    Assoc(u, v[0], Flatten(v[1..]));
    FusedWellFormed(u, v);
    hide Flatten, SplitLines, WellFormed, IsLine, NoNewline;
    Appended(front, w);
    FlattenAppend(front, w);
    ReadsBack(front + w);
  }

  lemma FusedWellFormed(u: string, v: seq<string>)
    requires u != "" && NoNewline(u) && WellFormed(v) && v != []
    ensures WellFormed([u + v[0]] + v[1..])
  {
    var l := u + v[0];
    assert l[..|l| - 1] == u + v[0][..|v[0]| - 1];
  }

  lemma {:induction false} AllKept(s: Style, p: Patterns, x: seq<string>)
    requires Kept(s, x) == |x|
    ensures Before(s, p, x) == x && After(s, p, x) == []
  {
  }

  lemma LastLine(x: seq<string>)
    requires WellFormed(x) && !Terminated(x)
    ensures var n := |x| - 1; x == x[..n] + [x[n]] && Terminated(x[..n]) && x[n] != "" && NoNewline(x[n])
  {
    var n := |x| - 1;
    assert forall i :: 0 <= i < n ==> IsLine(x[i]);
    OpenLine(x[n]);
  }

  lemma OpenLine(u: string)
    requires u != "" && NoNewline(u[..|u| - 1]) && !IsLine(u)
    ensures NoNewline(u)
  {
    assert u == u[..|u| - 1] + [u[|u| - 1]];
  }

  lemma {:induction false} FlattenLast(front: seq<string>, u: string)
    ensures Flatten(front + [u]) == Flatten(front) + u
  {
    FlattenAppend(front, [u]);
    assert [u][1..] == [];
  }

  lemma {:induction false} KeptFileOnce(s: Style, p: Patterns, h: seq<string>, front: seq<string>, u: string)
    requires Kept(s, front + [u]) == |front| + 1
    ensures Flatten(Rewritten(s, p, h, front + [u])) == Flatten(front) + (u + Flatten(h))
  {
    AllKept(s, p, front + [u]);
    WrittenAs(s, p, h, front + [u]);
    assert h + [] == h && front + [u] + h == front + ([u] + h);
    hide Rewritten, Before, After, Kept;
    FlattenAppend(front, [u] + h);
    assert ([u] + h)[0] == u && ([u] + h)[1..] == h;
  }

  /** A file of kept lines only, the last one without a newline: the header is never found again. */
  lemma {:induction false} KeptFileNeverSettles(s: Style, p: Patterns, h: seq<string>, x: seq<string>)
    requires WellFormed(h) && h != [] && WellFormed(x) && Kept(s, x) == |x| && !Terminated(x)
    ensures !FindsIt(s, p, h, SplitLines(Flatten(Rewritten(s, p, h, x))))
  {
    var front, u := x[..|x| - 1], x[|x| - 1];
    LastLine(x);
    hide WellFormed, IsLine, NoNewline, SplitLines, Flatten, Rewritten, FindsIt, Terminated;
    KeptFileOnce(s, p, h, front, u);
    Fused(front, u, h);
    FusedNotFound(s, p, h, front, u);
  }

  lemma FusedNotFound(s: Style, p: Patterns, h: seq<string>, front: seq<string>, u: string)
    requires h != [] && u != "" && forall i :: 0 <= i < |front| ==> s.keepFirst(front[i])
    ensures !FindsIt(s, p, h, front + ([u + h[0]] + h[1..]))
  {
    var n, w := |front|, [u + h[0]] + h[1..];
    var v := front + w;
    var d := NonEmpty(p, v, Kept(s, v));
    KeptSplit(s, front, w);
    FoundAnywhere(s, p, h, v);
    hide FindsIt, Settles, Kept, NonEmpty;
    assert d >= n && |v| == n + |h|;
    if d + |h| <= |v| && v[d..d + |h|] == h {
      assert v[d..d + |h|][0] == v[n] == u + h[0];
      assert |h[0]| == |u + h[0]|;
    }
  }

  /**
   For every text and every header that is not empty: a second run changes nothing if and only if the part
   before the header ends with a newline and the header settles among the lines that are then seen.
   */
  lemma {:induction false} TwiceIsOnceText(s: Style, p: Patterns, template: seq<string>, text: string)
    requires Flatten(Render(s, template)) != ""
    ensures var once, x, header :=
              RewriteText(s, p, template, text), SplitLines(text), Flatten(Render(s, template));
            RewriteText(s, p, template, once) == once <==>
              Terminated(Before(s, p, x)) && SettlesAmong(s, p, SplitLines(header), Seen(s, p, header, x), x)
  {
    var chunks, x := Render(s, template), SplitLines(text);
    var h := SplitLines(Flatten(chunks));
    var once := RewriteText(s, p, template, text);
    assert once == Flatten(Rewritten(s, p, h, x)) by { SameText(s, p, chunks, h, x); }
    FixedPointText(s, p, template, once);
    FindsLines(s, p, Flatten(chunks), SplitLines(once));
    hide FindsText, Rewritten, Before, After, SettlesAmong, FindsIt, Flatten, SplitLines, Render, Kept;
    if Terminated(Before(s, p, x)) {
      OnceSeen(s, p, h, x);
      FoundAmong(s, p, h, Seen(s, p, Flatten(chunks), x), x);
    } else {
      BeforeTerminated(s, p, text);
      AllKept(s, p, x);
      KeptFileNeverSettles(s, p, h, x);
    }
  }
}
