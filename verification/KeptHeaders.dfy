/** When a second run changes nothing, for headers of any kind: even those that start with a kept line. */
module KeptHeaders {
  import opened Basics
  import opened LicenseHeaders
  import opened HeaderLaws

  /** The header stands at line d, and settles there. */
  ghost predicate SettlesAt(s: Style, p: Patterns, h: seq<string>, x: seq<string>, d: nat)
    requires h != []
  {
    d + |h| <= |x| && x[d..d + |h|] == h && Settles(s, p, h, x[d + |h|..])
  }

  /** The header is found exactly when it stands where the scanner first stops, and settles there. */
  lemma {:induction false} FoundAnywhere(s: Style, p: Patterns, h: seq<string>, x: seq<string>)
    requires h != []
    ensures FindsIt(s, p, h, x) <==> SettlesAt(s, p, h, x, NonEmpty(p, x, Kept(s, x)))
  {
    var d, info := NonEmpty(p, x, Kept(s, x)), Scan(s, p, x);
    if info.header.Some? {
      var (first, last) := info.header.value;
      assert first == d && |x[first..last + 1]| == last + 1 - first;
    }
    if d + |h| <= |x| && x[d..d + |h|] == h {
      FoundWhenSettled(s, p, h, x, d);
    }
  }

  lemma {:induction false} KeptSplit(s: Style, front: seq<string>, w: seq<string>)
    requires forall i :: 0 <= i < |front| ==> s.keepFirst(front[i])
    ensures Kept(s, front + w) == |front| + Kept(s, w)
  {
    if front == [] {
      assert front + w == w;
    } else {
      assert (front + w)[1..] == front[1..] + w;
      KeptSplit(s, front[1..], w);
    }
  }

  lemma {:induction false} NonEmptyShift(p: Patterns, front: seq<string>, w: seq<string>, i: nat)
    requires i <= |w|
    ensures NonEmpty(p, front + w, |front| + i) == |front| + NonEmpty(p, w, i)
    decreases |w| - i
  {
    if i < |w| && p.empty(w[i]) {
      NonEmptyShift(p, front, w, i + 1);
    }
  }

  lemma {:induction false} NonEmptySkips(p: Patterns, x: seq<string>, i: nat, n: nat)
    requires i <= n <= |x| && forall k :: i <= k < n ==> p.empty(x[k])
    ensures NonEmpty(p, x, i) == NonEmpty(p, x, n)
    decreases n - i
  {
    if i < n {
      NonEmptySkips(p, x, i + 1, n);
    }
  }

  /** Where the second scan starts to look, counted from the header: behind it, if it starts with kept lines itself. */
  function LooksFrom(s: Style, p: Patterns, w: seq<string>, lines: seq<string>): (n: nat)
    ensures n <= |w|
  {
    if |Before(s, p, lines)| == Kept(s, lines) then Kept(s, w) else 0
  }

  /** With any lines w behind the part before the header: where the scanner stops. */
  lemma {:induction false} Reached(s: Style, p: Patterns, w: seq<string>, lines: seq<string>)
    ensures var before := Before(s, p, lines);
            NonEmpty(p, before + w, Kept(s, before + w)) == |before| + NonEmpty(p, w, LooksFrom(s, p, w, lines))
  {
    hide Before;
    var before, skip := Before(s, p, lines), Kept(s, lines);
    var b := |before|;
    BeforeIs(s, p, lines);
    if b == skip {
      hide NonEmpty, Kept;
      KeptSplit(s, before, w);
      NonEmptyShift(p, before, w, Kept(s, w));
    } else {
      hide NonEmpty;
      KeptIs(s, before + w, skip);
      NonEmptySkips(p, before + w, skip, b);
      NonEmptyShift(p, before, w, 0);
    }
  }

  /** The scanner, looking again, first stops at the header among these lines, and it settles there. */
  ghost predicate SettlesAmong(s: Style, p: Patterns, h: seq<string>, w: seq<string>, lines: seq<string>)
    requires h != []
  {
    SettlesAt(s, p, h, w, NonEmpty(p, w, LooksFrom(s, p, w, lines)))
  }

  /** The lines a rewrite leaves are a fixed point exactly when that is so. */
  lemma FoundAmong(s: Style, p: Patterns, h: seq<string>, w: seq<string>, lines: seq<string>)
    requires h != []
    ensures FindsIt(s, p, h, Before(s, p, lines) + w) <==> SettlesAmong(s, p, h, w, lines)
  {
    var before := Before(s, p, lines);
    Reached(s, p, w, lines);
    hide Before, FindsIt, SettlesAt, NonEmpty, Kept, LooksFrom;
    FoundAnywhere(s, p, h, before + w);
    Behind(s, p, h, before, w, NonEmpty(p, w, LooksFrom(s, p, w, lines)));
  }

  /** The header settles among the lines that follow it. */
  ghost predicate SettlesIn(s: Style, p: Patterns, h: seq<string>, lines: seq<string>)
    requires h != []
  {
    SettlesAmong(s, p, h, h + After(s, p, lines), lines)
  }

  /** For every header and every file: the second application changes nothing if and only if that is so. */
  lemma TwiceIsOnceIff(s: Style, p: Patterns, h: seq<string>, lines: seq<string>)
    requires h != []
    ensures var once := Rewritten(s, p, h, lines);
            Rewritten(s, p, h, once) == once <==> SettlesIn(s, p, h, lines)
  {
    WrittenAs(s, p, h, lines);
    hide Rewritten, FindsIt, SettlesAmong;
    FixedPoint(s, p, h, Rewritten(s, p, h, lines));
    FoundAmong(s, p, h, h + After(s, p, lines), lines);
  }

  lemma WrittenAs(s: Style, p: Patterns, h: seq<string>, lines: seq<string>)
    ensures Rewritten(s, p, h, lines) == Before(s, p, lines) + (h + After(s, p, lines))
  {
    hide Before, After;
    Assoc(Before(s, p, lines), h, After(s, p, lines));
  }

  lemma Behind(s: Style, p: Patterns, h: seq<string>, front: seq<string>, w: seq<string>, d: nat)
    requires h != []
    ensures SettlesAt(s, p, h, front + w, |front| + d) <==> SettlesAt(s, p, h, w, d)
  {
    hide Settles;
    if d + |h| <= |w| {
      var x := front + w;
      assert x[|front| + d..|front| + d + |h|] == w[d..d + |h|];
      assert x[|front| + d + |h|..] == w[d + |h|..];
    }
  }

  /** A header that does not start with a kept line stands where the scanner stops: only what follows it matters. */
  lemma SettlesInPlace(s: Style, p: Patterns, h: seq<string>, lines: seq<string>)
    requires h != [] && !s.keepFirst(h[0])
    ensures SettlesIn(s, p, h, lines) <==> Settles(s, p, h, After(s, p, lines))
  {
    TwiceIsOnceIff(s, p, h, lines);
    TwiceIsOnce(s, p, h, lines);
  }
}
