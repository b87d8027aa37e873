/**
 The scanner, the renderer and the rewriter without their own definitions: which lines of a file are its header,
 what becomes of every line of a file, and that a template can be read off the header it renders to.
 */
module HeaderScans {
  import opened Basics
  import opened LicenseHeaders

  // ----- The renderer

  /** What a blank template line leaves in the header is between prefix and suffix only if it is a blank line itself. */
  lemma BlankOnly(s: Style, line: string, r: string)
    requires line != "" && Carries(s, "\n", r) && r == Text(s.prefix) + line + Text(s.suffix)
    ensures line == "\n"
  {
    var prefix, suffix := Text(s.prefix), Text(s.suffix);
    var start: string :| Stripped(start, prefix) && r == start + "\n" + suffix;
    assert |start| + 1 == |prefix| + |line|;
    assert start == prefix && r[|prefix|] == '\n' == line[0];
  }

  /** A line of a header carries one line of a template only, unless that line is empty. */
  lemma CarriesOne(s: Style, x: string, y: string, r: string)
    requires x != "" && y != "" && Carries(s, x, r) && Carries(s, y, r)
    ensures x == y
  {
    var prefix, suffix := Text(s.prefix), Text(s.suffix);
    if x != "\n" && y != "\n" {
      assert x == r[|prefix|..|r| - |suffix|] && y == r[|prefix|..|r| - |suffix|];
    } else if x != "\n" {
      BlankOnly(s, x, r);
    } else if y != "\n" {
      BlankOnly(s, y, r);
    }
  }

  /** Two templates, neither with an empty line, that render to one header are one template. */
  lemma {:induction false} TemplateRecovered(s: Style, x: seq<string>, y: seq<string>)
    requires "" !in x && "" !in y && Render(s, x) == Render(s, y)
    ensures x == y
  {
    var h, n := Render(s, x), if s.headerStart.Some? then 1 else 0;
    RenderRenders(s, x);
    RenderRenders(s, y);
    hide Render, Carries;
    forall i | 0 <= i < |x| ensures x[i] == y[i] {
      assert x[i] in x && y[i] in y;
      CarriesOne(s, x[i], y[i], h[n + i]);
    }
  }

  // ----- The scanner

  /** The first n lines are kept at the top, and no more. */
  ghost predicate KeptAre(s: Style, lines: seq<string>, n: nat) {
    && n <= |lines| && (forall i :: 0 <= i < n ==> s.keepFirst(lines[i]))
    && (n < |lines| ==> !s.keepFirst(lines[n]))
  }

  /**
   The lines first to last are the first comment behind the kept lines: a block comment up to the first line that
   ends it and is not a license line, or all consecutive line comments.
   */
  ghost predicate CommentAt(s: Style, p: Patterns, lines: seq<string>, skip: nat, first: nat, last: nat) {
    && skip <= first <= last < |lines|
    && !p.empty(lines[first]) && (forall i :: skip <= i < first ==> p.empty(lines[i]))
    && if s.blockStart(lines[first]) then
         && s.blockEnd(lines[last]) && !p.license(lines[last])
         && forall k :: first <= k < last ==> p.license(lines[k]) || !s.blockEnd(lines[k])
       else
         && (forall k :: first <= k <= last ==> s.lineStart(lines[k]))
         && (last + 1 < |lines| ==> !s.lineStart(lines[last + 1]))
  }

  /** What the scanner reads of that comment: all of it but the last line of a block. */
  function ReadUpTo(s: Style, lines: seq<string>, first: nat, last: nat): nat
    requires first <= last < |lines|
  {
    if s.blockStart(lines[first]) then last else last + 1
  }

  /** It is a license if a line read matches the license or the year pattern. */
  ghost predicate IsLicense(s: Style, p: Patterns, lines: seq<string>, first: nat, last: nat)
    requires first <= last < |lines|
  {
    exists k :: first <= k < ReadUpTo(s, lines, first, last) && (p.license(lines[k]) || p.years(lines[k]))
  }

  /** Line y is the last line read that matches the year pattern and not the license pattern. */
  ghost predicate YearsAt(s: Style, p: Patterns, lines: seq<string>, first: nat, last: nat, y: nat)
    requires first <= last < |lines|
  {
    var end := ReadUpTo(s, lines, first, last);
    && first <= y < end && p.years(lines[y]) && !p.license(lines[y])
    && forall k :: y < k < end ==> !p.years(lines[k]) || p.license(lines[k])
  }

  lemma {:induction false} KeptAreKept(s: Style, lines: seq<string>, n: nat)
    requires KeptAre(s, lines, n)
    ensures Kept(s, lines) == n
  {
    var k := Kept(s, lines);
    assert n <= k && k <= n;
  }

  lemma {:induction false} FirstNonBlank(p: Patterns, lines: seq<string>, i: nat, n: nat)
    requires i <= n < |lines| && !p.empty(lines[n]) && forall k :: i <= k < n ==> p.empty(lines[k])
    ensures NonEmpty(p, lines, i) == n
  {
    var m := NonEmpty(p, lines, i);
    assert n <= m && m <= n;
  }

  /** The scanner reports a header exactly where there is such a comment. */
  lemma {:induction false} ScanFinds(s: Style, p: Patterns, lines: seq<string>, skip: nat, first: nat, last: nat)
    requires KeptAre(s, lines, skip)
    ensures Scan(s, p, lines).skip == skip
    ensures Scan(s, p, lines).header == Some((first, last)) <==> CommentAt(s, p, lines, skip, first, last)
  {
    KeptAreKept(s, lines, skip);
    if CommentAt(s, p, lines, skip, first, last) {
      FirstNonBlank(p, lines, skip, first);
      if s.blockStart(lines[first]) {
        assert BlockLast(s, p, lines, first) == last;
      } else {
        assert s.lineStart(lines[first]) && LineEnd(s, lines, first) == last + 1;
      }
    }
  }

  /** And reports whether it is a license, and where its years are. */
  lemma {:induction false} ScanReads(s: Style, p: Patterns, lines: seq<string>, skip: nat, first: nat, last: nat)
    requires KeptAre(s, lines, skip) && CommentAt(s, p, lines, skip, first, last)
    ensures Scan(s, p, lines).haveLicense <==> IsLicense(s, p, lines, first, last)
    ensures forall y: nat :: Scan(s, p, lines).yearsLine == Some(y) <==> YearsAt(s, p, lines, first, last, y)
  {
    ScanFinds(s, p, lines, skip, first, last);
    KeptAreKept(s, lines, skip);
    FirstNonBlank(p, lines, skip, first);
    var end := ReadUpTo(s, lines, first, last);
    assert Scan(s, p, lines).yearsLine == YearsLine(p, lines, first, end);
    hide Scan;
    var found := YearsLine(p, lines, first, end);
    forall y: nat ensures found == Some(y) <==> YearsAt(s, p, lines, first, last, y) {
      if YearsAt(s, p, lines, first, last, y) {
        assert found.Some? && y <= found.value;
      }
    }
  }

  // ----- The rewriter

  /** A license is replaced; everything else in the file stays as it was. */
  lemma {:induction false} LicenseReplaced(
    s: Style, p: Patterns, h: seq<string>, lines: seq<string>, skip: nat, first: nat, last: nat)
    requires KeptAre(s, lines, skip) && CommentAt(s, p, lines, skip, first, last)
    requires IsLicense(s, p, lines, first, last)
    ensures Rewritten(s, p, h, lines) == lines[..first] + h + lines[last + 1..]
  {
    ScanFinds(s, p, lines, skip, first, last);
    ScanReads(s, p, lines, skip, first, last);
    hide Scan;
  }

  /** Before any other comment the header is inserted with a blank line behind it. */
  lemma {:induction false} InsertedBeforeComment(
    s: Style, p: Patterns, h: seq<string>, lines: seq<string>, skip: nat, first: nat, last: nat)
    requires KeptAre(s, lines, skip) && CommentAt(s, p, lines, skip, first, last)
    requires !IsLicense(s, p, lines, first, last)
    ensures Rewritten(s, p, h, lines) == lines[..skip] + h + (["\n"] + lines[skip..])
  {
    ScanFinds(s, p, lines, skip, first, last);
    ScanReads(s, p, lines, skip, first, last);
    hide Scan;
  }

  /** Without a comment it is inserted behind the kept lines. */
  lemma {:induction false} InsertedBehindKept(s: Style, p: Patterns, h: seq<string>, lines: seq<string>, skip: nat)
    requires KeptAre(s, lines, skip) && forall first: nat, last: nat :: !CommentAt(s, p, lines, skip, first, last)
    ensures Rewritten(s, p, h, lines) == lines[..skip] + h + lines[skip..]
  {
    var info := Scan(s, p, lines);
    KeptAreKept(s, lines, skip);
    if info.header.Some? {
      ScanFinds(s, p, lines, skip, info.header.value.0, info.header.value.1);
    }
    hide Scan;
    assert [] + lines[skip..] == lines[skip..];
  }
}
