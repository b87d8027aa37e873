/**
 licenseheaders.py: the scanner that finds a file's header, the renderer of a template, and the
 rewriter that replaces or inserts the header.  Regular expressions are arbitrary line predicates.
 */
module LicenseHeaders {
  import opened Basics

  /** A processing type.  An absent pattern matches no line. */
  datatype Style = Style(
    keepFirst: string -> bool, blockStart: string -> bool, blockEnd: string -> bool, lineStart: string -> bool,
    headerStart: Option<string>, headerEnd: Option<string>, prefix: Option<string>, suffix: Option<string>)

  /** The patterns that are the same for all types. */
  datatype Patterns = Patterns(empty: string -> bool, license: string -> bool, years: string -> bool)

  /** What the scanner reports: a header is the lines `first..last`, both included. */
  datatype Info = Info(skip: nat, header: Option<(nat, nat)>, yearsLine: Option<nat>, haveLicense: bool)

  // ----- The scanner

  /** The number of leading lines that are always kept. */
  function Kept(s: Style, lines: seq<string>): (n: nat)
    ensures n <= |lines| && forall i :: 0 <= i < n ==> s.keepFirst(lines[i])
    ensures n < |lines| ==> !s.keepFirst(lines[n])
  {
    if lines != [] && s.keepFirst(lines[0]) then 1 + Kept(s, lines[1..]) else 0
  }

  /** The first line from i on that is not empty. */
  function NonEmpty(p: Patterns, lines: seq<string>, i: nat): (n: nat)
    requires i <= |lines|
    ensures i <= n <= |lines| && forall k :: i <= k < n ==> p.empty(lines[k])
    ensures n < |lines| ==> !p.empty(lines[n])
    decreases |lines| - i
  {
    if i < |lines| && p.empty(lines[i]) then NonEmpty(p, lines, i + 1) else i
  }

  /** The last line of the block comment, if it ends: a license line never ends it. */
  function BlockLast(s: Style, p: Patterns, lines: seq<string>, i: nat): (n: nat)
    requires i <= |lines|
    ensures i <= n <= |lines| && forall k :: i <= k < n ==> p.license(lines[k]) || !s.blockEnd(lines[k])
    ensures n < |lines| ==> s.blockEnd(lines[n]) && !p.license(lines[n])
    decreases |lines| - i
  {
    if i == |lines| || (!p.license(lines[i]) && s.blockEnd(lines[i])) then i else BlockLast(s, p, lines, i + 1)
  }

  /** The first line from i on that is not a line comment. */
  function LineEnd(s: Style, lines: seq<string>, i: nat): (n: nat)
    requires i <= |lines|
    ensures i <= n <= |lines| && forall k :: i <= k < n ==> s.lineStart(lines[k])
    ensures n < |lines| ==> !s.lineStart(lines[n])
    decreases |lines| - i
  {
    if i < |lines| && s.lineStart(lines[i]) then LineEnd(s, lines, i + 1) else i
  }

  /** Some line of `lines[lo..hi]` counts as a license. */
  predicate Licensed(p: Patterns, lines: seq<string>, lo: nat, hi: nat)
    requires lo <= hi <= |lines|
  {
    exists k :: lo <= k < hi && (p.license(lines[k]) || p.years(lines[k]))
  }

  /** The last line of `lines[lo..hi]` that carries years and is not a license line. */
  function YearsLine(p: Patterns, lines: seq<string>, lo: nat, hi: nat): (r: Option<nat>)
    requires lo <= hi <= |lines|
    ensures r.Some? ==> lo <= r.value < hi && p.years(lines[r.value]) && !p.license(lines[r.value])
    ensures forall k :: lo <= k < hi && p.years(lines[k]) && !p.license(lines[k]) ==> r.Some? && k <= r.value
    decreases hi
  {
    if lo == hi then None
    else if p.years(lines[hi - 1]) && !p.license(lines[hi - 1]) then Some(hi - 1)
    else YearsLine(p, lines, lo, hi - 1)
  }

  function Scan(s: Style, p: Patterns, lines: seq<string>): (r: Info)
    ensures r.skip == Kept(s, lines)
    ensures r.header.Some? ==> r.skip <= r.header.value.0 <= r.header.value.1 < |lines|
  {
    var skip := Kept(s, lines);
    var i := NonEmpty(p, lines, skip);
    if i < |lines| && s.blockStart(lines[i]) then
      var j := BlockLast(s, p, lines, i);
      if j < |lines| then Info(skip, Some((i, j)), YearsLine(p, lines, i, j), Licensed(p, lines, i, j))
      else Info(skip, None, None, Licensed(p, lines, i, j))
    else if i < |lines| && s.lineStart(lines[i]) then
      var j := LineEnd(s, lines, i);
      Info(skip, Some((i, j - 1)), YearsLine(p, lines, i, j), Licensed(p, lines, i, j))
    else
      Info(skip, None, None, false)
  }

  /** `read_file`: find the line where a comment starts, then read the comment. */
  method ReadFile(s: Style, p: Patterns, lines: seq<string>) returns (r: Info)
    ensures r == Scan(s, p, lines)
  {
    var skip, i, isBlockHeader, found := 0, 0, false, false;
    while i < |lines| && !found
      invariant 0 <= skip <= i <= |lines|
      invariant i == skip ==> Kept(s, lines) == skip + Kept(s, lines[skip..])
      invariant i > skip ==> skip == Kept(s, lines) && NonEmpty(p, lines, skip) == NonEmpty(p, lines, i)
      invariant isBlockHeader ==> found
      invariant found ==> i < |lines| && skip == Kept(s, lines) && i == NonEmpty(p, lines, skip)
      invariant found ==> (isBlockHeader <==> s.blockStart(lines[i])) && (isBlockHeader || s.lineStart(lines[i]))
      decreases |lines| - i, !found
    {
      var line := lines[i];
      if (i == 0 || i == skip) && s.keepFirst(line) {
        skip := i + 1;
        i := i + 1;
      } else if p.empty(line) {
        i := i + 1;
      } else if s.blockStart(line) {
        isBlockHeader, found := true, true;
      } else if s.lineStart(line) {
        found := true;
      } else {
        return Info(skip, None, None, false);
      }
    }
    if i == |lines| {
      return Info(skip, None, None, false);
    }
    if isBlockHeader {
      r := ReadBlock(s, p, lines, skip, i);
    } else {
      r := ReadLines(s, p, lines, skip, i);
    }
  }

  method ReadBlock(s: Style, p: Patterns, lines: seq<string>, skip: nat, i: nat) returns (r: Info)
    requires skip == Kept(s, lines) && i == NonEmpty(p, lines, skip) < |lines| && s.blockStart(lines[i])
    ensures r == Scan(s, p, lines)
  {
    var haveLicense, yearsLine := false, None;
    for j := i to |lines|
      invariant haveLicense == Licensed(p, lines, i, j) && yearsLine == YearsLine(p, lines, i, j)
      invariant BlockLast(s, p, lines, i) == BlockLast(s, p, lines, j)
    {
      if p.license(lines[j]) {
        haveLicense := true;
      } else if s.blockEnd(lines[j]) {
        return Info(skip, Some((i, j)), yearsLine, haveLicense);
      } else if p.years(lines[j]) {
        haveLicense, yearsLine := true, Some(j);
      }
    }
    return Info(skip, None, None, haveLicense);
  }

  method ReadLines(s: Style, p: Patterns, lines: seq<string>, skip: nat, i: nat) returns (r: Info)
    requires skip == Kept(s, lines) && i == NonEmpty(p, lines, skip) < |lines|
    requires !s.blockStart(lines[i]) && s.lineStart(lines[i])
    ensures r == Scan(s, p, lines)
  {
    var haveLicense, yearsLine := false, None;
    for j := i to |lines|
      invariant haveLicense == Licensed(p, lines, i, j) && yearsLine == YearsLine(p, lines, i, j)
      invariant LineEnd(s, lines, i) == LineEnd(s, lines, j)
    {
      if s.lineStart(lines[j]) && p.license(lines[j]) {
        haveLicense := true;
      } else if !s.lineStart(lines[j]) {
        return Info(skip, Some((i, j - 1)), yearsLine, haveLicense);
      } else if p.years(lines[j]) {
        haveLicense, yearsLine := true, Some(j);
      }
    }
    return Info(skip, Some((i, |lines| - 1)), yearsLine, haveLicense);
  }

  // ----- The renderer

  /** White space stripped from the end. */
  function RStrip(t: string): (r: string)
    ensures r <= t && forall i :: |r| <= i < |t| ==> t[i] in WHITESPACE
    ensures r != [] ==> r[|r| - 1] !in WHITESPACE
  {
    if t != [] && t[|t| - 1] in WHITESPACE then RStrip(t[..|t| - 1]) else t
  }

  const WHITESPACE: string := " \t\n\r\U{0B}\U{0C}"

  function RenderLine(s: Style, line: string): string {
    (match s.prefix
     case None => line
     case Some(prefix) => if line == "\n" then RStrip(prefix) + line else prefix + line)
    + (if s.suffix.Some? then s.suffix.value else "")
  }

  function RenderLines(s: Style, template: seq<string>): (r: seq<string>)
    ensures |r| == |template|
  {
    seq(|template|, i requires 0 <= i < |template| => RenderLine(s, template[i]))
  }

  function ToList(x: Option<string>): seq<string> { if x.None? then [] else [x.value] }

  function Render(s: Style, template: seq<string>): seq<string> {
    ToList(s.headerStart) + RenderLines(s, template) + ToList(s.headerEnd)
  }

  function Text(x: Option<string>): string { if x.None? then "" else x.value }

  /** The text without the white space at its end. */
  ghost predicate Stripped(r: string, t: string) {
    && r <= t && (forall i :: |r| <= i < |t| ==> t[i] in WHITESPACE)
    && (r != "" ==> r[|r| - 1] !in WHITESPACE)
  }

  /** Line r of a header is this line of the template: between prefix and suffix, or blank. */
  ghost predicate Carries(s: Style, line: string, r: string) {
    if line != "\n" then r == Text(s.prefix) + line + Text(s.suffix)
    else exists start: string :: Stripped(start, Text(s.prefix)) && r == start + "\n" + Text(s.suffix)
  }

  /** These lines are the template, line by line, between the first and the last line of the style, if it has them. */
  ghost predicate Renders(s: Style, template: seq<string>, lines: seq<string>) {
    var before, after := if s.headerStart.Some? then 1 else 0, if s.headerEnd.Some? then 1 else 0;
    && |lines| == before + |template| + after
    && (s.headerStart.Some? ==> lines[0] == s.headerStart.value)
    && (s.headerEnd.Some? ==> lines[|lines| - 1] == s.headerEnd.value)
    && forall i :: 0 <= i < |template| ==> Carries(s, template[i], lines[before + i])
  }

  lemma RenderLineCarries(s: Style, line: string)
    ensures Carries(s, line, RenderLine(s, line))
  {
    var start := RStrip(Text(s.prefix));
    assert Stripped(start, Text(s.prefix));
    assert RenderLine(s, line) == (if line == "\n" then start else Text(s.prefix)) + line + Text(s.suffix);
  }

  lemma RenderRenders(s: Style, template: seq<string>)
    ensures Renders(s, template, Render(s, template))
  {
    hide Carries, RenderLine, Renders;
    var body := RenderLines(s, template);
    forall i | 0 <= i < |template| ensures Carries(s, template[i], body[i]) {
      RenderLineCarries(s, template[i]);
    }
    Framed(s, template, body);
  }

  lemma Framed(s: Style, template: seq<string>, body: seq<string>)
    requires |body| == |template| && forall i :: 0 <= i < |template| ==> Carries(s, template[i], body[i])
    ensures Renders(s, template, ToList(s.headerStart) + body + ToList(s.headerEnd))
  {
    hide Carries;
    var start, end := ToList(s.headerStart), ToList(s.headerEnd);
    var lines := start + body + end;
    forall i | 0 <= i < |template| ensures Carries(s, template[i], lines[|start| + i]) {
      assert lines[|start| + i] == body[i];
    }
  }

  lemma RenderMore(s: Style, template: seq<string>, i: nat)
    requires i < |template|
    ensures RenderLines(s, template)[..i + 1] == RenderLines(s, template)[..i] + [RenderLine(s, template[i])]
  {
  }

  /** `for_type`. */
  method ForType(s: Style, template: seq<string>) returns (lines: seq<string>)
    ensures lines == Render(s, template) && Renders(s, template, lines)
  {
    RenderRenders(s, template);
    hide Renders, Carries, RStrip, RenderLines;
    lines := [];
    if s.headerStart.Some? {
      lines := lines + [s.headerStart.value];
    }
    ghost var before := lines;
    for i := 0 to |template|
      invariant lines == before + RenderLines(s, template)[..i]
    {
      var line := template[i];
      var tmp := line;
      if s.prefix.Some? && line == "\n" {
        tmp := RStrip(s.prefix.value) + tmp;
      } else if s.prefix.Some? {
        tmp := s.prefix.value + tmp;
      }
      if s.suffix.Some? {
        tmp := tmp + s.suffix.value;
      }
      assert tmp == RenderLine(s, line);
      lines := lines + [tmp];
      RenderMore(s, template, i);
      Assoc(before, RenderLines(s, template)[..i], [tmp]);
    }
    assert RenderLines(s, template)[..|template|] == RenderLines(s, template);
    if s.headerEnd.Some? {
      lines := lines + [s.headerEnd.value];
    }
  }

  // ----- The rewriter

  /** The lines before the header in the output, and those after it. */
  function Before(s: Style, p: Patterns, lines: seq<string>): seq<string> {
    var info := Scan(s, p, lines);
    if info.header.Some? && info.haveLicense then lines[..info.header.value.0] else lines[..info.skip]
  }

  function After(s: Style, p: Patterns, lines: seq<string>): seq<string> {
    var info := Scan(s, p, lines);
    if info.header.Some? && info.haveLicense then lines[info.header.value.1 + 1..]
    else (if info.header.Some? then ["\n"] else []) + lines[info.skip..]
  }

  /** What rewriting the header of a file leaves in it. */
  function Rewritten(s: Style, p: Patterns, header: seq<string>, lines: seq<string>): seq<string> {
    Before(s, p, lines) + header + After(s, p, lines)
  }

  /** The template branch of `main`, which writes the new file piece by piece. */
  method Rewrite(s: Style, p: Patterns, template: seq<string>, lines: seq<string>) returns (fw: seq<string>)
    ensures fw == Rewritten(s, p, Render(s, template), lines)
  {
    var finfo := ReadFile(s, p, lines);
    var header := ForType(s, template);
    hide Scan, Render;
    if finfo.header.Some? && finfo.haveLicense {
      fw := lines[..finfo.header.value.0];
      fw := fw + header;
      fw := fw + lines[finfo.header.value.1 + 1..];
    } else {
      fw := lines[..finfo.skip];
      fw := fw + header;
      ghost var written, sep: seq<string> := fw, [];
      if finfo.header.Some? && !finfo.haveLicense {
        sep := ["\n"];
        fw := fw + ["\n"];
      }
      assert fw == written + sep;
      fw := fw + lines[finfo.skip..];
      Assoc(written, sep, lines[finfo.skip..]);
    }
  }

  // ----- Texts

  /** The lines of a text, each with its newline; the last may lack one. */
  function SplitLines(t: string): (lines: seq<string>)
    ensures Flatten(lines) == t && WellFormed(lines)
  {
    if t == "" then []
    else
      var n := LineLength(t);
      var (line, rest) := (t[..n], SplitLines(t[n..]));
      FirstOf(t, n);
      [line] + rest
  }

  lemma FirstOf(t: string, n: nat)
    requires 0 < n <= |t| && NoNewline(t[..n - 1]) && (n < |t| ==> t[n - 1] == '\n')
    ensures t == t[..n] + t[n..] && t[..n] != "" && NoNewline(t[..n][..n - 1])
    ensures n < |t| ==> IsLine(t[..n])
  {
    assert t[..n][..n - 1] == t[..n - 1] && t[..n][n - 1] == t[n - 1];
  }

  function LineLength(t: string): (n: nat)
    requires t != ""
    ensures 0 < n <= |t| && NoNewline(t[..n - 1]) && (n < |t| ==> t[n - 1] == '\n')
  {
    if t[0] == '\n' || |t| == 1 then 1
    else
      var n := LineLength(t[1..]);
      assert t[..n] == [t[0]] + t[1..][..n - 1];
      n + 1
  }

  ghost predicate NoNewline(t: string) { forall i :: 0 <= i < |t| ==> t[i] != '\n' }

  ghost predicate IsLine(l: string) { l != "" && l[|l| - 1] == '\n' && NoNewline(l[..|l| - 1]) }

  /** Lines that read back as themselves: newlines only at their ends, and missing at most in the last. */
  ghost predicate WellFormed(lines: seq<string>) {
    forall i :: 0 <= i < |lines| ==>
      lines[i] != "" && NoNewline(lines[i][..|lines[i]| - 1]) && (i < |lines| - 1 ==> IsLine(lines[i]))
  }

  function Flatten(lines: seq<string>): string {
    if lines == [] then "" else lines[0] + Flatten(lines[1..])
  }

  /** The new contents of a file with these contents. */
  function RewriteText(s: Style, p: Patterns, template: seq<string>, text: string): string {
    Flatten(Rewritten(s, p, Render(s, template), SplitLines(text)))
  }

  method RewriteFile(s: Style, p: Patterns, template: seq<string>, text: string) returns (out: string)
    ensures out == RewriteText(s, p, template, text)
  {
    var fw := Rewrite(s, p, template, SplitLines(text));
    out := Flatten(fw);
  }
}
