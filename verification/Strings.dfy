/** Splitting a string at a separator and joining the parts. */
module Strings {
  /** The number of separators. */
  function Count(s: string, sep: char): nat {
    if s == "" then 0 else (if s[0] == sep then 1 else 0) + Count(s[1..], sep)
  }

  /** `strings.Split` for a separator of one character. */
  function Split(s: string, sep: char): (parts: seq<string>)
    ensures parts != [] && Join(parts, sep) == s && |parts| == Count(s, sep) + 1
  {
    if s == "" then [""]
    else
      var parts := Split(s[1..], sep);
      JoinHead(s[0], parts, sep);
      if s[0] == sep then [""] + parts else [[s[0]] + parts[0]] + parts[1..]
  }

  function Join(parts: seq<string>, sep: char): string
    requires parts != []
  {
    if |parts| == 1 then parts[0] else parts[0] + [sep] + Join(parts[1..], sep)
  }

  lemma {:induction false} JoinHead(c: char, parts: seq<string>, sep: char)
    requires parts != []
    ensures Join([""] + parts, sep) == [sep] + Join(parts, sep)
    ensures Join([[c] + parts[0]] + parts[1..], sep) == [c] + Join(parts, sep)
  {
    assert ([""] + parts)[1..] == parts;
    assert ([[c] + parts[0]] + parts[1..])[1..] == parts[1..];
  }

  lemma {:induction false} CountAppend(s: string, t: string, sep: char)
    ensures Count(s + t, sep) == Count(s, sep) + Count(t, sep)
  {
    if s == "" {
      assert s + t == t;
    } else {
      assert (s + t)[1..] == s[1..] + t;
      CountAppend(s[1..], t, sep);
    }
  }

  lemma {:induction false} SplitAppend(s: string, rest: string, sep: char)
    requires Count(s, sep) == 0
    ensures Split(s + [sep] + rest, sep) == [s] + Split(rest, sep)
  {
    var t := s + [sep] + rest;
    if s == "" {
      assert t[1..] == rest;
    } else {
      assert t[1..] == s[1..] + [sep] + rest;
      SplitAppend(s[1..], rest, sep);
      assert s[0] != sep && [t[0]] + s[1..] == s;
      assert ([s[1..]] + Split(rest, sep))[1..] == Split(rest, sep);
    }
  }

  lemma {:induction false} SplitSingle(s: string, sep: char)
    requires Count(s, sep) == 0
    ensures Split(s, sep) == [s]
  {
    if s != "" {
      SplitSingle(s[1..], sep);
    }
  }

  /** Parts without separators are what splits out of their join. */
  lemma {:induction false} SplitJoin(parts: seq<string>, sep: char)
    requires parts != [] && forall p <- parts :: Count(p, sep) == 0
    ensures Split(Join(parts, sep), sep) == parts
  {
    if |parts| == 1 {
      SplitSingle(parts[0], sep);
    } else {
      SplitJoin(parts[1..], sep);
      SplitAppend(parts[0], Join(parts[1..], sep), sep);
    }
  }

  /** What splits out has no separators in it. */
  lemma {:induction false} SplitClean(s: string, sep: char)
    ensures forall p <- Split(s, sep) :: Count(p, sep) == 0
  {
    if s != "" {
      SplitClean(s[1..], sep);
      var parts := Split(s[1..], sep);
      assert ([s[0]] + parts[0])[1..] == parts[0];
    }
  }
}
