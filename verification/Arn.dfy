/** arn.go: the text form of ARNs. */
module Arn {
  import opened Basics
  import opened Strings

  datatype ARN = ARN(typ: string, id: string, region: string, resource: string, bucket: string)

  const PREFIX := "arn:minio:"

  function String(a: ARN): string {
    var last := if a.bucket != "" then a.bucket else a.resource;
    PREFIX + a.typ + ":" + a.region + ":" + a.id + ":" + last
  }

  function ParseARN(s: string): Result<ARN> {
    if !(PREFIX <= s) then Err
    else
      var tokens := Split(s, ':');
      if |tokens| != 6 then Err
      else if tokens[4] == "" || tokens[5] == "" then Err
      else Ok(ARN(tokens[2], tokens[4], tokens[3], tokens[5], ""))
  }

  ghost predicate ColonFree(s: string) { Count(s, ':') == 0 }

  /** An ARN whose printed form parses. */
  ghost predicate Printable(a: ARN) {
    && ColonFree(a.typ) && ColonFree(a.region) && ColonFree(a.id) && a.id != ""
    && (if a.bucket != "" then ColonFree(a.bucket) else ColonFree(a.resource) && a.resource != "")
  }

  lemma JoinSix(a: string, b: string, c: string, d: string, e: string, f: string)
    ensures Join([a, b, c, d, e, f], ':') == a + ":" + b + ":" + c + ":" + d + ":" + e + ":" + f
  {
    var z := [a, b, c, d, e, f];
    assert z[1..] == [b, c, d, e, f] && z[2..] == [c, d, e, f] && z[3..] == [d, e, f] && z[4..] == [e, f];
    assert z[5..] == [f];
    assert z[1..][1..] == z[2..] && z[2..][1..] == z[3..] && z[3..][1..] == z[4..] && z[4..][1..] == z[5..];
    calc {
      Join(z, ':');
      a + ":" + Join(z[1..], ':');
      a + ":" + (b + ":" + Join(z[2..], ':'));
      a + ":" + (b + ":" + (c + ":" + Join(z[3..], ':')));
      a + ":" + (b + ":" + (c + ":" + (d + ":" + Join(z[4..], ':'))));
      a + ":" + (b + ":" + (c + ":" + (d + ":" + (e + ":" + f))));
    }
  }

  /** Whatever parses is printed back exactly. */
  lemma ParsePrint(s: string)
    requires ParseARN(s).Ok?
    ensures String(ParseARN(s).value) == s && Printable(ParseARN(s).value) && ParseARN(s).value.bucket == ""
  {
    var t := Split(s, ':');
    PrefixTokens(s);
    assert Join(t, ':') == s && t[0] == "arn" && t[1] == "minio";
    SplitClean(s, ':');
    assert forall i :: 0 <= i < 6 ==> ColonFree(t[i]);
    hide Split, Join, Count, ColonFree;
    JoinTokens(t);
  }

  lemma {:induction false} JoinTokens(t: seq<string>)
    requires |t| == 6 && t[0] == "arn" && t[1] == "minio"
    ensures Join(t, ':') == PREFIX + t[2] + ":" + t[3] + ":" + t[4] + ":" + t[5]
  {
    hide Join;
    JoinSix("arn", "minio", t[2], t[3], t[4], t[5]);
    assert t == ["arn", "minio", t[2], t[3], t[4], t[5]];
    assert PREFIX == "arn" + ":" + "minio" + ":";
  }

  lemma {:induction false} PrefixTokens(s: string)
    requires PREFIX <= s
    ensures Split(s, ':') == ["arn", "minio"] + Split(s[10..], ':')
  {
    var rest := s[10..];
    assert s == "arn" + [':'] + ("minio" + [':'] + rest);
    assert Count("arn", ':') == 0 && Count("minio", ':') == 0;
    SplitAppend("arn", "minio" + [':'] + rest, ':');
    SplitAppend("minio", rest, ':');
  }

  /** An ARN parses back exactly when it is printable; a bucket comes back as the resource. */
  lemma PrintParse(a: ARN)
    ensures Printable(a) <==> ParseARN(String(a)).Ok?
    ensures Printable(a) ==>
      ParseARN(String(a)).value == ARN(a.typ, a.id, a.region, if a.bucket != "" then a.bucket else a.resource, "")
  {
    var last := if a.bucket != "" then a.bucket else a.resource;
    CountARN(a.typ, a.region, a.id, last);
    if ColonFree(a.typ) && ColonFree(a.region) && ColonFree(a.id) && ColonFree(last) {
      CleanTokens(a.typ, a.region, a.id, last);
    }
    hide Split, Count;
  }

  /** Exactly which strings are accepted, and as what. */
  lemma {:induction false} ParseIff(s: string, a: ARN)
    ensures ParseARN(s) == Ok(a) <==>
      && s == "arn:minio:" + a.typ + ":" + a.region + ":" + a.id + ":" + a.resource && a.bucket == ""
      && ':' !in a.typ && ':' !in a.region && ':' !in a.id && ':' !in a.resource && a.id != "" && a.resource != ""
  {
    NoColon(a.typ);
    NoColon(a.region);
    NoColon(a.id);
    NoColon(a.resource);
    hide Split, Count;
    if ParseARN(s) == Ok(a) {
      ParsePrint(s);
    }
    PrintParse(a);
  }

  lemma {:induction false} NoColon(s: string)
    ensures ColonFree(s) <==> ':' !in s
  {
    if s != "" {
      NoColon(s[1..]);
      assert s == [s[0]] + s[1..];
    }
  }

  lemma {:induction false} CleanTokens(typ: string, region: string, id: string, last: string)
    requires ColonFree(typ) && ColonFree(region) && ColonFree(id) && ColonFree(last)
    ensures Split(PREFIX + typ + ":" + region + ":" + id + ":" + last, ':') == ["arn", "minio", typ, region, id, last]
  {
    var parts := ["arn", "minio", typ, region, id, last];
    assert ColonFree("arn") && ColonFree("minio");
    hide Split, Count, Join;
    JoinTokens(parts);
    SplitJoin(parts, ':');
  }

  lemma {:induction false} CountARN(typ: string, region: string, id: string, last: string)
    ensures Count(PREFIX + typ + ":" + region + ":" + id + ":" + last, ':')
         == 5 + Count(typ, ':') + Count(region, ':') + Count(id, ':') + Count(last, ':')
  {
    var s2 := PREFIX + typ;
    var s4 := s2 + ":" + region;
    var s6 := s4 + ":" + id;
    CountAppend(PREFIX, typ, ':');
    CountAppend(s2, ":", ':');
    CountAppend(s2 + ":", region, ':');
    CountAppend(s4, ":", ':');
    CountAppend(s4 + ":", id, ':');
    CountAppend(s6, ":", ':');
    CountAppend(s6 + ":", last, ':');
    PrefixColons();
  }

  lemma PrefixColons()
    ensures Count(PREFIX, ':') == 2 && Count(":", ':') == 1
  {
    CountAppend("arn:", "minio:", ':');
    CountAppend("arn", ":", ':');
    CountAppend("minio", ":", ':');
    assert PREFIX == "arn:" + "minio:" && "arn:" == "arn" + ":" && "minio:" == "minio" + ":";
    assert Count("arn", ':') == 0 && Count("minio", ':') == 0 && Count(":", ':') == 1;
  }
}
