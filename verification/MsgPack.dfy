/**
 The MessagePack wire format, from section "Formats" of the MessagePack specification: how every
 object is laid out, and a reader for one header at a time.  Reading inverts writing and accepts
 nothing else; skipping consumes exactly one well-formed object.
 */
module MsgPack {
  import opened Basics

  type byte = x: int | 0 <= x < 256
  type bytes = seq<byte>

  // ----- Big-endian numbers of 1, 2, 4 and 8 bytes

  predicate Width(w: int) { w == 1 || w == 2 || w == 4 || w == 8 }

  type Size = w: int | Width(w) witness 1

  function Limit(w: int): int
    requires Width(w)
  {
    if w == 1 then 0x100 else if w == 2 then 0x1_0000 else if w == 4 then 0x1_0000_0000 else 0x1_0000_0000_0000_0000
  }

  function Be(w: int, n: int): (b: bytes)
    requires Width(w) && 0 <= n < Limit(w)
    ensures |b| == w
  {
    if w == 1 then [n]
    else if w == 2 then [n / 0x100, n % 0x100]
    else if w == 4 then Be(2, n / 0x1_0000) + Be(2, n % 0x1_0000)
    else Be(4, n / 0x1_0000_0000) + Be(4, n % 0x1_0000_0000)
  }

  function Un(w: int, b: bytes): (n: int)
    requires Width(w) && |b| == w
    ensures 0 <= n < Limit(w)
  {
    if w == 1 then b[0]
    else if w == 2 then b[0] * 0x100 + b[1]
    else if w == 4 then Un(2, b[..2]) * 0x1_0000 + Un(2, b[2..])
    else Un(4, b[..4]) * 0x1_0000_0000 + Un(4, b[4..])
  }

  lemma {:induction false} UnBe(w: int, n: int)
    requires Width(w) && 0 <= n < Limit(w)
    ensures Un(w, Be(w, n)) == n
  {
    if w == 4 {
      UnBe(2, n / 0x1_0000);
      UnBe(2, n % 0x1_0000);
    } else if w == 8 {
      UnBe(4, n / 0x1_0000_0000);
      UnBe(4, n % 0x1_0000_0000);
    }
  }

  lemma {:induction false} BeUn(w: int, b: bytes)
    requires Width(w) && |b| == w
    ensures Be(w, Un(w, b)) == b
  {
    if w == 1 {
      assert b == [b[0]];
    } else if w == 2 {
      assert b == [b[0], b[1]];
    } else {
      var h := w / 2;
      BeUn(h, b[..h]);
      BeUn(h, b[h..]);
      assert b == b[..h] + b[h..];
      var hi, lo, m := Un(h, b[..h]), Un(h, b[h..]), Limit(h);
      assert Un(w, b) == hi * m + lo && (hi * m + lo) / m == hi && (hi * m + lo) % m == lo;
    }
  }

  /** Two's complement. */
  function Unsigned(w: int, i: int): int
    requires Width(w)
  {
    if i < 0 then i + Limit(w) else i
  }

  function Signed(w: int, n: int): int
    requires Width(w)
  {
    if n >= Limit(w) / 2 then n - Limit(w) else n
  }

  // ----- Headers: an object without its children

  /** The width w names the format; 0 stands for the format that packs the number into the lead byte. */
  datatype Head =
    | Nil
    | Bool(b: bool)
    | Uint(w: int, n: int)
    | Int(w: int, n: int)
    | Float(w: int, bits: int)
    | Str(w: int, s: bytes)
    | Bin(w: int, s: bytes)
    | Ext(w: int, tag: byte, s: bytes)
    | Arr(w: int, n: int)
    | Map(w: int, n: int)
  {
    predicate Valid() {
      match this
      case Nil => true
      case Bool(_) => true
      case Uint(w, n) => if w == 0 then 0 <= n < 0x80 else Width(w) && 0 <= n < Limit(w)
      case Int(w, n) => if w == 0 then -0x20 <= n < 0 else Width(w) && -Limit(w) / 2 <= n < Limit(w) / 2
      case Float(w, bits) => (w == 4 || w == 8) && 0 <= bits < Limit(w)
      case Str(w, s) => if w == 0 then |s| < 0x20 else Width(w) && w < 8 && |s| < Limit(w)
      case Bin(w, s) => Width(w) && w < 8 && |s| < Limit(w)
      case Ext(w, _, s) => if w == 0 then Width(|s|) || |s| == 16 else Width(w) && w < 8 && |s| < Limit(w)
      case Arr(w, n) => if w == 0 then 0 <= n < 0x10 else (w == 2 || w == 4) && 0 <= n < Limit(w)
      case Map(w, n) => if w == 0 then 0 <= n < 0x10 else (w == 2 || w == 4) && 0 <= n < Limit(w)
    }

    /** How many objects follow the header. */
    function Arity(): nat
      requires Valid()
    {
      match this case Arr(_, n) => n case Map(_, n) => 2 * n case _ => 0
    }

    /** The lead byte. */
    function Lead(): byte
      requires Valid()
    {
      match this
      case Nil => 0xc0
      case Bool(b) => if b then 0xc3 else 0xc2
      case Uint(w, n) => if w == 0 then n else 0xcc + Log(w)
      case Int(w, n) => if w == 0 then 0x100 + n else 0xd0 + Log(w)
      case Float(w, _) => 0xc8 + Log(w)
      case Str(w, s) => if w == 0 then 0xa0 + |s| else 0xd9 + Log(w)
      case Bin(w, _) => 0xc4 + Log(w)
      case Ext(w, _, s) => if w != 0 then 0xc7 + Log(w) else if |s| == 16 then 0xd8 else 0xd4 + Log(|s|)
      case Arr(w, n) => if w == 0 then 0x90 + n else 0xdb + Log(w)
      case Map(w, n) => if w == 0 then 0x80 + n else 0xdd + Log(w)
    }

    /** What follows the lead byte. */
    function Rest(): bytes
      requires Valid()
    {
      match this
      case Nil => []
      case Bool(_) => []
      case Uint(w, n) => if w == 0 then [] else Be(w, n)
      case Int(w, n) => if w == 0 then [] else Be(w, Unsigned(w, n))
      case Float(w, bits) => Be(w, bits)
      case Str(w, s) => if w == 0 then s else Be(w, |s|) + s
      case Bin(w, s) => Be(w, |s|) + s
      case Ext(w, tag, s) => if w == 0 then [tag] + s else Be(w, |s|) + ([tag] + s)
      case Arr(w, n) => if w == 0 then [] else Be(w, n)
      case Map(w, n) => if w == 0 then [] else Be(w, n)
    }

    function Bytes(): (b: bytes)
      requires Valid()
      ensures b != []
    {
      [Lead()] + Rest()
    }
  }

  /** The position of a width among 1, 2, 4, 8, and back. */
  function Log(w: int): int { if w == 1 then 0 else if w == 2 then 1 else if w == 4 then 2 else 3 }
  function Pow(i: int): (w: int)
    ensures Width(w) && (0 <= i < 4 ==> Log(w) == i)
  {
    if i == 0 then 1 else if i == 1 then 2 else if i == 2 then 4 else 8
  }

  function ReadNum(w: int, b: bytes): (r: Result<(int, bytes)>)
    requires Width(w)
    ensures r.Ok? ==> 0 <= r.value.0 < Limit(w) && b == Be(w, r.value.0) + r.value.1
  {
    if |b| < w then Err
    else
      BeUn(w, b[..w]);
      assert b == b[..w] + b[w..];
      Ok((Un(w, b[..w]), b[w..]))
  }

  function Take(n: int, b: bytes): (r: Result<(bytes, bytes)>)
    requires n >= 0
    ensures r.Ok? ==> |r.value.0| == n && b == r.value.0 + r.value.1
  {
    if |b| < n then Err else Ok((b[..n], b[n..]))
  }

  /** A length of w bytes and that many bytes. */
  function ReadSized(w: int, b: bytes): (r: Result<(bytes, bytes)>)
    requires Width(w)
    ensures r.Ok? ==> |r.value.0| < Limit(w) && b == Be(w, |r.value.0|) + r.value.0 + r.value.1
  {
    hide Be;
    var (n, t) :- ReadNum(w, b);
    var (s, u) :- Take(n, t);
    Assoc(Be(w, n), s, u);
    Ok((s, u))
  }

  /** r read a valid header with this lead byte off what follows it, written exactly so. */
  ghost predicate Sound(r: Result<(Head, bytes)>, lead: int, t: bytes) {
    r.Ok? ==> r.value.0.Valid() && r.value.0.Lead() == lead && t == r.value.0.Rest() + r.value.1
  }

  /** A tag and n bytes. */
  function ReadTagged(n: int, b: bytes): (r: Result<(byte, bytes, bytes)>)
    requires n >= 0
    ensures r.Ok? ==> |r.value.1| == n && b == [r.value.0] + r.value.1 + r.value.2
  {
    if b == [] then Err
    else
      var (s, rest) :- Take(n, b[1..]);
      assert b == [b[0]] + s + rest;
      Ok((b[0], s, rest))
  }

  function ReadExt(w: int, t: bytes): (r: Result<(Head, bytes)>)
    requires Width(w) && w < 8
    ensures Sound(r, 0xc7 + Log(w), t)
  {
    hide Be;
    var (n, u) :- ReadNum(w, t);
    var (tag, s, rest) :- ReadTagged(n, u);
    Assoc(Be(w, n), [tag] + s, rest);
    Ok((Ext(w, tag, s), rest))
  }

  function ReadInt(w: int, t: bytes): (r: Result<(Head, bytes)>)
    requires Width(w)
    ensures Sound(r, 0xd0 + Log(w), t)
  {
    hide Be;
    var (n, u) :- ReadNum(w, t);
    assert Unsigned(w, Signed(w, n)) == n;
    Ok((Int(w, Signed(w, n)), u))
  }

  /** The formats that pack a number into the lead byte. */
  function ReadFix(lead: int, t: bytes): (r: Result<(Head, bytes)>)
    requires 0 <= lead < 0xc0 || 0xe0 <= lead < 0x100
    ensures Sound(r, lead, t)
  {
    if lead <= 0x7f then Ok((Uint(0, lead), t))
    else if lead <= 0x8f then Ok((Map(0, lead - 0x80), t))
    else if lead <= 0x9f then Ok((Arr(0, lead - 0x90), t))
    else if lead <= 0xbf then
      var (s, u) :- Take(lead - 0xa0, t);
      Ok((Str(0, s), u))
    else Ok((Int(0, lead - 0x100), t))
  }

  /** The formats with a length of some width and that many bytes. */
  function ReadBlob(lead: int, t: bytes): (r: Result<(Head, bytes)>)
    requires 0xc4 <= lead <= 0xc6 || 0xd9 <= lead <= 0xdb
    ensures Sound(r, lead, t)
  {
    hide Be;
    if lead <= 0xc6 then
      var (s, u) :- ReadSized(Pow(lead - 0xc4), t);
      Ok((Bin(Pow(lead - 0xc4), s), u))
    else
      var (s, u) :- ReadSized(Pow(lead - 0xd9), t);
      Ok((Str(Pow(lead - 0xd9), s), u))
  }

  /** The formats with just a number of some width. */
  function ReadNumber(lead: int, t: bytes): (r: Result<(Head, bytes)>)
    requires 0xca <= lead <= 0xcf || 0xdc <= lead <= 0xdf
    ensures Sound(r, lead, t)
  {
    hide Be;
    if lead <= 0xcb then
      var (n, u) :- ReadNum(Pow(lead - 0xc8), t);
      Ok((Float(Pow(lead - 0xc8), n), u))
    else if lead <= 0xcf then
      var (n, u) :- ReadNum(Pow(lead - 0xcc), t);
      Ok((Uint(Pow(lead - 0xcc), n), u))
    else if lead <= 0xdd then
      var (n, u) :- ReadNum(Pow(lead - 0xdb), t);
      Ok((Arr(Pow(lead - 0xdb), n), u))
    else
      var (n, u) :- ReadNum(Pow(lead - 0xdd), t);
      Ok((Map(Pow(lead - 0xdd), n), u))
  }

  function ReadFixExt(lead: int, t: bytes): (r: Result<(Head, bytes)>)
    requires 0xd4 <= lead <= 0xd8
    ensures Sound(r, lead, t)
  {
    var (tag, s, rest) :- ReadTagged(if lead == 0xd8 then 16 else Pow(lead - 0xd4), t);
    Ok((Ext(0, tag, s), rest))
  }

  /** Nil, the byte no format uses, and the two booleans. */
  function ReadAtom(lead: int, t: bytes): (r: Result<(Head, bytes)>)
    requires 0xc0 <= lead <= 0xc3
    ensures Sound(r, lead, t)
  {
    if lead == 0xc0 then Ok((Nil, t))
    else if lead == 0xc1 then Err
    else Ok((Bool(lead == 0xc3), t))
  }

  /** Reads the rest of a header by its lead byte. */
  function ReadRest(lead: byte, t: bytes): (r: Result<(Head, bytes)>)
    ensures Sound(r, lead, t)
  {
    hide Head.Rest, Head.Lead, ReadFix, ReadAtom, ReadExt, ReadInt, ReadFixExt, ReadBlob, ReadNumber;
    if lead < 0xc0 || lead >= 0xe0 then ReadFix(lead, t)
    else if lead <= 0xc3 then ReadAtom(lead, t)
    else if 0xc7 <= lead <= 0xc9 then ReadExt(Pow(lead - 0xc7), t)
    else if 0xd0 <= lead <= 0xd3 then ReadInt(Pow(lead - 0xd0), t)
    else if 0xd4 <= lead <= 0xd8 then ReadFixExt(lead, t)
    else if lead <= 0xc6 || 0xd9 <= lead <= 0xdb then ReadBlob(lead, t)
    else ReadNumber(lead, t)
  }

  /** Reads one header off the front: whatever is read is a valid header, written exactly so. */
  function ReadHead(b: bytes): (r: Result<(Head, bytes)>)
    ensures r.Ok? ==> r.value.0.Valid() && b == r.value.0.Bytes() + r.value.1
  {
    hide Head.Rest, Head.Lead, ReadRest;
    if b == [] then Err
    else
      var r := ReadRest(b[0], b[1..]);
      assert b == [b[0]] + b[1..];
      assert r.Ok? ==> b == [b[0]] + (r.value.0.Rest() + r.value.1);
      r
  }

  lemma {:induction false} ReadNumBe(w: int, n: int, tail: bytes)
    requires Width(w) && 0 <= n < Limit(w)
    ensures ReadNum(w, Be(w, n) + tail) == Ok((n, tail))
  {
    UnBe(w, n);
    assert (Be(w, n) + tail)[..w] == Be(w, n) && (Be(w, n) + tail)[w..] == tail;
  }

  lemma TakeAll(s: bytes, tail: bytes)
    ensures Take(|s|, s + tail) == Ok((s, tail))
  {
    assert (s + tail)[..|s|] == s && (s + tail)[|s|..] == tail;
  }

  lemma {:induction false} ReadSizedBytes(w: int, s: bytes, tail: bytes)
    requires Width(w) && |s| < Limit(w)
    ensures ReadSized(w, Be(w, |s|) + s + tail) == Ok((s, tail))
  {
    hide Be, Un, Limit;
    Assoc(Be(w, |s|), s, tail);
    ReadNumBe(w, |s|, s + tail);
    TakeAll(s, tail);
  }

  lemma ReadTaggedAll(tag: byte, s: bytes, tail: bytes)
    ensures ReadTagged(|s|, [tag] + s + tail) == Ok((tag, s, tail))
  {
    assert ([tag] + s + tail)[1..] == s + tail;
    TakeAll(s, tail);
  }

  lemma ReadFixBytes(h: Head, tail: bytes)
    requires h.Valid() && (h.Uint? || h.Int? || h.Str? || h.Arr? || h.Map?) && h.w == 0
    ensures ReadFix(h.Lead(), h.Rest() + tail) == Ok((h, tail))
  {
    if h.Str? {
      TakeAll(h.s, tail);
    } else {
      assert h.Rest() + tail == tail;
    }
  }

  lemma ReadBlobBytes(h: Head, tail: bytes)
    requires h.Valid() && (h.Str? || h.Bin?) && h.w != 0
    ensures ReadBlob(h.Lead(), h.Rest() + tail) == Ok((h, tail))
  {
    hide Be, Un;
    ReadSizedBytes(h.w, h.s, tail);
  }

  lemma ReadNumberBytes(h: Head, tail: bytes)
    requires h.Valid() && (h.Float? || ((h.Uint? || h.Arr? || h.Map?) && h.w != 0))
    ensures ReadNumber(h.Lead(), h.Rest() + tail) == Ok((h, tail))
  {
    hide Be, Un;
    ReadNumBe(h.w, if h.Float? then h.bits else h.n, tail);
  }

  lemma ReadIntBytes(h: Head, tail: bytes)
    requires h.Valid() && h.Int? && h.w != 0
    ensures ReadInt(h.w, h.Rest() + tail) == Ok((h, tail))
  {
    hide Be, Un;
    ReadNumBe(h.w, Unsigned(h.w, h.n), tail);
  }

  lemma ReadExtBytes(h: Head, tail: bytes)
    requires h.Valid() && h.Ext?
    ensures h.w == 0 ==> ReadFixExt(h.Lead(), h.Rest() + tail) == Ok((h, tail))
    ensures h.w != 0 ==> ReadExt(h.w, h.Rest() + tail) == Ok((h, tail))
  {
    hide Be, Un;
    var blob := [h.tag] + h.s;
    ReadTaggedAll(h.tag, h.s, tail);
    if h.w != 0 {
      assert Be(h.w, |h.s|) + blob + tail == Be(h.w, |h.s|) + (blob + tail);
      ReadNumBe(h.w, |h.s|, blob + tail);
    }
  }

  /** Every valid header reads back, whatever follows it. */
  lemma ReadHeadBytes(h: Head, tail: bytes)
    requires h.Valid()
    ensures ReadHead(h.Bytes() + tail) == Ok((h, tail))
  {
    hide Be, Un, ReadFix, ReadBlob, ReadNumber, ReadInt, ReadFixExt, ReadExt, Head.Rest;
    var b, lead, t := h.Bytes() + tail, h.Lead(), h.Rest() + tail;
    assert b[0] == lead && b[1..] == t;
    if h.Nil? || h.Bool? {
      NoRest(h, tail);
    } else if h.Ext? {
      ReadExtBytes(h, tail);
    } else if h.Float? || (h.w != 0 && (h.Uint? || h.Arr? || h.Map?)) {
      ReadNumberBytes(h, tail);
    } else if h.w != 0 && (h.Str? || h.Bin?) {
      ReadBlobBytes(h, tail);
    } else if h.w != 0 {
      ReadIntBytes(h, tail);
    } else {
      ReadFixBytes(h, tail);
    }
  }

  lemma NoRest(h: Head, tail: bytes)
    requires h.Nil? || h.Bool?
    ensures h.Rest() + tail == tail
  {
  }

  // ----- Objects

  /** A MessagePack object: a header and the objects it announces, a map's keys and values in turn. */
  datatype Obj = Obj(head: Head, kids: seq<Obj>) {
    predicate Valid() { head.Valid() && |kids| == head.Arity() && AllValid(kids) }

    function Bytes(): bytes
      requires Valid()
    {
      head.Bytes() + BytesAll(kids)
    }
  }

  predicate AllValid(os: seq<Obj>) { forall i :: 0 <= i < |os| ==> os[i].Valid() }

  function BytesAll(os: seq<Obj>): bytes
    requires AllValid(os)
  {
    if os == [] then [] else os[0].Bytes() + BytesAll(os[1..])
  }

  /** Skips n objects; a container's children come next. */
  function SkipAll(b: bytes, n: nat): (r: Result<bytes>)
    decreases |b|
  {
    if n == 0 then Ok(b)
    else
      var (h, rest) :- ReadHead(b);
      SkipAll(rest, h.Arity() + n - 1)
  }

  /** `msgp.Skip`: skips one object. */
  function Skip(b: bytes): Result<bytes> { SkipAll(b, 1) }

  lemma {:induction false} SkipAllBytes(os: seq<Obj>, n: nat, tail: bytes)
    requires AllValid(os)
    ensures SkipAll(BytesAll(os) + tail, |os| + n) == SkipAll(tail, n)
    decreases os
  {
    hide ReadHead, Head.Bytes, Head.Valid, Head.Arity;
    if os == [] {
      assert [] + tail == tail;
    } else {
      var o, rest := os[0], BytesAll(os[1..]) + tail;
      assert BytesAll(os) + tail == o.head.Bytes() + (BytesAll(o.kids) + rest);
      ReadHeadBytes(o.head, BytesAll(o.kids) + rest);
      SkipAllBytes(o.kids, |os| - 1 + n, rest);
      SkipAllBytes(os[1..], n, tail);
    }
  }

  lemma {:induction false} BytesAllAppend(xs: seq<Obj>, ys: seq<Obj>)
    requires AllValid(xs) && AllValid(ys)
    ensures AllValid(xs + ys) && BytesAll(xs + ys) == BytesAll(xs) + BytesAll(ys)
  {
    hide ReadHead, Head.Bytes, Head.Valid, Head.Arity;
    if xs == [] {
      assert xs + ys == ys;
    } else {
      assert (xs + ys)[1..] == xs[1..] + ys;
      BytesAllAppend(xs[1..], ys);
      Assoc(xs[0].Bytes(), BytesAll(xs[1..]), BytesAll(ys));
    }
  }

  /** What was skipped is a sequence of well-formed objects. */
  lemma {:induction false} SkippedObjects(b: bytes, n: nat) returns (os: seq<Obj>)
    requires SkipAll(b, n).Ok?
    ensures |os| == n && AllValid(os) && b == BytesAll(os) + SkipAll(b, n).value
    decreases |b|
  {
    hide ReadHead, Head.Bytes, Head.Valid, Head.Arity;
    if n == 0 {
      os := [];
    } else {
      var (h, rest) := ReadHead(b).value;
      var more := SkippedObjects(rest, h.Arity() + n - 1);
      os := Gathered(h, more);
      Assoc(h.Bytes(), BytesAll(more), SkipAll(b, n).value);
    }
  }

  /** A header takes the objects it announces as its children. */
  lemma Gathered(h: Head, more: seq<Obj>) returns (os: seq<Obj>)
    requires h.Valid() && AllValid(more) && h.Arity() <= |more|
    ensures |os| == |more| - h.Arity() + 1 && AllValid(os) && BytesAll(os) == h.Bytes() + BytesAll(more)
  {
    hide Head.Bytes, Head.Valid, Head.Arity;
    var kids, others := more[..h.Arity()], more[h.Arity()..];
    assert more == kids + others;
    BytesAllAppend(kids, others);
    var o := Obj(h, kids);
    os := [o] + others;
    assert o.Valid() && os[1..] == others;
    Assoc(h.Bytes(), BytesAll(kids), BytesAll(others));
  }

  /** Skipping succeeds exactly on a well-formed object, and then leaves what follows it. */
  lemma SkipExact(b: bytes, rest: bytes)
    ensures Skip(b) == Ok(rest) <==> exists o: Obj :: o.Valid() && b == o.Bytes() + rest
  {
    hide ReadHead, Head.Bytes, Head.Valid, Head.Arity, SkipAll;
    if Skip(b) == Ok(rest) {
      var os := SkippedObjects(b, 1);
      assert os[1..] == [] && BytesAll(os) == os[0].Bytes() + [] == os[0].Bytes();
      assert os[0].Valid() && b == os[0].Bytes() + rest;
    }
    forall o: Obj | o.Valid() && b == o.Bytes() + rest ensures Skip(b) == Ok(rest) {
      SkipObject(o, rest);
    }
  }

  lemma {:induction false} SkipObject(o: Obj, tail: bytes)
    requires o.Valid()
    ensures Skip(o.Bytes() + tail) == Ok(tail)
  {
    hide ReadHead, Head.Bytes, Head.Valid, Head.Arity;
    SkipAllBytes([o], 0, tail);
    assert [o][1..] == [] && BytesAll([o]) == o.Bytes() + [] == o.Bytes();
  }
}
