/** What follows from the wire forms: round trips, freedom of order, robustness and the size bound. */
module CodecLaws {
  import opened Basics
  import opened MsgPack
  import opened Schema
  import opened WireForms

  /** Decoding what was encoded, into any receiver and with any tail, gives the value and exactly the tail. */
  lemma {:induction false} RoundTrip(t: Type, z: Value, v: Value, tail: bytes)
    requires t.Ok() && Has(t, z) && Has(t, v)
    ensures Reads(Decode(t, z, Encode(t, v) + tail), v, tail)
  {
    var o := EncodeObject(t, v);
    DecodeDenoted(t, z, o, v, tail);
  }

  /** For every omission pattern the output is exactly one MessagePack object. */
  lemma {:induction false} EncodesOneObject(t: Type, v: Value, tail: bytes)
    requires t.Ok() && Has(t, v)
    ensures Skip(Encode(t, v) + tail) == Ok(tail)
  {
    var o := EncodeObject(t, v);
    SkipObject(o, tail);
  }

  // ----- Field order, unknown fields

  datatype Pair = Pair(key: Obj, value: Obj)

  ghost predicate PairsValid(ps: seq<Pair>) { forall p <- ps :: p.key.Valid() && p.key.head.Str? && p.value.Valid() }

  function Flat(ps: seq<Pair>): (kids: seq<Obj>)
    ensures |kids| == 2 * |ps|
  {
    if ps == [] then [] else [ps[0].key, ps[0].value] + Flat(ps[1..])
  }

  /** The map object with these entries. */
  function Record(ps: seq<Pair>): Obj
    requires |ps| < UINT32
  {
    Obj(MapHead(|ps|), Flat(ps))
  }

  ghost predicate Fits(fs: seq<Field>, vs: seq<Value>, p: Pair)
    requires HasFields(fs, vs) && p.value.Valid() && p.key.head.Str?
  {
    forall i :: 0 <= i < |fs| && fs[i].name == p.key.head.s ==> Denotes(fs[i].typ, p.value, vs[i])
  }

  ghost predicate Unknown(fs: seq<Field>, p: Pair)
    requires p.key.head.Str?
  {
    forall i :: 0 <= i < |fs| ==> fs[i].name != p.key.head.s
  }

  lemma {:induction false} FlatValid(ps: seq<Pair>)
    requires PairsValid(ps)
    ensures AllValid(Flat(ps))
    ensures forall name :: Named(Flat(ps), name) <==> exists p <- ps :: p.key.head.s == name
  {
    hide Obj.Valid;
    if ps != [] {
      FlatValid(ps[1..]);
      assert Flat(ps)[2..] == Flat(ps[1..]) && ps == [ps[0]] + ps[1..];
    }
  }

  /** The pairs of a record fit one by one. */
  lemma {:induction false} FieldsFit(fs: seq<Field>, ps: seq<Pair>, vs: seq<Value>)
    requires HasFields(fs, vs) && PairsValid(ps) && AllValid(Flat(ps))
    ensures DenotesFields(fs, Flat(ps), vs) <==> forall p <- ps :: Fits(fs, vs, p)
  {
    hide Obj.Valid, Has, Denotes;
    if ps != [] {
      FlatValid(ps[1..]);
      FieldsFit(fs, ps[1..], vs);
      var kids := Flat(ps);
      assert kids[0] == ps[0].key && kids[1] == ps[0].value && kids[2..] == Flat(ps[1..]);
      assert DenotesFields(fs, kids, vs) <==> Fits(fs, vs, ps[0]) && DenotesFields(fs, Flat(ps[1..]), vs);
      assert ps == [ps[0]] + ps[1..];
      assert (forall p <- ps :: Fits(fs, vs, p)) <==> Fits(fs, vs, ps[0]) && forall p <- ps[1..] :: Fits(fs, vs, p);
    }
  }

  /**
   The entries of an encoded record may be reordered and repeated, and entries with unknown keys and any
   well-formed values inserted: the decoded record is the same and exactly the whole object is consumed.
   */
  lemma {:induction false} AnyOrderAnyExtras(
      fs: seq<Field>, z: Value, v: Value, ps: seq<Pair>, qs: seq<Pair>, tail: bytes)
    requires var t := TRecord(fs); t.Ok() && Has(t, z) && Has(t, v)
    requires PairsValid(ps) && PairsValid(qs) && |ps| < UINT32 && |qs| < UINT32
    requires Record(ps).Valid() && Denotes(TRecord(fs), Record(ps), v)
    requires forall p <- ps :: p in qs
    requires forall q <- qs :: q in ps || Unknown(fs, q)
    ensures Record(qs).Valid() && Reads(Decode(TRecord(fs), z, Record(qs).Bytes() + tail), v, tail)
  {
    FlatValid(ps);
    FlatValid(qs);
    FieldsFit(fs, ps, v.vals);
    FieldsFit(fs, qs, v.vals);
    forall i | 0 <= i < |fs| ensures Named(Flat(qs), fs[i].name) || Omitted(fs[i], v.vals[i]) {
      assert Named(Flat(ps), fs[i].name) || Omitted(fs[i], v.vals[i]);
    }
    DecodeDenoted(TRecord(fs), z, Record(qs), v, tail);
  }

  // ----- Any input at all

  lemma {:induction false} SkipSplit(b: bytes, m: nat, n: nat)
    requires SkipAll(b, m).Ok?
    ensures SkipAll(b, m + n) == SkipAll(SkipAll(b, m).value, n)
    decreases |b|
  {
    hide ReadHead;
    if m > 0 {
      var (h, rest) := ReadHead(b).value;
      SkipSplit(rest, h.Arity() + m - 1, n);
    }
  }

  lemma SkipStep(b: bytes, m: nat, n: nat, mid: bytes)
    requires SkipAll(b, m) == Ok(mid)
    ensures SkipAll(b, m + n) == SkipAll(mid, n)
  {
    SkipSplit(b, m, n);
  }

  lemma SkipHead(b: bytes)
    requires ReadHead(b).Ok?
    ensures Skip(b) == SkipAll(ReadHead(b).value.1, ReadHead(b).value.0.Arity())
  {
    hide ReadHead;
  }

  /** Whatever the input: if decoding succeeds it consumed exactly one well-formed object. */
  lemma {:induction false} DecodeSkips(t: Type, z: Value, b: bytes)
    requires Has(t, z) && Decode(t, z, b).Ok?
    ensures Skip(b) == Ok(Decode(t, z, b).value.1)
    decreases t, 2, 0
  {
    hide ReadHead, Head.Arity, Skip;
    match t
    case TOpt(e) =>
      if b != [] && b[0] == 0xc0 {
        SkipNil(b);
      } else {
        DecodeSkips(e, if z.VPtr? then z.v else Zero(e), b);
      }
    case TSlice(e) =>
      var (n, rest) := ReadArrayHeader(b).value;
      SkipArray(b);
      DecodeItemsSkips(e, (if |z.backing| >= n then z.backing else Zeros(e, n))[..n], rest);
    case TDict(e) =>
      var (n, rest) := ReadMapHeader(b).value;
      SkipMap(b);
      DecodeEntriesSkips(e, [], n, rest);
    case TRecord(fs) =>
      var (n, rest) := ReadMapHeader(b).value;
      SkipMap(b);
      DecodeFieldsSkips(fs, z.vals, {}, n, rest);
    case _ =>
      SkipBasic(t, b);
  }

  lemma SkipNil(b: bytes)
    requires b != [] && b[0] == 0xc0
    ensures Skip(b) == Ok(b[1..])
  {
    assert b == Nil.Bytes() + b[1..];
    ReadHeadBytes(Nil, b[1..]);
    SkipHead(b);
  }

  lemma SkipArray(b: bytes)
    requires ReadArrayHeader(b).Ok?
    ensures Skip(b) == SkipAll(ReadArrayHeader(b).value.1, ReadArrayHeader(b).value.0)
  {
    hide ReadHead;
    SkipHead(b);
  }

  lemma SkipMap(b: bytes)
    requires ReadMapHeader(b).Ok?
    ensures Skip(b) == SkipAll(ReadMapHeader(b).value.1, 2 * ReadMapHeader(b).value.0)
  {
    hide ReadHead;
    SkipHead(b);
  }

  lemma SkipBasic(t: Type, b: bytes)
    requires ReadHead(b).Ok? && ReadBasic(t, ReadHead(b).value.0).Ok?
    ensures Skip(b) == Ok(ReadHead(b).value.1)
  {
    hide ReadHead;
    SkipHead(b);
  }

  lemma {:induction false} DecodeItemsSkips(e: Type, zs: seq<Value>, b: bytes)
    requires HasAll(e, zs) && DecodeItems(e, zs, b).Ok?
    ensures SkipAll(b, |zs|) == Ok(DecodeItems(e, zs, b).value.1)
    decreases e, 3, |zs|
  {
    hide Decode, Has, SkipAll;
    if zs != [] {
      DecodeSkips(e, zs[0], b);
      var rest := Decode(e, zs[0], b).value.1;
      DecodeItemsSkips(e, zs[1..], rest);
      SkipStep(b, 1, |zs| - 1, rest);
    } else {
      SkipNone(b);
    }
  }

  lemma {:induction false} SkipStr(b: bytes)
    requires ReadStr(b).Ok?
    ensures SkipAll(b, 1) == Ok(ReadStr(b).value.1)
  {
    hide ReadHead;
    SkipHead(b);
  }

  lemma {:induction false} DecodeEntriesSkips(e: Type, acc: seq<Entry>, n: nat, b: bytes)
    requires EntriesOk(e, acc) && DecodeEntries(e, acc, n, b).Ok?
    ensures SkipAll(b, 2 * n) == Ok(DecodeEntries(e, acc, n, b).value.1)
    decreases e, 3, n
  {
    hide Decode, Has, ReadStr, Zero, Put, Distinct, SkipAll;
    if n > 0 {
      var (key, rest) := ReadStr(b).value;
      SkipStr(b);
      DecodeSkips(e, Zero(e), rest);
      var (value, rest') := Decode(e, Zero(e), rest).value;
      PutOk(e, acc, key, value);
      DecodeEntriesSkips(e, Put(acc, key, value), n - 1, rest');
      SkipStep(rest, 1, 2 * (n - 1), rest');
      SkipStep(b, 1, 2 * n - 1, rest);
    } else {
      SkipNone(b);
    }
  }

  lemma {:induction false} SkipNone(b: bytes)
    ensures SkipAll(b, 0) == Ok(b)
  {
  }

  lemma {:induction false} DecodeFieldsSkips(fs: seq<Field>, vs: seq<Value>, seen: set<nat>, n: nat, b: bytes)
    requires HasFields(fs, vs) && DecodeFields(fs, vs, seen, n, b).Ok?
    ensures SkipAll(b, 2 * n) == Ok(DecodeFields(fs, vs, seen, n, b).value.2)
    decreases fs, 3, n
  {
    hide Decode, Has, ReadStr, IndexOf, SkipAll;
    if n > 0 {
      var (key, rest) := ReadStr(b).value;
      SkipStr(b);
      var i := IndexOf(fs, key);
      var rest';
      if i == |fs| {
        rest' := Skip(rest).value;
        DecodeFieldsSkips(fs, vs, seen, n - 1, rest');
      } else {
        DecodeSkips(fs[i].typ, vs[i], rest);
        rest' := Decode(fs[i].typ, vs[i], rest).value.1;
        DecodeFieldsSkips(fs, vs[i := Decode(fs[i].typ, vs[i], rest).value.0], seen + {i}, n - 1, rest');
      }
      SkipStep(rest, 1, 2 * (n - 1), rest');
      SkipStep(b, 1, 2 * n - 1, rest);
    } else {
      SkipNone(b);
    }
  }

  /** For every input: a successful decode read exactly one well-formed object off its front. */
  lemma {:induction false} DecodeReadsOneObject(t: Type, z: Value, b: bytes)
    requires Has(t, z) && Decode(t, z, b).Ok?
    ensures exists o: Obj :: o.Valid() && b == o.Bytes() + Decode(t, z, b).value.1
  {
    DecodeSkips(t, z, b);
    SkipExact(b, Decode(t, z, b).value.1);
  }

  // ----- Size

  /** The encoded length never exceeds `Msgsize`. */
  lemma {:induction false} SizeBound(t: Type, v: Value)
    requires t.Ok() && Has(t, v)
    ensures |Encode(t, v)| <= Msgsize(t, v)
    decreases t, 0, 0
  {
    match t
    case TOpt(e) => if !v.VNull? { SizeBound(e, v.v); }
    case TSlice(e) => ItemsSizeBound(e, v.backing[..v.len]);
    case TDict(e) => EntriesSizeBound(e, v.entries);
    case TRecord(fs) => FieldsSizeBound(fs, v.vals);
    case _ =>
  }

  lemma {:induction false} ItemsSizeBound(e: Type, vs: seq<Value>)
    requires e.Ok() && HasAll(e, vs)
    ensures |EncodeItems(e, vs)| <= ItemsSize(e, vs)
    decreases e, 1, |vs|
  {
    hide Encode, Msgsize, Has;
    if vs != [] {
      SizeBound(e, vs[0]);
      ItemsSizeBound(e, vs[1..]);
    }
  }

  lemma {:induction false} EntriesSizeBound(e: Type, es: seq<Entry>)
    requires e.Ok() && forall i :: 0 <= i < |es| ==> |es[i].key| < UINT32 && Has(e, es[i].value)
    ensures |EncodeEntries(e, es)| <= EntriesSize(e, es)
    decreases e, 1, |es|
  {
    hide Encode, Msgsize, Has, Head.Bytes;
    if es != [] {
      SizeBound(e, es[0].value);
      EntriesSizeBound(e, es[1..]);
    }
  }

  lemma {:induction false} FieldsSizeBound(fs: seq<Field>, vs: seq<Value>)
    requires FieldsOk(fs) && HasFields(fs, vs)
    ensures |EncodeFields(fs, vs)| <= FieldsSize(fs, vs)
    decreases fs, 1, |fs|
  {
    hide Encode, Msgsize, Has, Head.Bytes;
    if fs != [] {
      SizeBound(fs[0].typ, vs[0]);
      FieldsSizeBound(fs[1..], vs[1..]);
    }
  }
}
