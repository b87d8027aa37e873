/**
 The generated methods, step by step: `MarshalMsg` appends to a buffer, `UnmarshalMsg` counts the map
 entries down, fills the receiver and clears what it did not see.  Each is proved to compute the
 encoding or decoding of Schema.dfy.
 */
module Codec {
  import opened Basics
  import opened MsgPack
  import opened Schema

  /** What is still to be written behind the bytes o to complete the bytes all. */
  ghost predicate Completes(all: bytes, o: bytes, rest: bytes) { all == o + rest }

  lemma Advance(all: bytes, o: bytes, x: bytes, rest: bytes)
    requires Completes(all, o, x + rest)
    ensures Completes(all, o + x, rest)
  {
    Assoc(o, x, rest);
  }

  lemma Begin(b: bytes, head: bytes, rest: bytes)
    ensures Completes(b + (head + rest), b + head, rest)
  {
    Assoc(b, head, rest);
  }

  lemma Done(all: bytes, o: bytes)
    requires Completes(all, o, [])
    ensures all == o
  {
  }

  /** The tests for omitted fields: the number of fields to write and the mask of those left out. */
  method OmitMask(fs: seq<Field>, vs: seq<Value>) returns (len: nat, mask: set<nat>)
    requires |fs| == |vs|
    ensures len == Count(fs, vs)
    ensures forall i :: 0 <= i < |fs| ==> (i in mask <==> Omitted(fs[i], vs[i]))
  {
    len, mask := |fs|, {};
    for i := 0 to |fs|
      invariant Count(fs, vs) == len - (|fs| - i) + Count(fs[i..], vs[i..])
      invariant forall j :: 0 <= j < |fs| ==> (j in mask <==> j < i && Omitted(fs[j], vs[j]))
    {
      assert fs[i..][1..] == fs[i + 1..] && vs[i..][1..] == vs[i + 1..];
      if Omitted(fs[i], vs[i]) {
        len := len - 1;
        mask := mask + {i};
      }
    }
  }

  /** The next field is written, or left out. */
  lemma {:induction false} NextField(all: bytes, o: bytes, fs: seq<Field>, vs: seq<Value>, i: nat)
    requires FieldsOk(fs) && HasFields(fs, vs) && i < |fs|
    requires Completes(all, o, EncodeFields(fs[i..], vs[i..]))
    ensures Completes(all, o + EncodeField(fs[i], vs[i]), EncodeFields(fs[i + 1..], vs[i + 1..]))
  {
    hide EncodeField, Completes, Has, Encode;
    FieldsFrom(fs, vs, i);
    Advance(all, o, EncodeField(fs[i], vs[i]), EncodeFields(fs[i + 1..], vs[i + 1..]));
  }

  lemma {:induction false} FieldsFrom(fs: seq<Field>, vs: seq<Value>, i: nat)
    requires FieldsOk(fs) && HasFields(fs, vs) && i < |fs|
    ensures EncodeFields(fs[i..], vs[i..]) == EncodeField(fs[i], vs[i]) + EncodeFields(fs[i + 1..], vs[i + 1..])
  {
    hide EncodeField, Has, Encode;
    assert fs[i..][0] == fs[i] && fs[i..][1..] == fs[i + 1..];
    assert vs[i..][0] == vs[i] && vs[i..][1..] == vs[i + 1..];
  }

  lemma {:induction false} FieldBytes(o: bytes, f: Field, v: Value)
    requires |f.name| < 0x20 && f.typ.Ok() && Has(f.typ, v)
    ensures o + EncodeField(f, v) == if Omitted(f, v) then o else o + StrHead(f.name).Bytes() + Encode(f.typ, v)
  {
    hide Head.Bytes, Encode, Has, StrHead, Omitted;
    Assoc(o, StrHead(f.name).Bytes(), Encode(f.typ, v));
    assert o + [] == o;
  }

  lemma {:induction false} AllFields(fs: seq<Field>, vs: seq<Value>)
    requires FieldsOk(fs) && HasFields(fs, vs)
    ensures fs[0..] == fs && vs[0..] == vs && EncodeFields(fs[|fs|..], vs[|fs|..]) == []
  {
  }

  lemma {:induction false} NothingToWrite(fs: seq<Field>, vs: seq<Value>)
    requires FieldsOk(fs) && HasFields(fs, vs) && Count(fs, vs) == 0
    ensures EncodeFields(fs, vs) == []
  {
    if fs != [] {
      NothingToWrite(fs[1..], vs[1..]);
    }
  }

  method MarshalMsg(t: Type, v: Value, b: bytes) returns (o: bytes)
    requires t.Ok() && Has(t, v)
    ensures o == b + Encode(t, v)
    decreases t, 0
  {
    hide Head.Bytes;
    match t {
      case TBool => o := b + Bool(v.b).Bytes();
      case TInt(w) => o := b + IntHead(w, v.i).Bytes();
      case TUint(w) => o := b + UintHead(w, v.i).Bytes();
      case TFloat => o := b + Float(8, v.bits).Bytes();
      case TStr => o := b + StrHead(v.s).Bytes();
      case TTime => o := b + TimeHead(v.ns).Bytes();
      case TOpt(e) =>
        if v.VNull? {
          o := b + Nil.Bytes();
        } else {
          o := MarshalMsg(e, v.v, b);
        }
      case TSlice(e) => o := MarshalItems(e, v.backing[..v.len], b);
      case TDict(e) => o := MarshalEntries(e, v.entries, b);
      case TRecord(fs) => o := MarshalFields(fs, v.vals, b);
    }
  }

  method MarshalItems(e: Type, vs: seq<Value>, b: bytes) returns (o: bytes)
    requires e.Ok() && HasAll(e, vs) && |vs| < UINT32
    ensures o == b + (ArrHead(|vs|).Bytes() + EncodeItems(e, vs))
    decreases e, 1
  {
    hide Head.Bytes, Encode, Has, ArrHead, Completes;
    o := b + ArrHead(|vs|).Bytes();
    ghost var all := b + (ArrHead(|vs|).Bytes() + EncodeItems(e, vs));
    Begin(b, ArrHead(|vs|).Bytes(), EncodeItems(e, vs));
    assert vs[0..] == vs;
    for i := 0 to |vs|
      invariant Completes(all, o, EncodeItems(e, vs[i..]))
    {
      assert vs[i..][1..] == vs[i + 1..];
      Advance(all, o, Encode(e, vs[i]), EncodeItems(e, vs[i + 1..]));
      o := MarshalMsg(e, vs[i], o);
    }
    Done(all, o);
  }

  method MarshalEntries(e: Type, es: seq<Entry>, b: bytes) returns (o: bytes)
    requires e.Ok() && |es| < UINT32 && forall i :: 0 <= i < |es| ==> |es[i].key| < UINT32 && Has(e, es[i].value)
    ensures o == b + (MapHead(|es|).Bytes() + EncodeEntries(e, es))
    decreases e, 1
  {
    hide Head.Bytes, Encode, Has, MapHead, StrHead, Completes;
    o := b + MapHead(|es|).Bytes();
    ghost var all := b + (MapHead(|es|).Bytes() + EncodeEntries(e, es));
    Begin(b, MapHead(|es|).Bytes(), EncodeEntries(e, es));
    assert es[0..] == es;
    for i := 0 to |es|
      invariant Completes(all, o, EncodeEntries(e, es[i..]))
    {
      assert es[i..][1..] == es[i + 1..];
      ghost var key, value, rest := StrHead(es[i].key).Bytes(), Encode(e, es[i].value), EncodeEntries(e, es[i + 1..]);
      Assoc(key, value, rest);
      Advance(all, o, key, value + rest);
      o := o + StrHead(es[i].key).Bytes();
      Advance(all, o, value, rest);
      o := MarshalMsg(e, es[i].value, o);
    }
    Done(all, o);
  }

  method MarshalFields(fs: seq<Field>, vs: seq<Value>, b: bytes) returns (o: bytes)
    requires FieldsOk(fs) && |fs| < 0x1_0000 && HasFields(fs, vs)
    ensures o == b + (MapHead(Count(fs, vs)).Bytes() + EncodeFields(fs, vs))
    decreases fs, 1
  {
    hide Head.Bytes, Encode, Has, MapHead, StrHead, Completes, Omitted, EncodeField, EncodeFields;
    // how many fields are there, and which
    var len, mask := OmitMask(fs, vs);
    // the map header of a variable number of entries
    o := b + MapHead(len).Bytes();
    ghost var all := b + (MapHead(len).Bytes() + EncodeFields(fs, vs));
    Begin(b, MapHead(len).Bytes(), EncodeFields(fs, vs));
    // an empty record has no entries to write
    if len != 0 {
      AllFields(fs, vs);
      for i := 0 to |fs|
        invariant Completes(all, o, EncodeFields(fs[i..], vs[i..]))
      {
        NextField(all, o, fs, vs, i);
        FieldBytes(o, fs[i], vs[i]);
        if i !in mask {
          o := o + StrHead(fs[i].name).Bytes();
          o := MarshalMsg(fs[i].typ, vs[i], o);
        }
      }
    } else {
      NothingToWrite(fs, vs);
    }
    Done(all, o);
  }

  // ----- Unmarshal

  method UnmarshalMsg(t: Type, z: Value, bts: bytes) returns (r: Result<(Value, bytes)>)
    requires Has(t, z)
    ensures r == Decode(t, z, bts)
    decreases t, 0
  {
    hide ReadHead, ReadBasic;
    match t {
      case TOpt(e) =>
        if bts != [] && bts[0] == 0xc0 {
          return Ok((VNull, bts[1..]));
        }
        r := UnmarshalMsg(e, if z.VPtr? then z.v else Zero(e), bts);
        if r.Ok? {
          r := Ok((VPtr(r.value.0), r.value.1));
        }
      case TSlice(e) => r := UnmarshalSlice(e, z, bts);
      case TDict(e) => r := UnmarshalDict(e, z, bts);
      case TRecord(fs) => r := UnmarshalRecord(fs, z, bts);
      case _ =>
        var h := ReadHead(bts);
        if h.Err? {
          return Err;
        }
        var v := ReadBasic(t, h.value.0);
        r := if v.Err? then Err else Ok((v.value, h.value.1));
    }
  }

  /** Reuses the receiver's storage if it is large enough. */
  method UnmarshalSlice(e: Type, z: Value, bts: bytes) returns (r: Result<(Value, bytes)>)
    requires Has(TSlice(e), z)
    ensures r == Decode(TSlice(e), z, bts)
    decreases e, 2
  {
    hide ReadArrayHeader, DecodeItems, Zero;
    var h := ReadArrayHeader(bts);
    if h.Err? {
      return Err;
    }
    var n := h.value.0;
    var segments := if |z.backing| >= n then z.backing else Zeros(e, n);
    var items := FillItems(e, segments[..n], h.value.1);
    if items.Err? {
      return Err;
    }
    r := Ok((VSlice(z.isNil && n == 0, n, items.value.0 + segments[n..]), items.value.1));
  }

  method FillItems(e: Type, zs: seq<Value>, bts: bytes) returns (r: Result<(seq<Value>, bytes)>)
    requires HasAll(e, zs)
    ensures r == DecodeItems(e, zs, bts)
    decreases e, 1
  {
    hide Decode, Has, Prefixed;
    var items: seq<Value>, rest := [], bts;
    assert zs[0..] == zs;
    PrefixNone(DecodeItems(e, zs, bts));
    for i := 0 to |zs|
      invariant |items| == i
      invariant DecodeItems(e, zs, bts) == Prefixed(items, DecodeItems(e, zs[i..], rest))
    {
      assert zs[i..][1..] == zs[i + 1..];
      var x := UnmarshalMsg(e, zs[i], rest);
      DecodeItemsStep(e, zs[i..], rest);
      if x.Err? {
        PrefixErr(items);
        return Err;
      }
      rest := x.value.1;
      PrefixOne(items, x.value.0, DecodeItems(e, zs[i + 1..], rest));
      items := items + [x.value.0];
    }
    PrefixEnd(items, rest);
    r := Ok((items, rest));
  }

  lemma {:induction false} DecodeItemsStep(e: Type, zs: seq<Value>, b: bytes)
    requires HasAll(e, zs) && zs != []
    ensures var x := Decode(e, zs[0], b);
            DecodeItems(e, zs, b) == if x.Err? then Err else Prefixed([x.value.0], DecodeItems(e, zs[1..], x.value.1))
  {
    hide Decode, Has;
  }

  lemma PrefixErr(vs: seq<Value>)
    ensures Prefixed(vs, Err) == Err
  {
  }

  lemma PrefixEnd(vs: seq<Value>, rest: bytes)
    ensures Prefixed(vs, Ok(([], rest))) == Ok((vs, rest))
  {
    assert vs + [] == vs;
  }

  ghost function Prefixed(vs: seq<Value>, r: Result<(seq<Value>, bytes)>): Result<(seq<Value>, bytes)> {
    if r.Err? then Err else Ok((vs + r.value.0, r.value.1))
  }

  lemma PrefixNone(r: Result<(seq<Value>, bytes)>)
    ensures Prefixed([], r) == r
  {
    if r.Ok? {
      assert [] + r.value.0 == r.value.0;
    }
  }

  lemma PrefixOne(vs: seq<Value>, v: Value, r: Result<(seq<Value>, bytes)>)
    ensures Prefixed(vs, Prefixed([v], r)) == Prefixed(vs + [v], r)
  {
    if r.Ok? {
      assert vs + ([v] + r.value.0) == vs + [v] + r.value.0;
    }
  }

  method UnmarshalDict(e: Type, z: Value, bts: bytes) returns (r: Result<(Value, bytes)>)
    requires Has(TDict(e), z)
    ensures r == Decode(TDict(e), z, bts)
    decreases e, 2
  {
    hide ReadMapHeader, DecodeEntries;
    var h := ReadMapHeader(bts);
    if h.Err? {
      return Err;
    }
    var entries := FillEntries(e, h.value.0, h.value.1);
    r := if entries.Err? then Err else Ok((VDict(false, entries.value.0), entries.value.1));
  }

  method FillEntries(e: Type, n: nat, bts: bytes) returns (r: Result<(seq<Entry>, bytes)>)
    ensures r == DecodeEntries(e, [], n, bts)
    decreases e, 1
  {
    hide Decode, Has, ReadStr, Put, Zero, Distinct;
    NoEntries(e);
    var entries: seq<Entry>, left, rest := [], n, bts;
    while left > 0
      invariant EntriesOk(e, entries)
      invariant DecodeEntries(e, [], n, bts) == DecodeEntries(e, entries, left, rest)
    {
      left := left - 1;
      var key := ReadStr(rest);
      if key.Err? {
        return Err;
      }
      var value := UnmarshalMsg(e, Zero(e), key.value.1);
      if value.Err? {
        return Err;
      }
      PutOk(e, entries, key.value.0, value.value.0);
      entries := Put(entries, key.value.0, value.value.0);
      rest := value.value.1;
    }
    r := Ok((entries, rest));
  }

  lemma NoEntries(e: Type)
    ensures EntriesOk(e, [])
  {
  }

  method UnmarshalRecord(fs: seq<Field>, z: Value, bts: bytes) returns (r: Result<(Value, bytes)>)
    requires Has(TRecord(fs), z)
    ensures r == Decode(TRecord(fs), z, bts)
    decreases fs, 2
  {
    hide ReadMapHeader, DecodeFields, Cleared;
    var h := ReadMapHeader(bts);
    if h.Err? {
      return Err;
    }
    var filled := FillFields(fs, z.vals, h.value.0, h.value.1);
    if filled.Err? {
      return Err;
    }
    var vs, mask, rest := filled.value.0, filled.value.1, filled.value.2;
    vs := ClearOmitted(fs, vs, mask);
    r := Ok((VRecord(vs), rest));
  }

  method FillFields(fs: seq<Field>, zs: seq<Value>, n: nat, bts: bytes)
    returns (r: Result<(seq<Value>, set<nat>, bytes)>)
    requires HasFields(fs, zs)
    ensures r == DecodeFields(fs, zs, {}, n, bts)
    decreases fs, 1
  {
    hide Decode, Has, ReadStr, Skip, IndexOf;
    var vs, mask: set<nat>, left, rest := zs, {}, n, bts;
    while left > 0
      invariant HasFields(fs, vs)
      invariant DecodeFields(fs, zs, {}, n, bts) == DecodeFields(fs, vs, mask, left, rest)
    {
      left := left - 1;
      var field := ReadStr(rest);
      if field.Err? {
        return Err;
      }
      var i := IndexOf(fs, field.value.0);
      if i == |fs| {
        var skipped := Skip(field.value.1);
        if skipped.Err? {
          return Err;
        }
        rest := skipped.value;
      } else {
        var x := UnmarshalMsg(fs[i].typ, vs[i], field.value.1);
        if x.Err? {
          return Err;
        }
        vs, mask, rest := vs[i := x.value.0], mask + {i}, x.value.1;
      }
    }
    r := Ok((vs, mask, rest));
  }

  method ClearOmitted(fs: seq<Field>, vs: seq<Value>, mask: set<nat>) returns (r: seq<Value>)
    requires HasFields(fs, vs)
    ensures r == Cleared(fs, vs, mask)
  {
    hide Has, Zero;
    r := vs;
    for i := 0 to |fs|
      invariant |r| == |fs|
      invariant forall j :: 0 <= j < |fs| ==> r[j] == if j < i then Cleared(fs, vs, mask)[j] else vs[j]
    {
      if fs[i].omit && i !in mask {
        r := r[i := Zero(fs[i].typ)];
      }
    }
  }
}
