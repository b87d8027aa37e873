/** The streaming twins of Codec.dfy: `EncodeMsg` writes to a stream and `DecodeMsg` reads from one. */
module Streams {
  import opened Basics
  import opened MsgPack
  import opened Schema
  import opened WireForms
  import opened Codec

  // ----- Streaming encoder

  /** `msgp.Writer`: what has been written so far. */
  class Writer {
    var buf: bytes

    method Append(b: bytes)
      modifies this
      ensures buf == old(buf) + b
    {
      buf := buf + b;
    }
  }

  /** Writes the very bytes that `MarshalMsg` appends. */
  method EncodeMsg(t: Type, v: Value, en: Writer)
    requires t.Ok() && Has(t, v)
    modifies en
    ensures en.buf == old(en.buf) + Encode(t, v)
    decreases t, 0
  {
    hide Head.Bytes;
    match t {
      case TBool => en.Append(Bool(v.b).Bytes());
      case TInt(w) => en.Append(IntHead(w, v.i).Bytes());
      case TUint(w) => en.Append(UintHead(w, v.i).Bytes());
      case TFloat => en.Append(Float(8, v.bits).Bytes());
      case TStr => en.Append(StrHead(v.s).Bytes());
      case TTime => en.Append(TimeHead(v.ns).Bytes());
      case TOpt(e) =>
        if v.VNull? {
          en.Append(Nil.Bytes());
        } else {
          EncodeMsg(e, v.v, en);
        }
      case TSlice(e) => EncodeMsgItems(e, v.backing[..v.len], en);
      case TDict(e) => EncodeMsgEntries(e, v.entries, en);
      case TRecord(fs) => EncodeMsgFields(fs, v.vals, en);
    }
  }

  method EncodeMsgItems(e: Type, vs: seq<Value>, en: Writer)
    requires e.Ok() && HasAll(e, vs) && |vs| < UINT32
    modifies en
    ensures en.buf == old(en.buf) + (ArrHead(|vs|).Bytes() + EncodeItems(e, vs))
    decreases e, 1
  {
    hide Head.Bytes, Encode, Has, ArrHead, Completes;
    ghost var all := en.buf + (ArrHead(|vs|).Bytes() + EncodeItems(e, vs));
    Begin(en.buf, ArrHead(|vs|).Bytes(), EncodeItems(e, vs));
    en.Append(ArrHead(|vs|).Bytes());
    assert vs[0..] == vs;
    for i := 0 to |vs|
      invariant Completes(all, en.buf, EncodeItems(e, vs[i..]))
    {
      assert vs[i..][1..] == vs[i + 1..];
      Advance(all, en.buf, Encode(e, vs[i]), EncodeItems(e, vs[i + 1..]));
      EncodeMsg(e, vs[i], en);
    }
    Done(all, en.buf);
  }

  method EncodeMsgEntries(e: Type, es: seq<Entry>, en: Writer)
    requires e.Ok() && |es| < UINT32 && forall i :: 0 <= i < |es| ==> |es[i].key| < UINT32 && Has(e, es[i].value)
    modifies en
    ensures en.buf == old(en.buf) + (MapHead(|es|).Bytes() + EncodeEntries(e, es))
    decreases e, 1
  {
    hide Head.Bytes, Encode, Has, MapHead, StrHead, Completes;
    ghost var all := en.buf + (MapHead(|es|).Bytes() + EncodeEntries(e, es));
    Begin(en.buf, MapHead(|es|).Bytes(), EncodeEntries(e, es));
    en.Append(MapHead(|es|).Bytes());
    assert es[0..] == es;
    for i := 0 to |es|
      invariant Completes(all, en.buf, EncodeEntries(e, es[i..]))
    {
      assert es[i..][1..] == es[i + 1..];
      ghost var key, value, rest := StrHead(es[i].key).Bytes(), Encode(e, es[i].value), EncodeEntries(e, es[i + 1..]);
      Assoc(key, value, rest);
      Advance(all, en.buf, key, value + rest);
      en.Append(StrHead(es[i].key).Bytes());
      Advance(all, en.buf, value, rest);
      EncodeMsg(e, es[i].value, en);
    }
    Done(all, en.buf);
  }

  method EncodeMsgFields(fs: seq<Field>, vs: seq<Value>, en: Writer)
    requires FieldsOk(fs) && |fs| < 0x1_0000 && HasFields(fs, vs)
    modifies en
    ensures en.buf == old(en.buf) + (MapHead(Count(fs, vs)).Bytes() + EncodeFields(fs, vs))
    decreases fs, 1
  {
    hide Head.Bytes, Encode, Has, MapHead, StrHead, Completes, Omitted, EncodeField, EncodeFields;
    var len, mask := OmitMask(fs, vs);
    ghost var all := en.buf + (MapHead(len).Bytes() + EncodeFields(fs, vs));
    Begin(en.buf, MapHead(len).Bytes(), EncodeFields(fs, vs));
    en.Append(MapHead(len).Bytes());
    if len != 0 {
      AllFields(fs, vs);
      for i := 0 to |fs|
        invariant Completes(all, en.buf, EncodeFields(fs[i..], vs[i..]))
      {
        NextField(all, en.buf, fs, vs, i);
        FieldBytes(en.buf, fs[i], vs[i]);
        if i !in mask {
          en.Append(StrHead(fs[i].name).Bytes());
          EncodeMsg(fs[i].typ, vs[i], en);
        }
      }
    } else {
      NothingToWrite(fs, vs);
    }
    Done(all, en.buf);
  }

  // ----- Streaming decoder

  /** got is what was to be read, and exactly the rest is left; after an error anything may be left. */
  ghost predicate Consumed<T>(r: Result<(T, bytes)>, got: Result<T>, left: bytes) {
    match r
    case Ok((v, rest)) => got == Ok(v) && left == rest
    case Err => got.Err?
  }

  /** `msgp.Reader`: what has not been read yet. */
  class Reader {
    var buf: bytes

    method NextIsNil() returns (b: bool)
      ensures b <==> buf != [] && buf[0] == 0xc0
    {
      b := buf != [] && buf[0] == 0xc0;
    }

    method ReadNil()
      requires buf != []
      modifies this
      ensures buf == old(buf)[1..]
    {
      buf := buf[1..];
    }

    method ReadObject(t: Type) returns (r: Result<Value>)
      requires Basic(t)
      modifies this
      ensures Consumed(Decode(t, Zero(t), old(buf)), r, buf)
    {
      var h := ReadHead(buf);
      if h.Err? {
        return Err;
      }
      buf := h.value.1;
      r := ReadBasic(t, h.value.0);
    }

    method ReadKey() returns (r: Result<bytes>)
      modifies this
      ensures Consumed(ReadStr(old(buf)), r, buf)
    {
      var s := ReadStr(buf);
      if s.Err? {
        return Err;
      }
      buf := s.value.1;
      r := Ok(s.value.0);
    }

    method ReadArraySize() returns (r: Result<nat>)
      modifies this
      ensures Consumed(ReadArrayHeader(old(buf)), r, buf)
    {
      var n := ReadArrayHeader(buf);
      if n.Err? {
        return Err;
      }
      buf := n.value.1;
      r := Ok(n.value.0);
    }

    method ReadMapSize() returns (r: Result<nat>)
      modifies this
      ensures Consumed(ReadMapHeader(old(buf)), r, buf)
    {
      var n := ReadMapHeader(buf);
      if n.Err? {
        return Err;
      }
      buf := n.value.1;
      r := Ok(n.value.0);
    }

    method SkipOne() returns (ok: bool)
      modifies this
      ensures ok <==> Skip(old(buf)).Ok?
      ensures ok ==> buf == Skip(old(buf)).value
    {
      var rest := Skip(buf);
      ok := rest.Ok?;
      if ok {
        buf := rest.value;
      }
    }
  }

  /** Reads what `UnmarshalMsg` reads, and leaves the stream behind it. */
  method DecodeMsg(t: Type, z: Value, dc: Reader) returns (r: Result<Value>)
    requires Has(t, z)
    modifies dc
    ensures Consumed(Decode(t, z, old(dc.buf)), r, dc.buf)
    decreases t, 0
  {
    hide ReadHead, ReadBasic;
    match t {
      case TOpt(e) =>
        var isNil := dc.NextIsNil();
        if isNil {
          dc.ReadNil();
          return Ok(VNull);
        }
        r := DecodeMsg(e, if z.VPtr? then z.v else Zero(e), dc);
        if r.Ok? {
          r := Ok(VPtr(r.value));
        }
      case TSlice(e) => r := DecodeMsgSlice(e, z, dc);
      case TDict(e) => r := DecodeMsgDict(e, z, dc);
      case TRecord(fs) => r := DecodeMsgRecord(fs, z, dc);
      case _ => r := dc.ReadObject(t);
    }
  }

  method DecodeMsgSlice(e: Type, z: Value, dc: Reader) returns (r: Result<Value>)
    requires Has(TSlice(e), z)
    modifies dc
    ensures Consumed(Decode(TSlice(e), z, old(dc.buf)), r, dc.buf)
    decreases e, 2
  {
    hide ReadArrayHeader, DecodeItems, Zero;
    var n := dc.ReadArraySize();
    if n.Err? {
      return Err;
    }
    var segments := if |z.backing| >= n.value then z.backing else Zeros(e, n.value);
    var items := DecodeMsgItems(e, segments[..n.value], dc);
    if items.Err? {
      return Err;
    }
    r := Ok(VSlice(z.isNil && n.value == 0, n.value, items.value + segments[n.value..]));
  }

  method DecodeMsgItems(e: Type, zs: seq<Value>, dc: Reader) returns (r: Result<seq<Value>>)
    requires HasAll(e, zs)
    modifies dc
    ensures Consumed(DecodeItems(e, zs, old(dc.buf)), r, dc.buf)
    decreases e, 1
  {
    hide Decode, Has, Prefixed;
    ghost var bts := dc.buf;
    var items: seq<Value> := [];
    assert zs[0..] == zs;
    PrefixNone(DecodeItems(e, zs, bts));
    for i := 0 to |zs|
      invariant |items| == i
      invariant DecodeItems(e, zs, bts) == Prefixed(items, DecodeItems(e, zs[i..], dc.buf))
    {
      assert zs[i..][1..] == zs[i + 1..];
      DecodeItemsStep(e, zs[i..], dc.buf);
      var x := DecodeMsg(e, zs[i], dc);
      if x.Err? {
        PrefixErr(items);
        return Err;
      }
      PrefixOne(items, x.value, DecodeItems(e, zs[i + 1..], dc.buf));
      items := items + [x.value];
    }
    PrefixEnd(items, dc.buf);
    r := Ok(items);
  }

  method DecodeMsgDict(e: Type, z: Value, dc: Reader) returns (r: Result<Value>)
    requires Has(TDict(e), z)
    modifies dc
    ensures Consumed(Decode(TDict(e), z, old(dc.buf)), r, dc.buf)
    decreases e, 2
  {
    hide ReadMapHeader, DecodeEntries;
    var n := dc.ReadMapSize();
    if n.Err? {
      return Err;
    }
    var entries := DecodeMsgEntries(e, n.value, dc);
    r := if entries.Err? then Err else Ok(VDict(false, entries.value));
  }

  method DecodeMsgEntries(e: Type, n: nat, dc: Reader) returns (r: Result<seq<Entry>>)
    modifies dc
    ensures Consumed(DecodeEntries(e, [], n, old(dc.buf)), r, dc.buf)
    decreases e, 1
  {
    hide Decode, Has, ReadStr, Put, Zero, Distinct;
    NoEntries(e);
    ghost var bts := dc.buf;
    var entries: seq<Entry>, left := [], n;
    while left > 0
      invariant EntriesOk(e, entries)
      invariant DecodeEntries(e, [], n, bts) == DecodeEntries(e, entries, left, dc.buf)
    {
      left := left - 1;
      var key := dc.ReadKey();
      if key.Err? {
        return Err;
      }
      var value := DecodeMsg(e, Zero(e), dc);
      if value.Err? {
        return Err;
      }
      PutOk(e, entries, key.value, value.value);
      entries := Put(entries, key.value, value.value);
    }
    r := Ok(entries);
  }

  method DecodeMsgRecord(fs: seq<Field>, z: Value, dc: Reader) returns (r: Result<Value>)
    requires Has(TRecord(fs), z)
    modifies dc
    ensures Consumed(Decode(TRecord(fs), z, old(dc.buf)), r, dc.buf)
    decreases fs, 2
  {
    hide ReadMapHeader, DecodeFields, Cleared;
    var n := dc.ReadMapSize();
    if n.Err? {
      return Err;
    }
    var filled := DecodeMsgFields(fs, z.vals, n.value, dc);
    if filled.Err? {
      return Err;
    }
    var vs := ClearOmitted(fs, filled.value.0, filled.value.1);
    r := Ok(VRecord(vs));
  }

  method DecodeMsgFields(fs: seq<Field>, zs: seq<Value>, n: nat, dc: Reader) returns (r: Result<(seq<Value>, set<nat>)>)
    requires HasFields(fs, zs)
    modifies dc
    ensures match DecodeFields(fs, zs, {}, n, old(dc.buf))
            case Ok((vs, seen, rest)) => r == Ok((vs, seen)) && dc.buf == rest
            case Err => r.Err?
    decreases fs, 1
  {
    hide Decode, Has, ReadStr, Skip, IndexOf;
    ghost var bts := dc.buf;
    var vs, mask: set<nat>, left := zs, {}, n;
    while left > 0
      invariant HasFields(fs, vs)
      invariant DecodeFields(fs, zs, {}, n, bts) == DecodeFields(fs, vs, mask, left, dc.buf)
    {
      left := left - 1;
      var field := dc.ReadKey();
      if field.Err? {
        return Err;
      }
      var i := IndexOf(fs, field.value);
      if i == |fs| {
        var skipped := dc.SkipOne();
        if !skipped {
          return Err;
        }
      } else {
        var x := DecodeMsg(fs[i].typ, vs[i], dc);
        if x.Err? {
          return Err;
        }
        vs, mask := vs[i := x.value], mask + {i};
      }
    }
    r := Ok((vs, mask));
  }
}
