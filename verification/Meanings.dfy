/**
 What decoding makes of any object at all, without bytes: which objects a type takes, and the value they mean to a
 receiver.  Decoding succeeds exactly on these and gives exactly that value, whatever is in front of it.
 */
module Meanings {
  import opened Basics
  import opened MsgPack
  import opened Schema
  import opened WireForms
  import opened CodecLaws

  // ----- The objects a type takes

  ghost predicate Takes(t: Type, o: Obj)
    requires o.Valid()
    decreases t, 0, 0
  {
    match t
    case TBool => o.head.Bool?
    case TInt(w) => (o.head.Int? || o.head.Uint?) && -Limit(w) / 2 <= o.head.n < Limit(w) / 2
    case TUint(w) => (o.head.Int? || o.head.Uint?) && 0 <= o.head.n < Limit(w)
    case TFloat => o.head.Float? && o.head.w == 8
    case TStr => o.head.Str?
    case TTime => IsTime(o.head)
    case TOpt(e) => o.head == Nil || Takes(e, o)
    case TSlice(e) => o.head.Arr? && TakesItems(e, o.kids)
    case TDict(e) => o.head.Map? && TakesEntries(e, o.kids)
    case TRecord(fs) => o.head.Map? && TakesPairs(fs, o.kids)
  }

  ghost predicate TakesItems(e: Type, kids: seq<Obj>)
    requires AllValid(kids)
    decreases e, 1, |kids|
  {
    forall i :: 0 <= i < |kids| ==> Takes(e, kids[i])
  }

  /** Every key is a string, and every value one that the type takes. */
  ghost predicate TakesEntries(e: Type, kids: seq<Obj>)
    requires AllValid(kids)
    decreases e, 1, |kids|
  {
    |kids| >= 2 ==> kids[0].head.Str? && Takes(e, kids[1]) && TakesEntries(e, kids[2..])
  }

  /** Every key is a string, and if it names a field, that field takes the value. */
  ghost predicate TakesPairs(fs: seq<Field>, kids: seq<Obj>)
    requires AllValid(kids)
    decreases fs, 1, |kids|
  {
    |kids| >= 2 ==>
      && kids[0].head.Str? && (forall i :: 0 <= i < |fs| && fs[i].name == kids[0].head.s ==> Takes(fs[i].typ, kids[1]))
      && TakesPairs(fs, kids[2..])
  }

  /** The nanoseconds that 12 bytes stand for. */
  function Instant(s: bytes): int
    requires |s| == 12
  {
    Signed(8, Un(8, s[..8])) * SECOND + Signed(4, Un(4, s[8..]))
  }

  predicate IsTime(h: Head) {
    h.Ext? && h.w == 1 && h.tag == TIME_TAG && |h.s| == 12 && -INT64 <= Instant(h.s) / SECOND < INT64
  }

  // ----- What they mean to a receiver that holds z

  ghost function Meaning(t: Type, z: Value, o: Obj): (v: Value)
    requires Has(t, z) && o.Valid() && Takes(t, o)
    ensures Has(t, v)
    decreases t, 0, 0
  {
    match t
    case TBool => VBool(o.head.b)
    case TInt(_) => VInt(o.head.n)
    case TUint(_) => VInt(o.head.n)
    case TFloat => VFloat(o.head.bits)
    case TStr => VStr(o.head.s)
    case TTime => VTime(Instant(o.head.s))
    case TOpt(e) => if o.head == Nil then VNull else VPtr(Meaning(e, if z.VPtr? then z.v else Zero(e), o))
    case TSlice(e) =>
      var n := |o.kids|;
      var store := if n <= |z.backing| then z.backing else Zeros(e, n);
      VSlice(z.isNil && n == 0, n, ItemMeanings(e, store[..n], o.kids) + store[n..])
    case TDict(e) => VDict(false, EntryMeanings(e, [], o.kids))
    case TRecord(fs) => VRecord(FieldMeanings(fs, z.vals, o.kids))
  }

  /** Fields that may be omitted and do not come are cleared. */
  ghost function FieldMeanings(fs: seq<Field>, zs: seq<Value>, kids: seq<Obj>): (vs: seq<Value>)
    requires HasFields(fs, zs) && AllValid(kids) && TakesPairs(fs, kids)
    ensures HasFields(fs, vs)
    decreases fs, 2, |kids|
  {
    seq(|fs|, i requires 0 <= i < |fs| =>
      if fs[i].omit && !Named(kids, fs[i].name) then Zero(fs[i].typ) else FieldMeaning(fs, i, zs[i], kids))
  }

  /** Item by item, each into the storage that is there. */
  ghost function ItemMeanings(e: Type, olds: seq<Value>, kids: seq<Obj>): (vs: seq<Value>)
    requires HasAll(e, olds) && AllValid(kids) && |olds| == |kids| && TakesItems(e, kids)
    ensures |vs| == |kids| && HasAll(e, vs)
    decreases e, 1, |kids|
  {
    seq(|kids|, i requires 0 <= i < |kids| => Meaning(e, olds[i], kids[i]))
  }

  /** Every value replaces what its key had. */
  ghost function EntryMeanings(e: Type, acc: seq<Entry>, kids: seq<Obj>): (es: seq<Entry>)
    requires EntriesOk(e, acc) && AllValid(kids) && TakesEntries(e, kids)
    ensures EntriesOk(e, es) && |es| <= |acc| + |kids| / 2
    decreases e, 1, |kids|
  {
    if |kids| < 2 then acc
    else
      var value := Meaning(e, Zero(e), kids[1]);
      StrLength(kids[0]);
      PutOk(e, acc, kids[0].head.s, value);
      EntryMeanings(e, Put(acc, kids[0].head.s, value), kids[2..])
  }

  lemma {:induction false} StrLength(o: Obj)
    requires o.Valid() && o.head.Str?
    ensures |o.head.s| < UINT32
  {
  }

  /** Field i takes every value that comes under its name, one into the other. */
  ghost function FieldMeaning(fs: seq<Field>, i: nat, was: Value, kids: seq<Obj>): (v: Value)
    requires i < |fs| && Has(fs[i].typ, was) && AllValid(kids) && TakesPairs(fs, kids)
    ensures Has(fs[i].typ, v)
    decreases fs, 1, |kids|
  {
    if |kids| < 2 then was
    else if kids[0].head.s == fs[i].name then FieldMeaning(fs, i, Meaning(fs[i].typ, was, kids[1]), kids[2..])
    else FieldMeaning(fs, i, was, kids[2..])
  }

  // ----- Decoding gives the meaning

  /** What decoding an object must give. */
  ghost function Outcome(t: Type, z: Value, o: Obj, tail: bytes): Result<(Value, bytes)>
    requires Has(t, z) && o.Valid()
  {
    if Takes(t, o) then Ok((Meaning(t, z, o), tail)) else Err
  }

  /**
   For every object, taken or not, every receiver and every tail: decoding succeeds exactly if the type takes the
   object, and then gives its meaning and the tail.
   */
  lemma {:induction false} DecodeExact(t: Type, z: Value, o: Obj, tail: bytes)
    requires t.Ok() && Has(t, z) && o.Valid()
    ensures Decode(t, z, o.Bytes() + tail) == Outcome(t, z, o, tail)
    decreases t, 2, 0
  {
    hide Decode, Obj.Bytes, Obj.Valid, Takes, Meaning;
    match t
    case TOpt(e) => OptExact(e, z, o, tail);
    case TSlice(e) => SliceExact(e, z, o, tail);
    case TDict(e) => DictExact(e, z, o, tail);
    case TRecord(fs) => RecordExact(fs, z, o, tail);
    case _ => BasicExact(t, z, o, tail);
  }

  lemma {:induction false} BasicExact(t: Type, z: Value, o: Obj, tail: bytes)
    requires Basic(t) && Has(t, z) && o.Valid()
    ensures Decode(t, z, o.Bytes() + tail) == Outcome(t, z, o, tail)
  {
    hide ReadHead, Head.Bytes, Obj.Bytes, DecodeItems, DecodeEntries, DecodeFields, ReadBasic;
    ReadObject(o, tail);
    ReadBasicExact(t, o);
    hide Has;
  }

  lemma {:induction false} ReadBasicExact(t: Type, o: Obj)
    requires Basic(t) && o.Valid()
    ensures ReadBasic(t, o.head).Ok? <==> Takes(t, o)
    ensures Takes(t, o) ==> o.kids == []
    ensures forall z :: Has(t, z) && Takes(t, o) ==> ReadBasic(t, o.head) == Result<Value>.Ok(Meaning(t, z, o))
  {
    hide Un, Limit;
  }

  lemma {:induction false} OptExact(e: Type, z: Value, o: Obj, tail: bytes)
    requires TOpt(e).Ok() && Has(TOpt(e), z) && o.Valid()
    ensures Decode(TOpt(e), z, o.Bytes() + tail) == Outcome(TOpt(e), z, o, tail)
    decreases e, 3, 0
  {
    hide Head.Bytes, Obj.Bytes, Obj.Valid, ReadHead, ReadBasic, DecodeItems, DecodeEntries, DecodeFields;
    NilByte(o, tail);
    if o.head != Nil {
      DecodeExact(e, if z.VPtr? then z.v else Zero(e), o, tail);
    }
  }

  lemma {:induction false} SliceExact(e: Type, z: Value, o: Obj, tail: bytes)
    requires e.Ok() && Has(TSlice(e), z) && o.Valid()
    ensures Decode(TSlice(e), z, o.Bytes() + tail) == Outcome(TSlice(e), z, o, tail)
    decreases e, 4, 0
  {
    hide ReadHead, Head.Bytes, Obj.Bytes, BytesAll, DecodeItems, DecodeEntries, DecodeFields, ReadBasic, ItemMeanings;
    hide TakesItems;
    ReadObject(o, tail);
    if o.head.Arr? {
      var n := |o.kids|;
      var store := if n <= |z.backing| then z.backing else Zeros(e, n);
      assert HasAll(e, store[..n]);
      ItemsExact(e, store[..n], o.kids, tail);
    }
  }

  lemma {:induction false} ItemsExact(e: Type, olds: seq<Value>, kids: seq<Obj>, tail: bytes)
    requires e.Ok() && HasAll(e, olds) && AllValid(kids) && |olds| == |kids|
    ensures DecodeItems(e, olds, BytesAll(kids) + tail) ==
      if TakesItems(e, kids) then Ok((ItemMeanings(e, olds, kids), tail)) else Err
    decreases e, 3, |kids|
  {
    hide Decode, Has, Takes, Meaning, Obj.Bytes, Obj.Valid;
    if kids == [] {
      NoBytes(tail);
    } else {
      var rest := BytesAll(kids[1..]) + tail;
      Assoc(kids[0].Bytes(), BytesAll(kids[1..]), tail);
      DecodeExact(e, olds[0], kids[0], rest);
      ItemsExact(e, olds[1..], kids[1..], tail);
      FirstItem(e, olds, kids);
    }
  }

  lemma {:induction false} FirstItem(e: Type, olds: seq<Value>, kids: seq<Obj>)
    requires HasAll(e, olds) && AllValid(kids) && |olds| == |kids| > 0
    ensures TakesItems(e, kids) <==> Takes(e, kids[0]) && TakesItems(e, kids[1..])
    ensures TakesItems(e, kids) ==>
      ItemMeanings(e, olds, kids) == [Meaning(e, olds[0], kids[0])] + ItemMeanings(e, olds[1..], kids[1..])
  {
    hide Has, Takes, Meaning;
    if Takes(e, kids[0]) && TakesItems(e, kids[1..]) {
      assert forall i :: 1 <= i < |kids| ==> kids[i] == kids[1..][i - 1];
    }
  }

  lemma {:induction false} DictExact(e: Type, z: Value, o: Obj, tail: bytes)
    requires e.Ok() && Has(TDict(e), z) && o.Valid()
    ensures Decode(TDict(e), z, o.Bytes() + tail) == Outcome(TDict(e), z, o, tail)
    decreases e, 4, 0
  {
    hide ReadHead, Head.Bytes, Obj.Bytes, BytesAll, DecodeItems, DecodeEntries, DecodeFields, ReadBasic, EntryMeanings;
    hide TakesEntries;
    ReadObject(o, tail);
    if o.head.Map? {
      EntriesExact(e, [], o.kids, tail);
    }
  }

  lemma {:induction false} EntriesExact(e: Type, acc: seq<Entry>, kids: seq<Obj>, tail: bytes)
    requires e.Ok() && EntriesOk(e, acc) && AllValid(kids) && |kids| % 2 == 0
    ensures DecodeEntries(e, acc, |kids| / 2, BytesAll(kids) + tail) ==
      if TakesEntries(e, kids) then Ok((EntryMeanings(e, acc, kids), tail)) else Err
    decreases e, 3, |kids|
  {
    hide Decode, Has, Takes, Meaning, Obj.Bytes, ReadHead, Head.Bytes, Put, Zero;
    if kids == [] {
      NoBytes(tail);
    } else {
      var rest := BytesAll(kids[2..]) + tail;
      KeyExact(kids, tail);
      if kids[0].head.Str? {
        DecodeExact(e, Zero(e), kids[1], rest);
        if Takes(e, kids[1]) {
          var value := Meaning(e, Zero(e), kids[1]);
          StrLength(kids[0]);
          PutOk(e, acc, kids[0].head.s, value);
          EntriesExact(e, Put(acc, kids[0].head.s, value), kids[2..], tail);
        }
      }
    }
  }

  /** The first key of a map, if it is one. */
  lemma {:induction false} KeyExact(kids: seq<Obj>, tail: bytes)
    requires AllValid(kids) && |kids| >= 2
    ensures ReadStr(BytesAll(kids) + tail) ==
      if kids[0].head.Str? then Ok((kids[0].head.s, kids[1].Bytes() + (BytesAll(kids[2..]) + tail))) else Err
  {
    hide ReadHead, Head.Bytes, Head.Valid;
    if kids[0].head.Str? {
      ReadPair(kids, tail);
    } else {
      Assoc(kids[0].Bytes(), BytesAll(kids[1..]), tail);
      ReadObject(kids[0], BytesAll(kids[1..]) + tail);
    }
  }

  lemma {:induction false} RecordExact(fs: seq<Field>, z: Value, o: Obj, tail: bytes)
    requires FieldsOk(fs) && Has(TRecord(fs), z) && o.Valid()
    ensures Decode(TRecord(fs), z, o.Bytes() + tail) == Outcome(TRecord(fs), z, o, tail)
    decreases fs, 4, 0
  {
    hide ReadHead, Head.Bytes, Obj.Bytes, BytesAll, DecodeItems, DecodeEntries, DecodeFields, ReadBasic, FieldMeaning;
    hide TakesPairs, Named, FieldMeanings, Cleared;
    ReadObject(o, tail);
    if o.head.Map? {
      FieldsExact(fs, z.vals, {}, o.kids, tail);
      var r := DecodeFields(fs, z.vals, {}, |o.kids| / 2, BytesAll(o.kids) + tail);
      if r.Ok? {
        ClearedMeans(fs, z.vals, o.kids, r.value.0, r.value.1);
      }
    }
  }

  lemma {:induction false} ClearedMeans(fs: seq<Field>, zs: seq<Value>, kids: seq<Obj>, vs: seq<Value>, seen: set<nat>)
    requires HasFields(fs, zs) && HasFields(fs, vs) && AllValid(kids) && TakesPairs(fs, kids)
    requires forall i :: 0 <= i < |fs| ==>
      vs[i] == FieldMeaning(fs, i, zs[i], kids) && (i in seen <==> Named(kids, fs[i].name))
    ensures Cleared(fs, vs, seen) == FieldMeanings(fs, zs, kids)
  {
    hide Has, TakesPairs, Named, FieldMeaning, Zero;
  }

  /** Decoded fields, and which were seen. */
  lemma {:induction false} FieldsExact(fs: seq<Field>, vs: seq<Value>, seen: set<nat>, kids: seq<Obj>, tail: bytes)
    requires FieldsOk(fs) && HasFields(fs, vs) && AllValid(kids) && |kids| % 2 == 0
    ensures var r := DecodeFields(fs, vs, seen, |kids| / 2, BytesAll(kids) + tail);
            && (r.Ok? <==> TakesPairs(fs, kids))
            && (r.Ok? ==> r.value.2 == tail && forall i :: 0 <= i < |fs| ==>
                  && r.value.0[i] == FieldMeaning(fs, i, vs[i], kids)
                  && (i in r.value.1 <==> i in seen || Named(kids, fs[i].name)))
    decreases fs, 3, |kids|
  {
    hide Decode, Has, Takes, Meaning, Obj.Bytes, ReadHead, Head.Bytes, Skip, IndexOf, ReadStr;
    if kids == [] {
      NoBytes(tail);
    } else {
      var rest := BytesAll(kids[2..]) + tail;
      KeyExact(kids, tail);
      if kids[0].head.Str? {
        var i := IndexOf(fs, kids[0].head.s);
        if i == |fs| {
          SkipObject(kids[1], rest);
          FieldsExact(fs, vs, seen, kids[2..], tail);
        } else {
          DecodeExact(fs[i].typ, vs[i], kids[1], rest);
          if Takes(fs[i].typ, kids[1]) {
            FieldsExact(fs, vs[i := Meaning(fs[i].typ, vs[i], kids[1])], seen + {i}, kids[2..], tail);
          }
        }
      }
    }
  }

  /** For every input: what is decoded, and what is left, is an object that the type takes and its meaning. */
  lemma {:induction false} DecodeIff(t: Type, z: Value, b: bytes, v: Value, rest: bytes)
    requires t.Ok() && Has(t, z)
    ensures Decode(t, z, b) == Ok((v, rest)) <==>
      exists o: Obj :: o.Valid() && b == o.Bytes() + rest && Takes(t, o) && v == Meaning(t, z, o)
  {
    hide Takes, Meaning, Obj.Bytes, Obj.Valid, Decode, Has, Type.Ok;
    if Decode(t, z, b) == Ok((v, rest)) {
      DecodeReadsOneObject(t, z, b);
      var o: Obj :| o.Valid() && b == o.Bytes() + rest;
      DecodeExact(t, z, o, rest);
    }
    if o: Obj :| o.Valid() && b == o.Bytes() + rest && Takes(t, o) && v == Meaning(t, z, o) {
      DecodeExact(t, z, o, rest);
    }
  }
}
