/**
 The bound of `Msgsize` is reached: it is the length of the wire form that writes every field, each number in the
 width of its type and each length in four bytes, and so never more than what an encoder may have to write.
 */
module SizeLaws {
  import opened Basics
  import opened MsgPack
  import opened Schema
  import opened WireForms

  lemma {:induction false} Widest(t: Type, v: Value) returns (o: Obj)
    requires t.Ok() && Has(t, v)
    ensures o.Valid() && Denotes(t, o, v) && |o.Bytes()| == Msgsize(t, v)
    decreases t, 0, 0
  {
    hide Head.Bytes, Obj.Bytes, Be, Has, Obj.Valid;
    match t
    case TOpt(e) =>
      o := WidestOpt(e, v);
    case TSlice(e) =>
      o := WidestSlice(e, v);
    case TDict(e) =>
      o := WidestDict(e, v);
    case TRecord(fs) =>
      o := WidestRecord(fs, v);
    case _ =>
      o := WidestBasic(t, v);
  }

  lemma {:induction false} WidestOpt(e: Type, v: Value) returns (o: Obj)
    requires TOpt(e).Ok() && Has(TOpt(e), v)
    ensures o.Valid() && Denotes(TOpt(e), o, v) && |o.Bytes()| == Msgsize(TOpt(e), v)
    decreases e, 2, 0
  {
    hide Head.Bytes, Obj.Bytes, Be;
    if v.VNull? {
      HeadSizes(0, 1, []);
      o := Atom(Nil);
    } else {
      o := Widest(e, v.v);
      NeverNil(e, o, v.v);
    }
  }

  lemma {:induction false} WidestSlice(e: Type, v: Value) returns (o: Obj)
    requires e.Ok() && Has(TSlice(e), v)
    ensures o.Valid() && Denotes(TSlice(e), o, v) && |o.Bytes()| == Msgsize(TSlice(e), v)
    decreases e, 2, 0
  {
    hide Head.Bytes, Obj.Bytes, Be;
    HeadSizes(v.len, 1, []);
    var kids := WidestItems(e, v.backing[..v.len]);
    o := Container(Arr(4, v.len), kids);
  }

  lemma {:induction false} WidestDict(e: Type, v: Value) returns (o: Obj)
    requires e.Ok() && Has(TDict(e), v)
    ensures o.Valid() && Denotes(TDict(e), o, v) && |o.Bytes()| == Msgsize(TDict(e), v)
    decreases e, 2, 0
  {
    hide Head.Bytes, Obj.Bytes, Be, DenotesEntries, EntriesSize, Named;
    HeadSizes(|v.entries|, 1, []);
    var kids := WidestEntries(e, v.entries, v.entries);
    o := Container(Map(4, |v.entries|), kids);
  }

  lemma {:induction false} WidestRecord(fs: seq<Field>, v: Value) returns (o: Obj)
    requires TRecord(fs).Ok() && Has(TRecord(fs), v)
    ensures o.Valid() && Denotes(TRecord(fs), o, v) && |o.Bytes()| == Msgsize(TRecord(fs), v)
    decreases fs, 2, 0
  {
    hide Head.Bytes, Obj.Bytes, Be, DenotesFields, FieldsSize, Named;
    HeadSizes(|fs|, 1, []);
    var kids := WidestFields(fs, v.vals);
    o := Container(if |fs| < 0x10 then Map(0, |fs|) else Map(2, |fs|), kids);
  }

  lemma Container(h: Head, kids: seq<Obj>) returns (o: Obj)
    requires h.Valid() && |kids| == h.Arity() && AllValid(kids)
    ensures o == Obj(h, kids) && o.Valid() && |o.Bytes()| == |h.Bytes()| + |BytesAll(kids)|
  {
    o := Obj(h, kids);
  }

  /** How long the widest headers are. */
  lemma HeadSizes(n: nat, w: Size, s: bytes)
    requires n < UINT32 && |s| < UINT32
    ensures |Nil.Bytes()| == 1 && |Bool(true).Bytes()| == |Bool(false).Bytes()| == 1
    ensures n < 0x10 ==> |Map(0, n).Bytes()| == 1
    ensures n < 0x1_0000 ==> |Map(2, n).Bytes()| == 3
    ensures |Map(4, n).Bytes()| == |Arr(4, n).Bytes()| == 5 && |Str(4, s).Bytes()| == 5 + |s|
    ensures |s| < 0x20 ==> |StrHead(s).Bytes()| == 1 + |s|
    ensures forall i :: -Limit(w) / 2 <= i < Limit(w) / 2 ==> |Int(w, i).Bytes()| == 1 + w
    ensures forall i :: 0 <= i < Limit(w) ==> |Uint(w, i).Bytes()| == 1 + w
    ensures forall i :: 0 <= i < Limit(8) ==> |Float(8, i).Bytes()| == 9
  {
    hide Be;
  }

  lemma {:induction false} WidestBasic(t: Type, v: Value) returns (o: Obj)
    requires Basic(t) && Has(t, v)
    ensures o.Valid() && Denotes(t, o, v) && |o.Bytes()| == Msgsize(t, v)
  {
    HeadSizes(0, if t.TInt? || t.TUint? then t.size else 1, if t.TStr? then v.s else []);
    hide Head.Bytes, Be;
    match t
    case TBool => o := Atom(Bool(v.b));
    case TInt(w) => o := Atom(Int(w, v.i));
    case TUint(w) => o := Atom(Uint(w, v.i));
    case TFloat => o := Atom(Float(8, v.bits));
    case TStr => o := Atom(Str(4, v.s));
    case TTime => o := Atom(TimeHead(v.ns));
  }

  lemma {:induction false} WidestItems(e: Type, vs: seq<Value>) returns (os: seq<Obj>)
    requires e.Ok() && HasAll(e, vs)
    ensures |os| == |vs| && AllValid(os) && DenotesItems(e, os, vs) && |BytesAll(os)| == ItemsSize(e, vs)
    decreases e, 1, |vs|
  {
    if vs == [] {
      os := [];
    } else {
      var o := Widest(e, vs[0]);
      var rest := WidestItems(e, vs[1..]);
      os := [o] + rest;
      assert os[1..] == rest;
    }
  }

  lemma {:induction false} WidestEntries(e: Type, es: seq<Entry>, all: seq<Entry>) returns (kids: seq<Obj>)
    requires e.Ok() && EntriesOk(e, es) && EntriesOk(e, all) && forall x <- es :: x in all
    ensures |kids| == 2 * |es| && AllValid(kids) && |BytesAll(kids)| == EntriesSize(e, es)
    ensures DenotesEntries(e, kids, all)
    ensures forall key :: Named(kids, key) <==> exists x <- es :: x.key == key
    decreases e, 1, |es|
  {
    hide Head.Bytes, Obj.Bytes, Has, Denotes, Msgsize;
    if es == [] {
      kids := [];
    } else {
      HeadSizes(0, 1, es[0].key);
      var k := Atom(Str(4, es[0].key));
      var o := Widest(e, es[0].value);
      var rest := WidestEntries(e, es[1..], all);
      kids := Paired(k, o, rest);
      assert es[0] in all && es == [es[0]] + es[1..];
      hide DenotesEntries, Named;
      EntryAdded(e, kids, es[0], es[1..], all);
    }
  }

  /** Every field, whether it may be omitted or not, and nothing else. */
  lemma {:induction false} WidestFields(fs: seq<Field>, vs: seq<Value>) returns (kids: seq<Obj>)
    requires FieldsOk(fs) && HasFields(fs, vs)
    ensures |kids| == 2 * |fs| && AllValid(kids) && |BytesAll(kids)| == FieldsSize(fs, vs)
    ensures DenotesFields(fs, kids, vs)
    ensures forall name :: Named(kids, name) <==> exists i :: 0 <= i < |fs| && fs[i].name == name
    decreases fs, 1, |fs|
  {
    hide Head.Bytes, Has, Denotes, Msgsize, StrHead;
    if fs == [] {
      kids := [];
    } else {
      HeadSizes(0, 1, fs[0].name);
      var rest := WidestFields(fs[1..], vs[1..]);
      DenotesMoreFields(fs, rest, vs);
      var k := Atom(StrHead(fs[0].name));
      var o := Widest(fs[0].typ, vs[0]);
      kids := Paired(k, o, rest);
      hide DenotesFields, BytesAll, FieldsSize, AllValid;
      forall name ensures Named(kids, name) <==> exists i :: 0 <= i < |fs| && fs[i].name == name {
        if i :| 0 <= i < |fs| && fs[i].name == name {
          if i > 0 { assert fs[1..][i - 1].name == name; }
        }
        if Named(rest, name) {
          var i :| 0 <= i < |fs[1..]| && fs[1..][i].name == name;
          assert fs[i + 1].name == name;
        }
      }
    }
  }
}
