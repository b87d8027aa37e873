/**
 Which fields a record writes: every pair of the encoded object, in order.  A field that may be omitted is left
 out exactly if its value is the zero value of its type, as far as the wire can tell, or for slices and maps nil.
 */
module RecordLaws {
  import opened Basics
  import opened MsgPack
  import opened Schema
  import opened WireForms

  /** The field is on the wire. */
  ghost predicate Present(f: Field, v: Value)
    requires Has(f.typ, v)
  {
    !f.omit ||
    match f.typ
    case TSlice(_) => !v.isNil
    case TDict(_) => !v.isNil
    case TRecord(_) => true
    case _ => !Same(v, Zero(f.typ))
  }

  lemma {:induction false} PresentIff(f: Field, v: Value)
    requires Has(f.typ, v)
    ensures Present(f, v) <==> !Omitted(f, v)
  {
  }

  /** Increasing numbers from lo to below hi. */
  ghost predicate Increasing(ws: seq<nat>, lo: nat, hi: nat) {
    && (forall n :: 0 <= n < |ws| ==> lo <= ws[n] < hi)
    && forall m, n :: 0 <= m < n < |ws| ==> ws[m] < ws[n]
  }

  lemma {:induction false} Fewer(ws: seq<nat>, lo: nat, hi: nat)
    requires Increasing(ws, lo, hi) && lo <= hi
    ensures |ws| <= hi - lo
  {
    if ws != [] {
      Fewer(ws[1..], ws[0] + 1, hi);
    }
  }

  /** These pairs are the fields with these numbers: key and value of each, in this order. */
  ghost predicate PairsOf(fs: seq<Field>, vs: seq<Value>, ws: seq<nat>, kids: seq<Obj>)
    requires FieldsOk(fs) && HasFields(fs, vs) && AllValid(kids) && Increasing(ws, 0, |fs|)
  {
    |kids| == 2 * |ws| && forall n :: 0 <= n < |ws| ==>
      && kids[2 * n].head.Str? && kids[2 * n].head.s == fs[ws[n]].name
      && kids[2 * n + 1].Bytes() == Encode(fs[ws[n]].typ, vs[ws[n]])
  }

  /**
   The encoding of a record is one map object whose pairs are the present fields, each once, in the order of the
   layout, under a header that announces their number.
   */
  lemma {:induction false} EncodedPairs(fs: seq<Field>, vs: seq<Value>) returns (o: Obj, ws: seq<nat>)
    requires FieldsOk(fs) && |fs| < 0x1_0000 && HasFields(fs, vs)
    ensures Increasing(ws, 0, |fs|) && |ws| <= |fs|
    ensures o.Valid() && o.Bytes() == Encode(TRecord(fs), VRecord(vs)) && o.head == MapHead(|ws|)
    ensures forall i: nat :: i in ws <==> i < |fs| && Present(fs[i], vs[i])
    ensures PairsOf(fs, vs, ws, o.kids)
  {
    hide Head.Bytes, PairsOf, Present, Has;
    var kids;
    kids, ws := PairsFrom(fs, vs, 0);
    Fewer(ws, 0, |fs|);
    assert fs[0..] == fs && vs[0..] == vs;
    o := Obj(MapHead(|ws|), kids);
  }

  lemma {:induction false} PairsFrom(fs: seq<Field>, vs: seq<Value>, k: nat) returns (kids: seq<Obj>, ws: seq<nat>)
    requires FieldsOk(fs) && HasFields(fs, vs) && k <= |fs|
    ensures Increasing(ws, k, |fs|) && Increasing(ws, 0, |fs|)
    ensures forall i: nat :: i in ws <==> k <= i < |fs| && Present(fs[i], vs[i])
    ensures AllValid(kids) && BytesAll(kids) == EncodeFields(fs[k..], vs[k..]) && |ws| == Count(fs[k..], vs[k..])
    ensures |kids| == 2 * |ws| && PairsOf(fs, vs, ws, kids)
    decreases |fs| - k
  {
    hide Head.Bytes, Has, Present, Omitted, Encode, StrHead, PairsOf, EncodeField, EncodeFields, Count;
    if k == |fs| {
      kids, ws := [], [];
      NoPairs(fs, vs);
    } else {
      var rest, more := PairsFrom(fs, vs, k + 1);
      FieldsAt(fs, vs, k);
      PresentIff(fs[k], vs[k]);
      if Omitted(fs[k], vs[k]) {
        kids, ws := rest, more;
        assert [] + BytesAll(rest) == BytesAll(rest);
      } else {
        var key := Atom(StrHead(fs[k].name));
        var value := EncodeObject(fs[k].typ, vs[k]);
        kids := Paired(key, value, rest);
        ws := [k] + more;
        FirstPair(fs, vs, k, more, key, value, rest);
      }
    }
  }

  lemma {:induction false} NoPairs(fs: seq<Field>, vs: seq<Value>)
    requires FieldsOk(fs) && HasFields(fs, vs)
    ensures PairsOf(fs, vs, [], []) && EncodeFields(fs[|fs|..], vs[|fs|..]) == [] && Count(fs[|fs|..], vs[|fs|..]) == 0
  {
  }

  lemma {:induction false} FieldsAt(fs: seq<Field>, vs: seq<Value>, k: nat)
    requires FieldsOk(fs) && HasFields(fs, vs) && k < |fs|
    ensures EncodeFields(fs[k..], vs[k..]) == EncodeField(fs[k], vs[k]) + EncodeFields(fs[k + 1..], vs[k + 1..])
    ensures Count(fs[k..], vs[k..]) == (if Omitted(fs[k], vs[k]) then 0 else 1) + Count(fs[k + 1..], vs[k + 1..])
    ensures EncodeField(fs[k], vs[k]) ==
      if Omitted(fs[k], vs[k]) then [] else StrHead(fs[k].name).Bytes() + Encode(fs[k].typ, vs[k])
  {
    hide Head.Bytes, Has, Omitted, Encode, StrHead;
    assert fs[k..][0] == fs[k] && fs[k..][1..] == fs[k + 1..];
    assert vs[k..][0] == vs[k] && vs[k..][1..] == vs[k + 1..];
  }

  lemma {:induction false} FirstPair(
      fs: seq<Field>, vs: seq<Value>, k: nat, more: seq<nat>, key: Obj, value: Obj, rest: seq<Obj>)
    requires FieldsOk(fs) && HasFields(fs, vs) && k < |fs| && Increasing(more, k + 1, |fs|) && Increasing(more, 0, |fs|)
    requires AllValid(rest) && PairsOf(fs, vs, more, rest) && key.Valid() && value.Valid()
    requires key.head.Str? && key.head.s == fs[k].name && value.Bytes() == Encode(fs[k].typ, vs[k])
    ensures Increasing([k] + more, k, |fs|) && Increasing([k] + more, 0, |fs|)
    ensures var kids := [key, value] + rest; AllValid(kids) && PairsOf(fs, vs, [k] + more, kids)
  {
    hide Head.Bytes, Has, Encode, Obj.Valid, Obj.Bytes;
    var kids, ws := [key, value] + rest, [k] + more;
    forall n | 0 <= n < |ws|
      ensures kids[2 * n].head.Str? && kids[2 * n].head.s == fs[ws[n]].name
      ensures kids[2 * n + 1].Bytes() == Encode(fs[ws[n]].typ, vs[ws[n]])
    {
      if n > 0 {
        assert kids[2 * n] == rest[2 * (n - 1)] && kids[2 * n + 1] == rest[2 * (n - 1) + 1] && ws[n] == more[n - 1];
      }
    }
  }

  /** What that means for the types of fields that may be omitted; both zeros of a float count as zero. */
  lemma {:induction false} PresentMeans(f: Field, v: Value)
    requires f.omit && Has(f.typ, v)
    ensures f.typ.TBool? ==> (Present(f, v) <==> v.b)
    ensures f.typ.TInt? || f.typ.TUint? ==> (Present(f, v) <==> v.i != 0)
    ensures f.typ.TFloat? ==> (Present(f, v) <==> v.bits != 0 && v.bits != 0x8000_0000_0000_0000)
    ensures f.typ.TStr? ==> (Present(f, v) <==> v.s != [])
    ensures f.typ.TOpt? ==> (Present(f, v) <==> v.VPtr?)
    ensures f.typ.TTime? ==> (Present(f, v) <==> v.ns != -62135596800 * SECOND)
  {
  }

  // ----- Zero values

  lemma {:induction false} ZeroIsZero(t: Type)
    requires !t.TSlice? && !t.TDict? && !t.TRecord?
    ensures Same(Zero(t), Zero(t))
  {
  }

  /** A record all of whose fields may be omitted, and none of which is a record, leaves nothing of its zero value. */
  lemma {:induction false} ZeroRecord(fs: seq<Field>)
    requires FieldsOk(fs) && |fs| < 0x1_0000 && forall f <- fs :: f.omit && !f.typ.TRecord?
    ensures Encode(TRecord(fs), Zero(TRecord(fs))) == [0x80]
  {
    var zeros := Zero(TRecord(fs)).vals;
    var o, ws := EncodedPairs(fs, zeros);
    if ws != [] {
      var i := ws[0];
      assert i in ws && i < |fs| && fs[i] in fs && zeros[i] == Zero(fs[i].typ);
      if !fs[i].typ.TSlice? && !fs[i].typ.TDict? { ZeroIsZero(fs[i].typ); }
      assert false;
    }
    assert MapHead(0).Bytes() == [0x80] && [0x80] + [] == [0x80];
  }
}
