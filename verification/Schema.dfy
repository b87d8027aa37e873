/**
 The msgp codecs, for every record layout.

 A `*_gen.go` file instantiates one scheme for the fields of its records: an encoder that counts and
 masks omitted fields, a decoder that fills a possibly dirty receiver in whatever order the fields
 arrive, skips unknown keys and clears omitted fields it did not see, and a size bound.  A `Type` is
 such a layout, a `Value` a Go value of it; Layouts.dfy holds the layouts of this repository.
 */
module Schema {
  import opened Basics
  import opened MsgPack

  datatype Type =
    | TBool
    | TInt(size: Size)               // of that many bytes
    | TUint(size: Size)
    | TFloat
    | TStr
    | TTime
    | TOpt(elem: Type)               // pointer
    | TSlice(elem: Type)
    | TDict(elem: Type)              // map with string keys
    | TRecord(fields: seq<Field>)
  {
    ghost predicate Ok() {
      match this
      case TOpt(e) => e.Ok() && !e.TOpt?
      case TSlice(e) => e.Ok()
      case TDict(e) => e.Ok()
      case TRecord(fs) => |fs| < 0x1_0000 && FieldsOk(fs)
      case _ => true
    }
  }

  /** A field with its key on the wire; `omit` fields are left out when they are zero. */
  datatype Field = Field(name: bytes, typ: Type, omit: bool)

  ghost predicate FieldsOk(fs: seq<Field>) {
    && (forall i :: 0 <= i < |fs| ==> |fs[i].name| < 0x20 && fs[i].typ.Ok())
    && forall i, j :: 0 <= i < j < |fs| ==> fs[i].name != fs[j].name
  }

  /**
   A Go value.  A slice is a length and its backing storage up to the capacity; a map is its entries in
   the order in which one `range` visits them; a time is an instant in nanoseconds since 1970.
   */
  datatype Value =
    | VBool(b: bool) | VInt(i: int) | VFloat(bits: int) | VStr(s: bytes) | VTime(ns: int)
    | VNull | VPtr(v: Value)
    | VSlice(isNil: bool, len: int, backing: seq<Value>)
    | VDict(isNil: bool, entries: seq<Entry>)
    | VRecord(vals: seq<Value>)

  datatype Entry = Entry(key: bytes, value: Value)

  const INT64: int := 0x8000_0000_0000_0000
  const UINT32: int := 0x1_0000_0000
  /** `time.Time{}`: the start of year 1. */
  const ZERO_TIME: int := -62135596800 * SECOND

  ghost predicate Distinct(es: seq<Entry>) { forall i, j :: 0 <= i < j < |es| ==> es[i].key != es[j].key }

  /** v is a Go value of this type; arrays, maps and strings are shorter than 2^32. */
  ghost predicate Has(t: Type, v: Value)
    decreases t
  {
    match t
    case TBool => v.VBool?
    case TInt(w) => v.VInt? && -Limit(w) / 2 <= v.i < Limit(w) / 2
    case TUint(w) => v.VInt? && 0 <= v.i < Limit(w)
    case TFloat => v.VFloat? && 0 <= v.bits < 2 * INT64
    case TStr => v.VStr? && |v.s| < UINT32
    case TTime => v.VTime? && -INT64 <= v.ns / SECOND < INT64
    case TOpt(e) => v.VNull? || (v.VPtr? && Has(e, v.v))
    case TSlice(e) =>
      v.VSlice? && 0 <= v.len <= |v.backing| && v.len < UINT32 && (v.isNil ==> v.backing == [])
      && forall i :: 0 <= i < |v.backing| ==> Has(e, v.backing[i])
    case TDict(e) =>
      v.VDict? && |v.entries| < UINT32 && (v.isNil ==> v.entries == []) && Distinct(v.entries)
      && forall i :: 0 <= i < |v.entries| ==> |v.entries[i].key| < UINT32 && Has(e, v.entries[i].value)
    case TRecord(fs) =>
      v.VRecord? && |v.vals| == |fs| && forall i :: 0 <= i < |fs| ==> Has(fs[i].typ, v.vals[i])
  }

  ghost predicate HasAll(e: Type, vs: seq<Value>) { forall i :: 0 <= i < |vs| ==> Has(e, vs[i]) }

  ghost predicate HasFields(fs: seq<Field>, vs: seq<Value>) {
    |vs| == |fs| && forall i :: 0 <= i < |fs| ==> Has(fs[i].typ, vs[i])
  }

  /** The zero value. */
  function Zero(t: Type): (v: Value)
    ensures Has(t, v)
    decreases t
  {
    match t
    case TBool => VBool(false)
    case TInt(_) => VInt(0)
    case TUint(_) => VInt(0)
    case TFloat => VFloat(0)
    case TStr => VStr([])
    case TTime => VTime(ZERO_TIME)
    case TOpt(_) => VNull
    case TSlice(_) => VSlice(true, 0, [])
    case TDict(_) => VDict(true, [])
    case TRecord(fs) => VRecord(seq(|fs|, i requires 0 <= i < |fs| => Zero(fs[i].typ)))
  }

  /** `make([]T, n)`. */
  function Zeros(e: Type, n: nat): (vs: seq<Value>)
    ensures |vs| == n && HasAll(e, vs)
  {
    seq(n, _ => Zero(e))
  }

  /** The bits of +0.0 and -0.0, which are equal in Go. */
  predicate ZeroBits(bits: int) { bits == 0 || bits == INT64 }

  /**
   Equal but for what the wire does not carry: nil or empty, spare capacity, the order of map entries, and
   the sign of an omitted float.
   */
  ghost predicate Same(v: Value, w: Value)
    decreases v
  {
    match v
    case VFloat(bits) => v == w || (w.VFloat? && ZeroBits(bits) && ZeroBits(w.bits))
    case VPtr(x) => w.VPtr? && Same(x, w.v)
    case VSlice(_, len, backing) =>
      w.VSlice? && w.len == len <= |backing| && len <= |w.backing|
      && forall i :: 0 <= i < len ==> Same(backing[i], w.backing[i])
    case VDict(_, es) =>
      w.VDict? && |es| == |w.entries| && forall i :: 0 <= i < |es| ==> SameEntry(es[i], w.entries)
    case VRecord(vs) => w.VRecord? && |w.vals| == |vs| && forall i :: 0 <= i < |vs| ==> Same(vs[i], w.vals[i])
    case _ => v == w
  }

  /** The map m has this key, with the same value. */
  ghost predicate SameEntry(x: Entry, m: seq<Entry>)
    decreases x
  {
    var j := Find(m, x.key);
    j < |m| && Same(x.value, m[j].value)
  }

  /** Where the key is, or the number of entries if it is nowhere. */
  function Find(es: seq<Entry>, key: bytes): (j: nat)
    ensures j <= |es| && (j < |es| ==> es[j].key == key)
    ensures forall i :: 0 <= i < j ==> es[i].key != key
  {
    if es == [] || es[0].key == key then 0 else 1 + Find(es[1..], key)
  }

  // ----- Encoding

  /** Integers are written in the shortest format, whatever their type. */
  function IntHead(w: Size, i: int): (h: Head)
    requires -Limit(w) / 2 <= i < Limit(w) / 2
    ensures h.Valid() && (h.Int? || h.Uint?) && h.n == i && |h.Bytes()| <= 1 + w
  {
    if 0 <= i < 0x80 then Uint(0, i)
    else if -0x20 <= i < 0 then Int(0, i)
    else if -0x80 <= i < 0x80 then Int(1, i)
    else if -0x8000 <= i < 0x8000 then Int(2, i)
    else if -0x8000_0000 <= i < 0x8000_0000 then Int(4, i)
    else Int(8, i)
  }

  function UintHead(w: Size, i: int): (h: Head)
    requires 0 <= i < Limit(w)
    ensures h.Valid() && h.Uint? && h.n == i && |h.Bytes()| <= 1 + w
  {
    Uint(if i < 0x80 then 0 else if i < 0x100 then 1 else if i < 0x1_0000 then 2 else if i < UINT32 then 4 else 8, i)
  }

  function StrHead(s: bytes): (h: Head)
    requires |s| < UINT32
    ensures h.Valid() && h.Str? && h.s == s && |h.Bytes()| <= (if |s| < 0x20 then 1 else 5) + |s|
  {
    Str(if |s| < 0x20 then 0 else if |s| < 0x100 then 1 else if |s| < 0x1_0000 then 2 else 4, s)
  }

  function ArrHead(n: int): (h: Head)
    requires 0 <= n < UINT32
    ensures h.Valid() && h.Arr? && h.n == n == h.Arity() && |h.Bytes()| <= 5
  {
    Arr(if n < 0x10 then 0 else if n < 0x1_0000 then 2 else 4, n)
  }

  function MapHead(n: int): (h: Head)
    requires 0 <= n < UINT32
    ensures h.Valid() && h.Map? && h.n == n && h.Arity() == 2 * n
    ensures |h.Bytes()| <= if n < 0x10 then 1 else if n < 0x1_0000 then 3 else 5
  {
    Map(if n < 0x10 then 0 else if n < 0x1_0000 then 2 else 4, n)
  }

  /** A time is an application extension of 12 bytes: seconds, then nanoseconds. */
  const TIME_TAG: byte := 5

  function TimeHead(ns: int): (h: Head)
    requires -INT64 <= ns / SECOND < INT64
    ensures h.Valid() && |h.Bytes()| == 15
  {
    Ext(1, TIME_TAG, Be(8, Unsigned(8, ns / SECOND)) + Be(4, ns % SECOND))
  }

  /** The test that makes a codec omit a field. */
  predicate IsZero(v: Value) {
    match v
    case VBool(b) => !b
    case VInt(i) => i == 0
    case VFloat(bits) => ZeroBits(bits)
    case VStr(s) => s == []
    case VTime(ns) => ns == ZERO_TIME
    case VNull => true
    case VSlice(isNil, _, _) => isNil
    case VDict(isNil, _) => isNil
    case _ => false
  }

  predicate Omitted(f: Field, v: Value) { f.omit && IsZero(v) }

  /** How many fields a record writes. */
  function Count(fs: seq<Field>, vs: seq<Value>): (n: nat)
    requires |fs| == |vs|
    ensures n <= |fs|
  {
    if fs == [] then 0 else (if Omitted(fs[0], vs[0]) then 0 else 1) + Count(fs[1..], vs[1..])
  }

  function Encode(t: Type, v: Value): bytes
    requires t.Ok() && Has(t, v)
    decreases t, 0, 0
  {
    match t
    case TBool => Bool(v.b).Bytes()
    case TInt(w) => IntHead(w, v.i).Bytes()
    case TUint(w) => UintHead(w, v.i).Bytes()
    case TFloat => Float(8, v.bits).Bytes()
    case TStr => StrHead(v.s).Bytes()
    case TTime => TimeHead(v.ns).Bytes()
    case TOpt(e) => if v.VNull? then Nil.Bytes() else Encode(e, v.v)
    case TSlice(e) => ArrHead(v.len).Bytes() + EncodeItems(e, v.backing[..v.len])
    case TDict(e) => MapHead(|v.entries|).Bytes() + EncodeEntries(e, v.entries)
    case TRecord(fs) => MapHead(Count(fs, v.vals)).Bytes() + EncodeFields(fs, v.vals)
  }

  function EncodeItems(e: Type, vs: seq<Value>): bytes
    requires e.Ok() && HasAll(e, vs)
    decreases e, 1, |vs|
  {
    if vs == [] then [] else Encode(e, vs[0]) + EncodeItems(e, vs[1..])
  }

  function EncodeEntries(e: Type, es: seq<Entry>): bytes
    requires e.Ok() && forall i :: 0 <= i < |es| ==> |es[i].key| < UINT32 && Has(e, es[i].value)
    decreases e, 1, |es|
  {
    if es == [] then []
    else StrHead(es[0].key).Bytes() + Encode(e, es[0].value) + EncodeEntries(e, es[1..])
  }

  function EncodeField(f: Field, v: Value): bytes
    requires |f.name| < 0x20 && f.typ.Ok() && Has(f.typ, v)
    decreases f, 0, 0
  {
    if Omitted(f, v) then [] else StrHead(f.name).Bytes() + Encode(f.typ, v)
  }

  function EncodeFields(fs: seq<Field>, vs: seq<Value>): bytes
    requires FieldsOk(fs) && HasFields(fs, vs)
    decreases fs, 1, |fs|
  {
    if fs == [] then [] else EncodeField(fs[0], vs[0]) + EncodeFields(fs[1..], vs[1..])
  }

  // ----- Decoding

  function ReadStr(b: bytes): (r: Result<(bytes, bytes)>)
    ensures r.Ok? ==> |r.value.0| < UINT32
  {
    var (h, rest) :- ReadHead(b);
    if h.Str? then Ok((h.s, rest)) else Err
  }

  function ReadArrayHeader(b: bytes): (r: Result<(nat, bytes)>)
    ensures r.Ok? ==> r.value.0 < UINT32
  {
    var (h, rest) :- ReadHead(b);
    if h.Arr? then Ok((h.n, rest)) else Err
  }

  function ReadMapHeader(b: bytes): (r: Result<(nat, bytes)>)
    ensures r.Ok? ==> r.value.0 < UINT32
  {
    var (h, rest) :- ReadHead(b);
    if h.Map? then Ok((h.n, rest)) else Err
  }

  function ReadTime(h: Head): (r: Result<Value>)
    requires h.Valid()
    ensures r.Ok? ==> Has(TTime, r.value)
  {
    if h.Ext? && h.w == 1 && h.tag == TIME_TAG && |h.s| == 12 then
      var ns := Signed(8, Un(8, h.s[..8])) * SECOND + Signed(4, Un(4, h.s[8..]));
      if -INT64 <= ns / SECOND < INT64 then Ok(VTime(ns)) else Err
    else Err
  }

  /** A single object into a receiver of basic type. */
  function ReadBasic(t: Type, h: Head): (r: Result<Value>)
    requires h.Valid()
    ensures r.Ok? ==> Has(t, r.value)
  {
    match t
    case TBool => if h.Bool? then Ok(VBool(h.b)) else Err
    case TInt(w) => if (h.Int? || h.Uint?) && -Limit(w) / 2 <= h.n < Limit(w) / 2 then Ok(VInt(h.n)) else Err
    case TUint(w) => if (h.Int? || h.Uint?) && 0 <= h.n < Limit(w) then Ok(VInt(h.n)) else Err
    case TFloat => if h.Float? && h.w == 8 then Ok(VFloat(h.bits)) else Err
    case TStr => if h.Str? then Ok(VStr(h.s)) else Err
    case TTime => ReadTime(h)
    case _ => Err
  }

  /** The position of the field with this key, or the number of fields if there is none. */
  function IndexOf(fs: seq<Field>, name: bytes): (i: nat)
    ensures i <= |fs|
    ensures i < |fs| ==> fs[i].name == name
    ensures forall j :: 0 <= j < i ==> fs[j].name != name
  {
    if fs == [] || fs[0].name == name then 0 else 1 + IndexOf(fs[1..], name)
  }

  /** `m[key] = value`. */
  function Put(es: seq<Entry>, key: bytes, value: Value): (r: seq<Entry>)
  {
    if es == [] then [Entry(key, value)]
    else if es[0].key == key then [Entry(key, value)] + es[1..]
    else [es[0]] + Put(es[1..], key, value)
  }

  lemma InParts(x: Entry, xs: seq<Entry>, y: Entry)
    ensures y in [x] + xs <==> y == x || y in xs
  {
  }

  lemma DistinctTail(es: seq<Entry>)
    requires Distinct(es) && es != []
    ensures Distinct(es[1..]) && forall x <- es[1..] :: x.key != es[0].key
  {
  }

  lemma DistinctCons(x: Entry, xs: seq<Entry>)
    requires Distinct(xs) && forall y <- xs :: y.key != x.key
    ensures Distinct([x] + xs)
  {
  }

  /** Afterwards the key has the new value and every other key what it had. */
  lemma {:induction false} PutEntries(es: seq<Entry>, key: bytes, value: Value)
    requires Distinct(es)
    ensures Distinct(Put(es, key, value)) && |es| <= |Put(es, key, value)| <= |es| + 1
    ensures forall x :: x in Put(es, key, value) <==> x == Entry(key, value) || (x in es && x.key != key)
    ensures (forall x <- es :: x.key != key) ==> |Put(es, key, value)| == |es| + 1
  {
    if es != [] {
      var first, tail := es[0], es[1..];
      assert es == [first] + tail;
      DistinctTail(es);
      hide Distinct;
      var rest := if first.key == key then tail else Put(tail, key, value);
      if first.key != key { PutEntries(tail, key, value); }
      var head := if first.key == key then Entry(key, value) else first;
      DistinctCons(head, rest);
      forall x ensures x in [head] + rest <==> x == Entry(key, value) || (x in es && x.key != key) {
        InParts(head, rest, x);
        InParts(first, tail, x);
      }
    }
  }

  ghost predicate EntriesOk(e: Type, es: seq<Entry>) {
    Distinct(es) && forall i :: 0 <= i < |es| ==> |es[i].key| < UINT32 && Has(e, es[i].value)
  }

  lemma {:induction false} PutOk(e: Type, es: seq<Entry>, key: bytes, value: Value)
    requires EntriesOk(e, es) && |key| < UINT32 && Has(e, value)
    ensures EntriesOk(e, Put(es, key, value)) && |Put(es, key, value)| <= |es| + 1
  {
    PutEntries(es, key, value);
    hide Has, Put, Distinct;
    var r := Put(es, key, value);
    forall i | 0 <= i < |r| ensures |r[i].key| < UINT32 && Has(e, r[i].value) {
      assert r[i] in r;
      if r[i] != Entry(key, value) {
        var j :| 0 <= j < |es| && es[j] == r[i];
      }
    }
  }

  /** The receiver's fields that were omitted on the wire are cleared. */
  function Cleared(fs: seq<Field>, vs: seq<Value>, seen: set<nat>): (r: seq<Value>)
    requires HasFields(fs, vs)
    ensures HasFields(fs, r)
  {
    seq(|fs|, i requires 0 <= i < |fs| => if fs[i].omit && i !in seen then Zero(fs[i].typ) else vs[i])
  }

  /** Decodes one object off the front of b into a receiver that holds `z`. */
  function Decode(t: Type, z: Value, b: bytes): (r: Result<(Value, bytes)>)
    requires Has(t, z)
    ensures r.Ok? ==> Has(t, r.value.0)
    decreases t, 0, 0
  {
    match t
    case TOpt(e) =>
      if b != [] && b[0] == 0xc0 then Ok((VNull, b[1..]))
      else
        var (v, rest) :- Decode(e, if z.VPtr? then z.v else Zero(e), b);
        Ok((VPtr(v), rest))
    case TSlice(e) =>
      var (n, rest) :- ReadArrayHeader(b);
      var backing := if |z.backing| >= n then z.backing else Zeros(e, n);
      var (items, rest') :- DecodeItems(e, backing[..n], rest);
      Ok((VSlice(z.isNil && n == 0, n, items + backing[n..]), rest'))
    case TDict(e) =>
      var (n, rest) :- ReadMapHeader(b);
      var (es, rest') :- DecodeEntries(e, [], n, rest);
      Ok((VDict(false, es), rest'))
    case TRecord(fs) =>
      var (n, rest) :- ReadMapHeader(b);
      var (vs, seen, rest') :- DecodeFields(fs, z.vals, {}, n, rest);
      Ok((VRecord(Cleared(fs, vs, seen)), rest'))
    case _ =>
      var (h, rest) :- ReadHead(b);
      var v :- ReadBasic(t, h);
      Ok((v, rest))
  }

  function DecodeItems(e: Type, olds: seq<Value>, b: bytes): (r: Result<(seq<Value>, bytes)>)
    requires HasAll(e, olds)
    ensures r.Ok? ==> |r.value.0| == |olds| && HasAll(e, r.value.0)
    decreases e, 1, |olds|
  {
    if olds == [] then Ok(([], b))
    else
      var (v, rest) :- Decode(e, olds[0], b);
      var (vs, rest') :- DecodeItems(e, olds[1..], rest);
      Ok(([v] + vs, rest'))
  }

  function DecodeEntries(e: Type, acc: seq<Entry>, n: nat, b: bytes): (r: Result<(seq<Entry>, bytes)>)
    requires EntriesOk(e, acc)
    ensures r.Ok? ==> EntriesOk(e, r.value.0) && |r.value.0| <= |acc| + n
    decreases e, 1, n
  {
    if n == 0 then Ok((acc, b))
    else
      var (key, rest) :- ReadStr(b);
      var (value, rest') :- Decode(e, Zero(e), rest);
      PutOk(e, acc, key, value);
      DecodeEntries(e, Put(acc, key, value), n - 1, rest')
  }

  function DecodeFields(fs: seq<Field>, vs: seq<Value>, seen: set<nat>, n: nat, b: bytes)
    : (r: Result<(seq<Value>, set<nat>, bytes)>)
    requires HasFields(fs, vs)
    ensures r.Ok? ==> HasFields(fs, r.value.0)
    decreases fs, 1, n
  {
    if n == 0 then Ok((vs, seen, b))
    else
      var (key, rest) :- ReadStr(b);
      var i := IndexOf(fs, key);
      if i == |fs| then
        var rest' :- Skip(rest);
        DecodeFields(fs, vs, seen, n - 1, rest')
      else
        var (v, rest') :- Decode(fs[i].typ, vs[i], rest);
        DecodeFields(fs, vs[i := v], seen + {i}, n - 1, rest')
  }

  // ----- Size

  /** The generated `Msgsize`: an upper bound on the encoded length. */
  function Msgsize(t: Type, v: Value): nat
    requires Has(t, v)
    decreases t, 0, 0
  {
    match t
    case TBool => 1
    case TInt(w) => 1 + w
    case TUint(w) => 1 + w
    case TFloat => 9
    case TStr => 5 + |v.s|
    case TTime => 15
    case TOpt(e) => if v.VNull? then 1 else Msgsize(e, v.v)
    case TSlice(e) => 5 + ItemsSize(e, v.backing[..v.len])
    case TDict(e) => 5 + EntriesSize(e, v.entries)
    case TRecord(fs) => (if |fs| < 0x10 then 1 else 3) + FieldsSize(fs, v.vals)
  }

  function ItemsSize(e: Type, vs: seq<Value>): nat
    requires HasAll(e, vs)
    decreases e, 1, |vs|
  {
    if vs == [] then 0 else Msgsize(e, vs[0]) + ItemsSize(e, vs[1..])
  }

  function EntriesSize(e: Type, es: seq<Entry>): nat
    requires forall i :: 0 <= i < |es| ==> |es[i].key| < UINT32 && Has(e, es[i].value)
    decreases e, 1, |es|
  {
    if es == [] then 0 else 5 + |es[0].key| + Msgsize(e, es[0].value) + EntriesSize(e, es[1..])
  }

  function FieldsSize(fs: seq<Field>, vs: seq<Value>): nat
    requires HasFields(fs, vs)
    decreases fs, 1, |fs|
  {
    if fs == [] then 0 else 1 + |fs[0].name| + Msgsize(fs[0].typ, vs[0]) + FieldsSize(fs[1..], vs[1..])
  }
}
