/**
 info-v4-resources.go: dotted field paths, resolved by reflection, and the order of the values found.
 Letter case is a parameter: any way to lower a string and any way to match field names.
 */
module Reflection {
  import opened StableSorts

  /** What reflection sees.  `Invalid` is the zero reflect.Value, `Other` any kind not listed. */
  datatype Value =
    | Invalid
    | Nil
    | Ptr(elem: Value)
    | Struct(fields: seq<(string, Value)>)
    | Str(s: string)
    | Int(i: int)
    | Uint(u: nat)
    | Float(f: real)
    | Other

  datatype Case = Case(lower: string -> string, equalFold: (string, string) -> bool)

  // ----- Resolving a path

  /** All pointers unwrapped; None at a nil pointer. */
  function Unwrap(v: Value): (r: Value)
    ensures !r.Ptr?
  {
    if v.Ptr? then Unwrap(v.elem) else v
  }

  /** The first field with that name. */
  function Find(c: Case, fields: seq<(string, Value)>, name: string): Value {
    if fields == [] then Invalid
    else if c.equalFold(fields[0].0, name) then fields[0].1
    else Find(c, fields[1..], name)
  }

  function Lookup(c: Case, v: Value, name: string): Value {
    var s := Unwrap(v);
    if s.Struct? then Find(c, s.fields, name) else Invalid
  }

  /** The value at the end of the path; Invalid if there is none. */
  function Resolve(c: Case, v: Value, parts: seq<string>): Value
    decreases |parts|
  {
    if parts == [] then v else Resolve(c, Lookup(c, v, parts[0]), parts[1..])
  }

  lemma {:induction false} ResolveInvalid(c: Case, parts: seq<string>)
    ensures Resolve(c, Invalid, parts) == Invalid
  {
    if parts != [] {
      ResolveInvalid(c, parts[1..]);
    }
  }

  /** A path may be resolved piece by piece. */
  lemma {:induction false} ResolveInTwo(c: Case, v: Value, p: seq<string>, q: seq<string>)
    ensures Resolve(c, v, p + q) == Resolve(c, Resolve(c, v, p), q)
    decreases |p|
  {
    if p == [] {
      assert p + q == q;
    } else {
      assert (p + q)[1..] == p[1..] + q;
      ResolveInTwo(c, Lookup(c, v, p[0]), p[1..], q);
    }
  }

  method FindFieldCaseInsensitive(c: Case, v: Value, name: string) returns (r: Value)
    requires v.Struct?
    ensures r == Find(c, v.fields, name)
  {
    for i := 0 to |v.fields|
      invariant Find(c, v.fields, name) == Find(c, v.fields[i..], name)
    {
      if c.equalFold(v.fields[i].0, name) {
        return v.fields[i].1;
      }
    }
    return Invalid;
  }

  method ResolveFieldPath(c: Case, v: Value, parts: seq<string>) returns (r: Value)
    ensures r == Resolve(c, v, parts)
  {
    var current := v;
    for i := 0 to |parts|
      invariant Resolve(c, v, parts) == Resolve(c, current, parts[i..])
    {
      ResolveInvalid(c, parts[i + 1..]);
      ghost var before := current;
      while current.Ptr?
        invariant Unwrap(current) == Unwrap(before)
        decreases current
      {
        current := current.elem;
      }
      if current.Nil? {
        return Invalid;
      }
      if !current.Struct? {
        return Invalid;
      }
      var field := FindFieldCaseInsensitive(c, current, parts[i]);
      if field.Invalid? {
        return Invalid;
      }
      if i < |parts| - 1 {
        current := field;
      } else {
        assert parts[i..][1..] == [];
        return field;
      }
    }
    return current;
  }

  // ----- Comparing

  function DereferenceValue(v: Value): (Value, bool) {
    match v
    case Invalid => (Invalid, true)
    case Nil => (Invalid, true)
    case Ptr(e) => (e, false)
    case _ => (v, false)
  }

  /** `strings` order: the first difference decides, a proper prefix comes first. */
  predicate TextBefore(s: string, t: string) {
    t != "" && (s == "" || s[0] < t[0] || (s[0] == t[0] && TextBefore(s[1..], t[1..])))
  }

  /** Two fields that Go can compare: of one kind, unless one is nil. */
  predicate Comparable(a: Value, b: Value) {
    var ((x, xNil), (y, yNil)) := (DereferenceValue(a), DereferenceValue(b));
    !xNil && !yNil ==> Kind(x) == Kind(y)
  }

  function Kind(v: Value): nat {
    match v case Str(_) => 1 case Int(_) => 2 case Uint(_) => 3 case Float(_) => 4 case _ => 5
  }

  /** Whether a is less than b, and whether that can be said at all. */
  function CompareFields(c: Case, a: Value, b: Value): (bool, bool)
    requires Comparable(a, b)
  {
    var ((x, xNil), (y, yNil)) := (DereferenceValue(a), DereferenceValue(b));
    if xNil && yNil then (false, true)
    else if xNil then (true, true)
    else if yNil then (false, true)
    else
      match x
      case Str(s) => (TextBefore(c.lower(s), c.lower(y.s)), true)
      case Int(i) => (i < y.i, true)
      case Uint(u) => (u < y.u, true)
      case Float(f) => (f < y.f, true)
      case _ => (false, false)
  }

  // ----- The order the sort is meant to produce

  /** What an element is sorted by. */
  datatype Key =
    | NilElement | NilKey | Text(s: string) | Whole(i: int) | Natural(u: nat) | Fraction(f: real) | Unsupported

  function KeyOf(c: Case, parts: seq<string>, v: Value): Key {
    var (element, isNil) := DereferenceValue(v);
    if isNil then NilElement else FieldKey(c, Resolve(c, element, parts))
  }

  function FieldKey(c: Case, field: Value): Key {
    var (x, isNil) := DereferenceValue(field);
    if isNil then NilKey
    else
      match x
      case Str(s) => Text(c.lower(s))
      case Int(i) => Whole(i)
      case Uint(u) => Natural(u)
      case Float(f) => Fraction(f)
      case _ => Unsupported
  }

  function Rank(k: Key): nat {
    match k
    case NilElement => 0 case NilKey => 1 case Text(_) => 2 case Whole(_) => 3
    case Natural(_) => 4 case Fraction(_) => 5 case Unsupported => 6
  }

  /** Nil elements first, then nil or unresolved keys, then the keys by value; unsupported kinds are tied. */
  predicate KeyBefore(a: Key, b: Key) {
    if Rank(a) != Rank(b) then Rank(a) < Rank(b)
    else
      match a
      case Text(s) => TextBefore(s, b.s)
      case Whole(i) => i < b.i
      case Natural(u) => u < b.u
      case Fraction(f) => f < b.f
      case _ => false
  }

  /** The order on elements, or its reverse. */
  function Order<T>(c: Case, of: T -> Value, parts: seq<string>, reversed: bool): (T, T) -> bool {
    (x: T, y: T) =>
      if reversed then KeyBefore(KeyOf(c, parts, of(y)), KeyOf(c, parts, of(x)))
      else KeyBefore(KeyOf(c, parts, of(x)), KeyOf(c, parts, of(y)))
  }

  lemma {:induction false} TextOrder(s: string, t: string, u: string)
    ensures TextBefore(s, t) ==> !TextBefore(t, s)
    ensures TextBefore(s, u) ==> TextBefore(s, t) || TextBefore(t, u)
  {
    if s != "" && t != "" {
      TextOrder(s[1..], t[1..], if u == "" then u else u[1..]);
    }
  }

  lemma KeyOrder(a: Key, b: Key, d: Key)
    ensures KeyBefore(a, b) ==> !KeyBefore(b, a)
    ensures KeyBefore(a, d) ==> KeyBefore(a, b) || KeyBefore(b, d)
  {
    if a.Text? && b.Text? {
      TextOrder(a.s, b.s, if d.Text? then d.s else "");
    }
  }

  lemma OrderIsWeak<T(!new)>(c: Case, of: T -> Value, parts: seq<string>, reversed: bool)
    ensures StrictWeak(Order(c, of, parts, reversed))
  {
    var lt := Order(c, of, parts, reversed);
    forall x, y, z | Use(x, y, z)
      ensures (lt(x, y) ==> !lt(y, x)) && (lt(x, z) ==> lt(x, y) || lt(y, z))
    {
      var (a, b, d) := (KeyOf(c, parts, of(x)), KeyOf(c, parts, of(y)), KeyOf(c, parts, of(z)));
      KeyOrder(a, b, d);
      KeyOrder(d, b, a);
    }
  }

  // ----- What these definitions mean

  /** The first place where they differ decides; a proper prefix comes first. */
  lemma {:induction false} TextBeforeIff(s: string, t: string)
    ensures TextBefore(s, t) <==>
      exists i: nat :: i <= |s| && i < |t| && s[..i] == t[..i] && (i < |s| ==> s[i] < t[i])
  {
    if t != "" && s != "" && s[0] == t[0] {
      TextBeforeIff(s[1..], t[1..]);
      if i: nat :|
        i <= |s| - 1 && i < |t| - 1 && s[1..][..i] == t[1..][..i] && (i < |s| - 1 ==> s[1..][i] < t[1..][i])
      {
        assert s[..i + 1] == [s[0]] + s[1..][..i] && t[..i + 1] == [t[0]] + t[1..][..i];
      }
      if i: nat :| i <= |s| && i < |t| && s[..i] == t[..i] && (i < |s| ==> s[i] < t[i]) {
        assert i > 0 && s[1..][..i - 1] == s[..i][1..] && t[1..][..i - 1] == t[..i][1..];
      }
    } else if TextBefore(s, t) {
      assert s[..0] == t[..0];
    }
  }

  /** Pointer to pointer, n times, to this value. */
  function Pointed(v: Value, n: nat): Value { if n == 0 then v else Ptr(Pointed(v, n - 1)) }

  lemma {:induction false} UnwrapPointed(v: Value, n: nat)
    requires !v.Ptr?
    ensures Unwrap(Pointed(v, n)) == v
  {
    if n > 0 {
      UnwrapPointed(v, n - 1);
    }
  }

  /** Field k is the first that matches the name. */
  ghost predicate FirstMatch(c: Case, fields: seq<(string, Value)>, name: string, k: nat) {
    && k < |fields| && c.equalFold(fields[k].0, name)
    && forall j :: 0 <= j < k ==> !c.equalFold(fields[j].0, name)
  }

  lemma {:induction false} FindFirst(c: Case, fields: seq<(string, Value)>, name: string)
    ensures forall k: nat :: FirstMatch(c, fields, name, k) ==> Find(c, fields, name) == fields[k].1
    ensures (forall f <- fields :: !c.equalFold(f.0, name)) ==> Find(c, fields, name) == Invalid
  {
    if fields != [] {
      FindFirst(c, fields[1..], name);
      forall k: nat | FirstMatch(c, fields, name, k) ensures Find(c, fields, name) == fields[k].1 {
        if k > 0 { assert FirstMatch(c, fields[1..], name, k - 1); }
      }
    }
  }

  /** One step of a path: into the first matching field of the struct behind any number of pointers, or nowhere. */
  lemma {:induction false} ResolveOne(c: Case, v: Value, n: nat, name: string, rest: seq<string>)
    requires !v.Ptr?
    ensures Resolve(c, v, []) == v
    ensures !v.Struct? ==> Resolve(c, Pointed(v, n), [name] + rest) == Invalid
    ensures v.Struct? && (forall f <- v.fields :: !c.equalFold(f.0, name)) ==>
      Resolve(c, Pointed(v, n), [name] + rest) == Invalid
    ensures v.Struct? ==> forall k: nat :: FirstMatch(c, v.fields, name, k) ==>
      Resolve(c, Pointed(v, n), [name] + rest) == Resolve(c, v.fields[k].1, rest)
  {
    UnwrapPointed(v, n);
    ResolveInvalid(c, rest);
    assert ([name] + rest)[1..] == rest;
    if v.Struct? { FindFirst(c, v.fields, name); }
  }

  /** What an element or a field is sorted by: one pointer is followed, and no more. */
  lemma {:induction false} KeysAre(c: Case, parts: seq<string>, v: Value, s: string, i: int, u: nat, f: real)
    ensures KeyOf(c, parts, Nil) == KeyOf(c, parts, Invalid) == NilElement
    ensures v != Nil && v != Invalid && !v.Ptr? ==>
      KeyOf(c, parts, Ptr(v)) == KeyOf(c, parts, v) == FieldKey(c, Resolve(c, v, parts))
    ensures FieldKey(c, Nil) == FieldKey(c, Invalid) == NilKey
    ensures FieldKey(c, Str(s)) == FieldKey(c, Ptr(Str(s))) == Text(c.lower(s))
    ensures FieldKey(c, Int(i)) == FieldKey(c, Ptr(Int(i))) == Whole(i)
    ensures FieldKey(c, Uint(u)) == FieldKey(c, Ptr(Uint(u))) == Natural(u)
    ensures FieldKey(c, Float(f)) == FieldKey(c, Ptr(Float(f))) == Fraction(f)
    ensures v.Ptr? || v.Nil? || v.Struct? || v.Other? ==> FieldKey(c, Ptr(v)) == Unsupported
  {
    hide Resolve;
  }

  /**
   The documented order: nil elements first, then elements without the field or with a nil one, then text without
   regard to case and numbers, all ascending; reversed, the other way round.
   */
  lemma DocumentedOrder<T>(c: Case, of: T -> Value, parts: seq<string>, x: T, y: T)
    ensures Order(c, of, parts, true)(x, y) == Order(c, of, parts, false)(y, x)
    ensures var (lt, a, b) := (Order(c, of, parts, false)(x, y), KeyOf(c, parts, of(x)), KeyOf(c, parts, of(y)));
            && (a == NilElement ==> (lt <==> b != NilElement))
            && (a == NilKey ==> (lt <==> b != NilElement && b != NilKey))
            && (a.Text? && b.Text? ==> (lt <==> TextBefore(a.s, b.s)))
            && (a.Whole? && b.Whole? ==> (lt <==> a.i < b.i))
            && (a.Natural? && b.Natural? ==> (lt <==> a.u < b.u))
            && (a.Fraction? && b.Fraction? ==> (lt <==> a.f < b.f))
  {
    hide KeyOf;
  }
}
