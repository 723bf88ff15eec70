/**
 * The slice of JavaScript's value model that the collection helpers observe:
 * primitives, functions (opaque), arrays with holes, and objects whose own
 * enumerable properties are kept in enumeration order.  Property keys of
 * arrays are indices; the string a handler sees for index `i` is its
 * canonical decimal form, and `ParseIndex` is the conversion JavaScript
 * applies when that string is used to address an array again.
 */
module JsValues {

  datatype Option<+T> = None | Some(value: T)

  /** A call either returns a value or throws; only TypeError can arise here. */
  datatype JsError = TypeError
  datatype Outcome<+T> = Returned(value: T) | Threw(error: JsError)

  /** Objects that are not `instanceof Array` but that the traversal still treats
      as array-like: HTMLCollection, NodeList and FileList are one tag here. */
  datatype ObjKind = Plain | HostList

  datatype Value =
    | Undefined
    | Null
    | Bool(b: bool)
    | Num(n: int)
    | Str(s: string)
    | Function(id: nat)
    | Arr(slots: seq<Slot>)
    | Obj(kind: ObjKind, props: seq<Prop>)

  /** An array position: a hole (no own property) or an element. */
  datatype Slot = Hole | Elem(value: Value)

  /** An own enumerable property, in enumeration order. */
  datatype Prop = Prop(name: string, value: Value)

  /** The key of a visited entry: an array index or an object property name. */
  datatype Key = Idx(i: nat) | Name(s: string)

  /** Own property names are unique, as in every JavaScript object. */
  predicate WellFormed(v: Value) {
    v.Obj? ==> DistinctNames(v.props)
  }

  /** `typeof v === 'object' && v !== null`: true of arrays and objects only. */
  predicate IsObject(v: Value) {
    v.Arr? || v.Obj?
  }

  /** What `this` can be inside a non-strict function: an object or a function,
      never a primitive, `undefined` or `null` (see `BindThis`). */
  predicate IsThisValue(v: Value) {
    IsObject(v) || v.Function?
  }

  type ThisValue = v: Value | IsThisValue(v) witness Obj(Plain, [])

  /** The strict comparison `v === false`. */
  predicate IsFalse(v: Value) {
    v == Bool(false)
  }

  // ---------------------------------------------------------------------------
  // Index keys

  predicate IsDigit(c: char) {
    '0' <= c <= '9'
  }

  predicate AllDigits(s: string) {
    forall k :: 0 <= k < |s| ==> IsDigit(s[k])
  }

  function DigitChar(d: nat): (c: char)
    requires d < 10
    ensures IsDigit(c)
  {
    ('0' as int + d) as char
  }

  function DigitOf(c: char): (d: nat)
    requires IsDigit(c)
    ensures d < 10
  {
    c as int - '0' as int
  }

  /** The canonical decimal spelling of an array index, as `for..in` yields it. */
  function DecimalString(n: nat): (s: string)
    ensures |s| >= 1 && AllDigits(s)
    ensures |s| > 1 <==> n >= 10
    ensures s[0] == '0' ==> n == 0
  {
    if n < 10 then [DigitChar(n)] else DecimalString(n / 10) + [DigitChar(n % 10)]
  }

  /** A string JavaScript reads back as an array index: digits, no leading zero. */
  predicate IsCanonicalIndex(s: string) {
    |s| >= 1 && AllDigits(s) && (|s| == 1 || s[0] != '0')
  }

  function DigitsValue(s: string): nat
    requires AllDigits(s)
  {
    if |s| == 0 then 0 else DigitsValue(s[..|s| - 1]) * 10 + DigitOf(s[|s| - 1])
  }

  function ParseIndex(s: string): Option<nat> {
    if IsCanonicalIndex(s) then Some(DigitsValue(s)) else None
  }

  /** The text a handler receives as its `key` argument. */
  function KeyText(k: Key): string {
    match k
    case Idx(i) => DecimalString(i)
    case Name(s) => s
  }

  lemma {:induction false} DigitsValueOfDecimal(n: nat)
    ensures DigitsValue(DecimalString(n)) == n
  {
    if n >= 10 {
      DigitsValueOfDecimal(n / 10);
      var s := DecimalString(n);
      assert s[..|s| - 1] == DecimalString(n / 10);
    }
  }

  /** The key string handed to a handler for index `n` addresses index `n` again. */
  lemma {:induction false} DecimalRoundTrip(n: nat)
    ensures ParseIndex(DecimalString(n)) == Some(n)
  {
    DigitsValueOfDecimal(n);
  }

  lemma {:induction false} NonZeroLeadingDigitIsPositive(s: string)
    requires AllDigits(s) && |s| >= 1 && s[0] != '0'
    ensures DigitsValue(s) >= 1
  {
    if |s| > 1 {
      NonZeroLeadingDigitIsPositive(s[..|s| - 1]);
    }
  }

  /** Every canonical index string is the decimal spelling of the index it denotes. */
  lemma {:induction false} ParseRoundTrip(s: string)
    requires ParseIndex(s).Some?
    ensures DecimalString(ParseIndex(s).value) == s
  {
    var n := DigitsValue(s);
    if |s| > 1 {
      var p := s[..|s| - 1];
      assert IsCanonicalIndex(p);
      ParseRoundTrip(p);
      NonZeroLeadingDigitIsPositive(p);
      var d := DigitOf(s[|s| - 1]);
      assert n / 10 == DigitsValue(p) && n % 10 == d;
      assert DigitChar(d) == s[|s| - 1];
      assert s == p + [s[|s| - 1]];
    } else {
      assert |s| == 1 && s[..|s| - 1] == [];
      assert DigitsValue(s[..|s| - 1]) == 0;
      assert n == DigitOf(s[0]);
      assert DigitChar(n) == s[0];
      assert s == [DigitChar(n)];
    }
  }

  /** Distinct indices are handed to handlers as distinct key strings. */
  lemma {:induction false} IndexKeysDistinct(a: nat, b: nat)
    requires a != b
    ensures KeyText(Idx(a)) != KeyText(Idx(b))
  {
    DecimalRoundTrip(a);
    DecimalRoundTrip(b);
  }

  /** An index key can never be mistaken for the property name "length". */
  lemma {:induction false} IndexKeyIsNotLength(n: nat)
    ensures KeyText(Idx(n)) != "length"
  {
    assert IsDigit(DecimalString(n)[0]);
  }

  // ---------------------------------------------------------------------------
  // Objects: `obj[name] = v` and `delete obj[name]`

  predicate DistinctNames(props: seq<Prop>) {
    forall i, j :: 0 <= i < j < |props| ==> props[i].name != props[j].name
  }

  function Names(props: seq<Prop>): (ns: set<string>)
    ensures forall k :: 0 <= k < |props| ==> props[k].name in ns
    ensures forall n :: n in ns ==> exists k :: 0 <= k < |props| && props[k].name == n
  {
    if props == [] then {} else {props[0].name} + Names(props[1..])
  }

  /** The value `obj[name]` reads (the first own property of that name). */
  function Lookup(props: seq<Prop>, name: string): (r: Option<Value>)
    ensures r.None? <==> name !in Names(props)
  {
    if props == [] then None
    else if props[0].name == name then Some(props[0].value)
    else Lookup(props[1..], name)
  }

  /** `obj[name] = v`: an existing property keeps its place, a new one goes
      last.  What it does to the object is `PutEffect`. */
  function Put(props: seq<Prop>, name: string, v: Value): seq<Prop> {
    if props == [] then [Prop(name, v)]
    else if props[0].name == name then [Prop(name, v)] + props[1..]
    else [props[0]] + Put(props[1..], name, v)
  }

  /** After `obj[name] = v`, `name` reads `v`, every other name reads as before,
      the names are the old ones plus `name`, and a new name goes last. */
  lemma {:induction false} PutEffect(props: seq<Prop>, name: string, v: Value)
    ensures var r := Put(props, name, v);
      && Lookup(r, name) == Some(v)
      && (forall n :: n != name ==> Lookup(r, n) == Lookup(props, n))
      && Names(r) == Names(props) + {name}
      && (name !in Names(props) ==> r == props + [Prop(name, v)])
  {
    PutReads(props, name, v);
    PutAppendsNewName(props, name, v);
    NamesFollowLookups(props, Put(props, name, v), name);
  }

  lemma {:induction false} PutReads(props: seq<Prop>, name: string, v: Value)
    ensures var r := Put(props, name, v);
      && Lookup(r, name) == Some(v)
      && forall n :: n != name ==> Lookup(r, n) == Lookup(props, n)
  {
    if props != [] && props[0].name != name {
      PutReads(props[1..], name, v);
      var r := Put(props, name, v);
      assert r[1..] == Put(props[1..], name, v);
    }
  }

  lemma {:induction false} PutAppendsNewName(props: seq<Prop>, name: string, v: Value)
    ensures name !in Names(props) ==> Put(props, name, v) == props + [Prop(name, v)]
  {
    if props != [] && name !in Names(props) {
      PutAppendsNewName(props[1..], name, v);
      assert props[1..] + [Prop(name, v)] == (props + [Prop(name, v)])[1..];
    }
  }

  /** The names of an object are the names that read as something, so an
      object that reads like `before` except that `name` is now set has the
      names of `before` plus `name`. */
  lemma {:induction false} NamesFollowLookups(before: seq<Prop>, after: seq<Prop>, name: string)
    requires Lookup(after, name).Some?
    requires forall n :: n != name ==> Lookup(after, n) == Lookup(before, n)
    ensures Names(after) == Names(before) + {name}
  {
    forall n ensures n in Names(after) <==> n in Names(before) + {name} {
      if n != name {
        assert Lookup(after, n) == Lookup(before, n);
      }
    }
  }

  /** `delete obj[name]`: the property disappears, the others keep their order. */
  function Delete(props: seq<Prop>, name: string): (r: seq<Prop>)
    ensures Lookup(r, name) == None
    ensures forall n :: n != name ==> Lookup(r, n) == Lookup(props, n)
    ensures Names(r) == Names(props) - {name}
    ensures name !in Names(props) ==> r == props
  {
    if props == [] then []
    else if props[0].name == name then Delete(props[1..], name)
    else
      var rest := Delete(props[1..], name);
      var r := [props[0]] + rest;
      assert r[1..] == rest;
      r
  }

  // ---------------------------------------------------------------------------
  // `this` in non-strict code

  /** The own enumerable properties of the String wrapper of `s`: one per
      character, named by its index and holding that one-character string. */
  function CharProps(s: string): (props: seq<Prop>)
    ensures |props| == |s|
    ensures forall k :: 0 <= k < |s| ==> props[k] == Prop(DecimalString(k), Str([s[k]]))
  {
    seq(|s|, k requires 0 <= k < |s| => Prop(DecimalString(k), Str([s[k]])))
  }

  /** The `this` a non-strict function sees when it is called with `thisArg`
      (OrdinaryCallBindThis in the ECMAScript specification): `undefined` and
      `null` become the global object, other primitives are boxed, and objects
      and functions pass unchanged.  Of the wrappers only a String wrapper has
      own enumerable properties. */
  function BindThis(thisArg: Value, global: ThisValue): (r: ThisValue)
    ensures IsThisValue(thisArg) ==> r == thisArg
    ensures thisArg.Undefined? || thisArg.Null? ==> r == global
    ensures thisArg.Bool? || thisArg.Num? ==> r == Obj(Plain, [])
    ensures thisArg.Str? ==>
      && r.Obj? && r.kind == Plain && |r.props| == |thisArg.s|
      && forall k :: 0 <= k < |thisArg.s| ==> r.props[k] == Prop(DecimalString(k), Str([thisArg.s[k]]))
  {
    match thisArg
    case Undefined => global
    case Null => global
    case Bool(_) => Obj(Plain, [])
    case Num(_) => Obj(Plain, [])
    case Str(s) => Obj(Plain, CharProps(s))
    case _ => thisArg
  }

  /** Boxing never produces an object with a repeated property name. */
  lemma {:induction false} BindThisWellFormed(thisArg: Value, global: ThisValue)
    requires WellFormed(thisArg)
    requires thisArg.Undefined? || thisArg.Null? ==> WellFormed(global)
    ensures WellFormed(BindThis(thisArg, global))
  {
    if thisArg.Str? {
      var props := CharProps(thisArg.s);
      forall i, j | 0 <= i < j < |props| ensures props[i].name != props[j].name {
        IndexKeysDistinct(i, j);
      }
    }
  }

  // ---------------------------------------------------------------------------
  // Arrays: `arr[i] = v` and `arr.splice(start, 1)`

  function Holes(n: nat): (r: seq<Slot>)
    ensures |r| == n && forall k :: 0 <= k < n ==> r[k] == Hole
  {
    seq(n, _ => Hole)
  }

  /** `arr[i] = v`: writing past the end grows the array, leaving holes between. */
  function SetIndex(slots: seq<Slot>, i: nat, v: Value): (r: seq<Slot>)
    ensures |r| == if i < |slots| then |slots| else i + 1
    ensures r[i] == Elem(v)
    ensures forall k :: 0 <= k < |r| && k != i ==> r[k] == if k < |slots| then slots[k] else Hole
  {
    if i < |slots| then slots[i := Elem(v)] else slots + Holes(i - |slots|) + [Elem(v)]
  }

  /** `arr.splice(start, 1)`: removes one slot and shifts the rest down; a start
      at or past the end removes nothing. */
  function SpliceOne(slots: seq<Slot>, start: nat): (r: seq<Slot>)
    ensures start < |slots| ==> |r| == |slots| - 1
    ensures start >= |slots| ==> r == slots
    ensures forall k :: 0 <= k < |r| ==> r[k] == if k < start then slots[k] else slots[k + 1]
  {
    if start < |slots| then slots[..start] + slots[start + 1..] else slots
  }
}
