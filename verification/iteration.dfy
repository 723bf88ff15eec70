/**
 * The traversal primitive `each`, written identically in index.js,
 * src/groovy.utils.js and src/groovyjs.js: the 0/1/2/3-argument overloading,
 * the walk over own enumerable entries with the "length" exclusion for
 * array-like collections, and the running index.  A run is described by the
 * calls it makes, each recorded with the handler's result, and by the value
 * it returns; `each` itself never looks at those results.
 */
module Iteration {
  import opened JsValues

  /** A handler argument: a function of (this, value, key, index), or any
      value that is not a function. */
  datatype Callback<R> = Fn(call: (Value, Value, string, nat) -> R) | NotFn

  /** The positional arguments of a call; the receiver `this` is passed apart. */
  datatype Args<R> =
    | NoArgs
    | One(first: Callback<R>)
    | Two(obj: Value, second: Callback<R>)
    | Three(obj: Value, context: Value, third: Callback<R>)

  /** The collection, the context and the handler once the overloading is resolved. */
  datatype Invocation<R> = Invocation(obj: Value, context: Value, handler: Callback<R>)

  /** With one argument it is the handler and the receiver is both collection
      and context; with two, the context defaults to the receiver.  None of the
      three files is strict code, so the receiver is the bound `this`: the
      call's `this` argument after `BindThis`, never a primitive. */
  function Resolve<R>(receiver: ThisValue, args: Args<R>): Invocation<R> {
    match args
    case NoArgs => Invocation(Undefined, Undefined, NotFn)
    case One(h) => Invocation(receiver, receiver, h)
    case Two(obj, h) => Invocation(obj, receiver, h)
    case Three(obj, context, h) => Invocation(obj, context, h)
  }

  /** An own enumerable entry of a collection. */
  datatype Entry = Entry(key: Key, value: Value)

  predicate AscendingIndices(es: seq<Entry>)
    requires forall k :: 0 <= k < |es| ==> es[k].key.Idx?
  {
    forall a, b :: 0 <= a < b < |es| ==> es[a].key.i < es[b].key.i
  }

  /** The elements of an array from position `from` on, holes left out, in
      ascending index order. */
  function ArrayEntries(slots: seq<Slot>, from: nat): (es: seq<Entry>)
    ensures forall k :: 0 <= k < |es| ==>
      es[k].key.Idx? && from <= es[k].key.i < |slots| && slots[es[k].key.i] == Elem(es[k].value)
    ensures AscendingIndices(es)
    ensures forall i :: from <= i < |slots| && slots[i].Elem? ==> Entry(Idx(i), slots[i].value) in es
    decreases |slots| - from
  {
    if from >= |slots| then []
    else
      var rest := ArrayEntries(slots, from + 1);
      if slots[from].Elem? then [Entry(Idx(from), slots[from].value)] + rest else rest
  }

  function PropEntries(props: seq<Prop>): (es: seq<Entry>)
    ensures |es| == |props|
    ensures forall k :: 0 <= k < |es| ==> es[k] == Entry(Name(props[k].name), props[k].value)
  {
    seq(|props|, k requires 0 <= k < |props| => Entry(Name(props[k].name), props[k].value))
  }

  /** The own enumerable properties `for..in` produces, in order. */
  function OwnEntries(obj: Value): seq<Entry> {
    match obj
    case Arr(slots) => ArrayEntries(slots, 0)
    case Obj(_, props) => PropEntries(props)
    case _ => []
  }

  /** Array, HTMLCollection, NodeList and FileList: a "length" key is not data. */
  predicate SkipsLength(obj: Value) {
    obj.Arr? || (obj.Obj? && obj.kind == HostList)
  }

  predicate Skipped(e: Entry, skipLength: bool) {
    skipLength && KeyText(e.key) == "length"
  }

  /** The entries that pass the "length" test, in order. */
  function Visible(es: seq<Entry>, skipLength: bool): (vs: seq<Entry>)
    ensures |vs| <= |es|
  {
    if es == [] then []
    else (if Skipped(es[0], skipLength) then [] else [es[0]]) + Visible(es[1..], skipLength)
  }

  /** The length test keeps exactly the entries it does not skip. */
  lemma {:induction false} VisibleMembers(es: seq<Entry>, skipLength: bool)
    ensures forall e :: e in Visible(es, skipLength) <==> e in es && !Skipped(e, skipLength)
  {
    if es != [] {
      VisibleMembers(es[1..], skipLength);
      assert es == [es[0]] + es[1..];
    }
  }

  /** The entries `each` hands to a callable handler: none for a non-object. */
  function Visited(obj: Value): seq<Entry> {
    if IsObject(obj) then Visible(OwnEntries(obj), SkipsLength(obj)) else []
  }

  /** One `handler.call(context, value, key, index)`, with what it returned. */
  datatype CallRecord<R> = CallRecord(context: Value, value: Value, key: Key, index: nat, result: R)

  function Record<R>(context: Value, e: Entry, index: nat, f: (Value, Value, string, nat) -> R): CallRecord<R> {
    CallRecord(context, e.value, e.key, index, f(context, e.value, KeyText(e.key), index))
  }

  /** The `for..in` loop: every entry is examined, the handler is called on
      those that pass the "length" test, and only a call advances `index`. */
  function Walk<R>(context: Value, es: seq<Entry>, skipLength: bool,
                   f: (Value, Value, string, nat) -> R, index: nat): (calls: seq<CallRecord<R>>)
    ensures |calls| == |Visible(es, skipLength)|
  {
    if es == [] then []
    else if Skipped(es[0], skipLength) then Walk(context, es[1..], skipLength, f, index)
    else [Record(context, es[0], index, f)] + Walk(context, es[1..], skipLength, f, index + 1)
  }

  /** The call the loop makes for the j-th entry that passes the length test
      carries that entry and the running index `index + j`. */
  lemma {:induction false} WalkCalls<R>(context: Value, es: seq<Entry>, skipLength: bool,
                                        f: (Value, Value, string, nat) -> R, index: nat)
    ensures var calls := Walk(context, es, skipLength, f, index);
      forall j :: 0 <= j < |calls| ==> calls[j] == Record(context, Visible(es, skipLength)[j], index + j, f)
  {
    if es != [] {
      var vs, rs := Visible(es, skipLength), Visible(es[1..], skipLength);
      if Skipped(es[0], skipLength) {
        WalkCalls(context, es[1..], skipLength, f, index);
        assert vs == rs;
      } else {
        WalkCalls(context, es[1..], skipLength, f, index + 1);
        var rest := Walk(context, es[1..], skipLength, f, index + 1);
        var calls := Walk(context, es, skipLength, f, index);
        assert vs == [es[0]] + rs;
        assert calls == [Record(context, es[0], index, f)] + rest;
        forall j | 0 < j < |calls| ensures calls[j] == Record(context, vs[j], index + j, f) {
          assert calls[j] == rest[j - 1] && vs[j] == rs[j - 1];
        }
      }
    }
  }

  /** The calls `each(obj, context, f)` makes when `f` is a function. */
  function Invocations<R>(obj: Value, context: Value, f: (Value, Value, string, nat) -> R): (calls: seq<CallRecord<R>>)
    ensures |calls| == |Visited(obj)|
    ensures forall j :: 0 <= j < |calls| ==> calls[j] == Record(context, Visited(obj)[j], j, f)
  {
    if IsObject(obj) then
      WalkCalls(context, OwnEntries(obj), SkipsLength(obj), f, 0);
      Walk(context, OwnEntries(obj), SkipsLength(obj), f, 0)
    else []
  }

  /** The calls made through a resolved invocation: none unless the handler is a function. */
  function HandlerCalls<R>(inv: Invocation<R>): seq<CallRecord<R>> {
    match inv.handler
    case NotFn => []
    case Fn(f) => Invocations(inv.obj, inv.context, f)
  }

  datatype EachRun<R> = EachRun(returned: Value, calls: seq<CallRecord<R>>)

  /** `each(...)` called on `receiver`: it returns the collection it was given and
      calls the handler once per visited entry, whatever the handler returns. */
  function Each<R>(receiver: ThisValue, args: Args<R>): (run: EachRun<R>)
    ensures run.returned == Resolve(receiver, args).obj
    ensures var inv := Resolve(receiver, args);
      |run.calls| == if inv.handler.Fn? then |Visited(inv.obj)| else 0
    ensures var inv := Resolve(receiver, args);
      forall j :: 0 <= j < |run.calls| ==>
        && run.calls[j].context == inv.context
        && run.calls[j].index == j
        && run.calls[j].key == Visited(inv.obj)[j].key
        && run.calls[j].value == Visited(inv.obj)[j].value
  {
    var inv := Resolve(receiver, args);
    EachRun(inv.obj, HandlerCalls(inv))
  }

  // ---------------------------------------------------------------------------
  // Properties of the traversal

  /** The arguments of a call, without its result. */
  datatype Visit = Visit(context: Value, value: Value, key: Key, index: nat)

  function Arguments<R>(calls: seq<CallRecord<R>>): (vs: seq<Visit>)
    ensures |vs| == |calls|
    ensures forall j :: 0 <= j < |calls| ==>
      vs[j] == Visit(calls[j].context, calls[j].value, calls[j].key, calls[j].index)
  {
    seq(|calls|, j requires 0 <= j < |calls| => Visit(calls[j].context, calls[j].value, calls[j].key, calls[j].index))
  }

  /** No early exit: what the handler returns, `false` included, changes nothing
      about which calls are made. */
  lemma {:induction false} HandlerResultIgnored<R>(obj: Value, context: Value,
                                f: (Value, Value, string, nat) -> R, g: (Value, Value, string, nat) -> R)
    ensures Arguments(Invocations(obj, context, f)) == Arguments(Invocations(obj, context, g))
  {
    var cf, cg := Invocations(obj, context, f), Invocations(obj, context, g);
    var a, b := Arguments(cf), Arguments(cg);
    assert |a| == |b|;
    forall j | 0 <= j < |a| ensures a[j] == b[j] {
      var e := Visited(obj)[j];
      assert cf[j] == Record(context, e, j, f) && cg[j] == Record(context, e, j, g);
      assert a[j] == Visit(context, e.value, e.key, j) == b[j];
    }
  }

  /** A handler that always answers `false` is still called on every entry. */
  lemma {:induction false} FalseDoesNotStopEach(receiver: ThisValue, args: Args<Value>)
    requires Resolve(receiver, args).handler.Fn?
    requires forall v, w, k, i :: Resolve(receiver, args).handler.call(v, w, k, i) == Bool(false)
    ensures var run := Each(receiver, args);
      |run.calls| == |Visited(Resolve(receiver, args).obj)|
      && forall j :: 0 <= j < |run.calls| ==> IsFalse(run.calls[j].result)
  {
  }

  lemma {:induction false} NothingSkipped(es: seq<Entry>, skipLength: bool)
    requires forall k :: 0 <= k < |es| ==> KeyText(es[k].key) != "length"
    ensures Visible(es, skipLength) == es
  {
    if es != [] {
      NothingSkipped(es[1..], skipLength);
    }
  }

  /** On an array every element is visited, in ascending index order, holes
      skipped; the key a handler sees is the index's decimal spelling. */
  lemma {:induction false} ArrayVisitsEveryElement(slots: seq<Slot>)
    ensures var vs := Visited(Arr(slots));
      && (forall k :: 0 <= k < |vs| ==>
            vs[k].key.Idx? && vs[k].key.i < |slots| && slots[vs[k].key.i] == Elem(vs[k].value)
            && KeyText(vs[k].key) == DecimalString(vs[k].key.i))
      && (forall i :: 0 <= i < |slots| && slots[i].Elem? ==> Entry(Idx(i), slots[i].value) in vs)
      && AscendingIndices(vs)
  {
    var es := ArrayEntries(slots, 0);
    forall k | 0 <= k < |es| ensures KeyText(es[k].key) != "length" {
      IndexKeyIsNotLength(es[k].key.i);
    }
    NothingSkipped(es, true);
  }

  predicate DistinctKeyTexts(es: seq<Entry>) {
    forall i, j :: 0 <= i < j < |es| ==> KeyText(es[i].key) != KeyText(es[j].key)
  }

  lemma {:induction false} VisibleKeepsDistinct(es: seq<Entry>, skipLength: bool)
    requires DistinctKeyTexts(es)
    ensures DistinctKeyTexts(Visible(es, skipLength))
  {
    if es != [] {
      VisibleKeepsDistinct(es[1..], skipLength);
      VisibleMembers(es[1..], skipLength);
      var rest := Visible(es[1..], skipLength);
      forall e | e in rest ensures KeyText(e.key) != KeyText(es[0].key) {
        var k :| 0 <= k < |es[1..]| && es[1..][k] == e;
        assert es[k + 1] == e;
      }
    }
  }

  /** A well-formed collection hands every visited entry a different key string. */
  lemma {:induction false} VisitedKeysDistinct(obj: Value)
    requires WellFormed(obj)
    ensures DistinctKeyTexts(Visited(obj))
  {
    match obj
    case Arr(slots) =>
      ArrayVisitsEveryElement(slots);
      var vs := Visited(obj);
      forall i, j | 0 <= i < j < |vs| ensures KeyText(vs[i].key) != KeyText(vs[j].key) {
        IndexKeysDistinct(vs[i].key.i, vs[j].key.i);
      }
    case Obj(kind, props) =>
      VisibleKeepsDistinct(PropEntries(props), SkipsLength(obj));
    case _ =>
  }

  /** On an object every own property is visited, except that a property named
      "length" is left out exactly when the object is array-like. */
  lemma {:induction false} ObjectVisits(kind: ObjKind, props: seq<Prop>)
    ensures forall p :: p in props ==>
      (Entry(Name(p.name), p.value) in Visited(Obj(kind, props)) <==> p.name != "length" || kind == Plain)
    ensures forall e :: e in Visited(Obj(kind, props)) ==> e.key.Name? && Prop(e.key.s, e.value) in props
  {
    var es := PropEntries(props);
    VisibleMembers(es, kind == HostList);
    forall p | p in props ensures Entry(Name(p.name), p.value) in es {
      var k :| 0 <= k < |props| && props[k] == p;
      assert es[k] == Entry(Name(p.name), p.value);
    }
    forall e | e in es ensures e.key.Name? && Prop(e.key.s, e.value) in props {
      var k :| 0 <= k < |es| && es[k] == e;
      assert props[k] == Prop(e.key.s, e.value);
    }
  }

  /** A collection that is not an object, or a handler that is not a function,
      makes `each` a pass-through that calls nothing. */
  lemma {:induction false} InertUnlessObjectAndFunction(receiver: ThisValue, args: Args<Value>)
    requires var inv := Resolve(receiver, args); !IsObject(inv.obj) || inv.handler.NotFn?
    ensures Each(receiver, args) == EachRun(Resolve(receiver, args).obj, [])
  {
  }

  /** `each.call(receiver, handler)`: the receiver is walked and is `this` in every call. */
  lemma {:induction false} OneArgumentUsesReceiver(receiver: ThisValue, f: (Value, Value, string, nat) -> Value)
    ensures var run := Each(receiver, One(Fn(f)));
      && run.returned == receiver
      && |run.calls| == |Visited(receiver)|
      && forall j :: 0 <= j < |run.calls| ==>
           run.calls[j] == Record(receiver, Visited(receiver)[j], j, f)
  {
  }

  /** `each.call(receiver, obj, handler)`: `obj` is walked, the receiver is `this`. */
  lemma {:induction false} TwoArgumentsDefaultContext(receiver: ThisValue, obj: Value, f: (Value, Value, string, nat) -> Value)
    ensures var run := Each(receiver, Two(obj, Fn(f)));
      && run.returned == obj
      && |run.calls| == |Visited(obj)|
      && forall j :: 0 <= j < |run.calls| ==> run.calls[j] == Record(receiver, Visited(obj)[j], j, f)
  {
  }

  /** The String wrapper of `s` is visited character by character, in order,
      each under its index's decimal spelling. */
  lemma {:induction false} WrapperVisited(s: string)
    ensures var vs := Visited(Obj(Plain, CharProps(s)));
      |vs| == |s| && forall j :: 0 <= j < |s| ==> vs[j] == Entry(Name(DecimalString(j)), Str([s[j]]))
  {
    var es := PropEntries(CharProps(s));
    forall k | 0 <= k < |es| ensures KeyText(es[k].key) != "length" {
      IndexKeyIsNotLength(k);
    }
    NothingSkipped(es, false);
  }

  /** `each.call(s, handler)` on a string `s`: the String wrapper is walked, so
      the handler gets each character under its index's decimal spelling, with
      the wrapper as `this`, and the wrapper is returned. */
  lemma {:induction false} StringReceiverWalksCharacters(s: string, global: ThisValue,
                                                         f: (Value, Value, string, nat) -> Value)
    ensures var w := BindThis(Str(s), global);
      var run := Each(w, One(Fn(f)));
      && run.returned == w
      && |run.calls| == |s|
      && forall j :: 0 <= j < |s| ==>
           run.calls[j] == Record(w, Entry(Name(DecimalString(j)), Str([s[j]])), j, f)
  {
    var w := BindThis(Str(s), global);
    assert w == Obj(Plain, CharProps(s));
    WrapperVisited(s);
    OneArgumentUsesReceiver(w, f);
  }
}
