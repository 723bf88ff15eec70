/**
 * Concrete runs: the assertions of specs/each.spec.js and the examples in the
 * doc comments of src/groovy.utils.js and src/groovyjs.js, worked through the
 * model.  The `collect` example is the one place where the documentation and
 * the code disagree.
 */
module Examples {
  import opened JsValues
  import opened Iteration
  import opened Combinators
  import GroovyJs

  /** The global object, `this` for a plain call. */
  const Global: ThisValue := Obj(Plain, [])

  /** `[1, 2, 3]` */
  const OneTwoThree: Value := Arr([Elem(Num(1)), Elem(Num(2)), Elem(Num(3))])

  const EntriesOneTwoThree: seq<Entry> := [Entry(Idx(0), Num(1)), Entry(Idx(1), Num(2)), Entry(Idx(2), Num(3))]

  function Noop(context: Value, value: Value, key: string, index: nat): Value {
    Undefined
  }

  function AlwaysFalse(context: Value, value: Value, key: string, index: nat): Value {
    Bool(false)
  }

  /** `function(n){ return (n%2) === 0 }` */
  function IsEven(context: Value, value: Value, key: string, index: nat): Value {
    Bool(value.Num? && value.n % 2 == 0)
  }

  /** `function(n){ return (n%2) === 0 ? n * 2 : false }` */
  function DoubleEven(context: Value, value: Value, key: string, index: nat): Value {
    if value.Num? && value.n % 2 == 0 then Num(value.n * 2) else Bool(false)
  }

  function AsciiUpper(s: string): (u: string)
    ensures |u| == |s|
  {
    seq(|s|, k requires 0 <= k < |s| => if 'a' <= s[k] <= 'z' then (s[k] as int - 32) as char else s[k])
  }

  /** `function(value, key){ return [key.toUpperCase(), value]; }` */
  function UpperKey(context: Value, value: Value, key: string, index: nat): Reply {
    Pair(AsciiUpper(key), value)
  }

  lemma {:induction false} ArrayEntriesOfThree()
    ensures OwnEntries(OneTwoThree) == EntriesOneTwoThree
  {
    var slots := OneTwoThree.slots;
    assert ArrayEntries(slots, 3) == [];
    assert ArrayEntries(slots, 2) == [Entry(Idx(2), Num(3))];
    assert ArrayEntries(slots, 1) == [Entry(Idx(1), Num(2)), Entry(Idx(2), Num(3))];
  }

  lemma {:induction false} VisitedThree()
    ensures Visited(OneTwoThree) == EntriesOneTwoThree
  {
    ArrayEntriesOfThree();
    var es := OwnEntries(OneTwoThree);
    forall k | 0 <= k < |es| ensures KeyText(es[k].key) != "length" {
      IndexKeyIsNotLength(es[k].key.i);
    }
    NothingSkipped(es, true);
  }

  /** specs/each.spec.js: `each` hands back the array and the object it was given. */
  lemma {:induction false} SpecEachReturnsInput()
    ensures Each(Global, Two(OneTwoThree, Fn(Noop))).returned == OneTwoThree
    ensures var o := Obj(Plain, [Prop("a", Num(1)), Prop("b", Num(2)), Prop("c", Num(3))]);
      Each(Global, Two(o, Fn(Noop))).returned == o
  {
  }

  /** specs/each.spec.js: the handler of `each([1], ...)` sees (1, "0", 0), and that
      of `each({a: 1}, ...)` sees (1, "a", 0). */
  lemma {:induction false} SpecEachHandlerArguments()
    ensures var run := Each(Global, Two(Arr([Elem(Num(1))]), Fn(Noop)));
      |run.calls| == 1 && run.calls[0].value == Num(1)
      && KeyText(run.calls[0].key) == "0" && run.calls[0].index == 0
    ensures var run := Each(Global, Two(Obj(Plain, [Prop("a", Num(1))]), Fn(Noop)));
      |run.calls| == 1 && run.calls[0].value == Num(1)
      && KeyText(run.calls[0].key) == "a" && run.calls[0].index == 0
  {
    var slots := [Elem(Num(1))];
    assert ArrayEntries(slots, 1) == [];
    assert OwnEntries(Arr(slots)) == [Entry(Idx(0), Num(1))];
    assert Visited(Arr(slots)) == [Entry(Idx(0), Num(1))];
    assert DecimalString(0) == "0";
    var o := Obj(Plain, [Prop("a", Num(1))]);
    assert OwnEntries(o) == [Entry(Name("a"), Num(1))];
    assert Visited(o) == [Entry(Name("a"), Num(1))];
  }

  lemma {:induction false} ThreeArguments(obj: Value, ctx: Value, f: (Value, Value, string, nat) -> Value)
    ensures var run := Each(Global, Three(obj, ctx, Fn(f)));
      run.returned == obj && |run.calls| == |Visited(obj)|
      && forall j :: 0 <= j < |run.calls| ==> run.calls[j] == Record(ctx, Visited(obj)[j], j, f)
  {
  }

  lemma {:induction false} SmallDecimals()
    ensures DecimalString(0) == "0" && DecimalString(1) == "1" && DecimalString(2) == "2"
  {
    assert DecimalString(0) == "0" && DecimalString(1) == "1" && DecimalString(2) == "2";
  }

  /** Three-argument `each` over any collection that visits 1, 2, 3 at indices
      0, 1, 2: each call gets the given context, the value, its key and index. */
  lemma {:induction false} ContextOverThree(obj: Value, ctx: Value, f: (Value, Value, string, nat) -> Value)
    requires Visited(obj) == EntriesOneTwoThree
    ensures var run := Each(Global, Three(obj, ctx, Fn(f)));
      && run.returned == obj
      && |run.calls| == 3
      && (forall j :: 0 <= j < 3 ==> run.calls[j].context == ctx && run.calls[j].index == j)
      && (forall j :: 0 <= j < 3 ==> run.calls[j].value == Num(j + 1))
      && KeyText(run.calls[0].key) == "0" && KeyText(run.calls[1].key) == "1" && KeyText(run.calls[2].key) == "2"
  {
    ThreeArguments(obj, ctx, f);
    var calls := Each(Global, Three(obj, ctx, Fn(f))).calls;
    var es := EntriesOneTwoThree;
    assert calls[0] == Record(ctx, es[0], 0, f);
    assert calls[1] == Record(ctx, es[1], 1, f);
    assert calls[2] == Record(ctx, es[2], 2, f);
    SmallDecimals();
  }

  /** The `each` doc example with a context: every call gets `{multiply: 4}` as
      `this`, the values 1, 2, 3 under keys "0", "1", "2" and indices 0, 1, 2;
      the array comes back. */
  lemma {:induction false} EachDocExampleContext()
    ensures var ctx := Obj(Plain, [Prop("multiply", Num(4))]);
      var run := Each(Global, Three(OneTwoThree, ctx, Fn(Noop)));
      && run.returned == OneTwoThree
      && |run.calls| == 3
      && (forall j :: 0 <= j < 3 ==> run.calls[j].context == ctx && run.calls[j].index == j)
      && (forall j :: 0 <= j < 3 ==> run.calls[j].value == Num(j + 1))
      && KeyText(run.calls[0].key) == "0" && KeyText(run.calls[1].key) == "1" && KeyText(run.calls[2].key) == "2"
  {
    VisitedThree();
    ContextOverThree(OneTwoThree, Obj(Plain, [Prop("multiply", Num(4))]), Noop);
  }

  /** The `each.bind({a: 10, b: 20})` doc example: with the handler as the only
      argument the bound object is walked, is `this` in both calls, and comes back. */
  lemma {:induction false} EachBoundDocExample()
    ensures var o := Obj(Plain, [Prop("a", Num(10)), Prop("b", Num(20))]);
      var run := Each(o, One(Fn(Noop)));
      && run.returned == o
      && |run.calls| == 2
      && run.calls[0] == CallRecord(o, Num(10), Name("a"), 0, Undefined)
      && run.calls[1] == CallRecord(o, Num(20), Name("b"), 1, Undefined)
  {
    var o := Obj(Plain, [Prop("a", Num(10)), Prop("b", Num(20))]);
    assert OwnEntries(o) == [Entry(Name("a"), Num(10)), Entry(Name("b"), Num(20))];
    assert Visited(o) == [Entry(Name("a"), Num(10)), Entry(Name("b"), Num(20))];
    OneArgumentUsesReceiver(o, Noop);
  }

  /** A handler answering `false` on its first call does not stop `each`: all three
      elements are visited. */
  lemma {:induction false} EachDoesNotStopOnFalse()
    ensures |Each(Global, Two(OneTwoThree, Fn(AlwaysFalse))).calls| == 3
  {
    VisitedThree();
    TwoArgumentsDefaultContext(Global, OneTwoThree, AlwaysFalse);
  }

  /** A "length" property is data on a plain object and skipped on an array-like one. */
  lemma {:induction false} LengthKeyExample()
    ensures |Visited(Obj(Plain, [Prop("length", Num(2)), Prop("a", Num(1))]))| == 2
    ensures Visited(Obj(HostList, [Prop("length", Num(2)), Prop("a", Num(1))])) == [Entry(Name("a"), Num(1))]
  {
    var props := [Prop("length", Num(2)), Prop("a", Num(1))];
    assert OwnEntries(Obj(Plain, props)) == [Entry(Name("length"), Num(2)), Entry(Name("a"), Num(1))];
    assert OwnEntries(Obj(HostList, props)) == [Entry(Name("length"), Num(2)), Entry(Name("a"), Num(1))];
  }

  /** `grep(array, f)` is the array of the values whose call was kept. */
  lemma {:induction false} GrepOnArray(receiver: ThisValue, obj: Value, f: (Value, Value, string, nat) -> Value)
    requires obj.Arr?
    ensures Grep(receiver, Two(obj, Fn(f))) == Returned(Arr(ValueElems(Kept(Invocations(obj, receiver, f)))))
  {
    var inv := Resolve(receiver, Two(obj, Fn(f)));
    assert inv == Invocation(obj, receiver, Fn(f));
    assert HandlerCalls(inv) == Invocations(obj, receiver, f);
  }

  /** `collect(array, f)` is the array `CollectSlots` builds from the calls. */
  lemma {:induction false} CollectOnArray(receiver: ThisValue, obj: Value, f: (Value, Value, string, nat) -> Value)
    requires obj.Arr?
    ensures IndexKeyed(Invocations(obj, receiver, f))
    ensures Collect(receiver, Two(obj, Fn(f))) == Returned(Arr(CollectSlots(Invocations(obj, receiver, f))))
  {
    var inv := Resolve(receiver, Two(obj, Fn(f)));
    assert inv == Invocation(obj, receiver, Fn(f));
    assert HandlerCalls(inv) == Invocations(obj, receiver, f);
    ArrayCallsAscend(inv);
    var r := Collect(receiver, Two(obj, Fn(f)));
    assert r.Returned? && r.value.Arr?;
  }

  /** The packing `collect(array, f)` is the array of the kept results. */
  lemma {:induction false} CompactingOnArray(receiver: ThisValue, obj: Value, f: (Value, Value, string, nat) -> Value)
    requires obj.Arr?
    ensures CollectCompacting(receiver, Two(obj, Fn(f))) == Returned(Arr(ResultElems(Kept(Invocations(obj, receiver, f)))))
  {
    var inv := Resolve(receiver, Two(obj, Fn(f)));
    assert inv == Invocation(obj, receiver, Fn(f));
    assert HandlerCalls(inv) == Invocations(obj, receiver, f);
  }

  function Calls3(f: (Value, Value, string, nat) -> Value): Calls {
    [Record(Global, Entry(Idx(0), Num(1)), 0, f),
     Record(Global, Entry(Idx(1), Num(2)), 1, f),
     Record(Global, Entry(Idx(2), Num(3)), 2, f)]
  }

  lemma {:induction false} CallsOverThree(obj: Value, f: (Value, Value, string, nat) -> Value)
    requires Visited(obj) == EntriesOneTwoThree
    ensures Invocations(obj, Global, f) == Calls3(f)
  {
    var calls, es := Invocations(obj, Global, f), EntriesOneTwoThree;
    assert |calls| == 3;
    assert calls[0] == Record(Global, es[0], 0, f);
    assert calls[1] == Record(Global, es[1], 1, f);
    assert calls[2] == Record(Global, es[2], 2, f);
  }

  /** Three calls whose results are false, a value, false. */
  predicate MiddleOnly(calls: Calls) {
    |calls| == 3 && IsFalse(calls[0].result) && !IsFalse(calls[1].result) && IsFalse(calls[2].result)
  }

  /** Only the middle one of three calls is kept. */
  lemma {:induction false} KeptMiddle(calls: Calls)
    requires MiddleOnly(calls)
    ensures Kept(calls) == [calls[1]]
  {
    assert Kept(calls[..1]) == [] by {
      assert calls[..1][..0] == [];
    }
    assert calls[..2][..1] == calls[..1];
    assert calls[..3][..2] == calls[..2];
    assert calls[..3] == calls;
  }

  lemma {:induction false} KeptMiddleValue(calls: Calls)
    requires MiddleOnly(calls)
    ensures ValueElems(Kept(calls)) == [Elem(calls[1].value)]
    ensures ResultElems(Kept(calls)) == [Elem(calls[1].result)]
  {
    KeptMiddle(calls);
  }

  /** `collect` on an array, three calls at indices 0, 1, 2 with results false,
      a value, false: a hole at 0 and the value at 1. */
  lemma {:induction false} CollectMiddleOfThree(calls: Calls)
    requires MiddleOnly(calls) && IndexKeyed(calls)
    requires calls[0].key == Idx(0) && calls[1].key == Idx(1) && calls[2].key == Idx(2)
    ensures CollectSlots(calls) == [Hole, Elem(calls[1].result)]
  {
    CollectArrayKeepsPositions(calls);
    var slots := CollectSlots(calls);
    assert |slots| == 2 && slots[1] == Elem(calls[1].result);
    assert slots[0] == Hole;
  }

  lemma {:induction false} GrepOverThree(obj: Value)
    requires obj.Arr? && Visited(obj) == EntriesOneTwoThree
    ensures Grep(Global, Two(obj, Fn(IsEven))) == Returned(Arr([Elem(Num(2))]))
  {
    CallsOverThree(obj, IsEven);
    GrepOnArray(Global, obj, IsEven);
    KeptMiddleValue(Invocations(obj, Global, IsEven));
  }

  /** The `grep` doc example: `grep([1,2,3], even)` is `[2]`. */
  lemma {:induction false} GrepDocExample()
    ensures Grep(Global, Two(OneTwoThree, Fn(IsEven))) == Returned(Arr([Elem(Num(2))]))
  {
    VisitedThree();
    GrepOverThree(OneTwoThree);
  }

  lemma {:induction false} CollectOverThree(obj: Value)
    requires obj.Arr? && Visited(obj) == EntriesOneTwoThree
    ensures Collect(Global, Two(obj, Fn(DoubleEven))) == Returned(Arr([Hole, Elem(Num(4))]))
    ensures CollectCompacting(Global, Two(obj, Fn(DoubleEven))) == Returned(Arr([Elem(Num(4))]))
  {
    CallsOverThree(obj, DoubleEven);
    var calls := Invocations(obj, Global, DoubleEven);
    CollectOnArray(Global, obj, DoubleEven);
    CollectMiddleOfThree(calls);
    CompactingOnArray(Global, obj, DoubleEven);
    KeptMiddleValue(calls);
  }

  /** The `collect` doc example promises `[4]`; the code produces an array of
      length 2 with a hole at 0 and 4 at 1. */
  lemma {:induction false} CollectDocExampleLeavesHole()
    ensures Collect(Global, Two(OneTwoThree, Fn(DoubleEven))) == Returned(Arr([Hole, Elem(Num(4))]))
    ensures Collect(Global, Two(OneTwoThree, Fn(DoubleEven))) != Returned(Arr([Elem(Num(4))]))
  {
    VisitedThree();
    CollectOverThree(OneTwoThree);
  }

  /** The packing `collect` gives the documented `[4]`. */
  lemma {:induction false} CompactingCollectMatchesDocExample()
    ensures CollectCompacting(Global, Two(OneTwoThree, Fn(DoubleEven))) == Returned(Arr([Elem(Num(4))]))
  {
    VisitedThree();
    CollectOverThree(OneTwoThree);
  }

  /** The `collectEntries` doc example: `{a: 1}` with upper-cased keys is `{A: 1}`
      in both versions. */
  lemma {:induction false} CollectEntriesDocExample()
    ensures var o := Obj(Plain, [Prop("a", Num(1))]);
      && Combinators.CollectEntries(Global, Two(o, Fn(UpperKey))) == Returned(ObjectOf([Prop("A", Num(1))]))
      && GroovyJs.CollectEntries(Global, Two(o, Fn(UpperKey))) == Returned(Obj(Plain, [Prop("A", Num(1))]))
  {
    var o := Obj(Plain, [Prop("a", Num(1))]);
    assert OwnEntries(o) == [Entry(Name("a"), Num(1))];
    assert Visited(o) == [Entry(Name("a"), Num(1))];
    assert AsciiUpper("a") == "A";
    var calls := HandlerCalls(Resolve(Global, Two(o, Fn(UpperKey))));
    assert calls == [CallRecord(Global, Num(1), Name("a"), 0, Pair("A", Num(1)))];
    assert calls[..0] == [];
  }
}
