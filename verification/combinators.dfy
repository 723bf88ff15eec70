/**
 * `grep`, `collect` and `collectEntries` as src/groovy.utils.js writes them.
 * Each picks its output container from `obj instanceof Array`, then lets
 * `each` drive a callback that forwards every call to the user's handler
 * unchanged (same context, value, key and index) and updates the container.
 * The handler's calls are therefore exactly the calls `each` would make with
 * it, and each combinator is a fold over those calls; the folds are written
 * over prefixes, "the container after the first n calls".
 *
 * The forwarding callback is itself a function, so `each` walks the
 * collection even when the user's handler is not a function; the first
 * `handler.call` then throws a TypeError.
 */
module Combinators {
  import opened JsValues
  import opened Iteration

  type Calls = seq<CallRecord<Value>>

  /** What a `collectEntries` handler returns: `false`, or a `[key, value]` pair
      whose key is already the property name it converts to. */
  datatype Reply = FalseReply | Pair(key: string, value: Value)

  /** What `collectEntries` hands back: an object, or for Array input an array
      used as a container of named properties. */
  datatype Entries = ObjectOf(props: seq<Prop>) | ArrayContainer(props: seq<Prop>)

  function Init<R>(calls: seq<CallRecord<R>>): seq<CallRecord<R>>
    requires |calls| > 0
  {
    calls[..|calls| - 1]
  }

  function Last<R>(calls: seq<CallRecord<R>>): CallRecord<R>
    requires |calls| > 0
  {
    calls[|calls| - 1]
  }

  /** Calls whose result is not strictly `false`, in order. */
  function Kept(calls: Calls): (ks: Calls)
    ensures |ks| <= |calls|
  {
    if calls == [] then []
    else Kept(Init(calls)) + (if IsFalse(Last(calls).result) then [] else [Last(calls)])
  }

  /** A call is kept exactly when it was made and did not return `false`. */
  lemma {:induction false} KeptMembers(calls: Calls)
    ensures forall c :: c in Kept(calls) <==> c in calls && !IsFalse(c.result)
  {
    if calls != [] {
      KeptMembers(Init(calls));
      assert calls == Init(calls) + [Last(calls)];
    }
  }

  function ValueElems(cs: Calls): (r: seq<Slot>)
    ensures |r| == |cs| && forall j :: 0 <= j < |cs| ==> r[j] == Elem(cs[j].value)
  {
    seq(|cs|, j requires 0 <= j < |cs| => Elem(cs[j].value))
  }

  function ResultElems(cs: Calls): (r: seq<Slot>)
    ensures |r| == |cs| && forall j :: 0 <= j < |cs| ==> r[j] == Elem(cs[j].result)
  {
    seq(|cs|, j requires 0 <= j < |cs| => Elem(cs[j].result))
  }

  function ValueProps(cs: Calls): (r: seq<Prop>)
    ensures |r| == |cs| && forall j :: 0 <= j < |cs| ==> r[j] == Prop(KeyText(cs[j].key), cs[j].value)
  {
    seq(|cs|, j requires 0 <= j < |cs| => Prop(KeyText(cs[j].key), cs[j].value))
  }

  function ResultProps(cs: Calls): (r: seq<Prop>)
    ensures |r| == |cs| && forall j :: 0 <= j < |cs| ==> r[j] == Prop(KeyText(cs[j].key), cs[j].result)
  {
    seq(|cs|, j requires 0 <= j < |cs| => Prop(KeyText(cs[j].key), cs[j].result))
  }

  /** No two calls were handed the same key text. */
  predicate DistinctTexts<R>(calls: seq<CallRecord<R>>) {
    forall i, j :: 0 <= i < j < |calls| ==> KeyText(calls[i].key) != KeyText(calls[j].key)
  }

  // ---------------------------------------------------------------------------
  // grep

  /** The array `grep` fills: `list.push(value)` for every kept call. */
  function GrepSlots(calls: Calls): (slots: seq<Slot>)
    ensures slots == ValueElems(Kept(calls))
  {
    if calls == [] then []
    else
      var prev := GrepSlots(Init(calls));
      if IsFalse(Last(calls).result) then prev else prev + [Elem(Last(calls).value)]
  }

  /** The object `grep` fills: `list[key] = value` for every kept call. */
  function GrepProps(calls: Calls): seq<Prop> {
    if calls == [] then []
    else
      var prev := GrepProps(Init(calls));
      if IsFalse(Last(calls).result) then prev
      else Put(prev, KeyText(Last(calls).key), Last(calls).value)
  }

  /** A call's key text is not among the names already written for earlier kept calls. */
  lemma {:induction false} LastKeyIsFresh(calls: Calls)
    requires |calls| > 0 && DistinctTexts(calls)
    ensures KeyText(Last(calls).key) !in Names(ValueProps(Kept(Init(calls))))
    ensures KeyText(Last(calls).key) !in Names(ResultProps(Kept(Init(calls))))
  {
    var init, t := Init(calls), KeyText(Last(calls).key);
    var ks := Kept(init);
    KeptMembers(init);
    forall k | 0 <= k < |ks| ensures KeyText(ks[k].key) != t {
      assert ks[k] in init;
      var j :| 0 <= j < |init| && init[j] == ks[k];
      assert calls[j] == init[j];
    }
  }

  /** With distinct keys, `grep`'s object holds exactly the kept entries, in visit order. */
  lemma {:induction false} GrepPropsAreKeptValues(calls: Calls)
    requires DistinctTexts(calls)
    ensures GrepProps(calls) == ValueProps(Kept(calls))
  {
    if calls != [] {
      var init, c := Init(calls), Last(calls);
      GrepPropsAreKeptValues(init);
      if !IsFalse(c.result) {
        LastKeyIsFresh(calls);
        PutEffect(GrepProps(init), KeyText(c.key), c.value);
        assert Kept(calls) == Kept(init) + [c];
        assert ValueProps(Kept(init) + [c]) == ValueProps(Kept(init)) + [Prop(KeyText(c.key), c.value)];
      }
    }
  }

  /** Calls over a well-formed collection carry distinct key strings. */
  lemma {:induction false} CallsDistinct<R>(inv: Invocation<R>)
    requires WellFormed(inv.obj)
    ensures DistinctTexts(HandlerCalls(inv))
  {
    VisitedKeysDistinct(inv.obj);
  }

  /** `grep(...)` on `receiver`: an entry is kept unless the predicate returns
      exactly `false`; Array input yields the kept values packed in visit order,
      any other input an object holding them under their own keys. */
  function Grep(receiver: ThisValue, args: Args<Value>): (r: Outcome<Value>)
    ensures var inv := Resolve(receiver, args);
      r.Threw? <==> inv.handler.NotFn? && |Visited(inv.obj)| > 0
    ensures var inv := Resolve(receiver, args);
      r.Returned? && inv.obj.Arr? ==> r.value == Arr(ValueElems(Kept(HandlerCalls(inv))))
    ensures var inv := Resolve(receiver, args);
      r.Returned? && !inv.obj.Arr? && WellFormed(inv.obj) ==>
        r.value == Obj(Plain, ValueProps(Kept(HandlerCalls(inv))))
  {
    var inv := Resolve(receiver, args);
    if inv.handler.NotFn? && |Visited(inv.obj)| > 0 then Threw(TypeError)
    else
      var calls := HandlerCalls(inv);
      if inv.obj.Arr? then Returned(Arr(GrepSlots(calls)))
      else if WellFormed(inv.obj) then
        CallsDistinct(inv);
        GrepPropsAreKeptValues(calls);
        Returned(Obj(Plain, GrepProps(calls)))
      else Returned(Obj(Plain, GrepProps(calls)))
  }

  // ---------------------------------------------------------------------------
  // collect

  /** One step of `collect` on an array: `list[i] = r`, then, if `r === false`,
      `list.splice(i, 1)`.  (The handler's key is the text of `i`, which
      JavaScript reads back as `i`: see `DecimalRoundTrip`.) */
  function CollectSlotStep(list: seq<Slot>, i: nat, r: Value): seq<Slot> {
    var written := SetIndex(list, i, r);
    if IsFalse(r) then SpliceOne(written, i) else written
  }

  predicate IndexKeyed<R>(calls: seq<CallRecord<R>>) {
    forall j :: 0 <= j < |calls| ==> calls[j].key.Idx?
  }

  predicate AscendingCalls<R>(calls: seq<CallRecord<R>>)
    requires IndexKeyed(calls)
  {
    forall a, b :: 0 <= a < b < |calls| ==> calls[a].key.i < calls[b].key.i
  }

  /** The array `collect` builds. */
  function CollectSlots(calls: Calls): (slots: seq<Slot>)
    requires IndexKeyed(calls)
  {
    if calls == [] then []
    else CollectSlotStep(CollectSlots(Init(calls)), Last(calls).key.i, Last(calls).result)
  }

  /** The length `collect` leaves: one past the last visited index, or exactly
      the last visited index when that entry's result was `false`. */
  function CollectedLength(calls: Calls): nat
    requires IndexKeyed(calls)
  {
    if calls == [] then 0
    else if IsFalse(Last(calls).result) then Last(calls).key.i
    else Last(calls).key.i + 1
  }

  /** A step at an index at or past the current end: earlier slots are kept, the
      gap is filled with holes, and the result sits at `i` unless it is `false`,
      in which case the array ends just before `i`. */
  lemma {:induction false} CollectStepPastEnd(prev: seq<Slot>, i: nat, r: Value)
    requires |prev| <= i
    ensures var slots := CollectSlotStep(prev, i, r);
      && |slots| == (if IsFalse(r) then i else i + 1)
      && (forall k :: 0 <= k < |prev| ==> slots[k] == prev[k])
      && (forall k :: |prev| <= k < |slots| && k != i ==> slots[k] == Hole)
      && (!IsFalse(r) ==> slots[i] == Elem(r))
  {
    var written := SetIndex(prev, i, r);
    assert |written| == i + 1;
  }

  /** On an array, `collect` shifts nothing: a non-false result sits at its
      entry's own index, every element comes from such a result, and the length
      is `CollectedLength`. */
  lemma {:induction false} CollectArrayKeepsPositions(calls: Calls)
    requires IndexKeyed(calls) && AscendingCalls(calls)
    ensures var slots := CollectSlots(calls);
      && |slots| == CollectedLength(calls)
      && (forall j :: 0 <= j < |calls| && !IsFalse(calls[j].result) ==>
            calls[j].key.i < |slots| && slots[calls[j].key.i] == Elem(calls[j].result))
      && (forall k :: 0 <= k < |slots| && slots[k].Elem? ==>
            exists j :: 0 <= j < |calls| && calls[j].key == Idx(k) && slots[k] == Elem(calls[j].result)
                         && !IsFalse(calls[j].result))
  {
    if calls != [] {
      var init, c := Init(calls), Last(calls);
      CollectArrayKeepsPositions(init);
      var prev := CollectSlots(init);
      var slots := CollectSlots(calls);
      var i := c.key.i;
      assert |prev| <= i by {
        if init != [] {
          assert Last(init).key.i < i;
        }
      }
      assert slots == CollectSlotStep(prev, i, c.result);
      CollectStepPastEnd(prev, i, c.result);
      forall j | 0 <= j < |calls| && !IsFalse(calls[j].result)
        ensures calls[j].key.i < |slots| && slots[calls[j].key.i] == Elem(calls[j].result)
      {
        if j < |init| {
          assert init[j] == calls[j];
        }
      }
      forall k | 0 <= k < |slots| && slots[k].Elem?
        ensures exists j :: 0 <= j < |calls| && calls[j].key == Idx(k) && slots[k] == Elem(calls[j].result)
                            && !IsFalse(calls[j].result)
      {
        if k < |prev| {
          var j :| 0 <= j < |init| && init[j].key == Idx(k) && prev[k] == Elem(init[j].result)
                   && !IsFalse(init[j].result);
          assert calls[j] == init[j];
        } else {
          assert k == i && !IsFalse(c.result);
          assert calls[|calls| - 1] == c;
        }
      }
    }
  }

  /** On an array, the index of an entry whose result was `false` is a hole or
      lies past the end. */
  lemma {:induction false} CollectArrayHoles(calls: Calls)
    requires IndexKeyed(calls) && AscendingCalls(calls)
    ensures var slots := CollectSlots(calls);
      forall j :: 0 <= j < |calls| && IsFalse(calls[j].result) ==>
        calls[j].key.i >= |slots| || slots[calls[j].key.i] == Hole
  {
    if calls != [] {
      var init, c := Init(calls), Last(calls);
      CollectArrayHoles(init);
      CollectSlotsLength(init);
      var prev := CollectSlots(init);
      var slots := CollectSlots(calls);
      var i := c.key.i;
      assert |prev| <= i by {
        if init != [] {
          assert Last(init).key.i < i;
        }
      }
      assert slots == CollectSlotStep(prev, i, c.result);
      CollectStepPastEnd(prev, i, c.result);
      forall j | 0 <= j < |calls| && IsFalse(calls[j].result)
        ensures calls[j].key.i >= |slots| || slots[calls[j].key.i] == Hole
      {
        if j < |init| {
          assert init[j] == calls[j];
          assert calls[j].key.i < i;
        }
      }
    }
  }

  lemma {:induction false} CollectSlotsLength(calls: Calls)
    requires IndexKeyed(calls) && AscendingCalls(calls)
    ensures |CollectSlots(calls)| == CollectedLength(calls)
  {
    CollectArrayKeepsPositions(calls);
  }

  /** The object `collect` builds: `list[key] = r`, then `delete list[key]` if
      `r === false`. */
  function CollectProps(calls: Calls): seq<Prop> {
    if calls == [] then []
    else
      var prev := CollectProps(Init(calls));
      var c := Last(calls);
      var written := Put(prev, KeyText(c.key), c.result);
      if IsFalse(c.result) then Delete(written, KeyText(c.key)) else written
  }

  /** With distinct keys, writing `false` and deleting it again leaves nothing
      behind, so the object holds exactly the non-false results, in visit order. */
  lemma {:induction false} CollectPropsAreKeptResults(calls: Calls)
    requires DistinctTexts(calls)
    ensures CollectProps(calls) == ResultProps(Kept(calls))
  {
    if calls != [] {
      var init, c := Init(calls), Last(calls);
      var prev, t := ResultProps(Kept(init)), KeyText(c.key);
      CollectPropsAreKeptResults(init);
      LastKeyIsFresh(calls);
      var written := prev + [Prop(t, c.result)];
      PutEffect(prev, t, c.result);
      assert Put(prev, t, c.result) == written;
      if !IsFalse(c.result) {
        assert Kept(calls) == Kept(init) + [c];
        assert ResultProps(Kept(init) + [c]) == written;
      } else {
        DeleteUndoesAppend(prev, t, c.result);
      }
    }
  }

  lemma {:induction false} DeleteUndoesAppend(props: seq<Prop>, name: string, v: Value)
    requires name !in Names(props)
    ensures Delete(props + [Prop(name, v)], name) == props
  {
    if props != [] {
      var appended := props + [Prop(name, v)];
      assert appended[0] == props[0] && props[0].name != name;
      assert appended[1..] == props[1..] + [Prop(name, v)];
      assert name !in Names(props[1..]);
      DeleteUndoesAppend(props[1..], name, v);
      assert Delete(appended, name) == [props[0]] + Delete(appended[1..], name);
    }
  }

  /** `collect(...)` on `receiver`.  On an object each key maps to its handler
      result and keys whose result is `false` are gone; on an array see
      `CollectArrayKeepsPositions`. */
  function Collect(receiver: ThisValue, args: Args<Value>): (r: Outcome<Value>)
    ensures var inv := Resolve(receiver, args);
      r.Threw? <==> inv.handler.NotFn? && |Visited(inv.obj)| > 0
    ensures var inv := Resolve(receiver, args);
      r.Returned? && inv.obj.Arr? ==>
        && r.value.Arr?
        && IndexKeyed(HandlerCalls(inv)) && AscendingCalls(HandlerCalls(inv))
        && r.value.slots == CollectSlots(HandlerCalls(inv))
        && |r.value.slots| == CollectedLength(HandlerCalls(inv))
    ensures var inv := Resolve(receiver, args);
      r.Returned? && !inv.obj.Arr? && WellFormed(inv.obj) ==>
        r.value == Obj(Plain, ResultProps(Kept(HandlerCalls(inv))))
  {
    var inv := Resolve(receiver, args);
    if inv.handler.NotFn? && |Visited(inv.obj)| > 0 then Threw(TypeError)
    else
      var calls := HandlerCalls(inv);
      if inv.obj.Arr? then
        ArrayCallsAscend(inv);
        CollectSlotsLength(calls);
        Returned(Arr(CollectSlots(calls)))
      else if WellFormed(inv.obj) then
        CallsDistinct(inv);
        CollectPropsAreKeptResults(calls);
        Returned(Obj(Plain, CollectProps(calls)))
      else Returned(Obj(Plain, CollectProps(calls)))
  }

  /** The calls made over an array are keyed by strictly increasing indices. */
  lemma {:induction false} ArrayCallsAscend<R>(inv: Invocation<R>)
    requires inv.obj.Arr?
    ensures IndexKeyed(HandlerCalls(inv)) && AscendingCalls(HandlerCalls(inv))
  {
    ArrayVisitsEveryElement(inv.obj.slots);
  }

  /** The `collect` the documentation describes (its example promises `[4]`
      for `[1,2,3]` and a handler answering `false` on odd numbers): on an
      array, non-false results are packed in visit order. */
  function CompactSlots(calls: Calls): (slots: seq<Slot>)
    ensures slots == ResultElems(Kept(calls))
  {
    if calls == [] then []
    else
      var prev := CompactSlots(Init(calls));
      if IsFalse(Last(calls).result) then prev else prev + [Elem(Last(calls).result)]
  }

  function CollectCompacting(receiver: ThisValue, args: Args<Value>): (r: Outcome<Value>)
    ensures var inv := Resolve(receiver, args);
      r.Threw? <==> inv.handler.NotFn? && |Visited(inv.obj)| > 0
    ensures var inv := Resolve(receiver, args);
      r.Returned? && inv.obj.Arr? ==> r.value == Arr(ResultElems(Kept(HandlerCalls(inv))))
    ensures var inv := Resolve(receiver, args);
      r.Returned? && !inv.obj.Arr? && WellFormed(inv.obj) ==>
        r.value == Obj(Plain, ResultProps(Kept(HandlerCalls(inv))))
  {
    var inv := Resolve(receiver, args);
    if inv.handler.NotFn? && |Visited(inv.obj)| > 0 then Threw(TypeError)
    else
      var calls := HandlerCalls(inv);
      if inv.obj.Arr? then Returned(Arr(CompactSlots(calls)))
      else if WellFormed(inv.obj) then
        CallsDistinct(inv);
        CollectPropsAreKeptResults(calls);
        Returned(Obj(Plain, CollectProps(calls)))
      else Returned(Obj(Plain, CollectProps(calls)))
  }

  // ---------------------------------------------------------------------------
  // collectEntries

  /** The value of the last pair produced for `name`, if any: later pairs win. */
  function LastPair(calls: seq<CallRecord<Reply>>, name: string): Option<Value> {
    if calls == [] then None
    else match Last(calls).result
      case Pair(k, v) => if k == name then Some(v) else LastPair(Init(calls), name)
      case FalseReply => LastPair(Init(calls), name)
  }

  function PairKeys(calls: seq<CallRecord<Reply>>): set<string> {
    set c | c in calls && c.result.Pair? :: c.result.key
  }

  /** One step of `collectEntries`: `list[result[0]] = result[1]` unless the
      result is `false`. */
  function AddPair(props: seq<Prop>, r: Reply): seq<Prop> {
    match r
    case FalseReply => props
    case Pair(k, v) => Put(props, k, v)
  }

  /** The properties `collectEntries` writes: `list[result[0]] = result[1]` for
      every result that is not `false`. */
  function EntryProps(calls: seq<CallRecord<Reply>>): (props: seq<Prop>)
    ensures forall n :: Lookup(props, n) == LastPair(calls, n)
    ensures Names(props) == PairKeys(calls)
    ensures DistinctNames(props)
  {
    if calls == [] then []
    else
      var prev := EntryProps(Init(calls));
      AddPairStep(calls, prev);
      AddPair(prev, Last(calls).result)
  }

  /** If `prev` holds the last pair per key of all calls but the last, adding
      the last call's pair makes it hold the last pair per key of all calls. */
  lemma {:induction false} AddPairStep(calls: seq<CallRecord<Reply>>, prev: seq<Prop>)
    requires calls != []
    requires forall n :: Lookup(prev, n) == LastPair(Init(calls), n)
    requires Names(prev) == PairKeys(Init(calls)) && DistinctNames(prev)
    ensures var props := AddPair(prev, Last(calls).result);
      && (forall n :: Lookup(props, n) == LastPair(calls, n))
      && Names(props) == PairKeys(calls)
      && DistinctNames(props)
  {
    var c := Last(calls);
    PairKeysStep(calls);
    match c.result
    case FalseReply =>
    case Pair(k, v) =>
      PutKeepsDistinct(prev, k, v);
      PutEffect(prev, k, v);
      forall n ensures Lookup(Put(prev, k, v), n) == LastPair(calls, n) {
        if n != k {
          assert Lookup(Put(prev, k, v), n) == Lookup(prev, n);
        }
      }
  }

  lemma {:induction false} PairKeysStep(calls: seq<CallRecord<Reply>>)
    requires calls != []
    ensures PairKeys(calls)
              == PairKeys(Init(calls)) + (if Last(calls).result.Pair? then {Last(calls).result.key} else {})
  {
    var init, c := Init(calls), Last(calls);
    assert calls == init + [c];
    forall x | x in calls ensures x in init || x == c {
    }
  }

  lemma {:induction false} PutKeepsDistinct(props: seq<Prop>, name: string, v: Value)
    requires DistinctNames(props)
    ensures DistinctNames(Put(props, name, v))
  {
    if props != [] {
      DistinctTail(props);
      if props[0].name != name {
        var rest := Put(props[1..], name, v);
        PutKeepsDistinct(props[1..], name, v);
        PutEffect(props[1..], name, v);
        assert props[0].name !in Names(rest);
        ConsDistinct(props[0], rest);
        assert Put(props, name, v) == [props[0]] + rest;
      } else {
        ConsDistinct(Prop(name, v), props[1..]);
        assert Put(props, name, v) == [Prop(name, v)] + props[1..];
      }
    }
  }

  lemma {:induction false} DistinctTail(props: seq<Prop>)
    requires DistinctNames(props) && props != []
    ensures DistinctNames(props[1..]) && props[0].name !in Names(props[1..])
  {
    var tail := props[1..];
    forall k | 0 <= k < |tail| ensures tail[k].name != props[0].name {
      assert tail[k] == props[k + 1];
    }
  }

  lemma {:induction false} ConsDistinct(p: Prop, rest: seq<Prop>)
    requires DistinctNames(rest) && p.name !in Names(rest)
    ensures DistinctNames([p] + rest)
  {
    var ps := [p] + rest;
    forall i, j | 0 <= i < j < |ps| ensures ps[i].name != ps[j].name {
      assert ps[j] == rest[j - 1];
      if i > 0 {
        assert ps[i] == rest[i - 1];
      }
    }
  }

  /** `collectEntries(...)` on `receiver` as src/groovy.utils.js writes it: each
      key holds the value of the last pair produced for it, `false` results add
      nothing, and the container is an array exactly when the input is one. */
  function CollectEntries(receiver: ThisValue, args: Args<Reply>): (r: Outcome<Entries>)
    ensures var inv := Resolve(receiver, args);
      r.Threw? <==> inv.handler.NotFn? && |Visited(inv.obj)| > 0
    ensures var inv := Resolve(receiver, args);
      r.Returned? ==> (r.value.ArrayContainer? <==> inv.obj.Arr?)
    ensures var inv := Resolve(receiver, args);
      r.Returned? ==>
        && Names(r.value.props) == PairKeys(HandlerCalls(inv))
        && forall n :: Lookup(r.value.props, n) == LastPair(HandlerCalls(inv), n)
  {
    var inv := Resolve(receiver, args);
    if inv.handler.NotFn? && |Visited(inv.obj)| > 0 then Threw(TypeError)
    else
      var props := EntryProps(HandlerCalls(inv));
      if inv.obj.Arr? then Returned(ArrayContainer(props)) else Returned(ObjectOf(props))
  }

  // ---------------------------------------------------------------------------
  // Per-entry statements about the object outputs

  lemma {:induction false} KeptKeepsDistinct(calls: Calls)
    requires DistinctTexts(calls)
    ensures DistinctTexts(Kept(calls))
  {
    if calls != [] {
      var init := Init(calls);
      KeptKeepsDistinct(init);
      var ks := Kept(init);
      KeptMembers(init);
      forall k | 0 <= k < |ks| ensures KeyText(ks[k].key) != KeyText(Last(calls).key) {
        assert ks[k] in init;
        var j :| 0 <= j < |init| && init[j] == ks[k];
        assert calls[j] == init[j];
      }
    }
  }

  lemma {:induction false} LookupFindsDistinct(props: seq<Prop>, k: nat)
    requires DistinctNames(props) && k < |props|
    ensures Lookup(props, props[k].name) == Some(props[k].value)
  {
    if k > 0 {
      LookupFindsDistinct(props[1..], k - 1);
    }
  }

  /** A key text no kept call carries is absent from both kept-calls objects. */
  lemma {:induction false} AbsentFromKept(ks: Calls, t: string)
    requires forall k :: 0 <= k < |ks| ==> KeyText(ks[k].key) != t
    ensures Lookup(ValueProps(ks), t) == None && Lookup(ResultProps(ks), t) == None
  {
    assert t !in Names(ValueProps(ks)) && t !in Names(ResultProps(ks));
  }

  lemma {:induction false} DroppedIsAbsent(calls: Calls, j: nat)
    requires DistinctTexts(calls) && j < |calls| && IsFalse(calls[j].result)
    ensures Lookup(ValueProps(Kept(calls)), KeyText(calls[j].key)) == None
    ensures Lookup(ResultProps(Kept(calls)), KeyText(calls[j].key)) == None
  {
    var ks, t := Kept(calls), KeyText(calls[j].key);
    KeptMembers(calls);
    forall k | 0 <= k < |ks| ensures KeyText(ks[k].key) != t {
      assert ks[k] in calls;
      var i :| 0 <= i < |calls| && calls[i] == ks[k];
    }
    AbsentFromKept(ks, t);
  }

  lemma {:induction false} KeptIsPresent(calls: Calls, j: nat)
    requires DistinctTexts(calls) && j < |calls| && !IsFalse(calls[j].result)
    ensures Lookup(ValueProps(Kept(calls)), KeyText(calls[j].key)) == Some(calls[j].value)
    ensures Lookup(ResultProps(Kept(calls)), KeyText(calls[j].key)) == Some(calls[j].result)
  {
    var ks := Kept(calls);
    KeptKeepsDistinct(calls);
    KeptMembers(calls);
    assert calls[j] in ks;
    var k :| 0 <= k < |ks| && ks[k] == calls[j];
    LookupFindsDistinct(ValueProps(ks), k);
    LookupFindsDistinct(ResultProps(ks), k);
  }

  /** The entry keyed `KeyText(calls[j].key)` of a kept-calls object is call `j`'s,
      and it exists exactly when call `j` was kept. */
  lemma {:induction false} KeptLookup(calls: Calls, j: nat)
    requires DistinctTexts(calls) && j < |calls|
    ensures Lookup(ValueProps(Kept(calls)), KeyText(calls[j].key))
              == if IsFalse(calls[j].result) then None else Some(calls[j].value)
    ensures Lookup(ResultProps(Kept(calls)), KeyText(calls[j].key))
              == if IsFalse(calls[j].result) then None else Some(calls[j].result)
  {
    if IsFalse(calls[j].result) {
      DroppedIsAbsent(calls, j);
    } else {
      KeptIsPresent(calls, j);
    }
  }

  /** Every name in a kept-calls object is the key text of some call. */
  lemma {:induction false} KeptNamesFromCalls(calls: Calls)
    ensures forall n :: n in Names(ValueProps(Kept(calls))) ==> exists j :: 0 <= j < |calls| && KeyText(calls[j].key) == n
    ensures forall n :: n in Names(ResultProps(Kept(calls))) ==> exists j :: 0 <= j < |calls| && KeyText(calls[j].key) == n
  {
    var ks := Kept(calls);
    KeptMembers(calls);
    forall n | n in Names(ValueProps(ks)) || n in Names(ResultProps(ks))
      ensures exists j :: 0 <= j < |calls| && KeyText(calls[j].key) == n
    {
      var k :| 0 <= k < |ks| && KeyText(ks[k].key) == n;
      assert ks[k] in calls;
    }
  }

  /** `KeptLookup` for every call at once. */
  lemma {:induction false} KeptLookups(calls: Calls)
    requires DistinctTexts(calls)
    ensures forall j :: 0 <= j < |calls| ==>
      Lookup(ValueProps(Kept(calls)), KeyText(calls[j].key))
        == if IsFalse(calls[j].result) then None else Some(calls[j].value)
    ensures forall j :: 0 <= j < |calls| ==>
      Lookup(ResultProps(Kept(calls)), KeyText(calls[j].key))
        == if IsFalse(calls[j].result) then None else Some(calls[j].result)
  {
    forall j | 0 <= j < |calls|
      ensures Lookup(ValueProps(Kept(calls)), KeyText(calls[j].key))
                == if IsFalse(calls[j].result) then None else Some(calls[j].value)
      ensures Lookup(ResultProps(Kept(calls)), KeyText(calls[j].key))
                == if IsFalse(calls[j].result) then None else Some(calls[j].result)
    {
      KeptLookup(calls, j);
    }
  }

  /** `grep` on a non-array object: a visited key is present in the output, with
      its original value, exactly when the predicate did not return `false`, and
      no other key is present. */
  lemma {:induction false} GrepObjectKeepsExactlyNonFalse(receiver: ThisValue, args: Args<Value>)
    requires var inv := Resolve(receiver, args); inv.handler.Fn? && !inv.obj.Arr? && WellFormed(inv.obj)
    ensures var inv := Resolve(receiver, args);
      var calls := HandlerCalls(inv);
      var r := Grep(receiver, args);
      && r.Returned? && r.value.Obj? && r.value.kind == Plain
      && (forall j :: 0 <= j < |calls| ==>
            Lookup(r.value.props, KeyText(calls[j].key))
              == if IsFalse(calls[j].result) then None else Some(calls[j].value))
      && (forall n :: n in Names(r.value.props) ==> exists j :: 0 <= j < |calls| && KeyText(calls[j].key) == n)
  {
    var inv := Resolve(receiver, args);
    var calls := HandlerCalls(inv);
    CallsDistinct(inv);
    assert Grep(receiver, args) == Returned(Obj(Plain, ValueProps(Kept(calls))));
    KeptLookups(calls);
    KeptNamesFromCalls(calls);
  }

  /** `grep.call(s, handler)` on a string `s`: the String wrapper is not an
      Array, so the result is an object holding each character the predicate
      did not reject under its index's decimal spelling, and nothing else. */
  lemma {:induction false} GrepOnStringReceiver(s: string, global: ThisValue,
                                                f: (Value, Value, string, nat) -> Value)
    ensures var w := BindThis(Str(s), global);
      var r := Grep(w, One(Fn(f)));
      && r.Returned? && r.value.Obj? && r.value.kind == Plain
      && (forall j :: 0 <= j < |s| ==>
            Lookup(r.value.props, DecimalString(j))
              == if IsFalse(f(w, Str([s[j]]), DecimalString(j), j)) then None else Some(Str([s[j]])))
      && (forall n :: n in Names(r.value.props) ==> exists j :: 0 <= j < |s| && DecimalString(j) == n)
  {
    var w := BindThis(Str(s), global);
    var calls := Invocations(w, w, f);
    GrepOnWrapperIsKept(s, global, f);
    WrapperCalls(s, global, f);
    KeptCharacters(s, w, f, calls);
  }

  lemma {:induction false} GrepOnWrapperIsKept(s: string, global: ThisValue, f: (Value, Value, string, nat) -> Value)
    ensures var w := BindThis(Str(s), global);
      Grep(w, One(Fn(f))) == Returned(Obj(Plain, ValueProps(Kept(Invocations(w, w, f)))))
  {
    BindThisWellFormed(Str(s), global);
  }

  /** The calls `each` makes on the String wrapper of `s`, one per character. */
  lemma {:induction false} WrapperCalls(s: string, global: ThisValue, f: (Value, Value, string, nat) -> Value)
    ensures var w := BindThis(Str(s), global);
      var calls := Invocations(w, w, f);
      && |calls| == |s|
      && forall j :: 0 <= j < |s| ==>
           calls[j] == CallRecord(w, Str([s[j]]), Name(DecimalString(j)), j, f(w, Str([s[j]]), DecimalString(j), j))
  {
    var w := BindThis(Str(s), global);
    assert w == Obj(Plain, CharProps(s));
    WrapperVisited(s);
    var calls := Invocations(w, w, f);
    forall j | 0 <= j < |s|
      ensures calls[j] == CallRecord(w, Str([s[j]]), Name(DecimalString(j)), j, f(w, Str([s[j]]), DecimalString(j), j))
    {
      assert calls[j] == Record(w, Visited(w)[j], j, f);
    }
  }

  /** Kept calls over the characters of `s`: a character's index names it
      exactly when the handler did not return `false` for it. */
  lemma {:induction false} KeptCharacters(s: string, w: Value, f: (Value, Value, string, nat) -> Value, calls: Calls)
    requires |calls| == |s|
    requires forall j :: 0 <= j < |s| ==>
      calls[j] == CallRecord(w, Str([s[j]]), Name(DecimalString(j)), j, f(w, Str([s[j]]), DecimalString(j), j))
    ensures forall j :: 0 <= j < |s| ==>
      Lookup(ValueProps(Kept(calls)), DecimalString(j))
        == if IsFalse(f(w, Str([s[j]]), DecimalString(j), j)) then None else Some(Str([s[j]]))
    ensures forall n :: n in Names(ValueProps(Kept(calls))) ==> exists j :: 0 <= j < |s| && DecimalString(j) == n
  {
    forall i, j | 0 <= i < j < |calls| ensures KeyText(calls[i].key) != KeyText(calls[j].key) {
      IndexKeysDistinct(i, j);
    }
    KeptLookups(calls);
    KeptNamesFromCalls(calls);
    forall j | 0 <= j < |s| ensures KeyText(calls[j].key) == DecimalString(j) {
    }
  }

  lemma {:induction false} CollectObjectIsKeptResults(receiver: ThisValue, args: Args<Value>)
    requires var inv := Resolve(receiver, args); inv.handler.Fn? && !inv.obj.Arr? && WellFormed(inv.obj)
    ensures Collect(receiver, args) == Returned(Obj(Plain, ResultProps(Kept(HandlerCalls(Resolve(receiver, args))))))
  {
  }

  /** `collect` on a non-array object: a visited key holds its handler result
      exactly when that result is not `false`; every other key is absent. */
  lemma {:induction false} CollectObjectDeletesExactlyFalse(receiver: ThisValue, args: Args<Value>)
    requires var inv := Resolve(receiver, args); inv.handler.Fn? && !inv.obj.Arr? && WellFormed(inv.obj)
    ensures var inv := Resolve(receiver, args);
      var calls := HandlerCalls(inv);
      var r := Collect(receiver, args);
      && r.Returned? && r.value.Obj? && r.value.kind == Plain
      && (forall j :: 0 <= j < |calls| ==>
            Lookup(r.value.props, KeyText(calls[j].key))
              == if IsFalse(calls[j].result) then None else Some(calls[j].result))
      && (forall n :: n in Names(r.value.props) ==> exists j :: 0 <= j < |calls| && KeyText(calls[j].key) == n)
  {
    var inv := Resolve(receiver, args);
    var calls := HandlerCalls(inv);
    CollectObjectIsKeptResults(receiver, args);
    CallsDistinct(inv);
    KeptLookups(calls);
    KeptNamesFromCalls(calls);
  }

  /** `collect` on an array: each visited element's non-false result sits at that
      element's own index, a `false` result leaves a hole there, and nothing else
      is in the array. */
  lemma {:induction false} CollectArrayResult(receiver: ThisValue, args: Args<Value>)
    requires var inv := Resolve(receiver, args); inv.handler.Fn? && inv.obj.Arr?
    ensures var inv := Resolve(receiver, args);
      var calls := HandlerCalls(inv);
      var r := Collect(receiver, args);
      && r.Returned? && r.value.Arr? && IndexKeyed(calls)
      && (forall j :: 0 <= j < |calls| ==>
            var i := calls[j].key.i;
            if IsFalse(calls[j].result) then i >= |r.value.slots| || r.value.slots[i] == Hole
            else i < |r.value.slots| && r.value.slots[i] == Elem(calls[j].result))
      && (forall k :: 0 <= k < |r.value.slots| && r.value.slots[k].Elem? ==>
            exists j :: 0 <= j < |calls| && calls[j].key == Idx(k))
  {
    var inv := Resolve(receiver, args);
    var calls := HandlerCalls(inv);
    ArrayCallsAscend(inv);
    assert Collect(receiver, args) == Returned(Arr(CollectSlots(calls)));
    CollectArrayKeepsPositions(calls);
    CollectArrayHoles(calls);
  }
}
