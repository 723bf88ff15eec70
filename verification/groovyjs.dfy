/**
 * src/groovyjs.js.  Its `each`, `grep` and `collect` are the same code as
 * src/groovy.utils.js (the combinators reach `each` through `this.each`,
 * taken here to be that same `each`), so they are `Iteration.Each`,
 * `Combinators.Grep` and `Combinators.Collect`.  Its `collectEntries` differs:
 * the container is always a plain object.
 */
module GroovyJs {
  import opened JsValues
  import opened Iteration
  import Combinators

  /** `collectEntries(...)` on `receiver`: a plain object in which each key holds
      the value of the last pair produced for it, whatever the input's shape. */
  function CollectEntries(receiver: ThisValue, args: Args<Combinators.Reply>): (r: Outcome<Value>)
    ensures var inv := Resolve(receiver, args);
      r.Threw? <==> inv.handler.NotFn? && |Visited(inv.obj)| > 0
    ensures r.Returned? ==> r.value.Obj? && r.value.kind == Plain && WellFormed(r.value)
    ensures var inv := Resolve(receiver, args);
      r.Returned? ==>
        && Names(r.value.props) == Combinators.PairKeys(HandlerCalls(inv))
        && forall n :: Lookup(r.value.props, n) == Combinators.LastPair(HandlerCalls(inv), n)
  {
    var inv := Resolve(receiver, args);
    if inv.handler.NotFn? && |Visited(inv.obj)| > 0 then Threw(TypeError)
    else Returned(Obj(Plain, Combinators.EntryProps(HandlerCalls(inv))))
  }

  /** The two `collectEntries` write the same properties and fail alike; only
      the container for Array input differs. */
  lemma {:induction false} CollectEntriesVersionsAgree(receiver: ThisValue, args: Args<Combinators.Reply>)
    ensures var a := Combinators.CollectEntries(receiver, args);
      var b := CollectEntries(receiver, args);
      && (a.Threw? <==> b.Threw?)
      && (a.Returned? ==> b.value == Obj(Plain, a.value.props))
      && (a.Returned? ==> (a.value.ArrayContainer? <==> Resolve(receiver, args).obj.Arr?))
  {
  }

  /** `grep`, `collect` and `collectEntries` on something that is not an object
      return an empty plain object: `instanceof Array` fails and `each` is inert. */
  lemma {:induction false} NonCollectionGivesEmptyObject(receiver: ThisValue, args: Args<Value>, entryArgs: Args<Combinators.Reply>)
    requires !IsObject(Resolve(receiver, args).obj)
    requires !IsObject(Resolve(receiver, entryArgs).obj)
    ensures Combinators.Grep(receiver, args) == Returned(Obj(Plain, []))
    ensures Combinators.Collect(receiver, args) == Returned(Obj(Plain, []))
    ensures CollectEntries(receiver, entryArgs) == Returned(Obj(Plain, []))
  {
  }
}
