/**
 * The `fiber` handle: a move-only owner of a reference to a fiber's internal
 * state (`fiber_context`). The handle has a single field, the reference
 * `impl`, which is empty or names one context. Every transfer of ownership
 * swaps that field between two handles, and abandoning a joinable fiber ends
 * the program (`std::terminate`), modelled as a `Terminate` status.
 */
module Handle {
  import opened Wrappers

  /** The identity `id()` of no fiber: a null context pointer. */
  const NoId: nat := 0

  /** The identity of a context: its (non-null) address. */
  type CtxId = n: nat | n > 0 witness 1

  /** What the handle observes of a `fiber_context`: its identity and whether
      it has finished running. */
  datatype Ctx = Ctx(id: CtxId, terminated: bool)

  /** Whether an operation returns normally or calls `std::terminate`. */
  datatype Status = Continue | Terminate

  class Fiber {
    var impl: Option<Ctx>

    /** A default-constructed handle references no fiber. */
    constructor ()
      ensures impl == None
      ensures !Joinable() && !ToBool() && Not() && GetId() == NoId
    {
      impl := None;
    }

    /** A handle built from a callable holds the context `create` produced
        for it (and hands it to the scheduler, which is not modelled). */
    constructor Start(ctx: Ctx)
      ensures impl == Some(ctx)
      ensures Joinable() && GetId() == ctx.id
    {
      impl := Some(ctx);
    }

    /** Move construction: start empty, then swap with `other`. */
    constructor Move(other: Fiber)
      modifies other
      ensures impl == old(other.impl) && other.impl == None
      ensures GetId() == old(other.GetId()) && !other.Joinable()
    {
      impl := None;
      new;
      impl, other.impl := other.impl, impl;
    }

    /** `joinable()`: the handle references a context, finished or not; that
        is, it has an identity. */
    function Joinable(): (r: bool)
      reads this
      ensures r <==> GetId() != NoId
    {
      impl.Some?
    }

    /** `operator bool`: the handle references a context that has not
        finished running; it implies `Joinable`, and is strictly stronger. */
    function ToBool(): (r: bool)
      reads this
      ensures r ==> Joinable()
      ensures r <==> Joinable() && !impl.value.terminated
    {
      impl.Some? && !impl.value.terminated
    }

    /** `operator!`: the complement of `operator bool`. */
    function Not(): (r: bool)
      reads this
      ensures r == !ToBool()
    {
      impl.None? || impl.value.terminated
    }

    /** `get_id()`: the identity of the referenced context, or the sentinel
        `NoId` exactly when there is none. */
    function GetId(): (r: nat)
      reads this
      ensures impl.Some? ==> r == impl.value.id
      ensures r == NoId <==> impl.None?
    {
      if impl.Some? then impl.value.id else NoId
    }

    /** `swap`: exchange the references of two handles. */
    method Swap(other: Fiber)
      modifies this, other
      ensures impl == old(other.impl) && other.impl == old(impl)
    {
      impl, other.impl := other.impl, impl;
    }

    /**
     * Move assignment: terminate if this handle is still joinable, before
     * anything changes; otherwise, unless `other` is this very handle, swap,
     * so this handle takes over `other`'s reference and `other` is left empty.
     */
    method MoveAssign(other: Fiber) returns (s: Status)
      modifies this, other
      ensures s == Terminate <==> old(Joinable())
      ensures s == Terminate ==> impl == old(impl) && other.impl == old(other.impl)
      ensures s == Continue && other != this ==> impl == old(other.impl) && other.impl == None
      ensures other == this ==> impl == old(impl)
    {
      if Joinable() {
        return Terminate;
      }
      if this != other {
        Swap(other);
      }
      s := Continue;
    }

    /** The destructor: it terminates the program exactly when the handle
        is joinable, and is harmless exactly when it has no identity. */
    method Destroy() returns (s: Status)
      ensures s == Terminate <==> Joinable()
      ensures s == Continue <==> GetId() == NoId
    {
      if Joinable() {
        s := Terminate;
      } else {
        s := Continue;
      }
    }
  }

  /**
   * A fiber that has finished but was never joined or detached is still
   * joinable, so its handle must still be reconciled, yet it tests false.
   */
  lemma TerminatedButJoinable(f: Fiber)
    requires f.impl.Some? && f.impl.value.terminated
    ensures f.Joinable() && !f.ToBool() && f.Not()
  {
  }

  /** The free `operator<`: handles are ordered by identity, so an empty
      handle precedes every joinable one and follows none. */
  function Less(l: Fiber, r: Fiber): (b: bool)
    reads l, r
    ensures b ==> r.Joinable()
    ensures !l.Joinable() && r.Joinable() ==> b
  {
    l.GetId() < r.GetId()
  }

  /** `operator<` is a strict order on handles that compares any two handles
      of different identity. */
  lemma LessIsStrictOrder(a: Fiber, b: Fiber, c: Fiber)
    ensures !Less(a, a)
    ensures Less(a, b) ==> !Less(b, a)
    ensures Less(a, b) && Less(b, c) ==> Less(a, c)
    ensures a.GetId() != b.GetId() ==> Less(a, b) || Less(b, a)
  {
  }

  /** The free `swap`: the same exchange as the member `swap`. */
  method SwapFibers(l: Fiber, r: Fiber)
    modifies l, r
    ensures l.impl == old(r.impl) && r.impl == old(l.impl)
  {
    l.Swap(r);
  }

  /**
   * Handing a running fiber from one handle to another by move construction:
   * afterwards the source can be destroyed, while destroying the destination
   * would terminate, because the fiber still has to be joined or detached.
   */
  method HandOff(ctx: Ctx) returns (id: nat, source: Status, target: Status)
    ensures id == ctx.id
    ensures source == Continue && target == Terminate
  {
    var f := new Fiber.Start(ctx);
    var g := new Fiber.Move(f);
    id := g.GetId();
    source := f.Destroy();
    target := g.Destroy();
  }
}
