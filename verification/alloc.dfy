/** The injected allocation strategy (`dazzle_allocator_t`). Which calls to
    `malloc` fail is not known in advance, so the model takes the failure
    schedule as an input: call number `k` (counting from 0) returns NULL
    exactly when `k` is in `failing`. Every property proved for an arbitrary
    schedule therefore holds for every run of the real allocator.
    Releasing memory has no observable effect on the model. */
module Alloc {

  datatype Allocator = Allocator(failing: set<nat>, calls: nat)
  {
    /** Whether the next `malloc` returns a usable block. */
    predicate NextSucceeds()
    {
      calls !in failing
    }

    /** The allocator after one more `malloc` call, successful or not. */
    function Step(): (a: Allocator)
      ensures a.failing == failing && a.calls == calls + 1
    {
      this.(calls := calls + 1)
    }
  }

  /** One `malloc` call: whether it succeeded, and the allocator after it. */
  datatype Allocation = Allocation(ok: bool, next: Allocator)

  function Malloc(a: Allocator): (r: Allocation)
    ensures r.ok <==> a.calls !in a.failing
    ensures r.next.failing == a.failing && r.next.calls == a.calls + 1
  {
    Allocation(a.NextSucceeds(), a.Step())
  }
}
