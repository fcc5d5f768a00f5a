/**
  `VkOwned` (src/vk_mem.rs): a copyable handle together with the closure that
  destroys it; dropping the owner calls the closure with the handle.
 */
module VkMem {

  /**
    The owner of one handle of type A with a destructor of type F. The
    destructor's effect on the driver is recorded in the ghost log `destroyed`
    as the (destructor, argument) pairs it was called with.
   */
  class VkOwned<A, F> {
    var value: A
    const destroyFn: F
    var dropped: bool
    ghost var destroyed: seq<(F, A)>

    /** Until the owner is dropped nothing is destroyed; afterwards exactly its own value, once. */
    ghost predicate Valid()
      reads this
    {
      if dropped then destroyed == [(destroyFn, value)] else destroyed == []
    }

    /** `VkOwned::new`: stores the value and the destructor, calling neither. */
    constructor (a: A, destroyFn: F)
      ensures Valid()
      ensures value == a && this.destroyFn == destroyFn
      ensures !dropped && destroyed == []
    {
      value := a;
      this.destroyFn := destroyFn;
      dropped := false;
      destroyed := [];
    }

    /** Reading the public `value` field of a live owner. */
    method Read() returns (v: A)
      requires Valid() && !dropped
      ensures v == value
    {
      v := value;
    }

    /** `Drop::drop`: calls the destructor once with the stored value, which stays as it was. */
    method Drop()
      requires Valid() && !dropped
      modifies this
      ensures Valid() && dropped
      ensures value == old(value)
      ensures destroyed == old(destroyed) + [(destroyFn, value)]
    {
      destroyed := destroyed + [(destroyFn, value)];
      dropped := true;
    }
  }

  /**
    An owner's whole life: created, read `n` times, then dropped. The
    destructor runs exactly once, with the value the owner was created with,
    whatever `n` is.
   */
  method OwnReadDrop<A, F>(a: A, destroyFn: F, n: nat) returns (owner: VkOwned<A, F>, values: seq<A>)
    ensures fresh(owner) && owner.dropped
    ensures |values| == n && forall i :: 0 <= i < n ==> values[i] == a
    ensures owner.destroyed == [(destroyFn, a)]
  {
    owner := new VkOwned(a, destroyFn);
    values := [];
    var i := 0;
    while i < n
      invariant 0 <= i <= n
      invariant owner.Valid() && !owner.dropped && owner.value == a
      invariant owner.destroyFn == destroyFn
      invariant |values| == i && forall k :: 0 <= k < i ==> values[k] == a
    {
      var v := owner.Read();
      values := values + [v];
      i := i + 1;
    }
    owner.Drop();
  }
}
