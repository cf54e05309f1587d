/**
 * The per-type registry `ext::collection<T>` together with its manager
 * handle `ext::collection_mgr<T>`. The process-wide singleton of the
 * original is an explicit `Registry<T>` object here; one object stands for
 * one element type, so registries of different types never share state.
 */
module Collection {
  import opened Membership

  /** A possibly-null pointer handed to `add`/`remove`. */
  datatype Ptr<T> = Null | Addr(target: T)

  class Registry<T(==)> {
    /** Non-owning references to the registered objects, in insertion order. */
    var members: seq<T>

    ghost predicate Valid()
      reads this
    {
      Distinct(members)
    }

    /** A registry for a type nothing has registered yet is empty. */
    constructor ()
      ensures Valid() && members == []
    {
      members := [];
    }

    /**
     * `collection_mgr<T>::add`: appends a new element at the end; a null
     * pointer or an element already registered leaves the registry as it is.
     */
    method Add(p: Ptr<T>)
      requires Valid()
      modifies this
      ensures Valid()
      ensures members == if p.Addr? then Inserted(old(members), p.target) else old(members)
      ensures |members| == if p.Addr? && p.target !in old(members) then |old(members)| + 1 else |old(members)|
    {
      if p.Addr? && p.target !in members {
        DistinctSnoc(members, p.target);
        members := members + [p.target];
      }
    }

    /**
     * `collection_mgr<T>::remove`: deregisters the element; a null pointer or
     * an element that is not registered leaves the registry as it is.
     */
    method Remove(p: Ptr<T>)
      requires Valid()
      modifies this
      ensures Valid()
      ensures members == if p.Addr? then Without(old(members), {p.target}) else old(members)
      ensures |members| == if p.Addr? && p.target in old(members) then |old(members)| - 1 else |old(members)|
    {
      if p.Addr? {
        WithoutDistinct(members, {p.target});
        if p.target in members {
          WithoutCount(members, {p.target});
        } else {
          WithoutAbsent(members, {p.target});
        }
        members := Without(members, {p.target});
      }
    }

    /** Iterating a view and counting the elements it yields, as the tests do. */
    method Count() returns (count: nat)
      ensures count == |members|
    {
      count := 0;
      for i := 0 to |members|
        invariant count == i
      {
        count := count + 1;
      }
    }

    /**
     * Iterating the mutable view and copying every element it yields into a
     * list of its own: the references come out in insertion order.
     */
    method Snapshot() returns (list: seq<T>)
      ensures list == members
    {
      list := [];
      for i := 0 to |members|
        invariant list == members[..i]
      {
        list := list + [members[i]];
      }
    }
  }
}
