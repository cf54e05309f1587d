/**
 * The `collection<T>::item` hook, shown on the hooked test type
 * `managed_data`: constructing an object registers it, destroying it
 * deregisters it. Lifetimes are explicit events here: `Construct` and
 * `Destroy` for one object, `ConstructMany` and `DestroyMany` for a built-in
 * array (static or automatic storage), and `Shared` for an object under
 * shared ownership, which is destroyed when its last owner lets go.
 */
module Hook {
  import opened Membership
  import opened Collection

  /** `managed_data`: two integer fields, both zero after default construction. */
  class ManagedData {
    var id: int
    var value: int

    constructor ()
      ensures id == 0 && value == 0
    {
      id, value := 0, 0;
    }
  }

  /** A read-only copy of what one element exposes, as the read-only view yields it. */
  datatype Fields = Fields(id: int, value: int)

  /** The read-only view: the fields of every registered object, in registry order. */
  function ConstView(items: seq<ManagedData>): (r: seq<Fields>)
    reads items
    ensures |r| == |items|
    ensures forall i :: 0 <= i < |items| ==> r[i] == Fields(items[i].id, items[i].value)
  {
    if items == [] then [] else [Fields(items[0].id, items[0].value)] + ConstView(items[1..])
  }

  /** Default construction of a hooked object: a fresh object, registered at the end. */
  method Construct(reg: Registry<ManagedData>) returns (m: ManagedData)
    requires reg.Valid()
    modifies reg
    ensures fresh(m) && m.id == 0 && m.value == 0
    ensures m !in old(reg.members)
    ensures reg.Valid() && reg.members == old(reg.members) + [m]
  {
    m := new ManagedData();
    reg.Add(Addr(m));
  }

  /** Destruction of a hooked object: deregisters it, and does nothing if it was removed already. */
  method Destroy(reg: Registry<ManagedData>, m: ManagedData)
    requires reg.Valid()
    modifies reg
    ensures reg.Valid() && reg.members == Without(old(reg.members), {m})
    ensures |reg.members| == if m in old(reg.members) then |old(reg.members)| - 1 else |old(reg.members)|
  {
    reg.Remove(Addr(m));
  }

  /** Construction of an array of `n` hooked objects: elements are built, and registered, in index order. */
  method ConstructMany(reg: Registry<ManagedData>, n: nat) returns (items: seq<ManagedData>)
    requires reg.Valid()
    modifies reg
    ensures |items| == n && Distinct(items)
    ensures forall i :: 0 <= i < n ==> fresh(items[i]) && items[i].id == 0 && items[i].value == 0
    ensures forall m :: m in items ==> m !in old(reg.members)
    ensures reg.Valid() && reg.members == old(reg.members) + items
  {
    items := [];
    for i := 0 to n
      invariant |items| == i && Distinct(items)
      invariant forall k :: 0 <= k < i ==> fresh(items[k]) && items[k].id == 0 && items[k].value == 0
      invariant reg.Valid() && reg.members == old(reg.members) + items
    {
      var m := Construct(reg);
      DistinctSnoc(items, m);
      items := items + [m];
    }
  }

  /**
   * Destruction of an array of hooked objects: elements are destroyed in
   * reverse index order, and each one is deregistered if it still is registered.
   */
  method DestroyMany(reg: Registry<ManagedData>, items: seq<ManagedData>)
    requires reg.Valid()
    modifies reg
    ensures reg.Valid() && reg.members == Without(old(reg.members), Elements(items))
  {
    var i := |items|;
    WithoutAbsent(reg.members, {});
    assert Elements(items[i..]) == {};
    while i > 0
      invariant 0 <= i <= |items|
      invariant reg.Valid() && reg.members == Without(old(reg.members), Elements(items[i..]))
    {
      i := i - 1;
      Destroy(reg, items[i]);
      WithoutTwice(old(reg.members), Elements(items[i + 1..]), {items[i]});
      assert Elements(items[i + 1..]) + {items[i]} == Elements(items[i..]) by {
        assert items[i..] == [items[i]] + items[i + 1..];
      }
    }
  }

  /**
   * The control block of a `std::shared_ptr<managed_data>` made by
   * `std::make_shared`: the object it owns and how many owners are left.
   */
  class Shared {
    const obj: ManagedData
    var owners: nat

    constructor (m: ManagedData)
      ensures obj == m && owners == 1
    {
      obj := m;
      owners := 1;
    }

    /**
     * One owner lets go (reset, reassignment or scope exit): only the last
     * owner's release destroys the object and so deregisters it.
     */
    method Release(reg: Registry<ManagedData>)
      requires owners > 0 && reg.Valid()
      modifies this, reg
      ensures owners == old(owners) - 1
      ensures reg.Valid()
      ensures reg.members == if owners == 0 then Without(old(reg.members), {obj}) else old(reg.members)
      ensures |reg.members| == if owners == 0 && obj in old(reg.members) then |old(reg.members)| - 1 else |old(reg.members)|
    {
      owners := owners - 1;
      if owners == 0 {
        Destroy(reg, obj);
      }
    }
  }

  /** `std::make_shared<managed_data>()`: a hooked object under one owner. */
  method MakeShared(reg: Registry<ManagedData>) returns (s: Shared)
    requires reg.Valid()
    modifies reg
    ensures fresh(s) && fresh(s.obj) && s.owners == 1
    ensures s.obj !in old(reg.members)
    ensures s.obj.id == 0 && s.obj.value == 0
    ensures reg.Valid() && reg.members == old(reg.members) + [s.obj]
  {
    var m := Construct(reg);
    s := new Shared(m);
  }
}
