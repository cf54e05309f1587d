/**
 * The registry tests replayed as verified methods. Each method is one test
 * case; its `requires` is the registry state the earlier test cases leave
 * behind, every `EXPECT_EQ` on a count is an `assert`, and its `ensures` is
 * the state it leaves for the next case. `RunAll` runs the cases in file
 * order, starting from the static initialisation of the global array.
 */
module CollectionTests {
  import opened Membership
  import opened Collection
  import opened Hook

  /** `data`: the same fields as `managed_data`, but without the hook. */
  class Data {
    var id: int
    var value: int

    constructor ()
      ensures id == 0 && value == 0
    {
      id, value := 0, 0;
    }
  }

  /** `global_managed_data_list_count`: hooked objects with static storage. */
  const GlobalCount: nat := 20
  /** `data_count`: the automatic array built by `auto_add` and `auto_remove`. */
  const DataCount: nat := 20

  /** `manual_add`: the `data` registry starts empty; one manual add makes it one, and the object is never removed here. */
  method ManualAdd(dataReg: Registry<Data>) returns (leaked: Data)
    requires dataReg.Valid() && dataReg.members == []
    modifies dataReg
    ensures dataReg.Valid() && dataReg.members == [leaked]
    ensures fresh(leaked) && leaked.id == 1 && leaked.value == 10
  {
    var count := dataReg.Count();
    assert count == 0;

    var item := new Data();
    item.id, item.value := 1, 10;
    dataReg.Add(Addr(item));
    count := dataReg.Count();
    assert count == 1;
    leaked := item;
  }

  /**
   * `manual_remove`: the object leaked by `manual_add` is still registered;
   * removing null changes nothing, removing the new object undoes its add,
   * and removing every element of a snapshot of the mutable view empties the registry.
   */
  method ManualRemove(dataReg: Registry<Data>)
    requires dataReg.Valid() && |dataReg.members| == 1
    modifies dataReg
    ensures dataReg.Valid() && dataReg.members == []
  {
    var count := dataReg.Count();
    assert count == 1;

    var item := new Data();
    item.id, item.value := 2, 20;
    dataReg.Add(Addr(item));
    count := dataReg.Count();
    assert count == 2;

    dataReg.Remove(Null);
    count := dataReg.Count();
    assert count == 2;

    dataReg.Remove(Addr(item));
    count := dataReg.Count();
    assert count == 1;

    var list := dataReg.Snapshot();
    for i := 0 to |list|
      invariant dataReg.Valid() && dataReg.members == list[i..]
    {
      WithoutFront(list[i..]);
      dataReg.Remove(Addr(list[i]));
      assert list[i..][1..] == list[i + 1..];
      // `delete item`: destroying an unhooked object does not touch the registry
    }
    count := dataReg.Count();
    assert count == 0;
  }

  /**
   * `auto_add`: hooked objects in an automatic array, under shared
   * ownership, from `new` and in a local variable each add one member; two
   * manual removes, a `delete` and the release of the only shared owner each
   * take one away; scope exit destroys the rest, including the two array
   * elements already removed by hand, and the registry is back where it started.
   */
  method AutoAdd(reg: Registry<ManagedData>)
    requires reg.Valid() && |reg.members| == GlobalCount
    modifies reg
    ensures reg.Valid() && reg.members == old(reg.members)
  {
    ghost var base := reg.members;
    var items := ConstructMany(reg, DataCount);
    var count := reg.Count();
    assert count == GlobalCount + DataCount;

    var ptr1 := MakeShared(reg);
    count := reg.Count();
    assert count == GlobalCount + DataCount + 1;

    var ptr2 := Construct(reg);
    count := reg.Count();
    assert count == GlobalCount + DataCount + 2;

    var var1 := Construct(reg);
    count := reg.Count();
    assert count == GlobalCount + DataCount + 3;
    AutoAddTrace(base, items, ptr1.obj, ptr2, var1);

    // manual removes through `collection_mgr<managed_data>`
    reg.Remove(Addr(items[0]));
    count := reg.Count();
    assert count == GlobalCount + DataCount + 3 - 1;

    reg.Remove(Addr(items[1]));
    count := reg.Count();
    assert count == GlobalCount + DataCount + 3 - 2;

    // `delete ptr2`
    Destroy(reg, ptr2);
    count := reg.Count();
    assert count == GlobalCount + DataCount + 3 - 3;

    // `ptr1 = nullptr`: the only owner lets go
    ptr1.Release(reg);
    count := reg.Count();
    assert count == GlobalCount + DataCount + 3 - 4;

    // scope exit destroys `var1`, then the array (`ptr1` is empty, `ptr2` dangles)
    Destroy(reg, var1);
    DestroyMany(reg, items);
  }

  /**
   * `auto_remove`: an automatic array, a shared object and a `new` object
   * add 22 members; releasing the only shared owner and deleting the `new`
   * object each remove one, and scope exit removes the array.
   */
  method AutoRemove(reg: Registry<ManagedData>)
    requires reg.Valid() && |reg.members| == GlobalCount
    modifies reg
    ensures reg.Valid() && reg.members == old(reg.members)
  {
    ghost var base := reg.members;
    var items := ConstructMany(reg, DataCount);
    var ptr1 := MakeShared(reg);
    var ptr2 := Construct(reg);
    var count := reg.Count();
    assert count == GlobalCount + DataCount + 2;
    AutoRemoveTrace(base, items, ptr1.obj, ptr2);

    // `ptr1 = nullptr`
    ptr1.Release(reg);
    count := reg.Count();
    assert count == GlobalCount + DataCount + 1;

    // `delete ptr2`
    Destroy(reg, ptr2);
    count := reg.Count();
    assert count == GlobalCount + DataCount;

    // scope exit destroys the array
    DestroyMany(reg, items);
  }

  /**
   * `auto_add_and_set_value`: values written through the mutable view land
   * in the live objects, which stay registered, and the read-only view
   * reads the new values back.
   */
  method AutoAddAndSetValue(reg: Registry<ManagedData>)
    requires reg.Valid()
    requires forall m :: m in reg.members ==> m.id == 0
    modifies reg
    ensures reg.Valid() && reg.members == old(reg.members)
  {
    ghost var base := reg.members;
    var ptr1 := MakeShared(reg);
    ptr1.obj.id, ptr1.obj.value := 1, 10;

    var item1 := Construct(reg);
    item1.id, item1.value := 2, 20;
    AutoAddAndSetValueTrace(base, ptr1.obj, item1);

    // the mutable view: every element is a live object that may be written
    for i := 0 to |reg.members|
      invariant reg.members == base + [ptr1.obj] + [item1]
      invariant forall m :: m in base ==> m.id == 0
      invariant ptr1.owners == 1 && ptr1.obj.id == 1 && item1.id == 2
      invariant ptr1.obj.value == if i > |base| then 20 else 10
      invariant item1.value == if i > |base| + 1 then 40 else 20
    {
      var item := reg.members[i];
      if item.id == 1 {
        assert item.value == 10;
        item.value := 20;
      }
      if item.id == 2 {
        assert item.value == 20;
        item.value := 40;
      }
    }

    // the read-only view sees the new values
    var view := ConstView(reg.members);
    for i := 0 to |view| {
      if view[i].id == 1 {
        assert view[i].value == 20;
      }
      if view[i].id == 2 {
        assert view[i].value == 40;
      }
    }

    // scope exit destroys `item1`, then the last owner of `ptr1` lets go
    Destroy(reg, item1);
    ptr1.Release(reg);
  }

  /**
   * `no_add`: a hundred objects of the unhooked type `data` are constructed;
   * none of them joins the `data` registry, whose count stays as it was, and
   * the `managed_data` registry still holds just the globals.
   */
  method NoAdd(reg: Registry<ManagedData>, dataReg: Registry<Data>) returns (items: seq<Data>, count: nat, dataCount: nat)
    requires reg.Valid() && |reg.members| == GlobalCount
    requires dataReg.Valid()
    ensures |items| == 100 && forall d :: d in items ==> d !in dataReg.members
    ensures count == GlobalCount && dataCount == |dataReg.members|
  {
    items := [];
    for i := 0 to 100
      invariant |items| == i
      invariant forall d :: d in items ==> fresh(d)
    {
      var d := new Data();
      items := items + [d];
    }
    count := reg.Count();
    dataCount := dataReg.Count();
  }

  /**
   * The whole test file: static initialisation registers the global array,
   * the six cases run in file order, and at process exit the global array is
   * destroyed. Returns the `data` count and the `managed_data` count after the
   * last case, and the `managed_data` count after static destruction.
   */
  method RunAll() returns (dataCount: nat, managedCount: nat, atExit: nat)
    ensures dataCount == 0 && managedCount == GlobalCount && atExit == 0
  {
    var dataReg := new Registry<Data>();
    var reg := new Registry<ManagedData>();
    var globals := ConstructMany(reg, GlobalCount);

    var leaked := ManualAdd(dataReg);
    ManualRemove(dataReg);
    AutoAdd(reg);
    AutoRemove(reg);
    AutoAddAndSetValue(reg);
    var unhooked;
    unhooked, managedCount, dataCount := NoAdd(reg, dataReg);

    assert reg.members == globals;
    DestroyMany(reg, globals);
    WithoutAll(globals, Elements(globals));
    atExit := reg.Count();
  }

  /**
   * The registry contents `auto_add` goes through, from the `base` the earlier
   * cases leave: after each single removal one member fewer, and after the
   * array's destruction exactly `base` again.
   */
  lemma AutoAddTrace(base: seq<ManagedData>, items: seq<ManagedData>, o1: ManagedData, p2: ManagedData, v1: ManagedData)
    requires |items| == DataCount && Distinct(items)
    requires forall m :: m in items ==> m !in base
    requires o1 !in base + items
    requires p2 !in base + items + [o1]
    requires v1 !in base + items + [o1] + [p2]
    ensures var s1 := Without(base + items + [o1] + [p2] + [v1], {items[0]});
            var s2 := Without(s1, {items[1]});
            var s3 := Without(s2, {p2});
            var s4 := Without(s3, {o1});
            |s1| == |base| + DataCount + 2 && |s2| == |base| + DataCount + 1 &&
            |s3| == |base| + DataCount && |s4| == |base| + DataCount - 1 &&
            Without(Without(s4, {v1}), Elements(items)) == base
  {
    var rest := items[2..];
    var tail := rest + [o1, p2, v1];
    var s1 := Without(base + items + [o1] + [p2] + [v1], {items[0]});
    assert s1 == base + [items[1]] + tail by {
      assert items == [items[0]] + ([items[1]] + rest);
      assert items[0] !in [items[1]] + rest;
      assert base + items + [o1] + [p2] + [v1] == base + [items[0]] + ([items[1]] + tail);
      WithoutOne(base, items[0], [items[1]] + tail);
    }
    var s2 := Without(s1, {items[1]});
    assert s2 == base + rest + [o1] + [p2] + [v1] by {
      assert items[1] !in rest by {
        assert items[1..][1..] == rest;
      }
      WithoutOne(base, items[1], tail);
    }
    var s3 := Without(s2, {p2});
    assert s3 == base + rest + [o1] + [v1] by {
      WithoutOne(base + rest + [o1], p2, [v1]);
    }
    var s4 := Without(s3, {o1});
    assert s4 == base + rest + [v1] by {
      WithoutOne(base + rest, o1, [v1]);
    }
    WithoutLast(base + rest, v1);
    BackToBase(base, rest, Elements(items));
  }

  /** The registry contents `auto_remove` goes through, back to `base` at scope exit. */
  lemma AutoRemoveTrace(base: seq<ManagedData>, items: seq<ManagedData>, o1: ManagedData, p2: ManagedData)
    requires |items| == DataCount
    requires forall m :: m in items ==> m !in base
    requires o1 !in base + items
    requires p2 !in base + items + [o1]
    ensures var s1 := Without(base + items + [o1] + [p2], {o1});
            var s2 := Without(s1, {p2});
            |s1| == |base| + DataCount + 1 && |s2| == |base| + DataCount &&
            Without(s2, Elements(items)) == base
  {
    var s1 := Without(base + items + [o1] + [p2], {o1});
    assert s1 == base + items + [p2] by {
      WithoutOne(base + items, o1, [p2]);
    }
    WithoutLast(base + items, p2);
    BackToBase(base, items, Elements(items));
  }

  /** The registry contents `auto_add_and_set_value` goes through: its scope exit restores `base`. */
  lemma AutoAddAndSetValueTrace(base: seq<ManagedData>, o1: ManagedData, i1: ManagedData)
    requires o1 !in base
    requires i1 !in base + [o1]
    ensures Without(Without(base + [o1] + [i1], {i1}), {o1}) == base
  {
    WithoutLast(base + [o1], i1);
    WithoutLast(base, o1);
  }

  /** Removing every object created during a scope, and none that predates it, restores the registry. */
  lemma BackToBase(base: seq<ManagedData>, added: seq<ManagedData>, gone: set<ManagedData>)
    requires forall m :: m in gone ==> m !in base
    requires forall m :: m in added ==> m in gone
    ensures Without(base + added, gone) == base
  {
    WithoutAppend(base, added, gone);
    WithoutAbsent(base, gone);
    WithoutAll(added, gone);
  }
}
