/**
 * Pure facts about the insertion-ordered membership list that backs a
 * registry: it never holds an element twice, adding appends at the end,
 * and removing an element filters it out while keeping the order of the rest.
 */
module Membership {

  /** No element occurs twice: the registry's invariant (identity is by address). */
  ghost predicate Distinct<T>(s: seq<T>)
  {
    s == [] || (s[0] !in s[1..] && Distinct(s[1..]))
  }

  /** The set of elements a list holds. */
  function Elements<T>(s: seq<T>): set<T>
  {
    set x | x in s
  }

  /** The list after registering `x`: appended at the end unless already present. */
  function Inserted<T(==)>(s: seq<T>, x: T): (r: seq<T>)
    ensures x in r && |r| == if x in s then |s| else |s| + 1
    ensures r[..|s|] == s
  {
    if x in s then s else s + [x]
  }

  /**
   * The list with every element of `gone` deregistered; the survivors keep
   * their relative order.
   */
  function Without<T(==)>(s: seq<T>, gone: set<T>): seq<T>
  {
    if s == [] then []
    else if s[0] in gone then Without(s[1..], gone)
    else [s[0]] + Without(s[1..], gone)
  }

  /** Appending a new element keeps a duplicate-free list duplicate-free. */
  lemma {:induction false} DistinctSnoc<T>(s: seq<T>, x: T)
    requires Distinct(s) && x !in s
    ensures Distinct(s + [x])
  {
    if s != [] {
      assert (s + [x])[1..] == s[1..] + [x];
      assert s[0] in s;
      DistinctSnoc(s[1..], x);
    }
  }

  /** Registering keeps the list duplicate-free. */
  lemma InsertedDistinct<T>(s: seq<T>, x: T)
    requires Distinct(s)
    ensures Distinct(Inserted(s, x))
  {
    if x !in s {
      DistinctSnoc(s, x);
    }
  }

  /** An element survives the removal exactly when it was a member and is not among those removed. */
  lemma {:induction false} WithoutMember<T>(s: seq<T>, gone: set<T>, y: T)
    ensures y in Without(s, gone) <==> y in s && y !in gone
  {
    if s != [] {
      WithoutMember(s[1..], gone, y);
      assert s == [s[0]] + s[1..];
    }
  }

  /** Deregistration works element by element across a concatenation. */
  lemma {:induction false} WithoutAppend<T>(a: seq<T>, b: seq<T>, gone: set<T>)
    ensures Without(a + b, gone) == Without(a, gone) + Without(b, gone)
  {
    if a == [] {
      assert a + b == b;
    } else {
      assert (a + b)[0] == a[0];
      assert (a + b)[1..] == a[1..] + b;
      WithoutAppend(a[1..], b, gone);
    }
  }

  /** Two removals in a row are one removal of both sets; in particular removing twice is removing once. */
  lemma {:induction false} WithoutTwice<T>(s: seq<T>, a: set<T>, b: set<T>)
    ensures Without(Without(s, a), b) == Without(s, a + b)
  {
    if s != [] {
      WithoutTwice(s[1..], a, b);
      if s[0] !in a {
        assert Without(s, a) == [s[0]] + Without(s[1..], a);
        assert ([s[0]] + Without(s[1..], a))[1..] == Without(s[1..], a);
      }
    }
  }

  /** Deregistering the element appended last, which occurs nowhere before it, restores the list before the append. */
  lemma WithoutLast<T>(front: seq<T>, x: T)
    requires x !in front
    ensures Without(front + [x], {x}) == front
  {
    WithoutAppend(front, [x], {x});
    WithoutAbsent(front, {x});
  }

  /** Deregistering an element that occurs exactly once removes just that occurrence. */
  lemma WithoutOne<T>(front: seq<T>, x: T, back: seq<T>)
    requires x !in front && x !in back
    ensures Without(front + [x] + back, {x}) == front + back
  {
    WithoutAppend(front + [x], back, {x});
    WithoutLast(front, x);
    WithoutAbsent(back, {x});
  }

  /** Removing elements that are not registered changes nothing. */
  lemma {:induction false} WithoutAbsent<T>(s: seq<T>, gone: set<T>)
    requires forall y :: y in gone ==> y !in s
    ensures Without(s, gone) == s
  {
    if s != [] {
      assert s[0] in s;
      WithoutAbsent(s[1..], gone);
      assert [s[0]] + s[1..] == s;
    }
  }

  /** Removing a superset of the members empties the list. */
  lemma {:induction false} WithoutAll<T>(s: seq<T>, gone: set<T>)
    requires forall y :: y in s ==> y in gone
    ensures Without(s, gone) == []
  {
    if s != [] {
      assert s[0] in s;
      assert forall y :: y in s[1..] ==> y in s;
      WithoutAll(s[1..], gone);
    }
  }

  /** Removal keeps a duplicate-free list duplicate-free. */
  lemma {:induction false} WithoutDistinct<T>(s: seq<T>, gone: set<T>)
    requires Distinct(s)
    ensures Distinct(Without(s, gone))
  {
    if s != [] {
      WithoutDistinct(s[1..], gone);
      if s[0] !in gone {
        var t := Without(s[1..], gone);
        WithoutMember(s[1..], gone, s[0]);
        assert ([s[0]] + t)[1..] == t;
      }
    }
  }

  /** Whether a non-member is named in `gone` does not matter. */
  lemma {:induction false} WithoutIgnoresAbsent<T>(s: seq<T>, gone: set<T>, x: T)
    requires x !in s
    ensures Without(s, gone) == Without(s, gone - {x})
  {
    if s != [] {
      assert s[0] in s;
      assert x !in s[1..] by {
        assert forall y :: y in s[1..] ==> y in s;
      }
      WithoutIgnoresAbsent(s[1..], gone, x);
    }
  }

  /** In a duplicate-free list, removing the set of elements `gone` (all of them members) shortens it by exactly |gone|. */
  lemma {:induction false} WithoutCount<T>(s: seq<T>, gone: set<T>)
    requires Distinct(s)
    requires forall y :: y in gone ==> y in s
    ensures |Without(s, gone)| == |s| - |gone|
  {
    if s == [] {
      assert gone == {};
    } else {
      var rest := gone - {s[0]};
      assert s == [s[0]] + s[1..];
      assert forall y :: y in rest ==> y in s[1..];
      WithoutCount(s[1..], rest);
      WithoutIgnoresAbsent(s[1..], gone, s[0]);
      if s[0] in gone {
        assert gone == rest + {s[0]};
      } else {
        assert rest == gone;
      }
    }
  }

  /** Removing the front element of a duplicate-free list leaves exactly its tail. */
  lemma WithoutFront<T>(s: seq<T>)
    requires Distinct(s) && s != []
    ensures Without(s, {s[0]}) == s[1..]
  {
    WithoutAbsent(s[1..], {s[0]});
  }

  /** Add/remove symmetry: registering a new element and then deregistering it restores the list. */
  lemma InsertThenRemove<T>(s: seq<T>, x: T)
    requires x !in s
    ensures Without(Inserted(s, x), {x}) == s
  {
    WithoutLast(s, x);
  }
}
