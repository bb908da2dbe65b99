/**
 * The reference-counted owning pointer of mafia/include/smart_ptr.hpp.
 *
 * A SmartPtr holds the managed address `ptr` and a pointer `cnt` to a heap cell with the
 * shared count. The cell is a Counter object, so that all pointers that share it see each
 * update in place. Each Counter carries two ghost fields: `owners`, the SmartPtr objects that
 * currently hold it, and `managed`, the address they all manage. The heap-cell invariant is
 * `count == |owners|`: the stored count is exactly the number of holders.
 */
module SmartPointer {

  /** The shared count cell (`unsigned *cnt`). */
  class Counter {
    var count: nat
    ghost var owners: set<SmartPtr>
    ghost var managed: object?

    /** The count is the number of holders, and every holder points back here and at `managed`. */
    ghost predicate Valid()
      reads this, owners
    {
      && count == |owners|
      && forall o :: o in owners ==> o.cnt == this && o.ptr == managed
    }

    /** One holder, `from`, hands this cell over to `to`, which already points here: the count is unchanged. */
    method Handover(from: SmartPtr, to: SmartPtr)
      requires from in owners && to !in owners && count == |owners|
      requires forall o :: o in owners && o != from ==> o.cnt == this && o.ptr == managed
      requires to.cnt == this && to.ptr == managed
      modifies this
      ensures owners == old(owners) - {from} + {to} && count == old(count) && managed == old(managed)
      ensures Valid()
    {
      ReplaceCard(owners, from, to);
      owners := owners - {from} + {to};
    }

    /** `new unsigned(1)`, held by nobody yet. */
    constructor (p: object?)
      ensures count == 1 && owners == {} && managed == p
    {
      count := 1;
      owners := {};
      managed := p;
    }
  }

  /** A set that holds `x` has at least one element. */
  lemma MemberCard<T>(s: set<T>, x: T)
    requires x in s
    ensures |s| >= 1
  {
    assert |s - {x}| + 1 == |s|;
  }

  /** A set that holds two different elements has at least two. */
  lemma TwoMembersCard<T>(s: set<T>, x: T, y: T)
    requires x in s && y in s && x != y
    ensures |s| >= 2
  {
    MemberCard(s - {x}, y);
    assert |s - {x}| + 1 == |s|;
  }

  /** Replacing a member by a non-member keeps the size. */
  lemma ReplaceCard<T>(s: set<T>, x: T, y: T)
    requires x in s && y !in s
    ensures |s - {x} + {y}| == |s|
  {
    assert |s - {x}| + 1 == |s|;
    assert y !in s - {x};
  }

  class SmartPtr {
    var ptr: object?
    var cnt: Counter?

    /** A held count cell lists this pointer among its holders; a pointer without a cell manages nothing. */
    ghost predicate Valid()
      reads this, cnt, if cnt == null then {} else cnt.owners
    {
      && (cnt != null ==> this in cnt.owners && cnt.Valid())
      && (cnt == null ==> ptr == null)
    }

    /** `use_count()`: the shared count, 0 for a pointer that was moved from. */
    function UseCount(): (n: nat)
      reads this, cnt, if cnt == null then {} else cnt.owners
      requires Valid()
      ensures n == 0 <==> cnt == null
    {
      if cnt == null then 0
      else
        MemberCard(cnt.owners, this);
        cnt.count
    }

    /** `get()`: the managed address. */
    function Get(): object?
      reads this
    {
      ptr
    }

    /** `operator==`: two pointers are equal when they manage the same address, whatever their counts. */
    function Equals(o: SmartPtr): (eq: bool)
      reads this, o
      ensures eq <==> Get() == o.Get()
    {
      ptr == o.ptr
    }

    /** The default constructor: an empty pointer that still owns a fresh count of 1. */
    constructor Empty()
      ensures Valid() && fresh(cnt)
      ensures ptr == null && UseCount() == 1
    {
      ptr := null;
      var c := new Counter(null);
      cnt := c;
      new;
      c.owners := {this};
    }

    /** `explicit smart_ptr(T *p)` (and `make_smart`): sole owner of `p` with a fresh count of 1. */
    constructor FromRaw(p: object?)
      ensures Valid() && fresh(cnt)
      ensures ptr == p && UseCount() == 1
    {
      ptr := p;
      var c := new Counter(p);
      cnt := c;
      new;
      c.owners := {this};
    }

    /** Copy construction shares the address and the count cell and adds one to the count. */
    constructor Copy(o: SmartPtr)
      requires o.Valid() && o.cnt != null
      modifies o.cnt
      ensures Valid() && o.Valid()
      ensures ptr == o.ptr && cnt == o.cnt
      ensures cnt.count == old(o.cnt.count) + 1
      ensures cnt.owners == old(o.cnt.owners) + {this}
    {
      ptr := null;
      cnt := null;
      new;
      Join(o);
    }

    /** Move construction takes the address and the cell unchanged and leaves the source empty. */
    constructor Move(o: SmartPtr)
      requires o.Valid()
      modifies o, o.cnt
      ensures Valid() && o.Valid()
      ensures ptr == old(o.ptr) && cnt == old(o.cnt)
      ensures o.ptr == null && o.cnt == null && o.UseCount() == 0
      ensures cnt != null ==> cnt.count == old(o.cnt.count) && cnt.owners == old(o.cnt.owners) - {o} + {this}
    {
      ptr := null;
      cnt := null;
      new;
      TakeFrom(o);
    }

    /**
     * `release()` (also the destructor): give up this pointer's share. The count drops by one,
     * and the object and the cell are deleted exactly when it reaches zero; this pointer ends
     * empty. On a pointer that was moved from it does nothing.
     */
    method Release() returns (deleted: bool)
      requires Valid()
      modifies this, cnt
      ensures Valid() && ptr == null && cnt == null
      ensures deleted <==> old(cnt) != null && old(cnt.count) == 1
      ensures old(cnt) != null ==> old(cnt).count == old(cnt.count) - 1 && old(cnt).owners == old(cnt.owners) - {this}
      ensures old(cnt) != null ==> old(cnt).Valid()
    {
      deleted := false;
      if cnt == null {
        return;
      }
      MemberCard(cnt.owners, this);
      cnt.count := cnt.count - 1;
      cnt.owners := cnt.owners - {this};
      deleted := cnt.count == 0;
      ptr := null;
      cnt := null;
    }

    /** Copy assignment: a no-op on itself; otherwise release the old share and join `o`'s. */
    method CopyAssign(o: SmartPtr)
      requires Valid() && o.Valid()
      requires this != o ==> o.cnt != null
      modifies this, cnt, o.cnt
      ensures this == o ==> ptr == old(ptr) && cnt == old(cnt) && (cnt != null ==> cnt.count == old(cnt.count))
      ensures this != o ==> ptr == old(o.ptr) && cnt == old(o.cnt) && cnt.owners == old(o.cnt.owners) + {this}
      ensures this != o && old(cnt) == old(o.cnt) ==> cnt.count == old(cnt.count)
      ensures this != o && old(cnt) != old(o.cnt) ==> cnt.count == old(o.cnt.count) + 1
      ensures this != o && old(cnt) != old(o.cnt) && old(cnt) != null ==>
                old(cnt).count == old(cnt.count) - 1 && old(cnt).owners == old(cnt.owners) - {this} && old(cnt).Valid()
      ensures Valid() && o.Valid()
    {
      if this != o {
        var shared := cnt == o.cnt;
        if shared {
          TwoMembersCard(cnt.owners, this, o);
        }
        var _ := Release();
        Join(o);
      }
    }

    /** The second half of a copy: an empty pointer joins `o`'s cell, whose count grows by one. */
    method Join(o: SmartPtr)
      requires this != o && cnt == null && ptr == null && o.Valid() && o.cnt != null
      modifies this, o.cnt
      ensures ptr == o.ptr && cnt == o.cnt
      ensures cnt.count == old(o.cnt.count) + 1 && cnt.owners == old(o.cnt.owners) + {this}
      ensures Valid() && o.Valid()
    {
      ptr := o.ptr;
      cnt := o.cnt;
      assert this !in cnt.owners;
      cnt.count := cnt.count + 1;
      cnt.owners := cnt.owners + {this};
    }

    /** Move assignment: a no-op on itself; otherwise release the old share and take over `o`'s, leaving `o` empty. */
    method MoveAssign(o: SmartPtr)
      requires Valid() && o.Valid()
      modifies this, cnt, o, o.cnt
      ensures this == o ==> ptr == old(ptr) && cnt == old(cnt) && (cnt != null ==> cnt.count == old(cnt.count))
      ensures this != o ==> ptr == old(o.ptr) && cnt == old(o.cnt) && o.ptr == null && o.cnt == null
      ensures this != o && old(cnt) == old(o.cnt) && cnt != null ==> cnt.count == old(cnt.count) - 1
      ensures this != o && old(cnt) != old(o.cnt) && cnt != null ==> cnt.count == old(o.cnt.count)
      ensures this != o && cnt != null ==> cnt.owners == old(o.cnt.owners) - {o} + {this}
      ensures this != o && old(cnt) != old(o.cnt) && old(cnt) != null ==>
                old(cnt).count == old(cnt.count) - 1 && old(cnt).owners == old(cnt.owners) - {this} && old(cnt).Valid()
      ensures Valid() && o.Valid()
    {
      if this != o {
        if cnt != null && cnt == o.cnt {
          TwoMembersCard(cnt.owners, this, o);
        }
        var _ := Release();
        TakeFrom(o);
      }
    }

    /** The second half of a move: an empty pointer takes over `o`'s address and cell, and `o` ends empty. */
    method TakeFrom(o: SmartPtr)
      requires this != o && cnt == null && ptr == null && o.Valid()
      modifies this, o, o.cnt
      ensures ptr == old(o.ptr) && cnt == old(o.cnt) && o.ptr == null && o.cnt == null
      ensures cnt != null ==> cnt.count == old(o.cnt.count) && cnt.owners == old(o.cnt.owners) - {o} + {this}
      ensures Valid() && o.Valid()
    {
      ptr := o.ptr;
      cnt := o.cnt;
      if cnt != null {
        assert this !in cnt.owners;
        cnt.owners := cnt.owners - {o} + {this};
      }
      o.ptr := null;
      o.cnt := null;
    }

    /** `reset(p)`: release the old share, then own `p` alone with a fresh count of 1. */
    method Reset(p: object?)
      requires Valid()
      modifies this, cnt
      ensures Valid() && fresh(cnt)
      ensures Get() == p && UseCount() == 1
      ensures old(cnt) != null ==> old(cnt).count == old(cnt.count) - 1 && old(cnt).Valid()
    {
      var _ := Release();
      ptr := p;
      var c := new Counter(p);
      cnt := c;
      c.owners := {this};
    }

    /** `swap(o)`: exchange addresses and cells, hence also the two use counts. */
    method Swap(o: SmartPtr)
      requires Valid() && o.Valid()
      modifies this, o, cnt, o.cnt
      ensures ptr == old(o.ptr) && o.ptr == old(ptr)
      ensures cnt == old(o.cnt) && o.cnt == old(cnt)
      ensures Valid() && o.Valid()
      ensures UseCount() == old(o.UseCount()) && o.UseCount() == old(UseCount())
    {
      if this != o {
        var c1, c2 := cnt, o.cnt;
        if c1 == c2 {
          ptr, o.ptr := o.ptr, ptr;
        } else {
          SwapCells(o);
        }
      }
    }

    /** The part of `swap` where the two pointers hold different cells: each cell changes holder. */
    method SwapCells(o: SmartPtr)
      requires Valid() && o.Valid() && this != o && cnt != o.cnt
      modifies this, o, cnt, o.cnt
      ensures ptr == old(o.ptr) && o.ptr == old(ptr)
      ensures cnt == old(o.cnt) && o.cnt == old(cnt)
      ensures cnt != null ==> cnt.count == old(o.cnt.count) && cnt.owners == old(o.cnt.owners) - {o} + {this}
      ensures o.cnt != null ==> o.cnt.count == old(cnt.count) && o.cnt.owners == old(cnt.owners) - {this} + {o}
      ensures Valid() && o.Valid()
    {
      var c1, c2 := cnt, o.cnt;
      ptr, o.ptr := o.ptr, ptr;
      cnt, o.cnt := c2, c1;
      if c1 != null {
        assert o !in c1.owners;
        c1.Handover(this, o);
      }
      if c2 != null {
        assert this !in c2.owners;
        c2.Handover(o, this);
      }
    }
  }
}
