/** `detail::Wrapper<T>`, the reference-counting smart pointer of the OpenCL C++ bindings, against a driver
    that counts references. */
module ReferenceCounting {

  import opened HandleAccounts

  /** The driver counts every handle of this kind. */
  const All: Handle -> bool := h => true

  /** The driver's side of one handle type, with the ledger that says who is entitled to each reference:
      the wrappers alive, and the raw references the program owns outside any wrapper. A retain or release
      of a handle that has no references left is refused and counted in `misuse`. */
  class Runtime {
    var refs: multiset<Handle>
    var misuse: nat
    ghost var live: set<Wrapper>
    ghost var owned: multiset<Handle>

    constructor ()
      ensures Valid() && refs == multiset{} && misuse == 0 && live == {} && owned == multiset{}
    {
      refs := multiset{};
      misuse := 0;
      live := {};
      owned := multiset{};
    }

    ghost function Held(): map<Wrapper, Handle>
      reads this, live
    {
      map w | w in live :: w.object_
    }

    /** Each handle's count, plus what is still missing from it, equals its entitlements. */
    ghost predicate Balanced(deficit: multiset<Handle>)
      reads this, live
    {
      && NULL !in refs && NULL !in owned && NULL !in deficit
      && Fair(All, refs, deficit, Held(), owned)
    }

    /** Conservation: each handle's count is the live wrappers holding it plus the raw references owned. */
    ghost predicate Valid()
      reads this, live
    {
      Balanced(multiset{})
    }

    method Retain(h: Handle) returns (err: int)
      modifies this`refs, this`misuse
      ensures old(refs)[h] > 0 ==> err == SUCCESS && refs == old(refs) + multiset{h} && misuse == old(misuse)
      ensures old(refs)[h] == 0 ==> err == INVALID_HANDLE && refs == old(refs) && misuse == old(misuse) + 1
    {
      if h in refs {
        refs := refs + multiset{h};
        err := SUCCESS;
      } else {
        misuse := misuse + 1;
        err := INVALID_HANDLE;
      }
    }

    method Release(h: Handle) returns (err: int)
      modifies this`refs, this`misuse
      ensures old(refs)[h] > 0 ==> err == SUCCESS && refs == old(refs) - multiset{h} && misuse == old(misuse)
      ensures old(refs)[h] == 0 ==> err == INVALID_HANDLE && refs == old(refs) && misuse == old(misuse) + 1
    {
      if h in refs {
        refs := refs - multiset{h};
        err := SUCCESS;
      } else {
        misuse := misuse + 1;
        err := INVALID_HANDLE;
      }
    }

    /** The program obtains a raw reference, from a clCreate call or by a clRetain of its own. */
    method Acquire(h: Handle)
      requires Valid() && h != NULL
      modifies this`refs, this`owned
      ensures Valid() && owned == old(owned) + multiset{h} && refs == old(refs) + multiset{h}
    {
      refs := refs + multiset{h};
      owned := owned + multiset{h};
      assert Held() == old(Held());
      FairShift(All, old(refs), multiset{}, Held(), old(owned), refs, multiset{}, owned);
    }

    /** The program releases a raw reference it owns. */
    method Surrender(h: Handle)
      requires Valid() && owned[h] > 0
      modifies this`refs, this`misuse, this`owned
      ensures Valid() && owned == old(owned) - multiset{h} && misuse == old(misuse)
    {
      OwnerKeepsAlive(All, refs, Held(), owned, h);
      FairSurrender(All, refs, Held(), owned, h);
      var _ := Release(h);
      owned := owned - multiset{h};
      assert Held() == old(Held());
    }

    /** The program gives up a raw reference in favour of a wrapper that holds the handle uncounted. */
    ghost method HandOver(h: Handle, deficit: multiset<Handle>)
      requires Balanced(deficit)
      requires h != NULL ==> owned[h] > 0 && deficit[h] > 0
      modifies this`owned
      ensures owned == old(owned) - Worth(All, h)
      ensures Balanced(deficit - Worth(All, h))
    {
      owned := owned - Worth(All, h);
      assert Held() == old(Held());
      FairShift(All, refs, deficit, Held(), old(owned), refs, deficit - Worth(All, h), owned);
    }
  }

  /** One wrapper object. Assignments keep the source's order: release first, retain afterwards. */
  class Wrapper {
    var object_: Handle

    /** `if (object_ != NULL) { release(); }` */
    method ReleaseObject(rt: Runtime)
      requires object_ != NULL ==> rt.refs[object_] > 0
      modifies rt`refs, rt`misuse
      ensures rt.refs == old(rt.refs) - Worth(All, object_) && rt.misuse == old(rt.misuse)
    {
      if object_ != NULL {
        var _ := rt.Release(object_);
      }
    }

    /** `if (object_ != NULL) { retain(); }` */
    method RetainObject(rt: Runtime) returns (err: int)
      requires object_ != NULL ==> rt.refs[object_] > 0
      modifies rt`refs, rt`misuse
      ensures rt.refs == old(rt.refs) + Worth(All, object_) && rt.misuse == old(rt.misuse) && err == SUCCESS
    {
      err := SUCCESS;
      if object_ != NULL {
        err := rt.Retain(object_);
      }
    }

    /** `Wrapper()`, and `Wrapper(const cl_type&)`, which stores the raw handle and retains nothing:
        the count lacks one reference until the caller hands one over or `retain` is called. */
    constructor FromHandle(rt: Runtime, obj: Handle, ghost deficit: multiset<Handle>)
      requires rt.Balanced(deficit)
      modifies rt`live
      ensures rt.Balanced(deficit + Worth(All, obj))
      ensures rt.live == old(rt.live) + {this} && this !in old(rt.live) && object_ == obj
    {
      object_ := obj;
      new;
      rt.live := rt.live + {this};
      assert rt.Held() == old(rt.Held())[this := obj];
      FairJoin(All, rt.refs, deficit, old(rt.Held()), rt.owned, this, obj);
    }

    /** `Wrapper(const Wrapper&)` */
    constructor Copy(rt: Runtime, rhs: Wrapper)
      requires rt.Valid() && rhs in rt.live
      modifies rt`live, rt`refs, rt`misuse
      ensures rt.Valid() && rt.misuse == old(rt.misuse)
      ensures rt.live == old(rt.live) + {this} && this !in old(rt.live) && object_ == rhs.object_
    {
      object_ := rhs.object_;
      new;
      ghost var held := old(rt.Held());
      HolderAlive(rt, rhs);
      var _ := RetainObject(rt);
      rt.live := rt.live + {this};
      assert rt.Held() == held[this := object_];
      FairCopy(All, old(rt.refs), held, rt.owned, this, object_);
    }

    /** `Wrapper(Wrapper&&)` */
    constructor Move(rt: Runtime, rhs: Wrapper)
      requires rt.Valid() && rhs in rt.live
      modifies rt`live, rhs
      ensures rt.Valid()
      ensures rt.live == old(rt.live) + {this} && this !in old(rt.live)
      ensures object_ == old(rhs.object_) && rhs.object_ == NULL
    {
      object_ := rhs.object_;
      new;
      rhs.object_ := NULL;
      rt.live := rt.live + {this};
      ghost var held := old(rt.Held());
      ghost var taken: map<Wrapper, Handle> := held[this := object_];
      FairJoin(All, rt.refs, multiset{}, held, rt.owned, this, object_);
      assert multiset{} + Worth(All, object_) == Worth(All, object_);
      FairYield(All, rt.refs, taken, rt.owned, rhs);
      assert rt.Held() == taken[rhs := NULL];
    }

    /** `~Wrapper()` */
    method Destroy(rt: Runtime)
      requires rt.Valid() && this in rt.live
      modifies rt`live, rt`refs, rt`misuse
      ensures rt.Valid() && rt.misuse == old(rt.misuse)
      ensures rt.live == old(rt.live) - {this}
    {
      ghost var held := old(rt.Held());
      HolderAlive(rt, this);
      ReleaseObject(rt);
      rt.live := rt.live - {this};
      assert rt.Held() == held - {this};
      FairLeave(All, old(rt.refs), held, rt.owned, this, rt.refs);
    }

    /** What the three assignments begin with: release the old handle, then store the new one. */
    method Overwrite(rt: Runtime, obj: Handle)
      requires rt.Valid() && this in rt.live
      modifies this, rt`refs, rt`misuse
      ensures rt.Balanced(Worth(All, obj)) && rt.misuse == old(rt.misuse)
      ensures object_ == obj
      ensures rt.refs == old(rt.refs) - Worth(All, old(object_))
    {
      ghost var held := old(rt.Held());
      HolderAlive(rt, this);
      ReleaseObject(rt);
      object_ := obj;
      assert rt.Held() == held[this := object_];
      FairOverwrite(All, old(rt.refs), held, rt.owned, this, obj, rt.refs);
    }

    /** What copy assignment ends with: the retain pays for the handle just stored. */
    method RetainStored(rt: Runtime)
      requires rt.Balanced(Worth(All, object_)) && (object_ != NULL ==> rt.refs[object_] > 0)
      modifies rt`refs, rt`misuse
      ensures rt.Valid() && rt.misuse == old(rt.misuse)
    {
      var _ := RetainObject(rt);
      assert rt.Held() == old(rt.Held());
      FairShift(All, old(rt.refs), Worth(All, object_), rt.Held(), rt.owned, rt.refs, multiset{}, rt.owned);
    }

    /** `operator=(const Wrapper&)`: even when the two wrappers hold the same handle, the release that comes
        first leaves it a reference. */
    method CopyAssign(rt: Runtime, rhs: Wrapper)
      requires rt.Valid() && this in rt.live && rhs in rt.live
      modifies this, rt`refs, rt`misuse
      ensures rt.Valid() && rt.misuse == old(rt.misuse)
      ensures object_ == old(rhs.object_) == rhs.object_
    {
      if this != rhs {
        HoldersAlive(rt, this, rhs);
        Overwrite(rt, rhs.object_);
        RetainStored(rt);
      }
    }

    /** A wrapper whose handle another one has just taken over is emptied. */
    method Vacate(rt: Runtime)
      requires rt.Balanced(Worth(All, object_)) && this in rt.live
      modifies this
      ensures rt.Valid() && object_ == NULL
    {
      FairYield(All, rt.refs, rt.Held(), rt.owned, this);
      object_ := NULL;
      assert rt.Held() == old(rt.Held())[this := NULL];
    }

    /** `operator=(Wrapper&&)` */
    method MoveAssign(rt: Runtime, rhs: Wrapper)
      requires rt.Valid() && this in rt.live && rhs in rt.live
      modifies this, rhs, rt`refs, rt`misuse
      ensures rt.Valid() && rt.misuse == old(rt.misuse)
      ensures object_ == old(rhs.object_)
      ensures rhs != this ==> rhs.object_ == NULL
    {
      if this != rhs {
        Overwrite(rt, rhs.object_);
        rhs.Vacate(rt);
      }
    }

    /** `operator=(const cl_type&)`: releases, then stores the raw handle without retaining it. */
    method RawAssign(rt: Runtime, obj: Handle)
      requires rt.Valid() && this in rt.live
      modifies this, rt`refs, rt`misuse
      ensures rt.Balanced(Worth(All, obj)) && rt.misuse == old(rt.misuse)
      ensures object_ == obj
      ensures rt.refs == old(rt.refs) - Worth(All, old(object_))
    {
      Overwrite(rt, obj);
    }
  }

  lemma HolderAlive(rt: Runtime, w: Wrapper)
    requires rt.Valid() && w in rt.live
    ensures w.object_ != NULL ==> rt.refs[w.object_] > 0
  {
    if w.object_ != NULL {
      HolderKeepsAlive(All, rt.refs, rt.Held(), rt.owned, w);
    }
  }

  lemma HoldersAlive(rt: Runtime, v: Wrapper, w: Wrapper)
    requires rt.Valid() && v in rt.live && w in rt.live && v != w
    ensures w.object_ != NULL ==> rt.refs[w.object_] > if v.object_ == w.object_ then 1 else 0
  {
    if w.object_ != NULL {
      HolderKeepsAlive(All, rt.refs, rt.Held(), rt.owned, w);
      assert v in rt.Held();
    }
  }
}
