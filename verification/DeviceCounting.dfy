/** The device specialisation of the wrapper: devices of platforms older than 1.2 are not reference counted, so
    each wrapper carries a flag that says whether to count. */
module DeviceCounting {

  import opened HandleAccounts

  /** Handles nobody counts keep whatever count the driver has for them. */
  ghost predicate UncountedSame(counted: Handle -> bool, refs: multiset<Handle>, refs': multiset<Handle>) {
    forall h: Handle :: SameAt(counted, refs, refs', h)
  }

  /** Raw references are owned only to devices that are counted. */
  ghost predicate OnlyCounted(counted: Handle -> bool, owned: multiset<Handle>) {
    forall h: Handle :: OwnedAt(counted, owned, h)
  }

  predicate OwnedAt(counted: Handle -> bool, owned: multiset<Handle>, h: Handle) {
    h in owned ==> h != NULL && counted(h)
  }

  lemma OnlyCountedKept(counted: Handle -> bool, owned: multiset<Handle>, h: Handle)
    requires OnlyCounted(counted, owned)
    ensures h in owned ==> h != NULL && counted(h)
    ensures h != NULL && counted(h) ==> OnlyCounted(counted, owned + multiset{h})
    ensures OnlyCounted(counted, owned - multiset{h}) && OnlyCounted(counted, owned - Worth(counted, h))
  {
    forall x: Handle
      ensures h != NULL && counted(h) ==> OwnedAt(counted, owned + multiset{h}, x)
      ensures OwnedAt(counted, owned - multiset{h}, x) && OwnedAt(counted, owned - Worth(counted, h), x)
    {
      assert OwnedAt(counted, owned, x);
    }
    assert OwnedAt(counted, owned, h);
  }

  predicate SameAt(counted: Handle -> bool, refs: multiset<Handle>, refs': multiset<Handle>, h: Handle) {
    !counted(h) ==> refs'[h] == refs[h]
  }

  /** Taking away what a handle is worth never touches one that nobody counts. */
  lemma MinusKeepsUncounted(counted: Handle -> bool, refs: multiset<Handle>, h: Handle)
    ensures UncountedSame(counted, refs, refs - Worth(counted, h))
  {
  }

  /** Nor does adding it. */
  lemma PlusKeepsUncounted(counted: Handle -> bool, refs: multiset<Handle>, h: Handle)
    ensures UncountedSame(counted, refs, refs + Worth(counted, h))
  {
  }

  lemma UncountedSameTransitive(counted: Handle -> bool, a: multiset<Handle>, b: multiset<Handle>, c: multiset<Handle>)
    requires UncountedSame(counted, a, b) && UncountedSame(counted, b, c)
    ensures UncountedSame(counted, a, c)
  {
    forall h: Handle ensures SameAt(counted, a, c, h) {
      assert SameAt(counted, a, b, h) && SameAt(counted, b, c, h);
    }
  }

  /** The driver's side, as for other handles; `counted` is the platform test of `isReferenceCountable`, taken as
      a fixed function of the device. */
  class DeviceRuntime {
    const counted: Handle -> bool
    var refs: multiset<Handle>
    var misuse: nat
    ghost var live: set<DeviceWrapper>
    ghost var owned: multiset<Handle>

    constructor (counted: Handle -> bool, refs: multiset<Handle>)
      requires NULL !in refs && forall h: Handle :: h in refs ==> !counted(h)
      ensures Valid() && this.counted == counted && this.refs == refs && misuse == 0
      ensures live == {} && owned == multiset{}
    {
      this.counted := counted;
      this.refs := refs;
      misuse := 0;
      live := {};
      owned := multiset{};
      new;
      forall h: Handle ensures FairAt(counted, refs, multiset{}, Held(), owned, h) {
        assert Holders(Held(), h) == {};
      }
    }

    predicate IsReferenceCountable(device: Handle) {
      device != NULL && counted(device)
    }

    ghost function Held(): map<DeviceWrapper, Handle>
      reads this, live
    {
      map w | w in live :: w.object_
    }

    /** Every live wrapper's flag is right for the device it holds. */
    ghost predicate Flagged()
      reads this, live
    {
      forall w | w in live :: w.referenceCountable_ == IsReferenceCountable(w.object_)
    }

    ghost predicate Balanced(deficit: multiset<Handle>)
      reads this, live
    {
      && NULL !in refs && Flagged()
      && OnlyCounted(counted, owned)
      && Fair(counted, refs, deficit, Held(), owned)
    }

    /** Conservation for the devices that are counted, and correct flags. */
    ghost predicate Valid()
      reads this, live
    {
      Balanced(multiset{})
    }

    method Retain(h: Handle) returns (err: int)
      modifies this`refs, this`misuse
      ensures old(refs)[h] > 0 ==> err == SUCCESS && refs == old(refs) + multiset{h} && misuse == old(misuse)
      ensures old(refs)[h] == 0 ==> err == INVALID_HANDLE && refs == old(refs) && misuse == old(misuse) + 1
    {
      if h in refs {
        refs := refs + multiset{h};
        err := SUCCESS;
      } else {
        misuse := misuse + 1;
        err := INVALID_HANDLE;
      }
    }

    method Release(h: Handle) returns (err: int)
      modifies this`refs, this`misuse
      ensures old(refs)[h] > 0 ==> err == SUCCESS && refs == old(refs) - multiset{h} && misuse == old(misuse)
      ensures old(refs)[h] == 0 ==> err == INVALID_HANDLE && refs == old(refs) && misuse == old(misuse) + 1
    {
      if h in refs {
        refs := refs - multiset{h};
        err := SUCCESS;
      } else {
        misuse := misuse + 1;
        err := INVALID_HANDLE;
      }
    }

    method Acquire(h: Handle)
      requires Valid() && IsReferenceCountable(h)
      modifies this`refs, this`owned
      ensures Valid() && owned == old(owned) + multiset{h} && UncountedSame(counted, old(refs), refs)
    {
      OnlyCountedKept(counted, owned, h);
      refs := refs + multiset{h};
      owned := owned + multiset{h};
      assert Held() == old(Held());
      FairShift(counted, old(refs), multiset{}, Held(), old(owned), refs, multiset{}, owned);
    }

    method Surrender(h: Handle)
      requires Valid() && h in owned
      modifies this`refs, this`misuse, this`owned
      ensures Valid() && owned == old(owned) - multiset{h} && misuse == old(misuse)
      ensures UncountedSame(counted, old(refs), refs)
    {
      OnlyCountedKept(counted, owned, h);
      OwnerKeepsAlive(counted, refs, Held(), owned, h);
      FairSurrender(counted, refs, Held(), owned, h);
      var _ := Release(h);
      owned := owned - multiset{h};
      assert Held() == old(Held());
    }

    ghost method HandOver(h: Handle, deficit: multiset<Handle>)
      requires Balanced(deficit)
      requires IsReferenceCountable(h) ==> h in owned && h in deficit
      modifies this`owned
      ensures owned == old(owned) - Worth(counted, h)
      ensures Balanced(deficit - Worth(counted, h))
    {
      OnlyCountedKept(counted, owned, h);
      owned := owned - Worth(counted, h);
      assert Held() == old(Held());
      FairShift(counted, refs, deficit, Held(), old(owned), refs, deficit - Worth(counted, h), owned);
    }
  }

  class DeviceWrapper {
    var object_: Handle
    var referenceCountable_: bool

    /** `if (object_ != NULL) { release(); }`, which does nothing for a device that is not counted. */
    method ReleaseObject(rt: DeviceRuntime)
      requires referenceCountable_ == rt.IsReferenceCountable(object_)
      requires referenceCountable_ ==> object_ in rt.refs
      modifies rt`refs, rt`misuse
      ensures rt.refs == old(rt.refs) - Worth(rt.counted, object_) && rt.misuse == old(rt.misuse)
    {
      if object_ != NULL {
        if referenceCountable_ {
          var _ := rt.Release(object_);
        }
      }
    }

    /** `if (object_ != NULL) { retain(); }` */
    method RetainObject(rt: DeviceRuntime) returns (err: int)
      requires referenceCountable_ == rt.IsReferenceCountable(object_)
      requires referenceCountable_ ==> object_ in rt.refs
      modifies rt`refs, rt`misuse
      ensures rt.refs == old(rt.refs) + Worth(rt.counted, object_) && rt.misuse == old(rt.misuse) && err == SUCCESS
    {
      err := SUCCESS;
      if object_ != NULL {
        if referenceCountable_ {
          err := rt.Retain(object_);
        }
      }
    }

    /** `Wrapper()` and `Wrapper(const cl_device_id&)` */
    constructor FromHandle(rt: DeviceRuntime, obj: Handle, ghost deficit: multiset<Handle>)
      requires rt.Balanced(deficit)
      modifies rt`live
      ensures rt.Balanced(deficit + Worth(rt.counted, obj))
      ensures rt.live == old(rt.live) + {this} && this !in old(rt.live) && object_ == obj
    {
      object_ := obj;
      referenceCountable_ := rt.IsReferenceCountable(obj);
      new;
      rt.live := rt.live + {this};
      assert rt.Held() == old(rt.Held())[this := obj];
      FairJoin(rt.counted, rt.refs, deficit, old(rt.Held()), rt.owned, this, obj);
    }

    /** The copy constructor asks the platform again. */
    constructor Copy(rt: DeviceRuntime, rhs: DeviceWrapper)
      requires rt.Valid() && rhs in rt.live
      modifies rt`live, rt`refs, rt`misuse
      ensures rt.Valid() && rt.misuse == old(rt.misuse)
      ensures UncountedSame(rt.counted, old(rt.refs), rt.refs)
      ensures rt.live == old(rt.live) + {this} && this !in old(rt.live) && object_ == rhs.object_
    {
      object_ := rhs.object_;
      referenceCountable_ := rt.IsReferenceCountable(rhs.object_);
      new;
      ghost var held := old(rt.Held());
      DeviceAlive(rt, rhs);
      PlusKeepsUncounted(rt.counted, rt.refs, object_);
      var _ := RetainObject(rt);
      rt.live := rt.live + {this};
      assert rt.Held() == held[this := object_];
      FairCopy(rt.counted, old(rt.refs), held, rt.owned, this, object_);
    }

    /** The move constructor takes the flag along and clears the other's. */
    constructor Move(rt: DeviceRuntime, rhs: DeviceWrapper)
      requires rt.Valid() && rhs in rt.live
      modifies rt`live, rhs
      ensures rt.Valid()
      ensures rt.live == old(rt.live) + {this} && this !in old(rt.live)
      ensures object_ == old(rhs.object_) && rhs.object_ == NULL
    {
      object_ := rhs.object_;
      referenceCountable_ := rhs.referenceCountable_;
      new;
      rhs.object_ := NULL;
      rhs.referenceCountable_ := false;
      rt.live := rt.live + {this};
      ghost var held := old(rt.Held());
      ghost var taken: map<DeviceWrapper, Handle> := held[this := object_];
      FairJoin(rt.counted, rt.refs, multiset{}, held, rt.owned, this, object_);
      assert multiset{} + Worth(rt.counted, object_) == Worth(rt.counted, object_);
      FairYield(rt.counted, rt.refs, taken, rt.owned, rhs);
      assert rt.Held() == taken[rhs := NULL];
    }

    /** `~Wrapper()` */
    method Destroy(rt: DeviceRuntime)
      requires rt.Valid() && this in rt.live
      modifies rt`live, rt`refs, rt`misuse
      ensures rt.Valid() && rt.misuse == old(rt.misuse)
      ensures UncountedSame(rt.counted, old(rt.refs), rt.refs)
      ensures rt.live == old(rt.live) - {this}
    {
      ghost var held := old(rt.Held());
      DeviceAlive(rt, this);
      MinusKeepsUncounted(rt.counted, rt.refs, object_);
      ReleaseObject(rt);
      rt.live := rt.live - {this};
      assert rt.Held() == held - {this};
      FairLeave(rt.counted, old(rt.refs), held, rt.owned, this, rt.refs);
    }

    /** What the three assignments begin with: release under the old flag, then store handle and flag. */
    method Overwrite(rt: DeviceRuntime, obj: Handle, countable: bool)
      requires rt.Valid() && this in rt.live && countable == rt.IsReferenceCountable(obj)
      modifies this, rt`refs, rt`misuse
      ensures rt.Balanced(Worth(rt.counted, obj)) && rt.misuse == old(rt.misuse)
      ensures rt.refs == old(rt.refs) - Worth(rt.counted, old(object_))
      ensures object_ == obj && referenceCountable_ == countable
    {
      ghost var held := old(rt.Held());
      DeviceAlive(rt, this);
      ReleaseObject(rt);
      FairOverwrite(rt.counted, old(rt.refs), held, rt.owned, this, obj, rt.refs);
      Store(rt, obj, countable, held);
    }

    /** Handle and flag are stored together, so every flag stays right. */
    method Store(rt: DeviceRuntime, obj: Handle, countable: bool, ghost held: map<DeviceWrapper, Handle>)
      requires this in rt.live && held == rt.Held() && countable == rt.IsReferenceCountable(obj)
      requires NULL !in rt.refs && rt.Flagged() && OnlyCounted(rt.counted, rt.owned)
      requires Fair(rt.counted, rt.refs, Worth(rt.counted, obj), held[this := obj], rt.owned)
      modifies this
      ensures rt.Balanced(Worth(rt.counted, obj)) && object_ == obj && referenceCountable_ == countable
    {
      object_ := obj;
      referenceCountable_ := countable;
      assert rt.Held() == held[this := obj];
    }

    /** A wrapper whose handle another one has just taken over is emptied. */
    method Vacate(rt: DeviceRuntime)
      requires rt.Balanced(Worth(rt.counted, object_)) && this in rt.live
      modifies this
      ensures rt.Valid() && object_ == NULL
    {
      FairYield(rt.counted, rt.refs, rt.Held(), rt.owned, this);
      object_ := NULL;
      referenceCountable_ := false;
      assert rt.Held() == old(rt.Held())[this := NULL];
    }

    /** What copy assignment ends with: the retain, under the new flag, pays for the device just stored. */
    method RetainStored(rt: DeviceRuntime)
      requires rt.Balanced(Worth(rt.counted, object_)) && referenceCountable_ == rt.IsReferenceCountable(object_)
      requires referenceCountable_ ==> object_ in rt.refs
      modifies rt`refs, rt`misuse
      ensures rt.Valid() && rt.misuse == old(rt.misuse)
      ensures rt.refs == old(rt.refs) + Worth(rt.counted, object_)
    {
      var _ := RetainObject(rt);
      assert rt.Held() == old(rt.Held());
      FairShift(rt.counted, old(rt.refs), Worth(rt.counted, object_), rt.Held(), rt.owned,
                rt.refs, multiset{}, rt.owned);
    }

    /** Copy assignment copies the flag between the release and the retain. */
    method CopyAssign(rt: DeviceRuntime, rhs: DeviceWrapper)
      requires rt.Valid() && this in rt.live && rhs in rt.live
      modifies this, rt`refs, rt`misuse
      ensures rt.Valid() && rt.misuse == old(rt.misuse)
      ensures UncountedSame(rt.counted, old(rt.refs), rt.refs)
      ensures object_ == old(rhs.object_) == rhs.object_
    {
      if this != rhs {
        DevicesAlive(rt, this, rhs);
        MinusKeepsUncounted(rt.counted, rt.refs, object_);
        Overwrite(rt, rhs.object_, rhs.referenceCountable_);
        ghost var refs := rt.refs;
        RetainStored(rt);
        PlusKeepsUncounted(rt.counted, refs, object_);
        UncountedSameTransitive(rt.counted, old(rt.refs), refs, rt.refs);
      }
    }

    method MoveAssign(rt: DeviceRuntime, rhs: DeviceWrapper)
      requires rt.Valid() && this in rt.live && rhs in rt.live
      modifies this, rhs, rt`refs, rt`misuse
      ensures rt.Valid() && rt.misuse == old(rt.misuse)
      ensures UncountedSame(rt.counted, old(rt.refs), rt.refs)
      ensures object_ == old(rhs.object_)
      ensures rhs != this ==> rhs.object_ == NULL
    {
      if this != rhs {
        MinusKeepsUncounted(rt.counted, rt.refs, object_);
        Overwrite(rt, rhs.object_, rhs.referenceCountable_);
        rhs.Vacate(rt);
      }
    }

    /** Raw assignment asks the platform about the new device. */
    method RawAssign(rt: DeviceRuntime, obj: Handle)
      requires rt.Valid() && this in rt.live
      modifies this, rt`refs, rt`misuse
      ensures rt.Balanced(Worth(rt.counted, obj)) && rt.misuse == old(rt.misuse)
      ensures UncountedSame(rt.counted, old(rt.refs), rt.refs)
      ensures object_ == obj
    {
      MinusKeepsUncounted(rt.counted, rt.refs, object_);
      Overwrite(rt, obj, rt.IsReferenceCountable(obj));
    }
  }

  lemma DeviceAlive(rt: DeviceRuntime, w: DeviceWrapper)
    requires rt.Valid() && w in rt.live
    ensures rt.IsReferenceCountable(w.object_) ==> rt.refs[w.object_] > 0
  {
    if rt.IsReferenceCountable(w.object_) {
      HolderKeepsAlive(rt.counted, rt.refs, rt.Held(), rt.owned, w);
    }
  }

  lemma DevicesAlive(rt: DeviceRuntime, v: DeviceWrapper, w: DeviceWrapper)
    requires rt.Valid() && v in rt.live && w in rt.live && v != w
    ensures rt.IsReferenceCountable(w.object_) ==> rt.refs[w.object_] > if v.object_ == w.object_ then 1 else 0
  {
    if rt.IsReferenceCountable(w.object_) {
      HolderKeepsAlive(rt.counted, rt.refs, rt.Held(), rt.owned, w);
      assert v in rt.Held();
    }
  }
}
