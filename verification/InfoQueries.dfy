/** The `getInfoHelper` overloads for reference-counted results: the driver delivers raw handles, which are stored first
    and retained afterwards. The one for vectors is used with devices only. */
module InfoQueries {

  import opened HandleAccounts
  import opened ReferenceCounting
  import opened DeviceCounting

  /** A retain pays one missing reference. */
  lemma Paid(rt: Runtime, refs: multiset<Handle>, deficit: multiset<Handle>, deficit': multiset<Handle>, h: Handle)
    requires Fair(All, refs, deficit, rt.Held(), rt.owned)
    requires rt.refs == refs + Worth(All, h) && deficit == deficit' + Worth(All, h)
    ensures Fair(All, rt.refs, deficit', rt.Held(), rt.owned)
  {
    FairShift(All, refs, deficit, rt.Held(), rt.owned, rt.refs, deficit', rt.owned);
  }

  /** The helper for a single wrapper. `queryError` and `value` are what the driver's query delivers; the object
      queried owns a reference to the handle it delivers. */
  method GetInfo(rt: Runtime, param: Wrapper, queryError: int, value: Handle) returns (err: int)
    requires rt.Valid() && param in rt.live
    requires queryError == SUCCESS && value != NULL ==> rt.owned[value] > 0
    modifies param, rt`refs, rt`misuse
    ensures rt.Valid() && rt.misuse == old(rt.misuse)
    ensures err == queryError
    ensures param.object_ == if err == SUCCESS then value else old(param.object_)
  {
    err := queryError;
    if err != SUCCESS {
      return;
    }
    param.RawAssign(rt, value);
    if value != NULL {
      assert rt.refs[value] > 0 by {
        assert FairAt(All, rt.refs, Worth(All, value), rt.Held(), rt.owned, value);
        TallyPositive(rt.Held(), param);
      }
      label stored:
      err := param.RetainObject(rt);
      assert rt.Held() == old@stored(rt.Held());
      Paid(rt, old@stored(rt.refs), Worth(All, value), multiset{}, value);
    }
  }

  /** A retain pays one missing reference to a device. */
  lemma DevicePaid(rt: DeviceRuntime, refs: multiset<Handle>, deficit: multiset<Handle>, deficit': multiset<Handle>,
                   h: Handle)
    requires Fair(rt.counted, refs, deficit, rt.Held(), rt.owned)
    requires rt.refs == refs + Worth(rt.counted, h) && deficit == deficit' + Worth(rt.counted, h)
    ensures Fair(rt.counted, rt.refs, deficit', rt.Held(), rt.owned)
  {
    FairShift(rt.counted, refs, deficit, rt.Held(), rt.owned, rt.refs, deficit', rt.owned);
  }

  /** Every raw reference owned is covered by the driver's count. */
  ghost predicate Solvent(rt: DeviceRuntime)
    reads rt
  {
    forall h: Handle :: rt.refs[h] >= rt.owned[h]
  }

  lemma ValidIsSolvent(rt: DeviceRuntime)
    requires rt.Valid()
    ensures Solvent(rt)
  {
    forall h: Handle ensures rt.refs[h] >= rt.owned[h] {
      assert OwnedAt(rt.counted, rt.owned, h);
      if rt.IsReferenceCountable(h) {
        OwnerKeepsAlive(rt.counted, rt.refs, rt.Held(), rt.owned, h);
      }
    }
  }

  /** The object queried owns a reference to every counted device it delivers. */
  ghost predicate Backed(rt: DeviceRuntime, values: seq<Handle>)
    reads rt
  {
    forall i | 0 <= i < |values| :: rt.IsReferenceCountable(values[i]) ==> values[i] in rt.owned
  }

  /** `retain()` on a stored device pays for it, if it is counted. */
  method RetainStored(rt: DeviceRuntime, w: DeviceWrapper, ghost deficit: multiset<Handle>,
                      ghost deficit': multiset<Handle>) returns (err: int)
    requires w in rt.live && rt.Balanced(deficit) && deficit == deficit' + Worth(rt.counted, w.object_)
    requires rt.IsReferenceCountable(w.object_) ==> w.object_ in rt.refs
    modifies rt`refs, rt`misuse
    ensures rt.Balanced(deficit') && rt.misuse == old(rt.misuse) && err == SUCCESS
    ensures rt.refs == old(rt.refs) + Worth(rt.counted, w.object_) && UncountedSame(rt.counted, old(rt.refs), rt.refs)
  {
    PlusKeepsUncounted(rt.counted, rt.refs, w.object_);
    err := w.RetainObject(rt);
    assert rt.Held() == old(rt.Held());
    DevicePaid(rt, old(rt.refs), deficit, deficit', w.object_);
  }

  /** After the raw assignment the driver still counts the reference of the object queried. */
  lemma StoredIsAlive(rt: DeviceRuntime, w: DeviceWrapper)
    requires w in rt.live && rt.Balanced(Worth(rt.counted, w.object_)) && w.object_ in rt.owned
    ensures w.object_ in rt.refs
  {
    assert OwnedAt(rt.counted, rt.owned, w.object_);
    assert FairAt(rt.counted, rt.refs, Worth(rt.counted, w.object_), rt.Held(), rt.owned, w.object_);
    TallyPositive(rt.Held(), w);
  }

  /** The helper for a single device: whether it is retained depends on the flag that the raw assignment has set. */
  method GetDeviceInfo(rt: DeviceRuntime, param: DeviceWrapper, queryError: int, value: Handle) returns (err: int)
    requires rt.Valid() && param in rt.live
    requires queryError == SUCCESS && rt.IsReferenceCountable(value) ==> value in rt.owned
    modifies param, rt`refs, rt`misuse
    ensures rt.Valid() && rt.misuse == old(rt.misuse) && UncountedSame(rt.counted, old(rt.refs), rt.refs)
    ensures err == queryError
    ensures param.object_ == if err == SUCCESS then value else old(param.object_)
  {
    err := queryError;
    if err != SUCCESS {
      return;
    }
    param.RawAssign(rt, value);
    label stored:
    if value != NULL {
      if rt.IsReferenceCountable(value) {
        StoredIsAlive(rt, param);
      }
      err := RetainStored(rt, param, Worth(rt.counted, value), multiset{});
      UncountedSameTransitive(rt.counted, old(rt.refs), old@stored(rt.refs), rt.refs);
    }
  }

  /** A `VECTOR_CLASS` of devices. */
  class DeviceVector {
    var items: seq<DeviceWrapper>

    constructor ()
      ensures items == []
    {
      items := [];
    }

    ghost predicate Listed(rt: DeviceRuntime)
      reads this, rt
    {
      && (forall i | 0 <= i < |items| :: items[i] in rt.live)
      && (forall i, j | 0 <= i < j < |items| :: items[i] != items[j])
    }

    ghost function Elements(): set<DeviceWrapper>
      reads this
    {
      set w | w in items
    }

    ghost function Handles(): seq<Handle>
      reads this, items
    {
      seq(|items|, i requires 0 <= i < |items| reads this, items => items[i].object_)
    }

    /** Destroys the current elements. */
    method Clear(rt: DeviceRuntime)
      requires rt.Valid() && Listed(rt)
      modifies this, rt`live, rt`refs, rt`misuse
      ensures rt.Valid() && rt.misuse == old(rt.misuse) && UncountedSame(rt.counted, old(rt.refs), rt.refs)
      ensures items == [] && rt.live == old(rt.live) - old(Elements())
    {
      while items != []
        invariant rt.Valid() && Listed(rt) && rt.misuse == old(rt.misuse)
        invariant UncountedSame(rt.counted, old(rt.refs), rt.refs)
        invariant items <= old(items)
        invariant rt.live == old(rt.live) - set k | |items| <= k < |old(items)| :: old(items)[k]
        decreases |items|
      {
        ghost var refs := rt.refs;
        items[|items| - 1].Destroy(rt);
        UncountedSameTransitive(rt.counted, old(rt.refs), refs, rt.refs);
        items := items[..|items| - 1];
      }
    }

    /** Appends a wrapper made from a raw handle. */
    method PushRaw(rt: DeviceRuntime, value: Handle, ghost deficit: multiset<Handle>)
      requires rt.Balanced(deficit) && Listed(rt)
      modifies this, rt`live
      ensures Listed(rt) && rt.Balanced(deficit + Worth(rt.counted, value))
      ensures Handles() == old(Handles()) + [value]
      ensures Elements() >= old(Elements()) && rt.live == old(rt.live) + Elements()
    {
      var w := new DeviceWrapper.FromHandle(rt, value, deficit);
      items := items + [w];
    }

    method PushNext(rt: DeviceRuntime, values: seq<Handle>, k: nat)
      requires k < |values| && Listed(rt) && Handles() == values[..k]
      requires rt.Balanced(TotalWorth(rt.counted, values[..k]))
      modifies this, rt`live
      ensures Listed(rt) && rt.Balanced(TotalWorth(rt.counted, values[..k + 1])) && Handles() == values[..k + 1]
      ensures Elements() >= old(Elements()) && rt.live == old(rt.live) + Elements()
    {
      TotalWorthStep(rt.counted, values, k);
      PushRaw(rt, values[k], TotalWorth(rt.counted, values[..k]));
    }

    /** Appends wrappers made from raw handles: nothing is retained. */
    method PushAllRaw(rt: DeviceRuntime, values: seq<Handle>)
      requires rt.Valid() && items == []
      modifies this, rt`live
      ensures Listed(rt) && rt.Balanced(TotalWorth(rt.counted, values))
      ensures Handles() == values
      ensures rt.live == old(rt.live) + Elements()
    {
      for k := 0 to |values|
        invariant Listed(rt) && rt.Balanced(TotalWorth(rt.counted, values[..k]))
        invariant Handles() == values[..k]
        invariant rt.live == old(rt.live) + Elements()
      {
        PushNext(rt, values, k);
      }
      assert values[..|values|] == values;
    }

    /** One turn of the retain loop pays for the element it visits, if it is a device that is counted. */
    method RetainAt(rt: DeviceRuntime, values: seq<Handle>, i: nat) returns (err: int)
      requires Listed(rt) && Handles() == values && i < |values|
      requires rt.Balanced(TotalWorth(rt.counted, values[i..])) && Solvent(rt) && Backed(rt, values)
      modifies rt`refs, rt`misuse
      ensures rt.Balanced(TotalWorth(rt.counted, values[i + 1..])) && Solvent(rt)
      ensures UncountedSame(rt.counted, old(rt.refs), rt.refs)
      ensures rt.misuse == old(rt.misuse) && err == SUCCESS
    {
      err := SUCCESS;
      ghost var rest := TotalWorth(rt.counted, values[i + 1..]);
      TotalWorthStep(rt.counted, values, i);
      assert items[i].object_ == Handles()[i] == values[i];
      if values[i] != NULL {
        err := RetainStored(rt, items[i], Worth(rt.counted, values[i]) + rest, rest);
      } else {
        assert Worth(rt.counted, values[i]) + rest == rest;
      }
    }

    /** Retains the non-null elements in order. On entry the counts lack all of them that are counted; before each turn
        they lack exactly those not yet visited, and at the end nothing. Other devices are never touched. */
    method RetainAll(rt: DeviceRuntime, values: seq<Handle>) returns (err: int)
      requires Listed(rt) && Handles() == values
      requires rt.Balanced(TotalWorth(rt.counted, values)) && Solvent(rt) && Backed(rt, values)
      modifies rt`refs, rt`misuse
      ensures rt.Valid() && rt.misuse == old(rt.misuse) && err == SUCCESS
      ensures UncountedSame(rt.counted, old(rt.refs), rt.refs)
    {
      err := SUCCESS;
      assert values[0..] == values;
      for i := 0 to |values|
        invariant rt.Balanced(TotalWorth(rt.counted, values[i..])) && Solvent(rt)
        invariant UncountedSame(rt.counted, old(rt.refs), rt.refs)
        invariant rt.misuse == old(rt.misuse) && err == SUCCESS
      {
        ghost var refs := rt.refs;
        err := RetainAt(rt, values, i);
        UncountedSameTransitive(rt.counted, old(rt.refs), refs, rt.refs);
        if err != SUCCESS {
          return;
        }
      }
      assert values[|values|..] == [];
    }

    /** The helper for a vector: the raw assignment leaves the counts short, the retain loop makes them whole. */
    method GetInfo(rt: DeviceRuntime, sizeError: int, dataError: int, values: seq<Handle>) returns (err: int)
      requires rt.Valid() && Listed(rt)
      requires sizeError == SUCCESS == dataError ==> Backed(rt, values)
      modifies this, rt`live, rt`refs, rt`misuse
      ensures rt.Valid() && Listed(rt) && rt.misuse == old(rt.misuse)
      ensures UncountedSame(rt.counted, old(rt.refs), rt.refs)
      ensures err == if sizeError != SUCCESS then sizeError else dataError
      ensures err != SUCCESS ==> items == old(items) && rt.live == old(rt.live) && rt.refs == old(rt.refs)
      ensures err == SUCCESS ==> Handles() == values && rt.live == old(rt.live) - old(Elements()) + Elements()
    {
      err := sizeError;
      if err != SUCCESS {
        return;
      }
      err := dataError;
      if err != SUCCESS {
        return;
      }
      Clear(rt);
      ghost var refs := rt.refs;
      ValidIsSolvent(rt);
      PushAllRaw(rt, values);
      err := RetainAll(rt, values);
      UncountedSameTransitive(rt.counted, old(rt.refs), refs, rt.refs);
    }
  }
}
