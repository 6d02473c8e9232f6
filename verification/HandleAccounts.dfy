/** Counting which wrappers hold which handle, and balancing that against the driver's reference counts. */
module HandleAccounts {

  type Handle = int

  const NULL: Handle := 0

  const SUCCESS := 0
  const INVALID_HANDLE := -1

  function Holders<W>(held: map<W, Handle>, h: Handle): set<W> {
    set w | w in held && held[w] == h
  }

  /** How many of the holders hold `h`. */
  function Tally<W>(held: map<W, Handle>, h: Handle): nat {
    |Holders(held, h)|
  }

  function Indicator(b: bool): nat {
    if b then 1 else 0
  }

  /** Giving a holder, old or new, another handle moves one unit of the tally. */
  lemma TallyUpdate<W>(held: map<W, Handle>, w: W, h': Handle, h: Handle)
    ensures Tally(held[w := h'], h) == Tally(held, h) - Indicator(w in held && held[w] == h) + Indicator(h' == h)
  {
    if h' == h {
      assert Holders(held[w := h'], h) == Holders(held, h) + {w};
    } else {
      assert Holders(held[w := h'], h) == Holders(held, h) - {w};
    }
  }

  /** A holder that goes away takes its unit with it. */
  lemma TallyRemove<W>(held: map<W, Handle>, w: W, h: Handle)
    requires w in held
    ensures Tally(held - {w}, h) == Tally(held, h) - Indicator(held[w] == h)
  {
    assert Holders(held - {w}, h) == Holders(held, h) - {w};
  }

  lemma TallyPositive<W>(held: map<W, Handle>, w: W)
    requires w in held
    ensures Tally(held, held[w]) > 0
  {
    assert w in Holders(held, held[w]);
  }

  lemma TallyTwo<W>(held: map<W, Handle>, v: W, w: W)
    requires v in held && w in held && v != w && held[v] == held[w]
    ensures Tally(held, held[w]) > 1
  {
    TallyRemove(held, v, held[w]);
    TallyPositive(held - {v}, w);
  }

  /** The reference that storing `h` in a wrapper is worth: none for null and for handles nobody counts. */
  function Worth(counted: Handle -> bool, h: Handle): multiset<Handle> {
    if h != NULL && counted(h) then multiset{h} else multiset{}
  }

  /** What a list of raw handles stored in wrappers is worth. */
  function TotalWorth(counted: Handle -> bool, values: seq<Handle>): multiset<Handle> {
    if values == [] then multiset{} else Worth(counted, values[0]) + TotalWorth(counted, values[1..])
  }

  lemma {:induction false} TotalWorthAppend(counted: Handle -> bool, values: seq<Handle>, h: Handle)
    ensures TotalWorth(counted, values + [h]) == TotalWorth(counted, values) + Worth(counted, h)
  {
    if values != [] {
      assert (values + [h])[1..] == values[1..] + [h];
      TotalWorthAppend(counted, values[1..], h);
    } else {
      assert TotalWorth(counted, [h]) == Worth(counted, h) + TotalWorth(counted, []);
    }
  }

  lemma TotalWorthStep(counted: Handle -> bool, values: seq<Handle>, k: nat)
    requires k < |values|
    ensures values[..k + 1] == values[..k] + [values[k]]
    ensures TotalWorth(counted, values[..k + 1]) == TotalWorth(counted, values[..k]) + Worth(counted, values[k])
    ensures TotalWorth(counted, values[k..]) == Worth(counted, values[k]) + TotalWorth(counted, values[k + 1..])
  {
    assert values[..k + 1] == values[..k] + [values[k]];
    TotalWorthAppend(counted, values[..k], values[k]);
    assert values[k..][1..] == values[k + 1..];
  }

  /** It is each counted, non-null handle as often as the list holds it. */
  lemma {:induction false} TotalWorthCounts(counted: Handle -> bool, values: seq<Handle>, h: Handle)
    ensures TotalWorth(counted, values)[h] == if h != NULL && counted(h) then multiset(values)[h] else 0
  {
    if values != [] {
      TotalWorthCounts(counted, values[1..], h);
      assert values == [values[0]] + values[1..];
    }
  }

  /** The references to `h`, plus those still missing, are the holders of `h` plus the raw references owned.
      Null, and handles outside `counted`, are not the driver's to count. */
  predicate FairAt<W>(counted: Handle -> bool, refs: multiset<Handle>, deficit: multiset<Handle>,
                      held: map<W, Handle>, owned: multiset<Handle>, h: Handle)
  {
    h != NULL && counted(h) ==> refs[h] + deficit[h] == Tally(held, h) + owned[h]
  }

  ghost predicate Fair<W>(counted: Handle -> bool, refs: multiset<Handle>, deficit: multiset<Handle>,
                          held: map<W, Handle>, owned: multiset<Handle>)
  {
    forall h: Handle :: FairAt(counted, refs, deficit, held, owned, h)
  }

  /** A change of one holder stays fair when the other three ledgers move by the difference. */
  lemma FairUpdate<W>(counted: Handle -> bool,
                      refs: multiset<Handle>, deficit: multiset<Handle>, held: map<W, Handle>, owned: multiset<Handle>,
                      w: W, h': Handle,
                      refs': multiset<Handle>, deficit': multiset<Handle>, owned': multiset<Handle>)
    requires Fair(counted, refs, deficit, held, owned)
    requires forall h: Handle | h != NULL && counted(h) ::
               refs'[h] + deficit'[h] + owned[h] + Indicator(w in held && held[w] == h)
               == refs[h] + deficit[h] + owned'[h] + Indicator(h' == h)
    ensures Fair(counted, refs', deficit', held[w := h'], owned')
  {
    var held' := held[w := h'];
    forall h: Handle ensures FairAt(counted, refs', deficit', held', owned', h) {
      assert FairAt(counted, refs, deficit, held, owned, h);
      TallyUpdate(held, w, h', h);
    }
  }

  /** Moving the same amount on both sides, with the holders as they are. */
  lemma FairShift<W>(counted: Handle -> bool,
                     refs: multiset<Handle>, deficit: multiset<Handle>, held: map<W, Handle>, owned: multiset<Handle>,
                     refs': multiset<Handle>, deficit': multiset<Handle>, owned': multiset<Handle>)
    requires Fair(counted, refs, deficit, held, owned)
    requires forall h: Handle | h != NULL && counted(h) ::
               refs'[h] + deficit'[h] + owned[h] == refs[h] + deficit[h] + owned'[h]
    ensures Fair(counted, refs', deficit', held, owned')
  {
    forall h: Handle ensures FairAt(counted, refs', deficit', held, owned', h) {
      assert FairAt(counted, refs, deficit, held, owned, h);
    }
  }

  /** A raw reference that is owned is released. */
  lemma FairSurrender<W>(counted: Handle -> bool, refs: multiset<Handle>, held: map<W, Handle>,
                         owned: multiset<Handle>, h: Handle)
    requires Fair(counted, refs, multiset{}, held, owned) && h in owned && h in refs
    ensures Fair(counted, refs - multiset{h}, multiset{}, held, owned - multiset{h})
  {
    FairShift(counted, refs, multiset{}, held, owned, refs - multiset{h}, multiset{}, owned - multiset{h});
  }

  /** A holder of a counted handle keeps it alive, and two holders keep two references alive. */
  lemma HolderKeepsAlive<W>(counted: Handle -> bool, refs: multiset<Handle>, held: map<W, Handle>,
                            owned: multiset<Handle>, w: W)
    requires Fair(counted, refs, multiset{}, held, owned) && w in held
    requires held[w] != NULL && counted(held[w])
    ensures refs[held[w]] > 0
    ensures forall v | v in held && v != w && held[v] == held[w] :: refs[held[w]] > 1
  {
    TallyPositive(held, w);
    assert FairAt(counted, refs, multiset{}, held, owned, held[w]);
    forall v | v in held && v != w && held[v] == held[w] ensures refs[held[w]] > 1 {
      TallyTwo(held, v, w);
    }
  }

  /** A holder that releases what it held and stores a raw handle. */
  lemma FairOverwrite<W>(counted: Handle -> bool, refs: multiset<Handle>, held: map<W, Handle>,
                         owned: multiset<Handle>, w: W, h': Handle, refs': multiset<Handle>)
    requires Fair(counted, refs, multiset{}, held, owned) && w in held
    requires refs' == refs - Worth(counted, held[w])
    ensures Fair(counted, refs', Worth(counted, h'), held[w := h'], owned)
  {
    if held[w] != NULL && counted(held[w]) {
      HolderKeepsAlive(counted, refs, held, owned, w);
    }
    FairUpdate(counted, refs, multiset{}, held, owned, w, h', refs', Worth(counted, h'), owned);
  }

  /** A new holder of a raw handle. */
  lemma FairJoin<W>(counted: Handle -> bool, refs: multiset<Handle>, deficit: multiset<Handle>,
                    held: map<W, Handle>, owned: multiset<Handle>, w: W, h: Handle)
    requires Fair(counted, refs, deficit, held, owned) && w !in held
    ensures Fair(counted, refs, deficit + Worth(counted, h), held[w := h], owned)
  {
    FairUpdate(counted, refs, deficit, held, owned, w, h, refs, deficit + Worth(counted, h), owned);
  }

  /** A new holder that retains what it holds. */
  lemma FairCopy<W>(counted: Handle -> bool, refs: multiset<Handle>, held: map<W, Handle>, owned: multiset<Handle>,
                    w: W, h: Handle)
    requires Fair(counted, refs, multiset{}, held, owned) && w !in held
    ensures Fair(counted, refs + Worth(counted, h), multiset{}, held[w := h], owned)
  {
    FairUpdate(counted, refs, multiset{}, held, owned, w, h, refs + Worth(counted, h), multiset{}, owned);
  }

  /** A holder that is emptied because another one has just taken its handle over. */
  lemma FairYield<W>(counted: Handle -> bool, refs: multiset<Handle>, held: map<W, Handle>,
                     owned: multiset<Handle>, w: W)
    requires w in held && Fair(counted, refs, Worth(counted, held[w]), held, owned)
    ensures Fair(counted, refs, multiset{}, held[w := NULL], owned)
  {
    FairUpdate(counted, refs, Worth(counted, held[w]), held, owned, w, NULL, refs, multiset{}, owned);
  }

  /** A holder that goes away. */
  lemma FairLeave<W>(counted: Handle -> bool, refs: multiset<Handle>, held: map<W, Handle>,
                     owned: multiset<Handle>, w: W, refs': multiset<Handle>)
    requires Fair(counted, refs, multiset{}, held, owned) && w in held
    requires refs' == refs - Worth(counted, held[w])
    ensures Fair(counted, refs', multiset{}, held - {w}, owned)
  {
    if held[w] != NULL && counted(held[w]) {
      HolderKeepsAlive(counted, refs, held, owned, w);
    }
    var held' := held - {w};
    forall h: Handle ensures FairAt(counted, refs', multiset{}, held', owned, h) {
      assert FairAt(counted, refs, multiset{}, held, owned, h);
      TallyRemove(held, w, h);
    }
  }

  /** A raw reference owned keeps its handle alive. */
  lemma OwnerKeepsAlive<W>(counted: Handle -> bool, refs: multiset<Handle>, held: map<W, Handle>,
                           owned: multiset<Handle>, h: Handle)
    requires Fair(counted, refs, multiset{}, held, owned) && h != NULL && counted(h)
    ensures refs[h] >= owned[h]
  {
    assert FairAt(counted, refs, multiset{}, held, owned, h);
  }

  /** Nothing is lost: once no holder is left and nothing is missing, exactly the raw references remain. */
  lemma NoLeak<W>(counted: Handle -> bool, refs: multiset<Handle>, held: map<W, Handle>, owned: multiset<Handle>,
                  h: Handle)
    requires Fair(counted, refs, multiset{}, held, owned) && held == map[]
    requires h != NULL && counted(h)
    ensures refs[h] == owned[h]
  {
    assert FairAt(counted, refs, multiset{}, held, owned, h);
    assert Holders(held, h) == {};
  }
}
