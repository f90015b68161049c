/** The log store: segments in label order, and what it says about each byte. */
module Store {
  import opened Options
  import opened LogReplay

  /** A segment; its id stands for the label, the 24 hex digits that order segment names. */
  datatype Segment = Segment(id: nat, entries: seq<Entry>)

  ghost predicate StoreOk(store: seq<Segment>, bs: nat)
    requires bs > 0
  {
    && (forall i, j | 0 <= i < j < |store| :: store[i].id < store[j].id)
    && (forall i | 0 <= i < |store| :: AllAligned(store[i].entries, bs))
  }

  function Entries(store: seq<Segment>): seq<Entry> {
    if store == [] then [] else Entries(store[..|store| - 1]) + store[|store| - 1].entries
  }

  datatype Owned = Owned(seg: nat, hit: Hit)

  /** The segment of the last toucher of byte p, and what it does there. */
  function StoreEffect(store: seq<Segment>, bs: nat, p: nat): Option<Owned> {
    if store == [] then None
    else
      var s := store[|store| - 1];
      match Effect(s.entries, bs, p)
      case Some(h) => Some(Owned(s.id, h))
      case None => StoreEffect(store[..|store| - 1], bs, p)
  }

  lemma {:induction false} EntriesEffect(store: seq<Segment>, bs: nat, p: nat)
    ensures Effect(Entries(store), bs, p) ==
            match StoreEffect(store, bs, p) case None => None case Some(o) => Some(o.hit)
  {
    if store != [] {
      var n := |store| - 1;
      EntriesEffect(store[..n], bs, p);
      EffectAppend(Entries(store[..n]), store[n].entries, bs, p);
    }
  }

  lemma {:induction false} StoreEffectAppend(xs: seq<Segment>, ys: seq<Segment>, bs: nat, p: nat)
    ensures StoreEffect(xs + ys, bs, p) ==
            if StoreEffect(ys, bs, p).Some? then StoreEffect(ys, bs, p) else StoreEffect(xs, bs, p)
  {
    if ys == [] {
      assert xs + ys == xs;
    } else {
      assert (xs + ys)[..|xs + ys| - 1] == xs + ys[..|ys| - 1];
      StoreEffectAppend(xs, ys[..|ys| - 1], bs, p);
    }
  }

  lemma {:induction false} StoreEffectIndex(store: seq<Segment>, bs: nat, p: nat) returns (j: nat)
    requires StoreEffect(store, bs, p).Some?
    ensures j < |store| && StoreEffect(store, bs, p).value.seg == store[j].id
    ensures Effect(store[j].entries, bs, p) == Some(StoreEffect(store, bs, p).value.hit)
    ensures forall k | j < k < |store| :: Effect(store[k].entries, bs, p).None?
  {
    var n := |store| - 1;
    if Effect(store[n].entries, bs, p).Some? {
      j := n;
    } else {
      j := StoreEffectIndex(store[..n], bs, p);
    }
  }

  // ---------------------------------------------------------------- parts of a store

  function Kept(store: seq<Segment>, gone: set<nat>): seq<Segment> {
    if store == [] then []
    else
      Kept(store[..|store| - 1], gone) +
      (if store[|store| - 1].id in gone then [] else [store[|store| - 1]])
  }

  /** The segments an incremental replay that stopped at label mark still has to read. */
  function After(store: seq<Segment>, mark: int): seq<Segment> {
    if store == [] then []
    else
      After(store[..|store| - 1], mark) +
      (if store[|store| - 1].id > mark then [store[|store| - 1]] else [])
  }

  function UpTo(store: seq<Segment>, mark: int): seq<Segment> {
    if store == [] then []
    else
      UpTo(store[..|store| - 1], mark) +
      (if store[|store| - 1].id > mark then [] else [store[|store| - 1]])
  }

  /** The store with one more segment, filed by its label. */
  function InLabelOrder(store: seq<Segment>, s: Segment): seq<Segment> {
    UpTo(store, s.id) + [s] + After(store, s.id)
  }

  /** Dropping segments keeps the effect of every byte whose owner stays; for the others it
      can only fall back to a segment that stays. */
  lemma {:induction false} KeptEffect(store: seq<Segment>, gone: set<nat>, bs: nat, p: nat)
    ensures StoreEffect(store, bs, p).None? ==> StoreEffect(Kept(store, gone), bs, p).None?
    ensures StoreEffect(store, bs, p).Some? && StoreEffect(store, bs, p).value.seg !in gone ==>
              StoreEffect(Kept(store, gone), bs, p) == StoreEffect(store, bs, p)
    ensures StoreEffect(Kept(store, gone), bs, p).Some? ==> StoreEffect(Kept(store, gone), bs, p).value.seg !in gone
  {
    if store != [] {
      var n := |store| - 1;
      KeptEffect(store[..n], gone, bs, p);
      var tail := if store[n].id in gone then [] else [store[n]];
      StoreEffectAppend(Kept(store[..n], gone), tail, bs, p);
      StoreEffectOne(store[n], bs, p);
    }
  }

  lemma {:induction false} StoreEffectOne(s: Segment, bs: nat, p: nat)
    ensures StoreEffect([s], bs, p) ==
            match Effect(s.entries, bs, p) case None => None case Some(h) => Some(Owned(s.id, h))
  {
    assert [s][..0] == [];
  }

  lemma {:induction false} KeptShape(store: seq<Segment>, gone: set<nat>)
    ensures forall i | 0 <= i < |Kept(store, gone)| ::
              Kept(store, gone)[i] in store && Kept(store, gone)[i].id !in gone
    ensures forall s | s in store && s.id !in gone :: s in Kept(store, gone)
  {
    if store != [] {
      var n := |store| - 1;
      KeptShape(store[..n], gone);
      assert store == store[..n] + [store[n]];
    }
  }

  /** Labels ascend and stay below bound; entries are whole blocks. */
  ghost predicate OkBelow(store: seq<Segment>, bs: nat, bound: nat)
    requires bs > 0
  {
    StoreOk(store, bs) && forall i | 0 <= i < |store| :: store[i].id < bound
  }

  lemma {:induction false} StoreOkSnoc(store: seq<Segment>, s: Segment, bs: nat)
    requires bs > 0
    ensures StoreOk(store + [s], bs) <==> OkBelow(store, bs, s.id) && AllAligned(s.entries, bs)
  {
    if StoreOk(store + [s], bs) {
      forall i | 0 <= i < |store| ensures (store + [s])[i] == store[i] { }
      assert (store + [s])[|store|] == s;
    }
  }

  lemma {:induction false} OkBelowSnoc(store: seq<Segment>, s: Segment, bs: nat, bound: nat)
    requires bs > 0
    ensures OkBelow(store + [s], bs, bound) <==> OkBelow(store, bs, s.id) && AllAligned(s.entries, bs) && s.id < bound
  {
    StoreOkSnoc(store, s, bs);
    if OkBelow(store + [s], bs, bound) { assert (store + [s])[|store|] == s; }
    if OkBelow(store, bs, s.id) && AllAligned(s.entries, bs) && s.id < bound {
      forall i | 0 <= i < |store + [s]| ensures (store + [s])[i].id < bound { }
    }
  }

  lemma {:induction false} StoreOkPrefix(store: seq<Segment>, bs: nat, n: nat)
    requires bs > 0 && StoreOk(store, bs) && n <= |store|
    ensures StoreOk(store[..n], bs)
  {
  }

  lemma {:induction false} KeptOkBelow(store: seq<Segment>, gone: set<nat>, bs: nat, bound: nat)
    requires bs > 0 && OkBelow(store, bs, bound)
    ensures OkBelow(Kept(store, gone), bs, bound)
  {
    if store != [] {
      var n := |store| - 1;
      assert store == store[..n] + [store[n]];
      hide OkBelow;
      OkBelowSnoc(store[..n], store[n], bs, bound);
      KeptOkBelow(store[..n], gone, bs, store[n].id);
      OkBelowMono(Kept(store[..n], gone), bs, store[n].id, bound);
      OkBelowSnoc(Kept(store[..n], gone), store[n], bs, bound);
      assert Kept(store[..n], gone) + [] == Kept(store[..n], gone);
    }
  }

  lemma {:induction false} OkBelowMono(store: seq<Segment>, bs: nat, b: nat, c: nat)
    requires bs > 0 && OkBelow(store, bs, b) && b <= c
    ensures OkBelow(store, bs, c)
  {
  }

  lemma {:induction false} KeptOk(store: seq<Segment>, gone: set<nat>, bs: nat)
    requires bs > 0 && StoreOk(store, bs)
    ensures StoreOk(Kept(store, gone), bs)
  {
    if store != [] {
      var bound := store[|store| - 1].id + 1;
      assert OkBelow(store, bs, bound);
      KeptOkBelow(store, gone, bs, bound);
    }
  }

  /** The part after the mark says what the store says about the bytes it owns, and nothing
      about the others; likewise the part up to the mark, below it. */
  lemma {:induction false} SplitEffect(store: seq<Segment>, mark: int, bs: nat, p: nat)
    requires bs > 0 && StoreOk(store, bs)
    ensures var o := StoreEffect(store, bs, p);
      && StoreEffect(After(store, mark), bs, p) == (if o.Some? && o.value.seg > mark then o else None)
      && (!(o.Some? && o.value.seg > mark) ==> StoreEffect(UpTo(store, mark), bs, p) == o)
  {
    if store != [] {
      var n := |store| - 1;
      SplitEffect(store[..n], mark, bs, p);
      StoreEffectOne(store[n], bs, p);
      StoreEffectAppend(After(store[..n], mark), if store[n].id > mark then [store[n]] else [], bs, p);
      StoreEffectAppend(UpTo(store[..n], mark), if store[n].id > mark then [] else [store[n]], bs, p);
      if store[n].id <= mark && StoreEffect(store[..n], bs, p).Some? {
        var j := StoreEffectIndex(store[..n], bs, p);
        assert store[j].id < store[n].id;
      }
    }
  }

  /** Segments with newer labels win over a segment filed late, older ones do not. */
  lemma {:induction false} InLabelOrderEffect(store: seq<Segment>, s: Segment, bs: nat, p: nat)
    requires bs > 0 && StoreOk(store, bs)
    ensures var o, h := StoreEffect(store, bs, p), Effect(s.entries, bs, p);
      StoreEffect(InLabelOrder(store, s), bs, p) ==
        if h.Some? && !(o.Some? && o.value.seg > s.id) then Some(Owned(s.id, h.value)) else o
  {
    hide StoreEffect; hide Effect;
    SplitEffect(store, s.id, bs, p);
    StoreEffectAppend(UpTo(store, s.id) + [s], After(store, s.id), bs, p);
    StoreEffectAppend(UpTo(store, s.id), [s], bs, p);
    StoreEffectOne(s, bs, p);
  }

  // ---------------------------------------------------------------- segment identifiers

  function Ids(store: seq<Segment>): set<nat> { set i | 0 <= i < |store| :: store[i].id }

  function SetOf(ids: seq<nat>): set<nat> { set id | id in ids }

  ghost predicate StrictlySorted(ids: seq<nat>) {
    forall i, j | 0 <= i < j < |ids| :: ids[i] < ids[j]
  }
}
