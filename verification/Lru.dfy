/** The sixteen-slot caches of the kernel driver. */
module LruCaches {
  const SLOTS: nat := 16

  datatype Slot<T> = Slot(valid: bool, key: nat, value: T, lru: nat)

  /** The two hold the same entries in the same slots; only the times of use may differ. */
  ghost predicate Same<T>(a: seq<Slot<T>>, b: seq<Slot<T>>) {
    && |a| == |b|
    && forall s | 0 <= s < |a| :: a[s].valid == b[s].valid && a[s].key == b[s].key && a[s].value == b[s].value
  }

  class Lru<T> {
    var slots: seq<Slot<T>>
    var tick: nat

    /** Each key is in at most one valid slot, and no slot was used in the future. */
    ghost predicate Ok()
      reads this
    {
      && |slots| == SLOTS
      && (forall a, b | 0 <= a < b < SLOTS && slots[a].valid && slots[b].valid :: slots[a].key != slots[b].key)
      && forall a | 0 <= a < SLOTS && slots[a].valid :: slots[a].lru < tick
    }

    constructor (empty: T)
      ensures Ok() && forall a | 0 <= a < SLOTS :: !slots[a].valid
    {
      slots := seq(SLOTS, _ => Slot(false, 0, empty, 0));
      tick := 0;
    }

    /** A lookup; a hit counts as a use. */
    method Find(key: nat) returns (found: bool, s: nat)
      requires Ok()
      modifies this
      ensures Ok() && Same(old(slots), slots) && tick >= old(tick)
      ensures if found then s < SLOTS && slots[s].valid && slots[s].key == key && slots[s].lru + 1 == tick
              else forall a | 0 <= a < SLOTS && slots[a].valid :: slots[a].key != key
    {
      for a := 0 to SLOTS
        invariant slots == old(slots) && tick == old(tick)
        invariant forall b | 0 <= b < a && slots[b].valid :: slots[b].key != key
      {
        if slots[a].valid && slots[a].key == key {
          slots := slots[a := slots[a].(lru := tick)];
          tick := tick + 1;
          return true, a;
        }
      }
      return false, 0;
    }

    /** The slot to fill next: a free one, or else a least recently used one. */
    method Victim() returns (best: nat)
      requires Ok()
      ensures best < SLOTS
      ensures slots[best].valid ==> forall a | 0 <= a < SLOTS :: slots[a].valid && slots[best].lru <= slots[a].lru
    {
      var oldest := tick;
      best := 0;
      for a := 0 to SLOTS
        invariant best < SLOTS && oldest <= tick && (a == 0 ==> oldest == tick)
        invariant forall b | 0 <= b < a :: slots[b].valid && oldest <= slots[b].lru
        invariant a > 0 ==> slots[best].valid && slots[best].lru == oldest
      {
        if !slots[a].valid {
          return a;
        }
        if slots[a].lru < oldest {
          oldest, best := slots[a].lru, a;
        }
      }
    }

    /** Puts an entry into a slot, replacing what was there. */
    method Install(s: nat, key: nat, value: T)
      requires Ok() && s < SLOTS && forall a | 0 <= a < SLOTS && slots[a].valid :: slots[a].key != key
      modifies this
      ensures Ok() && slots == old(slots)[s := Slot(true, key, value, old(tick))]
    {
      slots := slots[s := Slot(true, key, value, tick)];
      tick := tick + 1;
    }

    /** Changes an entry in place. */
    method Update(s: nat, value: T)
      requires Ok() && s < SLOTS
      modifies `slots
      ensures Ok() && slots == old(slots)[s := old(slots)[s].(value := value)]
    {
      slots := slots[s := slots[s].(value := value)];
    }

    /** Drops an entry, if there is one. */
    method Invalidate(key: nat)
      requires Ok()
      modifies `slots
      ensures Ok() && |slots| == |old(slots)|
      ensures forall a | 0 <= a < SLOTS ::
        slots[a] == if old(slots)[a].valid && old(slots)[a].key == key then old(slots)[a].(valid := false)
          else old(slots)[a]
    {
      for a := 0 to SLOTS
        invariant slots == old(slots)
        invariant forall b | 0 <= b < a :: !(slots[b].valid && slots[b].key == key)
      {
        if slots[a].valid && slots[a].key == key {
          slots := slots[a := slots[a].(valid := false)];
          return;
        }
      }
    }
  }
}
