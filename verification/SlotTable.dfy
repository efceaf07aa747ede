/**
  The fixed table of callback slots behind the C++ trampolines, and a client that claims one of them.
  Persistent storage and observability clients share this design; callbacks are named by numbers.
 */
module SlotTable {
  import opened Wrappers

  const MAX_SLOTS: nat := 32

  type Callbacks = nat

  type Slots = seq<Option<Callbacks>>

  /** The index of the first empty slot, or -1. */
  function FirstFree(s: Slots): (i: int)
    ensures -1 <= i < |s|
    ensures i >= 0 ==> s[i].None? && forall j :: 0 <= j < i ==> s[j].Some?
    ensures i == -1 ==> forall j :: 0 <= j < |s| ==> s[j].Some?
  {
    if s == [] then -1
    else if s[0].None? then 0
    else
      var i := FirstFree(s[1..]);
      assert forall j :: 0 < j < |s| ==> s[j] == s[1..][j - 1];
      if i == -1 then -1 else i + 1
  }

  lemma FirstFreeUnique(s: Slots, i: int)
    requires 0 <= i < |s| && s[i].None? && forall j :: 0 <= j < i ==> s[j].Some?
    ensures FirstFree(s) == i
  {
  }

  class Table {
    const slots: array<Option<Callbacks>>

    constructor (capacity: nat)
      ensures fresh(slots) && slots.Length == capacity
      ensures forall i :: 0 <= i < capacity ==> slots[i] == None
    {
      slots := new Option<Callbacks>[capacity](_ => None);
    }

    /** Under the mutex: the first empty slot takes the callbacks. */
    method ClaimSlot(cbs: Callbacks) returns (slot: int)
      modifies slots
      ensures slot == FirstFree(old(slots[..]))
      ensures slots[..] == if slot < 0 then old(slots[..]) else old(slots[..])[slot := Some(cbs)]
    {
      for i := 0 to slots.Length
        invariant forall j :: 0 <= j < i ==> slots[j].Some?
        invariant slots[..] == old(slots[..])
      {
        if slots[i] == None {
          FirstFreeUnique(slots[..], i);
          slots[i] := Some(cbs);
          return i;
        }
      }
      slot := -1;
    }

    method ReleaseSlot(slot: int)
      requires slot < slots.Length
      modifies slots
      ensures slots[..] == if slot < 0 then old(slots[..]) else old(slots[..])[slot := None]
    {
      if slot < 0 {
        return;
      }
      slots[slot] := None;
    }

    method LoadCallbacks(slot: nat) returns (cbs: Option<Callbacks>)
      requires slot < slots.Length
      ensures cbs == slots[slot]
    {
      cbs := slots[slot];
    }
  }

  /** A PersistentStorage or an ObservabilityClient; `native` is what the bridge's create call returned. */
  class Client {
    const callbacks: Callbacks
    var ref: nat
    var slot: int

    /** A client that was not registered holds no slot and leaves the table as it found it. */
    constructor (table: Table, cbs: Callbacks, native: nat)
      modifies table.slots
      ensures callbacks == cbs
      ensures var claimed := FirstFree(old(table.slots[..]));
              if claimed < 0 || native == 0
              then slot == -1 && ref == 0 && table.slots[..] == old(table.slots[..])
              else slot == claimed && ref == native && table.slots[..] == old(table.slots[..])[claimed := Some(cbs)]
    {
      callbacks := cbs;
      ref := 0;
      slot := -1;
      new;
      slot := table.ClaimSlot(cbs);
      if slot < 0 {
        return;
      }
      ref := native;
      if ref == 0 {
        table.ReleaseSlot(slot);
        assert table.slots[..] == old(table.slots[..]);
        slot := -1;
      }
    }

    method Destroy(table: Table)
      requires slot < table.slots.Length
      modifies this, table.slots
      ensures ref == 0 && slot == -1
      ensures table.slots[..] == if old(slot) < 0 then old(table.slots[..]) else old(table.slots[..])[old(slot) := None]
    {
      ref := 0;
      table.ReleaseSlot(slot);
      slot := -1;
    }
  }
}
