/**
 * The slot storage under the journal, as hostile as its interface allows: writes may fail and leave torn
 * content, a replace may report failure after taking effect, reads may fail, and the machine may stop between
 * any two changes of a slot. `log` holds every content of the disk so far, so a crash is a return to one of them.
 */
module JournalStorage {
  import opened Words

  datatype Slot = Current | CurrentTemp | History(index: nat) | SafeMode | SafeModeTemp

  type Disk = map<Slot, Bytes>

  datatype ReadResult = Success(bytes: Bytes) | Missing | TooLarge | Failed

  function At(disk: Disk, slot: Slot): Option<Bytes> {
    if slot in disk then Some(disk[slot]) else None
  }

  /** What a read reports when nothing interferes with it. */
  function StableRead(disk: Disk, unreadable: set<Slot>, slot: Slot, maxBytes: nat): ReadResult {
    if slot in unreadable then Failed
    else if slot !in disk then Missing
    else if |disk[slot]| > maxBytes then TooLarge
    else Success(disk[slot])
  }

  /** The disks agree on every slot but one. */
  ghost predicate SameExcept(a: Disk, b: Disk, slot: Slot) {
    forall other :: other != slot ==> At(a, other) == At(b, other)
  }

  /** `after` continues `before` with disks that differ from `start` in one slot at most. */
  ghost predicate ContinuesIn(before: seq<Disk>, after: seq<Disk>, start: Disk, slot: Slot) {
    && before <= after
    && forall i :: |before| <= i < |after| ==> SameExcept(start, after[i], slot)
  }

  function Moved(disk: Disk, from: Slot, to: Slot): Disk
    requires from in disk
  {
    disk[to := disk[from]] - {from}
  }

  class Storage {
    var slots: Disk
    var log: seq<Disk>
    /** Slots that cannot be read at present. */
    var unreadable: set<Slot>
    /** Whether reads may fail without such a reason. */
    var flaky: bool
    /** Whether writes, replaces and removals may fail. */
    var faulty: bool

    predicate Valid()
      reads this
    {
      |log| > 0 && log[|log| - 1] == slots
    }

    predicate ReadsWell(slot: Slot)
      reads this
    {
      !flaky && slot !in unreadable
    }

    constructor (slots: Disk, unreadable: set<Slot>, flaky: bool, faulty: bool)
      ensures Valid() && log == [slots]
      ensures this.slots == slots && this.unreadable == unreadable && this.flaky == flaky && this.faulty == faulty
    {
      this.slots, log := slots, [slots];
      this.unreadable, this.flaky, this.faulty := unreadable, flaky, faulty;
    }

    method Read(slot: Slot, maxBytes: nat) returns (r: ReadResult)
      requires Valid()
      ensures r == StableRead(slots, unreadable, slot, maxBytes) || (flaky && r == Failed)
    {
      var fails: bool := *;
      if flaky && fails { return Failed; }
      return StableRead(slots, unreadable, slot, maxBytes);
    }

    method DurableWrite(slot: Slot, bytes: Bytes) returns (ok: bool)
      requires Valid()
      modifies this`slots, this`log
      ensures Valid() && ContinuesIn(old(log), log, old(slots), slot) && SameExcept(old(slots), slots, slot)
      ensures ok ==> At(slots, slot) == Some(bytes)
      ensures !faulty ==> ok
    {
      if faulty {
        var tears: nat := *;
        while tears > 0
          invariant Valid() && ContinuesIn(old(log), log, old(slots), slot) && SameExcept(old(slots), slots, slot)
        {
          var torn: Bytes := *;
          slots := slots[slot := torn];
          log := log + [slots];
          tears := tears - 1;
        }
        if * { return false; }
      }
      slots := slots[slot := bytes];
      log := log + [slots];
      return true;
    }

    /** One indivisible change, which may happen and still be reported as a failure. */
    method AtomicReplace(from: Slot, to: Slot) returns (ok: bool)
      requires Valid()
      modifies this`slots, this`log
      ensures Valid()
      ensures (slots == old(slots) && log == old(log))
              || (from in old(slots) && slots == Moved(old(slots), from, to) && log == old(log) + [slots])
      ensures ok ==> from in old(slots) && slots == Moved(old(slots), from, to)
      ensures !faulty && from in old(slots) ==> ok
    {
      if from !in slots { return false; }
      var fails: bool := *;
      if faulty && fails { return false; }
      slots := Moved(slots, from, to);
      log := log + [slots];
      fails := *;
      return !(faulty && fails);
    }

    method Remove(slot: Slot) returns (ok: bool)
      requires Valid()
      modifies this`slots, this`log
      ensures Valid()
      ensures (slots == old(slots) && log == old(log)) || (slots == old(slots) - {slot} && log == old(log) + [slots])
      ensures ContinuesIn(old(log), log, old(slots), slot) && SameExcept(old(slots), slots, slot)
      ensures ok ==> slot !in slots
      ensures !faulty ==> ok
    {
      var fails: bool := *;
      if faulty && fails { return false; }
      slots := slots - {slot};
      log := log + [slots];
      fails := *;
      return !(faulty && fails);
    }

    /** The machine stops: the disk is what it was at some moment after the first `since` changes. */
    method Crash(since: nat)
      requires Valid() && since < |log|
      modifies this
      ensures Valid() && unreadable == old(unreadable) && flaky == old(flaky) && faulty == old(faulty)
      ensures since < |log| <= |old(log)| && log == old(log)[..|log|]
    {
      var moment: nat := *;
      if since <= moment < |log| {
        log := log[..moment + 1];
        slots := log[moment];
      }
    }
  }
}
