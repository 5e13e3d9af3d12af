/**
 * `struct map`: an open-addressing hash table from stone value to count,
 * with linear probing, growth by doubling, and the blink that rebuilds it.
 */
module CountTable {
  import opened Bits
  import opened StoneRule
  import opened Population
  import opened Slots

  /** Below three quarters of a capacity that is a multiple of 4, one more insert stays within three quarters. */
  lemma LoadAfterInsert(size: nat, capacity: nat, quarter: nat)
    requires capacity == 4 * quarter && size * 4 < capacity * 3
    ensures size < capacity && (size + 1) * 4 <= capacity * 3
  {
  }

  /** After doubling a table whose size was within three quarters, one more insert stays within three quarters. */
  lemma LoadAfterGrow(occupied: nat, size: nat, capacity: nat)
    requires occupied <= size && size * 4 <= capacity * 3 && capacity >= 8
    ensures occupied < 2 * capacity && (occupied + 1) * 4 <= 2 * capacity * 3
  {
  }

  class CountMap {
    /** Number of insert calls since the last rebuild: an upper bound on the occupied slots. */
    var size: nat
    var capacity: nat
    var entries: array<Entry>

    /** The layout invariant, which `insert_no_grow` keeps on its own. */
    ghost predicate Layout()
      reads this, entries
    {
      entries.Length == capacity && Table(entries[..], size)
    }

    /**
     * The table invariant: the layout, and size at most three quarters of
     * capacity, which the growth test of `insert` keeps.
     */
    ghost predicate Valid()
      reads this, entries
    {
      Layout() && size * 4 <= capacity * 3
    }

    /** A valid table always has an empty slot, so every search terminates. */
    lemma HasFreeSlot()
      requires Valid()
      ensures Occupied(entries[..]) < capacity
    {
    }

    /** The stones the table holds: each occupied slot contributes count stones of its key. */
    ghost function Stones(): multiset<U64>
      reads this, entries
    {
      Contents(entries[..])
    }

    /** `new_map`: an empty table of the given power-of-two capacity, all slots zeroed. */
    constructor (capacity: nat)
      requires IsPow2(capacity) && capacity >= 8
      ensures Valid() && fresh(entries)
      ensures this.capacity == capacity && size == 0 && Stones() == multiset{}
    {
      size := 0;
      this.capacity := capacity;
      entries := new Entry[capacity](_ => Entry(0, 0));
      new;
      AllEmpty(entries[..]);
    }

    /**
     * `find`: walks from the home slot `stone & (capacity - 1)` one slot at a
     * time, wrapping with the mask, and stops at the first slot that is empty
     * or holds the stone. On a well-laid-out table that slot is occupied
     * exactly when the table holds the stone (Slots.FindOutcome).
     */
    method Find(stone: U64) returns (index: nat)
      requires entries.Length == capacity && IsPow2(capacity) && Occupied(entries[..]) < capacity
      ensures FindsAt(entries[..], stone, index)
    {
      ghost var s := entries[..];
      index := Mask(stone, capacity);
      ghost var h := Home(stone, capacity);
      ghost var empty := EmptySlot(s);
      ghost var d := 0;
      while true
        invariant d <= Dist(h, empty, capacity)
        invariant index == Probe(h, d, capacity)
        invariant Passes(s, stone, h, d)
        decreases Dist(h, empty, capacity) - d
      {
        var entry := entries[index];
        if entry.count == 0 || entry.stone == stone {
          StopsAt(s, capacity, stone, d);
          return;
        }
        PassesNext(s, capacity, stone, h, d, empty);
        index := Mask(index + 1, capacity);
        d := d + 1;
      }
    }

    /**
     * `insert_no_grow`: adds count to the slot where the search for stone
     * stops (taking the slot over if it was empty), and bumps size whether or
     * not the stone was already there.
     */
    method InsertNoGrow(stone: U64, count: U64) returns (ghost slot: nat)
      requires Layout() && Occupied(entries[..]) < capacity
      requires Stones()[stone] + count < TWO_64
      modifies this`size, entries
      ensures Layout()
      ensures entries == old(entries) && capacity == old(capacity)
      ensures size == old(size) + 1
      ensures FindsAt(old(entries[..]), stone, slot)
      ensures entries[..] == old(entries[..])[slot := entries[slot]]
      ensures entries[slot].stone == stone && entries[slot].count == old(entries[..])[slot].count + count
      ensures Stones() == old(Stones()) + Copies(stone, count)
      ensures Occupied(entries[..]) == old(Occupied(entries[..])) + (if stone in old(Stones()) || count == 0 then 0 else 1)
    {
      ghost var s := entries[..];
      var index := Find(stone);
      slot := index;
      var entry := entries[index];
      SlotFits(s, stone, count, index);
      entries[index] := Entry(stone, entry.count + count);
      size := size + 1;
      InsertAt(s, entries[..], stone, count, index);
    }

    /**
     * The growth step of `insert`: doubles the capacity and moves every
     * occupied slot, in slot order, into a fresh zeroed array with
     * `insert_no_grow`; size then counts exactly the moved slots.
     */
    method Grow()
      requires Valid()
      modifies this
      ensures Valid() && fresh(entries)
      ensures capacity == 2 * old(capacity)
      ensures size == Occupied(entries[..]) == old(Occupied(entries[..]))
      ensures Stones() == old(Stones())
    {
      var previous := entries;
      var oldCapacity := capacity;
      ghost var s := previous[..];
      size := 0;
      capacity := capacity * 2;
      entries := new Entry[capacity](_ => Entry(0, 0));
      AllEmpty(entries[..]);
      var i := 0;
      while i < oldCapacity
        invariant 0 <= i <= oldCapacity == previous.Length == |s| && Unique(s)
        invariant unchanged(previous)
        invariant fresh(entries) && capacity == 2 * oldCapacity
        invariant Layout()
        invariant HoldsPrefix(entries[..], size, s, i)
      {
        MoveSlot(previous[i], s, i);
        i := i + 1;
      }
      assert s[..oldCapacity] == s;
    }

    /**
     * One pass of the rehash loop of `insert`: slot i of the old slots s is
     * moved with `insert_no_grow` when it is occupied, so that the table then
     * holds the first i + 1 old slots.
     */
    method MoveSlot(entry: Entry, ghost s: seq<Entry>, ghost i: nat)
      requires Layout() && Unique(s) && i < |s| < capacity && s[i] == entry
      requires HoldsPrefix(entries[..], size, s, i)
      modifies this`size, entries
      ensures Layout() && entries == old(entries) && capacity == old(capacity)
      ensures HoldsPrefix(entries[..], size, s, i + 1)
    {
      ghost var t, before := entries[..], size;
      MoveStep(s, i, t, before);
      if entry.count > 0 {
        ghost var _ := InsertNoGrow(entry.stone, entry.count);
        MoveDone(s, i, t, before, entries[..]);
      }
    }

    /**
     * `insert`: when size has reached three quarters of capacity, first
     * grows the table; then adds count to the stone's slot.
     */
    method Insert(stone: U64, count: U64)
      requires Valid()
      requires Stones()[stone] + count < TWO_64
      modifies this, entries
      ensures Valid() && (entries == old(entries) || fresh(entries))
      ensures Stones() == old(Stones()) + Copies(stone, count)
      ensures old(size) * 4 >= old(capacity) * 3 ==>
                capacity == 2 * old(capacity) && size == old(Occupied(entries[..])) + 1
      ensures old(size) * 4 < old(capacity) * 3 ==>
                capacity == old(capacity) && size == old(size) + 1 && entries == old(entries)
    {
      if size * 4 >= capacity * 3 {
        ghost var before, limit := size, capacity;
        Grow();
        OccupiedAtMost(old(entries[..]));
        LoadAfterGrow(size, before, limit);
      } else {
        var quarter := Pow2Quarter(capacity);
        LoadAfterInsert(size, capacity, quarter);
      }
      ghost var _ := InsertNoGrow(stone, count);
    }

    /** `parse`, without the file: inserts every value once, with count 1. */
    method Parse(values: seq<U64>)
      requires Valid()
      requires NoOverflow(Stones() + multiset(values))
      modifies this, entries
      ensures Valid() && (entries == old(entries) || fresh(entries))
      ensures Stones() == old(Stones()) + multiset(values)
    {
      ghost var start := Stones();
      var i := 0;
      while i < |values|
        invariant 0 <= i <= |values|
        invariant Valid() && (entries == old(entries) || fresh(entries))
        invariant Stones() == start + multiset(values[..i])
      {
        var v := values[i];
        NextValue(start, values, i);
        Insert(v, 1);
        i := i + 1;
      }
      AllValues(values);
    }

    /** `get_result`: the sum of the counts of all slots, in 64-bit arithmetic. */
    method GetResult() returns (result: U64)
      requires entries.Length == capacity
      ensures result == |Stones()| % TWO_64
    {
      ghost var s := entries[..];
      result := 0;
      var i := 0;
      while i < capacity
        invariant 0 <= i <= capacity == |s|
        invariant result == |Contents(s[..i])| % TWO_64
      {
        var count := entries[i].count;
        PrefixSize(s, i);
        AddMod(result, |Contents(s[..i])|, count);
        result := (result + count) % TWO_64;
        i := i + 1;
      }
      assert s[..capacity] == s;
    }

    /**
     * The body of `blink` for one occupied slot of count stones: inserts the
     * successors of stone into this table (the next one), count of each.
     */
    method AddSuccessors(stone: U64, count: U64)
      requires Valid()
      requires NoOverflow(Stones() + Spread(Successors(stone), count))
      modifies this, entries
      ensures Valid() && (entries == old(entries) || fresh(entries))
      ensures Stones() == old(Stones()) + Spread(Successors(stone), count)
      ensures capacity >= old(capacity)
    {
      ghost var after := Stones() + Spread(Successors(stone), count);
      if stone == 0 {
        SpreadSingle(1, count);
        Room(Stones(), 1, count, after);
        Insert(1, count);
      } else {
        var digitCount := CountDigits(stone);
        if Mask(digitCount, 2) != 0 {
          GrowCase(stone);
          SpreadSingle((2024 * stone) % TWO_64, count);
          Room(Stones(), (2024 * stone) % TWO_64, count, after);
          Insert((2024 * stone) % TWO_64, count);
        } else {
          // `digit_count >> 1` on a positive count
          WordDigits(stone);
          SmallPowerFits(digitCount / 2);
          var m := DigitMultiply(digitCount / 2);
          SplitCase(stone, m);
          SpreadPair(stone / m, stone % m, count);
          RoomForTwo(Stones(), stone / m, stone % m, count, after);
          Insert(stone / m, count);
          Insert(stone % m, count);
        }
      }
    }

    /**
     * `blink`: builds a fresh table of the current capacity, inserts the
     * successors of every occupied slot with that slot's count, and then
     * takes the fresh table's place.
     */
    method Blink()
      requires Valid()
      requires NoOverflow(Step(Stones(), Successors))
      modifies this
      ensures Valid() && fresh(entries)
      ensures Stones() == Step(old(Stones()), Successors)
      ensures capacity >= old(capacity)
    {
      ghost var s := entries[..];
      ghost var target := StepSlots(s);
      StepSlotsIsStep(s);
      var current, slots := entries, capacity;
      var next := new CountMap(slots);
      var i := 0;
      while i < slots
        invariant 0 <= i <= slots == current.Length
        invariant unchanged(current)
        invariant fresh(next) && fresh(next.entries) && next.Valid()
        invariant next.capacity >= slots
        invariant next.Stones() == StepSlots(s[..i])
      {
        var entry := current[i];
        BlinkSlot(s, i);
        if entry.count != 0 {
          NoOverflowWithin(StepSlots(s[..i + 1]), target);
          next.AddSuccessors(entry.stone, entry.count);
        }
        i := i + 1;
      }
      StepSlotsAll(s);
      Adopt(next);
    }

    /** `*map = next`: this table takes over the fields of another one. */
    method Adopt(next: CountMap)
      requires next != this && next.Valid()
      modifies this
      ensures Valid() && entries == next.entries
      ensures size == next.size && capacity == next.capacity && Stones() == next.Stones()
    {
      size, capacity, entries := next.size, next.capacity, next.entries;
    }

    /** `run_blinks`: count blinks in a row (none when count is not positive). */
    method RunBlinks(count: int)
      requires Valid()
      requires forall r :: 1 <= r <= count ==> NoOverflow(Blinks(Stones(), r, Successors))
      modifies this
      ensures Valid()
      ensures Stones() == Blinks(old(Stones()), if count < 0 then 0 else count, Successors)
    {
      ghost var start := Stones();
      ghost var n: nat := if count < 0 then 0 else count;
      var i := 0;
      while i < count
        invariant 0 <= i <= n
        invariant Valid()
        invariant Stones() == Blinks(start, i, Successors)
      {
        assert NoOverflow(Blinks(start, i + 1, Successors));
        Blink();
        i := i + 1;
      }
    }
  }
}
