# Stone counter (2024, day 11) — a Dafny model

`extra/2024/11.c` counts the stones of a row that rewrites itself on every
blink. A stone engraved 0 becomes 1. A stone with an even number of decimal
digits splits into its high and low halves. Every other stone is multiplied
by 2024 in 64-bit arithmetic. Equal stones always behave alike, so the
program does not keep the row. It keeps a hash table from stone value to
count:

- open addressing with linear probing;
- the home slot is `stone & (capacity - 1)`;
- the capacity doubles when the insert counter reaches three quarters of it.

Each blink rebuilds the table from the successors of every occupied slot.

This project models that core in five modules:

- `Bits` — 64-bit words (`U64`), bitwise AND on naturals (`And`), the mask
  `x & (n - 1)` (`Mask`), and the modular-arithmetic facts used elsewhere.
- `StoneRule` — the rule for one stone (`Successors`), decimal digit counts
  (`Digits`), powers of ten (`Pow10`), and the loops `count_digits` and
  `digit_multiply` as methods.
- `Population` — the stones as a multiset. `Step(m, rule)` is one blink of a
  whole population and `Blinks(m, n, rule)` is n blinks. It also proves that
  a blink does not depend on the order the stones are rewritten in, that it
  distributes over union, and that it neither shrinks nor more than doubles
  a population. The rule is a parameter; the table instantiates it with
  `Successors`.
- `Slots` — the slot array as a sequence of `Entry(stone, count)`:
  - what the slots hold (`Contents`) and how many are occupied (`Occupied`);
  - the layout rules: no key twice (`Unique`), every key reachable from its
    home slot through occupied slots (`Reachable`);
  - where a search stops (`FindsAt`);
  - the effect of adding at that slot.
- `CountTable` — the C `struct map` as the class `CountMap`:
  - fields `size`, `capacity` and the array `entries`;
  - the layout invariant `Layout()`, which `insert_no_grow` keeps: the
    capacity is a power of two and at least 8, `size` is never below the
    number of occupied slots, and the layout rules hold;
  - the table invariant `Valid()`: the layout, plus the load bound
    `size * 4 <= capacity * 3` that the growth test of `insert` keeps, so a
    valid table always has an empty slot;
  - one method per C function, specified in terms of the multiset
    `Stones()` the table holds.

The modelled functions print nothing; only `main` prints, and it is left
out. Reading the input file (`fscanf`) becomes a sequence argument of
`Parse`.

## Model

| member | source | states |
|---|---|---|
| Bits.MaskIsMod | extra/2024/11.c:18-19 | for a power of two n, `x & (n - 1)` is the remainder of x by n |
| Bits.Mask | extra/2024/11.c:19 | the masked index `x & (n - 1)` equals `x % n`, so it is always a valid slot |
| StoneRule.CountDigits | extra/2024/11.c:64-71 | the repeated division by ten returns the decimal digit count `Digits(stone)` (1 for 0) |
| StoneRule.DigitMultiply | extra/2024/11.c:73-78 | the loop returns 10^i reduced modulo 2^64, and 1 when i is not positive |
| StoneRule.SmallPowerFits | extra/2024/11.c:97 | every power 10^i with i <= 19 asked for in a blink fits in a word, so the reduction does nothing there |
| StoneRule.WordDigits | extra/2024/11.c:93 | a 64-bit stone has at most 20 digits, so half its digit count is at most 10 |
| StoneRule.DigitsBounds | extra/2024/11.c:64-71 | a number with D digits lies below 10^D and, when positive, at or above 10^(D-1) |
| StoneRule.DigitsOfRange | extra/2024/11.c:64-71 | conversely, lying in [10^(D-1), 10^D) means having D digits |
| StoneRule.Successors | extra/2024/11.c:89-101 | one stone turns into one or two stones |
| StoneRule.SplitHalves | extra/2024/11.c:96-100 | an even-digit stone of 2h digits splits into a high half of exactly h digits and a low half below 10^h, and high * 10^h + low gives the stone back |
| Population.StepPick | extra/2024/11.c:84-102 | a blink does not depend on which stone is rewritten first |
| Population.StepUnion | extra/2024/11.c:84-102 | blinking two populations together gives the union of blinking each |
| Population.StepCopies | extra/2024/11.c:86-100 | c equal stones become c copies of each successor, as `insert(&next, …, count)` does |
| Population.StepMonotone | extra/2024/11.c:84-102 | a sub-population blinks to a sub-population |
| Population.StepSize | extra/2024/11.c:84-102 | a blink never removes a stone and at most doubles the population |
| Population.BlinksGrow | extra/2024/11.c:119-121 | the population never shrinks from one number of blinks to a larger one |
| Population.StonesNeverShrink | extra/2024/11.c:119-121 | under the day's rule, the number of stones after a blinks is at most the number after b >= a blinks |
| Slots.StepSlotsIsStep | extra/2024/11.c:84-102 | visiting the slots in order and adding the successors of every occupied slot, count times each, is exactly the blink of the stones the slots hold |
| Slots.StepSlotsSize | extra/2024/11.c:84-102 | after a blink the number of stones is the sum over the slots of count times number of successors |
| Slots.BlinkSlot | extra/2024/11.c:84-101 | visiting slot i adds that slot's successors (nothing for an empty slot), and what has been visited so far never exceeds the whole blink |
| Slots.ContentsCount | extra/2024/11.c:6-9 | with no key held twice, the stones of an occupied slot's key are exactly that slot's count |
| Slots.FindHits | extra/2024/11.c:17-26 | on a well-laid-out table, a search for a key that is held stops at the one slot holding it |
| Slots.FindOutcome | extra/2024/11.c:17-26 | the slot where a search stops is occupied exactly when the table holds the key, in both directions |
| Slots.PassesNext | extra/2024/11.c:20-24 | stepping past a slot that holds another key keeps the search short of the empty slot, so it terminates, and continues at the next slot with wrap-around |
| Slots.InsertKeepsLayout | extra/2024/11.c:28-33 | adding at the slot where the search stops keeps both layout rules, and no occupied slot loses its key |
| Slots.AddAtSlot | extra/2024/11.c:30-31 | adding c at a slot that is empty or holds k gives k exactly c more stones and leaves every other key alone |
| Slots.AddAtSlotOccupied | extra/2024/11.c:30-31 | that addition occupies one more slot exactly when the slot was empty and c is positive |
| Slots.InsertAt | extra/2024/11.c:28-33 | the whole effect of adding at the found slot: layout rules kept, contents plus c stones of k, one more occupied slot exactly when k is new and c positive |
| Slots.MoveStep | extra/2024/11.c:42-44 | during a rehash the new table has at most as many occupied slots as slots visited, and the key of the next old slot is not in it yet |
| Slots.SlotFits | extra/2024/11.c:31 | when the total for a key leaves room for c more, so does the slot where the search for it stops |
| CountTable.CountMap.HasFreeSlot | extra/2024/11.c:36 | on a valid table (size at most three quarters of capacity) fewer slots are occupied than there are slots, so `find` always reaches an empty slot |
| CountTable.CountMap.constructor | extra/2024/11.c:58-62 | `new_map`: a valid, empty table of the given power-of-two capacity with size 0 |
| CountTable.CountMap.Find | extra/2024/11.c:17-26 | `find` stops at the first slot along the probe sequence from `stone & (capacity - 1)` that is empty or holds the stone; it needs only a free slot |
| CountTable.CountMap.InsertNoGrow | extra/2024/11.c:28-33 | exactly one slot changes (the found one, now keyed by stone with count added), size goes up by one, the table gains count stones of stone, and the layout invariant is kept |
| CountTable.CountMap.Grow | extra/2024/11.c:36-47 | growth doubles the capacity, moves the stones into a fresh array with all of them kept, and size is reset to the number of occupied slots, keeping the table invariant with its load bound |
| CountTable.CountMap.MoveSlot | extra/2024/11.c:42-44 | after moving old slot i the new table holds exactly the stones of old slots 0..i in as many occupied slots, counted by size |
| CountTable.CountMap.Insert | extra/2024/11.c:35-49 | `insert` adds count stones of stone; at three quarters full it doubles the capacity first, otherwise the array and capacity stay and size goes up by one; either way the table invariant, load bound included, holds again |
| CountTable.CountMap.Parse | extra/2024/11.c:51-56 | inserting every value with count 1 adds exactly the multiset of the values |
| CountTable.CountMap.GetResult | extra/2024/11.c:108-117 | the 64-bit sum of the counts is the number of stones modulo 2^64 |
| CountTable.CountMap.AddSuccessors | extra/2024/11.c:89-101 | the branch of `blink` for one occupied slot adds count copies of each successor of the stone, for all three cases of the rule |
| CountTable.CountMap.Blink | extra/2024/11.c:80-106 | `blink` replaces the table by a fresh valid one holding exactly the blink `Step` of the old stones, with capacity at least the old one |
| CountTable.CountMap.Adopt | extra/2024/11.c:105 | `*map = next`: the table takes over the other table's size, capacity, array, contents and validity |
| CountTable.CountMap.RunBlinks | extra/2024/11.c:119-121 | `run_blinks` leaves a valid table holding `Blinks(start, count)`, and the start unchanged when count is not positive |

## Left out

- `main` (lines 123-139) is not modelled: opening the input file, the two
  runs of 25 and 50 blinks, and printing. The concrete puzzle answers
  depend on an input file that is not part of this model.
- `fscanf` in `parse` is not modelled: `Parse` takes the values it would
  read as a sequence.
- `calloc` and `free` become fresh arrays of zeroed entries. No allocation
  failure is modelled, and neither is releasing memory.
- `size_t` arithmetic (`size * 4`, `capacity * 3`, `capacity *= 2`) is done
  on unbounded naturals, so its overflow on huge tables is not modelled.
- CountTable.CountMap.InsertNoGrow: requires that the stone's total plus
  count fits in 64 bits. The C `entry->count += count` would wrap there.
- CountTable.CountMap.Insert: requires the same, that the stone's total
  plus count fits in 64 bits, because it ends in `insert_no_grow`.
- CountTable.CountMap.Blink: requires that no value of the blinked
  population occurs 2^64 times or more (`NoOverflow`). For the same reason
  CountTable.CountMap.RunBlinks, CountTable.CountMap.Parse and
  CountTable.CountMap.AddSuccessors carry the same kind of precondition.
- CountTable.CountMap.Blink: does not state the final `size` or the final
  capacity exactly. They depend on the insertion order and slot layout, so
  it states only the invariant and that the capacity did not shrink.
- CountTable.CountMap.Grow: is the growth branch of `insert` (lines 36-47)
  factored out as a method of its own. `insert` calls it exactly when
  `size * 4 >= capacity * 3`.
- CountTable.CountMap.MoveSlot: is the body of the rehash loop (lines 43-44)
  factored out of `Grow`.
- CountTable.CountMap.Find: returns the slot index instead of a pointer to
  the entry. Callers read and write `entries` at that index.
- `digit_count >> 1` on a positive digit count is modelled as division by 2.
- The 64-bit wrap of `2024 * stone` is modelled as written (modulo 2^64).
  The model follows the code, not an unbounded multiplication.
- `blink` seeds the next table with the current capacity (line 82), not with
  the initial 8. The model follows the code.
- The `Population` lemmas are stated for any rule that turns one stone into
  stones (`Rule`). They apply to the day's rule as `Successors`.
