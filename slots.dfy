/**
 * The slot array of the count table as a plain sequence: what the slots
 * hold, and the layout rules of open addressing with linear probing that
 * the table keeps (no key twice, every key reachable from its home slot
 * without crossing an empty slot).
 */
module Slots {
  import opened Bits
  import opened StoneRule
  import opened Population

  /** `struct entry`: a slot is empty exactly when its count is 0; there are no tombstones. */
  datatype Entry = Entry(stone: U64, count: U64)

  /** The stones held by a run of slots; an empty slot holds none, whatever its key field says. */
  ghost function Contents(s: seq<Entry>): multiset<U64>
  {
    if s == [] then multiset{}
    else Contents(s[..|s| - 1]) + Copies(s[|s| - 1].stone, s[|s| - 1].count)
  }

  /** Number of occupied slots. */
  ghost function Occupied(s: seq<Entry>): nat
  {
    if s == [] then 0
    else Occupied(s[..|s| - 1]) + (if s[|s| - 1].count > 0 then 1 else 0)
  }

  /** What one blink makes of a run of slots, visiting each slot once and skipping the empty ones. */
  ghost function StepSlots(s: seq<Entry>): multiset<U64>
  {
    if s == [] then multiset{}
    else
      var e := s[|s| - 1];
      StepSlots(s[..|s| - 1]) + (if e.count == 0 then multiset{} else Spread(Successors(e.stone), e.count))
  }

  /** The sum over the slots of count times number of successors. */
  ghost function Demand(s: seq<Entry>): nat
  {
    if s == [] then 0
    else Demand(s[..|s| - 1]) + |Successors(s[|s| - 1].stone)| * s[|s| - 1].count
  }

  lemma {:induction false} ContentsAppend(a: seq<Entry>, b: seq<Entry>)
    ensures Contents(a + b) == Contents(a) + Contents(b)
    decreases |b|
  {
    if b == [] {
      assert a + b == a;
    } else {
      var b' := b[..|b| - 1];
      assert (a + b)[..|a + b| - 1] == a + b';
      ContentsAppend(a, b');
    }
  }

  lemma {:induction false} OccupiedAppend(a: seq<Entry>, b: seq<Entry>)
    ensures Occupied(a + b) == Occupied(a) + Occupied(b)
    decreases |b|
  {
    if b == [] {
      assert a + b == a;
    } else {
      var b' := b[..|b| - 1];
      assert (a + b)[..|a + b| - 1] == a + b';
      OccupiedAppend(a, b');
    }
  }

  lemma {:induction false} StepSlotsAppend(a: seq<Entry>, b: seq<Entry>)
    ensures StepSlots(a + b) == StepSlots(a) + StepSlots(b)
    decreases |b|
  {
    if b == [] {
      assert a + b == a;
    } else {
      var b' := b[..|b| - 1];
      assert (a + b)[..|a + b| - 1] == a + b';
      StepSlotsAppend(a, b');
    }
  }

  /** Extending a prefix of the slots by one slot. */
  lemma PrefixStep(s: seq<Entry>, i: nat)
    requires i < |s|
    ensures Contents(s[..i + 1]) == Contents(s[..i]) + Copies(s[i].stone, s[i].count)
    ensures Occupied(s[..i + 1]) == Occupied(s[..i]) + (if s[i].count > 0 then 1 else 0)
  {
    assert s[..i + 1][..i] == s[..i];
  }

  /** ... so the stones of the first i + 1 slots are those of the first i and the count of slot i. */
  lemma PrefixSize(s: seq<Entry>, i: nat)
    requires i < |s|
    ensures |Contents(s[..i + 1])| == |Contents(s[..i])| + s[i].count
  {
    PrefixStep(s, i);
  }

  /** Overwriting slot i changes the contents by what the slot held before and after. */
  lemma SlotUpdateContents(s: seq<Entry>, i: nat, e: Entry)
    requires i < |s|
    ensures Contents(s[i := e]) + Copies(s[i].stone, s[i].count) == Contents(s) + Copies(e.stone, e.count)
  {
    var pre, post := s[..i], s[i + 1..];
    assert s == pre + [s[i]] + post;
    assert s[i := e] == pre + [e] + post;
    ContentsAppend(pre + [s[i]], post);
    ContentsAppend(pre, [s[i]]);
    ContentsAppend(pre + [e], post);
    ContentsAppend(pre, [e]);
    assert Contents([s[i]]) == Copies(s[i].stone, s[i].count);
    assert Contents([e]) == Copies(e.stone, e.count);
  }

  /** Overwriting slot i changes the number of occupied slots by the slot's change. */
  lemma SlotUpdateOccupied(s: seq<Entry>, i: nat, e: Entry)
    requires i < |s|
    ensures Occupied(s[i := e]) + (if s[i].count > 0 then 1 else 0)
            == Occupied(s) + (if e.count > 0 then 1 else 0)
  {
    var pre, post := s[..i], s[i + 1..];
    assert s == pre + [s[i]] + post;
    assert s[i := e] == pre + [e] + post;
    OccupiedAppend(pre + [s[i]], post);
    OccupiedAppend(pre, [s[i]]);
    OccupiedAppend(pre + [e], post);
    OccupiedAppend(pre, [e]);
    assert Occupied([s[i]]) == (if s[i].count > 0 then 1 else 0);
    assert Occupied([e]) == (if e.count > 0 then 1 else 0);
  }

  /** A run of empty slots holds nothing. */
  lemma {:induction false} AllEmpty(s: seq<Entry>)
    requires forall j :: 0 <= j < |s| ==> s[j].count == 0
    ensures Contents(s) == multiset{} && Occupied(s) == 0
  {
    if s != [] {
      AllEmpty(s[..|s| - 1]);
    }
  }

  lemma {:induction false} OccupiedAtMost(s: seq<Entry>)
    ensures Occupied(s) <= |s|
  {
    if s != [] {
      OccupiedAtMost(s[..|s| - 1]);
    }
  }

  /** Fewer occupied slots than slots leaves an empty one. */
  lemma {:induction false} EmptySlot(s: seq<Entry>) returns (e: nat)
    requires Occupied(s) < |s|
    ensures e < |s| && s[e].count == 0
  {
    var init := s[..|s| - 1];
    if s[|s| - 1].count == 0 {
      e := |s| - 1;
    } else {
      e := EmptySlot(init);
    }
  }

  /** A key that no occupied slot holds has no stones. */
  lemma {:induction false} ContentsAbsent(s: seq<Entry>, k: U64)
    requires forall j :: 0 <= j < |s| && s[j].count > 0 ==> s[j].stone != k
    ensures Contents(s)[k] == 0
  {
    if s != [] {
      ContentsAbsent(s[..|s| - 1], k);
    }
  }

  /** A key with stones is held by some occupied slot. */
  lemma ContentsWitness(s: seq<Entry>, k: U64) returns (j: nat)
    requires k in Contents(s)
    ensures j < |s| && s[j].count > 0 && s[j].stone == k
  {
    if forall j :: 0 <= j < |s| && s[j].count > 0 ==> s[j].stone != k {
      ContentsAbsent(s, k);
    } else {
      j :| 0 <= j < |s| && s[j].count > 0 && s[j].stone == k;
    }
  }

  /** No key is held by two occupied slots. */
  ghost predicate Unique(s: seq<Entry>)
  {
    forall i, j :: 0 <= i < |s| && 0 <= j < |s| && s[i].count > 0 && s[j].count > 0 && s[i].stone == s[j].stone ==> i == j
  }

  /** With no key held twice, the stones of a key are the count of the slot that holds it. */
  lemma {:induction false} ContentsCount(s: seq<Entry>, j: nat)
    requires Unique(s) && j < |s| && s[j].count > 0
    ensures Contents(s)[s[j].stone] == s[j].count
  {
    var init, k := s[..|s| - 1], s[j].stone;
    assert Unique(init);
    if j == |s| - 1 {
      ContentsAbsent(init, k);
    } else {
      ContentsCount(init, j);
    }
  }

  /** StepSlots is the blink of the stones the slots hold. */
  lemma {:induction false} StepSlotsIsStep(s: seq<Entry>)
    ensures StepSlots(s) == Step(Contents(s), Successors)
  {
    if s == [] {
      assert Contents(s) == multiset{};
    } else {
      var init, e := s[..|s| - 1], s[|s| - 1];
      StepSlotsIsStep(init);
      StepUnion(Contents(init), Copies(e.stone, e.count), Successors);
      StepCopies(e.stone, e.count, Successors);
      if e.count == 0 {
        assert Copies(e.stone, 0) == multiset{};
        assert Step(multiset{}, Successors) == multiset{};
      }
    }
  }

  /** The population after a blink is the sum of count times number of successors. */
  lemma {:induction false} StepSlotsSize(s: seq<Entry>)
    ensures |StepSlots(s)| == Demand(s)
  {
    if s != [] {
      var init, e := s[..|s| - 1], s[|s| - 1];
      StepSlotsSize(init);
      var added := if e.count == 0 then multiset{} else Spread(Successors(e.stone), e.count);
      SpreadSize(Successors(e.stone), e.count);
      assert |added| == |Successors(e.stone)| * e.count;
      assert StepSlots(s) == StepSlots(init) + added;
    }
  }

  /** Blinking a prefix of the slots gives part of what blinking all of them gives. */
  lemma StepSlotsPrefix(s: seq<Entry>, i: nat)
    requires i <= |s|
    ensures StepSlots(s[..i]) <= StepSlots(s)
  {
    assert s == s[..i] + s[i..];
    StepSlotsAppend(s[..i], s[i..]);
  }

  lemma StepSlotsAll(s: seq<Entry>)
    ensures StepSlots(s[..|s|]) == StepSlots(s)
  {
    assert s[..|s|] == s;
  }

  /** Visiting slot i in a blink adds what that slot produces, and stays within the blink of all slots. */
  lemma BlinkSlot(s: seq<Entry>, i: nat)
    requires i < |s|
    ensures StepSlots(s[..i + 1]) == StepSlots(s[..i])
              + (if s[i].count == 0 then multiset{} else Spread(Successors(s[i].stone), s[i].count))
    ensures StepSlots(s[..i + 1]) <= StepSlots(s)
  {
    assert s[..i + 1][..i] == s[..i];
    StepSlotsPrefix(s, i + 1);
  }

  // ----- Linear probing -----

  /** The home slot of key k in a table of n slots. */
  function Home(k: U64, n: nat): (h: nat)
    requires n > 0
    ensures h < n
  {
    k % n
  }

  /** The slot t steps after h, wrapping around the end of the table. */
  function Probe(h: nat, t: nat, n: nat): (p: nat)
    requires h < n && t < n
    ensures p < n
  {
    if h + t < n then h + t else h + t - n
  }

  /** How many steps it takes to walk from slot h to slot i. */
  function Dist(h: nat, i: nat, n: nat): (d: nat)
    requires h < n && i < n
    ensures d < n && Probe(h, d, n) == i
  {
    if h <= i then i - h else i + n - h
  }

  lemma DistOfProbe(h: nat, t: nat, n: nat)
    requires h < n && t < n
    ensures Dist(h, Probe(h, t, n), n) == t
  {
  }

  /** The first d slots from h are all occupied. */
  ghost predicate RunFull(s: seq<Entry>, h: nat, d: nat)
    requires h < |s| && d <= |s|
  {
    forall p {:trigger Dist(h, p, |s|)} :: 0 <= p < |s| && Dist(h, p, |s|) < d ==> s[p].count > 0
  }

  /** Every occupied key sits at the end of an occupied run starting at its home slot. */
  ghost predicate Reachable(s: seq<Entry>)
  {
    forall j :: 0 <= j < |s| && s[j].count > 0 ==>
      RunFull(s, Home(s[j].stone, |s|), Dist(Home(s[j].stone, |s|), j, |s|))
  }

  /** The first d slots from h are occupied by keys other than k. */
  ghost predicate Passes(s: seq<Entry>, k: U64, h: nat, d: nat)
    requires h < |s| && d <= |s|
  {
    forall p {:trigger Dist(h, p, |s|)} :: 0 <= p < |s| && Dist(h, p, |s|) < d ==> s[p].count > 0 && s[p].stone != k
  }

  /**
   * A search for k that passes slot Probe(h, d) (occupied by another key)
   * has not yet reached the empty slot e, passes d + 1 slots, and goes on at
   * the next slot, wrapping at the end.
   */
  lemma PassesNext(s: seq<Entry>, n: nat, k: U64, h: nat, d: nat, e: nat)
    requires n == |s| && h < n && e < n && s[e].count == 0 && d <= Dist(h, e, n) && Passes(s, k, h, d)
    requires s[Probe(h, d, n)].count > 0 && s[Probe(h, d, n)].stone != k
    ensures d + 1 <= Dist(h, e, n) && Passes(s, k, h, d + 1)
    ensures Probe(h, d + 1, n) == (Probe(h, d, n) + 1) % n
  {
    var i := Probe(h, d, n);
    DistOfProbe(h, d, n);
    forall p | 0 <= p < n && Dist(h, p, n) < d + 1 ensures s[p].count > 0 && s[p].stone != k {
      if Dist(h, p, n) == d {
        assert p == i;
      }
    }
    NextMod(i, n);
  }

  /**
   * Slot i is where a search for k stops: the first slot along the probe
   * sequence from k's home that is empty or holds k.
   */
  ghost predicate FindsAt(s: seq<Entry>, k: U64, i: nat)
  {
    && i < |s|
    && (s[i].count == 0 || s[i].stone == k)
    && Passes(s, k, Home(k, |s|), Dist(Home(k, |s|), i, |s|))
  }

  /** On a well-laid-out table, a search for a key that is held stops at the slot holding it. */
  lemma FindHits(s: seq<Entry>, k: U64, i: nat, j: nat)
    requires Unique(s) && Reachable(s) && FindsAt(s, k, i)
    requires j < |s| && s[j].count > 0 && s[j].stone == k
    ensures i == j
  {
    var n := |s|;
    var h := Home(k, n);
    var di, dj := Dist(h, i, n), Dist(h, j, n);
    assert RunFull(s, h, dj);
    if di < dj {
      assert s[i].count > 0;
    }
  }

  /** The slot a search stops at is occupied exactly when the key has stones. */
  lemma FindOutcome(s: seq<Entry>, k: U64, i: nat)
    requires Unique(s) && Reachable(s) && FindsAt(s, k, i)
    ensures s[i].count > 0 <==> k in Contents(s)
  {
    if s[i].count > 0 {
      ContentsCount(s, i);
    } else if k in Contents(s) {
      var j := ContentsWitness(s, k);
      FindHits(s, k, i, j);
    }
  }

  /** Where a search that passed d slots from k's home meets an empty slot or k, it stops. */
  lemma StopsAt(s: seq<Entry>, n: nat, k: U64, d: nat)
    requires n == |s| && n > 0 && d < n
    requires Passes(s, k, Home(k, n), d)
    requires var i := Probe(Home(k, n), d, n); s[i].count == 0 || s[i].stone == k
    ensures FindsAt(s, k, Probe(Home(k, n), d, n))
  {
    DistOfProbe(Home(k, n), d, n);
  }

  /** Slots occupied in s stay occupied in s', and keep their keys. */
  ghost predicate Grows(s: seq<Entry>, s': seq<Entry>)
  {
    |s| == |s'| &&
    forall p :: 0 <= p < |s| && s[p].count > 0 ==> s'[p].count > 0 && s'[p].stone == s[p].stone
  }

  lemma RunFullGrows(s: seq<Entry>, s': seq<Entry>, h: nat, d: nat)
    requires Grows(s, s') && h < |s| && d <= |s| && RunFull(s, h, d)
    ensures RunFull(s', h, d)
  {
    forall p | 0 <= p < |s| && Dist(h, p, |s|) < d ensures s'[p].count > 0 {
      assert s[p].count > 0;
    }
  }

  /**
   * Adding c to the slot where the search for k stops keeps both layout
   * rules: the key is new only where no other slot held it, and it lands at
   * the end of an occupied run from its home.
   */
  lemma InsertKeepsLayout(s: seq<Entry>, k: U64, c: U64, i: nat)
    requires Unique(s) && Reachable(s) && FindsAt(s, k, i)
    requires s[i].count + c < TWO_64
    ensures var s' := s[i := Entry(k, s[i].count + c)];
            Unique(s') && Reachable(s') && Grows(s, s')
  {
    var n := |s|;
    var s' := s[i := Entry(k, s[i].count + c)];
    assert Grows(s, s');
    var h := Home(k, n);
    forall j | 0 <= j < n && s'[j].count > 0
      ensures RunFull(s', Home(s'[j].stone, n), Dist(Home(s'[j].stone, n), j, n))
    {
      if j == i {
        assert RunFull(s, h, Dist(h, i, n));
        RunFullGrows(s, s', h, Dist(h, i, n));
      } else {
        var hj := Home(s[j].stone, n);
        assert RunFull(s, hj, Dist(hj, j, n));
        RunFullGrows(s, s', hj, Dist(hj, j, n));
      }
    }
    forall a, b | 0 <= a < n && 0 <= b < n && s'[a].count > 0 && s'[b].count > 0 && s'[a].stone == s'[b].stone
      ensures a == b
    {
      if a != b && (a == i || b == i) {
        var other := if a == i then b else a;
        if s[i].count == 0 {
          FindHits(s, k, i, other);
        }
      }
    }
  }

  /** Adding c stones of k at a slot that is empty or already holds k gives k c more stones. */
  lemma AddAtSlot(s: seq<Entry>, k: U64, c: U64, i: nat)
    requires i < |s| && (s[i].count == 0 || s[i].stone == k)
    requires s[i].count + c < TWO_64
    ensures Contents(s[i := Entry(k, s[i].count + c)]) == Contents(s) + Copies(k, c)
  {
    var s' := s[i := Entry(k, s[i].count + c)];
    var before := Copies(s[i].stone, s[i].count);
    SlotUpdateContents(s, i, Entry(k, s[i].count + c));
    if s[i].count > 0 {
      CopiesAdd(k, s[i].count, c);
      assert Contents(s) + Copies(k, s[i].count + c) == (Contents(s) + Copies(k, c)) + before;
      Cancel(Contents(s'), Contents(s) + Copies(k, c), before);
    } else {
      assert before == multiset{};
      assert Contents(s') + before == Contents(s');
    }
  }

  /** ... and occupies one more slot exactly when the slot was empty and c is positive. */
  lemma AddAtSlotOccupied(s: seq<Entry>, k: U64, c: U64, i: nat)
    requires i < |s| && s[i].count + c < TWO_64
    ensures Occupied(s[i := Entry(k, s[i].count + c)]) == Occupied(s) + (if s[i].count == 0 && c > 0 then 1 else 0)
  {
    SlotUpdateOccupied(s, i, Entry(k, s[i].count + c));
  }

  /** t holds exactly the stones of the first i slots of s, in as many slots, and size counts them. */
  ghost predicate HoldsPrefix(t: seq<Entry>, size: nat, s: seq<Entry>, i: nat)
  {
    i <= |s| && Contents(t) == Contents(s[..i]) && Occupied(t) == size == Occupied(s[..i])
  }

  /**
   * Before moving slot i of s into a table t that holds the slots before it:
   * at most i slots of t are taken, the key of slot i is not in t yet,
   * and an empty slot i needs no move.
   */
  lemma MoveStep(s: seq<Entry>, i: nat, t: seq<Entry>, size: nat)
    requires Unique(s) && i < |s| && HoldsPrefix(t, size, s, i)
    ensures Occupied(t) <= i
    ensures s[i].count > 0 ==> Contents(t)[s[i].stone] == 0
    ensures s[i].count == 0 ==> HoldsPrefix(t, size, s, i + 1)
  {
    PrefixStep(s, i);
    OccupiedAtMost(s[..i]);
    if s[i].count > 0 {
      ContentsAbsent(s[..i], s[i].stone);
    }
  }

  /** After the stones of the occupied slot i went into one new slot of t, giving t', t' holds the first i + 1 slots. */
  lemma MoveDone(s: seq<Entry>, i: nat, t: seq<Entry>, size: nat, t': seq<Entry>)
    requires i < |s| && HoldsPrefix(t, size, s, i) && s[i].count > 0
    requires Contents(t') == Contents(t) + Copies(s[i].stone, s[i].count)
    requires Occupied(t') == Occupied(t) + 1
    ensures HoldsPrefix(t', size + 1, s, i + 1)
  {
    PrefixStep(s, i);
  }

  /** A search for k stops at a slot whose count leaves room for c more when the key itself does. */
  lemma SlotFits(s: seq<Entry>, k: U64, c: U64, i: nat)
    requires Unique(s) && i < |s| && (s[i].count == 0 || s[i].stone == k)
    requires Contents(s)[k] + c < TWO_64
    ensures s[i].count + c < TWO_64
  {
    if s[i].count > 0 {
      ContentsCount(s, i);
    }
  }

  /** The table invariant on the slots and the insert count. */
  ghost predicate Table(s: seq<Entry>, size: nat)
  {
    IsPow2(|s|) && |s| >= 8 && Occupied(s) <= size && Unique(s) && Reachable(s)
  }

  /**
   * The whole effect of adding c stones of k at the slot i where the search
   * for k stops, giving s': the layout rules still hold, the contents gain c
   * stones of k, and one more slot is occupied exactly when k was new and c
   * is positive.
   */
  lemma InsertAt(s: seq<Entry>, s': seq<Entry>, k: U64, c: U64, i: nat)
    requires Unique(s) && Reachable(s) && FindsAt(s, k, i)
    requires |s'| == |s| && s' == s[i := s'[i]]
    requires s'[i].stone == k && s'[i].count == s[i].count + c
    ensures Unique(s') && Reachable(s')
    ensures Contents(s') == Contents(s) + Copies(k, c)
    ensures Occupied(s') == Occupied(s) + (if k in Contents(s) || c == 0 then 0 else 1)
  {
    assert s' == s[i := Entry(k, s[i].count + c)];
    assert s[i].count > 0 <==> k in Contents(s) by {
      FindOutcome(s, k, i);
    }
    InsertKeepsLayout(s, k, c, i);
    AddAtSlot(s, k, c, i);
    AddAtSlotOccupied(s, k, c, i);
  }
}
