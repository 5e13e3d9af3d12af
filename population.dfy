/**
 * The stones on the table as a multiset of values: stones of equal value
 * are interchangeable, so only how many there are of each value matters.
 * One blink rewrites every stone at once; Step is that rewrite on the whole
 * population, independent of any table layout.
 */
module Population {
  import opened Bits
  import opened StoneRule

  /** c stones of value k. */
  function Copies(k: U64, c: nat): (r: multiset<U64>)
    ensures r[k] == c && |r| == c
  {
    multiset{}[k := c]
  }

  lemma CopiesAdd(k: U64, a: nat, b: nat)
    ensures Copies(k, a + b) == Copies(k, a) + Copies(k, b)
  {
    var l, r := Copies(k, a + b), Copies(k, a) + Copies(k, b);
    forall j ensures l[j] == r[j] {
      if j != k {
        assert l[j] == 0 && r[j] == 0;
      }
    }
  }

  lemma Cancel(a: multiset<U64>, b: multiset<U64>, x: multiset<U64>)
    requires a + x == b + x
    ensures a == b
  {
    forall y ensures a[y] == b[y] {
      assert (a + x)[y] == (b + x)[y];
    }
  }

  /** c stones of each value listed in vs (a value listed twice gets 2c). */
  function Spread(vs: seq<U64>, c: nat): multiset<U64>
  {
    if vs == [] then multiset{} else Copies(vs[0], c) + Spread(vs[1..], c)
  }

  lemma MulStep(n: nat, m: nat, c: nat)
    requires m + 1 == n
    ensures c + m * c == n * c
  {
  }

  lemma {:induction false} SpreadSize(vs: seq<U64>, c: nat)
    ensures |Spread(vs, c)| == |vs| * c
    decreases |vs|
  {
    if vs != [] {
      SpreadSize(vs[1..], c);
      assert |Spread(vs, c)| == c + |Spread(vs[1..], c)|;
      MulStep(|vs|, |vs[1..]|, c);
    }
  }

  lemma SpreadSingle(a: U64, c: nat)
    ensures Spread([a], c) == Copies(a, c)
  {
    assert [a][1..] == [];
  }

  lemma SpreadPair(a: U64, b: U64, c: nat)
    ensures Spread([a, b], c) == Copies(a, c) + Copies(b, c)
  {
    assert [a, b][1..] == [b];
    SpreadSingle(b, c);
  }

  /** No value occurs 2^64 times or more, so every count fits in a word. */
  ghost predicate NoOverflow(m: multiset<U64>)
  {
    forall v :: m[v] < TWO_64
  }

  /** Part of a population that fits fits too. */
  lemma NoOverflowWithin(a: multiset<U64>, b: multiset<U64>)
    requires a <= b && NoOverflow(b)
    ensures NoOverflow(a)
  {
    forall v ensures a[v] < TWO_64 {
      assert a[v] <= b[v];
    }
  }

  /** Part of a population that fits leaves room for c more stones of v, when those are part of it too. */
  lemma Room(a: multiset<U64>, v: U64, c: nat, b: multiset<U64>)
    requires a + Copies(v, c) <= b && NoOverflow(b)
    ensures a[v] + c < TWO_64
  {
    assert (a + Copies(v, c))[v] <= b[v];
  }

  /** The same for two groups of c stones added one after the other. */
  lemma RoomForTwo(a: multiset<U64>, x: U64, y: U64, c: nat, b: multiset<U64>)
    requires a + Copies(x, c) + Copies(y, c) <= b && NoOverflow(b)
    ensures a[x] + c < TWO_64 && (a + Copies(x, c))[y] + c < TWO_64
  {
    assert (a + Copies(x, c) + Copies(y, c))[x] <= b[x];
    assert (a + Copies(x, c) + Copies(y, c))[y] <= b[y];
  }

  /** Adding the values of a list one at a time: the next value still fits when the whole list does. */
  lemma NextValue(start: multiset<U64>, values: seq<U64>, i: nat)
    requires i < |values| && NoOverflow(start + multiset(values))
    ensures (start + multiset(values[..i]))[values[i]] + 1 < TWO_64
    ensures start + multiset(values[..i + 1]) == start + multiset(values[..i]) + Copies(values[i], 1)
  {
    var v := values[i];
    assert values == values[..i] + [v] + values[i + 1..];
    assert (start + multiset(values))[v] == (start + multiset(values[..i]))[v] + 1 + multiset(values[i + 1..])[v];
    assert values[..i + 1] == values[..i] + [v];
  }

  lemma AllValues(values: seq<U64>)
    ensures multiset(values[..|values|]) == multiset(values)
  {
    assert values[..|values|] == values;
  }

  /** How a blink rewrites one stone: the stones it turns into. */
  type Rule = U64 -> seq<U64>

  /** Every stone turns into one or two stones. */
  ghost predicate OneOrTwo(rule: Rule)
  {
    forall x :: 1 <= |rule(x)| <= 2
  }

  /** Taking a stone of a out of a + b leaves the rest of a beside b. */
  lemma TakeFromLeft(a: multiset<U64>, b: multiset<U64>, x: U64)
    requires x in a
    ensures a + b - multiset{x} == (a - multiset{x}) + b
  {
  }

  /** Taking one stone out of c copies leaves c - 1 copies. */
  lemma CopiesLess(x: U64, c: nat)
    requires c > 0
    ensures Copies(x, c) - multiset{x} == Copies(x, c - 1)
  {
    var l, r := Copies(x, c) - multiset{x}, Copies(x, c - 1);
    forall j ensures l[j] == r[j] {
      if j != x {
        assert l[j] == 0 && r[j] == 0;
      }
    }
  }

  /** Some stone of a non-empty population. */
  ghost function Pick(m: multiset<U64>): (x: U64)
    requires m != multiset{}
    ensures x in m
  {
    var x :| x in m; x
  }

  /** The population after one blink: every stone replaced by its successors. */
  ghost function Step(m: multiset<U64>, rule: Rule): multiset<U64>
    decreases |m|
  {
    if m == multiset{} then multiset{}
    else
      var x := Pick(m);
      Spread(rule(x), 1) + Step(m - multiset{x}, rule)
  }

  /** The population after n blinks. */
  ghost function Blinks(m: multiset<U64>, n: nat, rule: Rule): multiset<U64>
  {
    if n == 0 then m else Step(Blinks(m, n - 1, rule), rule)
  }

  /** Step does not depend on which stone is rewritten first. */
  lemma {:induction false} StepPick(m: multiset<U64>, y: U64, rule: Rule)
    requires y in m
    ensures Step(m, rule) == Spread(rule(y), 1) + Step(m - multiset{y}, rule)
    decreases |m|
  {
    var x := Pick(m);
    if x != y {
      var rest := m - multiset{x} - multiset{y};
      assert rest == m - multiset{y} - multiset{x};
      calc {
        Step(m, rule);
        Spread(rule(x), 1) + Step(m - multiset{x}, rule);
        { StepPick(m - multiset{x}, y, rule); }
        Spread(rule(x), 1) + (Spread(rule(y), 1) + Step(rest, rule));
        Spread(rule(y), 1) + (Spread(rule(x), 1) + Step(rest, rule));
        { StepPick(m - multiset{y}, x, rule); }
        Spread(rule(y), 1) + Step(m - multiset{y}, rule);
      }
    }
  }

  lemma {:induction false} SpreadNone(vs: seq<U64>)
    ensures Spread(vs, 0) == multiset{}
    decreases |vs|
  {
    if vs != [] {
      SpreadNone(vs[1..]);
    }
  }

  /** Taking one stone x of a out first: the union rule for a follows from the rule for the rest of a. */
  lemma StepUnionMore(a: multiset<U64>, b: multiset<U64>, x: U64, rule: Rule)
    requires x in a
    requires Step((a - multiset{x}) + b, rule) == Step(a - multiset{x}, rule) + Step(b, rule)
    ensures Step(a + b, rule) == Step(a, rule) + Step(b, rule)
  {
    TakeFromLeft(a, b, x);
    StepPick(a + b, x, rule);
    StepPick(a, x, rule);
  }

  /** Rewriting two populations together is rewriting each of them. */
  lemma {:induction false} StepUnion(a: multiset<U64>, b: multiset<U64>, rule: Rule)
    ensures Step(a + b, rule) == Step(a, rule) + Step(b, rule)
    decreases |a|
  {
    if a == multiset{} {
      assert a + b == b;
    } else {
      var x :| x in a;
      StepUnion(a - multiset{x}, b, rule);
      StepUnionMore(a, b, x, rule);
    }
  }

  lemma {:induction false} SpreadOneMore(vs: seq<U64>, c: nat)
    ensures Spread(vs, c + 1) == Spread(vs, c) + Spread(vs, 1)
    decreases |vs|
  {
    if vs != [] {
      var x, rest := vs[0], vs[1..];
      calc {
        Spread(vs, c + 1);
        Copies(x, c + 1) + Spread(rest, c + 1);
        { CopiesAdd(x, c, 1); SpreadOneMore(rest, c); }
        Copies(x, c) + Copies(x, 1) + (Spread(rest, c) + Spread(rest, 1));
        Copies(x, c) + Spread(rest, c) + (Copies(x, 1) + Spread(rest, 1));
      }
    }
  }

  /** One more stone x adds one more copy of each successor of x. */
  lemma StepCopiesMore(x: U64, c: nat, rule: Rule)
    requires c > 0
    requires Step(Copies(x, c - 1), rule) == Spread(rule(x), c - 1)
    ensures Step(Copies(x, c), rule) == Spread(rule(x), c)
  {
    CopiesLess(x, c);
    StepPick(Copies(x, c), x, rule);
    SpreadOneMore(rule(x), c - 1);
  }

  /** c equal stones x become c copies of each successor of x. */
  lemma StepCopies(x: U64, c: nat, rule: Rule)
    ensures Step(Copies(x, c), rule) == Spread(rule(x), c)
  {
    SpreadNone(rule(x));
    var j := 0;
    while j < c
      invariant j <= c
      invariant Step(Copies(x, j), rule) == Spread(rule(x), j)
    {
      StepCopiesMore(x, j + 1, rule);
      j := j + 1;
    }
  }

  /** A larger population rewrites to a larger population. */
  lemma StepMonotone(a: multiset<U64>, b: multiset<U64>, rule: Rule)
    requires a <= b
    ensures Step(a, rule) <= Step(b, rule)
  {
    assert b == a + (b - a);
    StepUnion(a, b - a, rule);
  }

  /** A blink never removes a stone and at most doubles the population. */
  lemma {:induction false} StepSize(m: multiset<U64>, rule: Rule)
    requires OneOrTwo(rule)
    ensures |m| <= |Step(m, rule)| <= 2 * |m|
    decreases |m|
  {
    if m != multiset{} {
      var x := Pick(m);
      StepSize(m - multiset{x}, rule);
      SpreadSize(rule(x), 1);
    }
  }

  /** One more blink never shrinks the population. */
  lemma BlinksNext(m: multiset<U64>, n: nat, rule: Rule)
    requires OneOrTwo(rule)
    ensures |Blinks(m, n, rule)| <= |Blinks(m, n + 1, rule)|
  {
    StepSize(Blinks(m, n, rule), rule);
  }

  /** The population never shrinks from one round count to a later one. */
  lemma {:induction false} BlinksGrow(m: multiset<U64>, a: nat, b: nat, rule: Rule)
    requires a <= b && OneOrTwo(rule)
    ensures |Blinks(m, a, rule)| <= |Blinks(m, b, rule)|
    decreases b - a
  {
    if a < b {
      BlinksNext(m, a, rule);
      BlinksGrow(m, a + 1, b, rule);
    }
  }

  /** The day's rule turns every stone into one or two stones. */
  lemma SuccessorsOneOrTwo()
    ensures OneOrTwo(Successors)
  {
  }

  /** Under the day's rule, the stones never become fewer from one number of blinks to a larger one. */
  lemma StonesNeverShrink(m: multiset<U64>, a: nat, b: nat)
    requires a <= b
    ensures |Blinks(m, a, Successors)| <= |Blinks(m, b, Successors)|
  {
    SuccessorsOneOrTwo();
    BlinksGrow(m, a, b, Successors);
  }
}
