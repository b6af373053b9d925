/**
 * The vending machine of 2_idioms/src/main.rs: prices as unsigned 64-bit
 * amounts, coins of fixed denominations, greedy change selection and a
 * machine that sells a product and hands back change.
 */
module VendingMachines {
  import opened Wrappers
  import opened Subsequences

  const U64_LIMIT: int := 0x1_0000_0000_0000_0000

  type U64 = x: int | 0 <= x < U64_LIMIT

  /** Price(u64), ordered by its amount. */
  datatype Price = Price(amount: U64) {

    /** `Add for Price`: u64 addition, which panics on overflow. */
    function Add(rhs: Price): (r: Price)
      requires amount + rhs.amount < U64_LIMIT
      ensures r.amount == amount + rhs.amount
    {
      Price(amount + rhs.amount)
    }

    /** `Sub for Price`: u64 subtraction, which panics below zero. */
    function Sub(rhs: Price): (r: Price)
      requires rhs.amount <= amount
      ensures r.amount == amount - rhs.amount
    {
      Price(amount - rhs.amount)
    }

    /** The derived `PartialOrd`: prices compare by amount. */
    predicate Less(rhs: Price) {
      amount < rhs.amount
    }
  }

  /** The derived order on prices is a strict total order: irreflexive, transitive and total. */
  lemma PriceOrder(a: Price, b: Price, c: Price)
    ensures !a.Less(a)
    ensures a.Less(b) && b.Less(c) ==> a.Less(c)
    ensures a.Less(b) || a == b || b.Less(a)
    ensures a.Less(b) ==> !b.Less(a)
  {
  }

  /** Subtraction undoes addition, and addition undoes subtraction. */
  lemma AddSubInverse(a: Price, b: Price)
    requires a.amount + b.amount < U64_LIMIT
    ensures a.Add(b).Sub(b) == a
    ensures b.amount <= a.amount ==> a.Sub(b).Add(b) == a
  {
  }

  /** The total amount of a sequence of prices, as an unbounded number. */
  function Total(ps: seq<Price>): nat {
    if ps == [] then 0 else Total(ps[..|ps| - 1]) + ps[|ps| - 1].amount
  }

  lemma {:induction false} TotalAppend(a: seq<Price>, b: seq<Price>)
    ensures Total(a + b) == Total(a) + Total(b)
    decreases |b|
  {
    if b == [] {
      assert a + b == a;
    } else {
      assert (a + b)[..|a + b| - 1] == a + b[..|b| - 1];
      TotalAppend(a, b[..|b| - 1]);
    }
  }

  lemma TotalFirst(ps: seq<Price>)
    requires ps != []
    ensures Total(ps) == ps[0].amount + Total(ps[1..])
  {
    assert ps == [ps[0]] + ps[1..];
    TotalAppend([ps[0]], ps[1..]);
  }

  /**
   * `Sum for Price`: folds `+=` over the prices from Price(0). The caller
   * must keep the running total inside u64, as `+` panics otherwise.
   */
  method SumPrices(items: seq<Price>) returns (res: Price)
    requires Total(items) < U64_LIMIT
    ensures res.amount == Total(items)
  {
    res := Price(0);
    var i := 0;
    while i < |items|
      invariant 0 <= i <= |items|
      invariant res.amount == Total(items[..i])
    {
      assert items[..i + 1][..i] == items[..i];
      TotalAppend(items[..i + 1], items[i + 1..]);
      assert items[..i + 1] + items[i + 1..] == items;
      res := res.Add(items[i]);
      i := i + 1;
    }
    assert items[..i] == items;
  }

  datatype Coin = One | Two | Five | Ten | Twenty | Fifty {

    /** Coin::value. */
    function Value(): (p: Price)
      ensures p.amount in {1, 2, 5, 10, 20, 50}
    {
      match this
      case One => Price(1)
      case Two => Price(2)
      case Five => Price(5)
      case Ten => Price(10)
      case Twenty => Price(20)
      case Fifty => Price(50)
    }
  }

  /** `TryFrom<Price> for Coin`. */
  function CoinTryFrom(value: Price): (r: Result<Coin, Unit>)
    ensures r.Ok? <==> value.amount in {1, 2, 5, 10, 20, 50}
    ensures r.Ok? ==> r.value.Value() == value
  {
    match value.amount
    case 1 => Ok(One)
    case 2 => Ok(Two)
    case 5 => Ok(Five)
    case 10 => Ok(Ten)
    case 20 => Ok(Twenty)
    case 50 => Ok(Fifty)
    case _ => Err(Unit)
  }

  /** `value` and `try_from` are inverse to each other. */
  lemma CoinValueRoundTrip(c: Coin)
    ensures CoinTryFrom(c.Value()) == Ok(c)
  {
  }

  /** The values of a sequence of coins, in order. */
  function Values(coins: seq<Coin>): (vs: seq<Price>)
    ensures |vs| == |coins|
    ensures forall i :: 0 <= i < |coins| ==> vs[i] == coins[i].Value()
  {
    if coins == [] then [] else [coins[0].Value()] + Values(coins[1..])
  }

  lemma {:induction false} ValuesAppend(a: seq<Coin>, b: seq<Coin>)
    ensures Values(a + b) == Values(a) + Values(b)
  {
    var l, r := Values(a + b), Values(a) + Values(b);
    forall i | 0 <= i < |l|
      ensures l[i] == r[i]
    {
      if i < |a| {
        assert (a + b)[i] == a[i];
      } else {
        assert (a + b)[i] == b[i - |a|];
      }
    }
    assert l == r;
  }

  /** `n` copies of `c`. */
  function Repeat(c: Coin, n: nat): (r: seq<Coin>)
    ensures |r| == n && forall i :: 0 <= i < n ==> r[i] == c
  {
    if n == 0 then [] else Repeat(c, n - 1) + [c]
  }

  /** What Coin::make_array builds: each pair's coin, repeated its count, pair by pair. */
  function Expand(pairs: seq<(nat, Coin)>): seq<Coin> {
    if pairs == [] then [] else Expand(pairs[..|pairs| - 1]) + Repeat(pairs[|pairs| - 1].1, pairs[|pairs| - 1].0)
  }

  /** True when the `unwrap` in make_array would fire on some pair: a non-coin price with a positive count. */
  predicate SomeBadPair(pairs: seq<(nat, Price)>) {
    exists k :: 0 <= k < |pairs| && pairs[k].0 > 0 && CoinTryFrom(pairs[k].1).Err?
  }

  /** The coins of the pairs whose price is a coin denomination. */
  function AsCoinPairs(pairs: seq<(nat, Price)>): (r: seq<(nat, Coin)>)
    ensures |r| == |pairs|
  {
    if pairs == [] then []
    else
      var last := pairs[|pairs| - 1];
      AsCoinPairs(pairs[..|pairs| - 1]) + [AsCoinPair(last)]
  }

  /** A pair's count with its price as a coin (One stands in for a price that is no coin). */
  function AsCoinPair(pair: (nat, Price)): (r: (nat, Coin))
    ensures r.0 == pair.0
    ensures CoinTryFrom(pair.1).Ok? ==> r.1 == CoinTryFrom(pair.1).value
  {
    (pair.0, match CoinTryFrom(pair.1) case Ok(c) => c case Err(_) => One)
  }

  /** One more good pair appends its coins to the expansion. */
  lemma MakeArrayStep(pairs: seq<(nat, Price)>, i: nat)
    requires i < |pairs| && !SomeBadPair(pairs[..i])
    requires pairs[i].0 > 0 ==> CoinTryFrom(pairs[i].1).Ok?
    ensures !SomeBadPair(pairs[..i + 1])
    ensures Expand(AsCoinPairs(pairs[..i + 1]))
      == Expand(AsCoinPairs(pairs[..i])) + Repeat(if pairs[i].0 > 0 then CoinTryFrom(pairs[i].1).value else One, pairs[i].0)
  {
    assert pairs[..i + 1][..i] == pairs[..i];
    assert AsCoinPairs(pairs[..i + 1]) == AsCoinPairs(pairs[..i]) + [AsCoinPair(pairs[i])];
    forall k | 0 <= k < i + 1
      ensures pairs[k].0 > 0 ==> CoinTryFrom(pairs[k].1).Ok?
    {
      if k < i {
        assert pairs[..i][k] == pairs[k];
      }
    }
  }

  /** `n` copies of a coin are worth `n` times its value. */
  lemma {:induction false} TotalRepeat(c: Coin, n: nat)
    ensures Total(Values(Repeat(c, n))) == n * c.Value().amount
  {
    if n > 0 {
      var a, front := c.Value().amount, Repeat(c, n - 1);
      TotalRepeat(c, n - 1);
      ValuesAppend(front, [c]);
      TotalAppend(Values(front), Values([c]));
      assert Total(Values([c])) == a by {
        assert Values([c]) == [c.Value()] && [c.Value()][..0] == [];
      }
      assert (n - 1) * a + a == n * a;
    }
  }

  /** What the pairs of make_array are worth: each count times the value of its coin. */
  function PairsTotal(pairs: seq<(nat, Coin)>): nat {
    if pairs == [] then 0 else PairsTotal(pairs[..|pairs| - 1]) + pairs[|pairs| - 1].0 * pairs[|pairs| - 1].1.Value().amount
  }

  /** The coins make_array builds are worth what their pairs say. */
  lemma {:induction false} ExpandTotal(pairs: seq<(nat, Coin)>)
    ensures Total(Values(Expand(pairs))) == PairsTotal(pairs)
  {
    if pairs != [] {
      var front, last := pairs[..|pairs| - 1], pairs[|pairs| - 1];
      ExpandTotal(front);
      TotalRepeat(last.1, last.0);
      ValuesAppend(Expand(front), Repeat(last.1, last.0));
      TotalAppend(Values(Expand(front)), Values(Repeat(last.1, last.0)));
    }
  }

  /** When the first pair has a positive count, the first coin built is its coin. */
  lemma {:induction false} ExpandFirst(pairs: seq<(nat, Coin)>)
    requires pairs != [] && pairs[0].0 > 0
    ensures Expand(pairs) != [] && Expand(pairs)[0] == pairs[0].1
  {
    if |pairs| > 1 {
      var front := pairs[..|pairs| - 1];
      assert front[0] == pairs[0];
      ExpandFirst(front);
    }
  }

  /** Each pair is converted on its own. */
  lemma {:induction false} AsCoinPairsAt(pairs: seq<(nat, Price)>)
    ensures forall k :: 0 <= k < |pairs| ==> AsCoinPairs(pairs)[k] == AsCoinPair(pairs[k])
  {
    if pairs != [] {
      var front := pairs[..|pairs| - 1];
      AsCoinPairsAt(front);
      assert forall k :: 0 <= k < |front| ==> front[k] == pairs[k];
    }
  }

  /** The coins of the pairs of test_vending_machine: every price there is a coin. */
  lemma TestCoinPairs(pairs: seq<(nat, Price)>)
    requires pairs == [(2, Price(50)), (3, Price(20)), (5, Price(10)), (10, Price(5)), (25, Price(2)), (50, Price(1))]
    ensures !SomeBadPair(pairs)
    ensures AsCoinPairs(pairs) == [(2, Fifty), (3, Twenty), (5, Ten), (10, Five), (25, Two), (50, One)]
  {
    AsCoinPairsAt(pairs);
  }

  /** The pairs of test_vending_machine are worth 360: 100 + 60 + 50 + 50 + 50 + 50. */
  lemma TestPairsTotal(cp: seq<(nat, Coin)>)
    requires cp == [(2, Fifty), (3, Twenty), (5, Ten), (10, Five), (25, Two), (50, One)]
    ensures PairsTotal(cp) == 360
  {
    var p1: seq<(nat, Coin)> := [(2, Fifty)];
    var p2 := p1 + [(3, Twenty)];
    var p3 := p2 + [(5, Ten)];
    var p4 := p3 + [(10, Five)];
    var p5 := p4 + [(25, Two)];
    assert p1[..0] == [] && p2[..1] == p1 && p3[..2] == p2 && p4[..3] == p3 && p5[..4] == p4;
    assert cp == p5 + [(50, One)] && cp[..5] == p5;
    assert PairsTotal(p1) == 100;
    assert PairsTotal(p2) == 160;
    assert PairsTotal(p3) == 210;
    assert PairsTotal(p4) == 260;
    assert PairsTotal(p5) == 310;
  }

  /**
   * The pairs of test_vending_machine are all coins, and make_array builds
   * from them coins that start with a Fifty and add up to 360.
   */
  lemma TestCoins(pairs: seq<(nat, Price)>)
    requires pairs == [(2, Price(50)), (3, Price(20)), (5, Price(10)), (10, Price(5)), (25, Price(2)), (50, Price(1))]
    ensures !SomeBadPair(pairs)
    ensures var start := Expand(AsCoinPairs(pairs)); start != [] && start[0] == Fifty && Total(Values(start)) == 360
  {
    TestCoinPairs(pairs);
    var cp := AsCoinPairs(pairs);
    ExpandFirst(cp);
    ExpandTotal(cp);
    TestPairsTotal(cp);
  }

  /**
   * Coin::make_array: for each (count, price) pair, pushes `count` coins of
   * that price. A price that is no coin makes `unwrap` panic (Err here)
   * as soon as it is pushed.
   */
  method MakeArray(pairs: seq<(nat, Price)>) returns (r: Result<seq<Coin>, Unit>)
    ensures r.Err? <==> SomeBadPair(pairs)
    ensures r.Ok? ==> r.value == Expand(AsCoinPairs(pairs))
  {
    var res: seq<Coin> := [];
    var i := 0;
    while i < |pairs|
      invariant 0 <= i <= |pairs|
      invariant !SomeBadPair(pairs[..i])
      invariant res == Expand(AsCoinPairs(pairs[..i]))
    {
      var count, price := pairs[i].0, pairs[i].1;
      ghost var before := res;
      var j := 0;
      while j < count
        invariant 0 <= j <= count
        invariant j > 0 ==> CoinTryFrom(price).Ok?
        invariant res == before + Repeat(if j > 0 then CoinTryFrom(price).value else One, j)
      {
        var coin := CoinTryFrom(price);
        if coin.Err? {
          assert pairs[i].0 > 0 && CoinTryFrom(pairs[i].1).Err?;
          return Err(Unit);
        }
        res := res + [coin.value];
        j := j + 1;
      }
      MakeArrayStep(pairs, i);
      i := i + 1;
    }
    assert pairs[..i] == pairs;
    return Ok(res);
  }

  /**
   * What get_change_values returns: walking the coins in order, a coin is
   * picked when its value fits in the remaining change, and the walk stops
   * with the picked values as soon as the remaining change is zero; None if
   * the coins run out first (also for zero change and no coins).
   */
  function GreedyChange(coins: seq<Coin>, change: nat): Option<seq<Price>> {
    if coins == [] then None
    else
      var v := coins[0].Value().amount;
      var rest := if change >= v then change - v else change;
      var picked := if change >= v then [coins[0].Value()] else [];
      if rest == 0 then Some(picked)
      else match GreedyChange(coins[1..], rest)
        case None => None
        case Some(more) => Some(picked + more)
  }

  /** `picked` followed by the values of `more`, if there are any. */
  function Prepend(picked: seq<Price>, more: Option<seq<Price>>): Option<seq<Price>> {
    match more
    case None => None
    case Some(m) => Some(picked + m)
  }

  lemma PrependNothing(more: Option<seq<Price>>)
    ensures Prepend([], more) == more
  {
    if more.Some? {
      assert [] + more.value == more.value;
    }
  }

  lemma PrependTwice(a: seq<Price>, b: seq<Price>, more: Option<seq<Price>>)
    ensures Prepend(a, Prepend(b, more)) == Prepend(a + b, more)
  {
    if more.Some? {
      assert a + (b + more.value) == (a + b) + more.value;
    }
  }

  /** Each picked value was at most the change still owed when it was picked. */
  predicate PickedWithinChange(vs: seq<Price>, change: nat) {
    vs == [] || (vs[0].amount <= change && PickedWithinChange(vs[1..], change - vs[0].amount))
  }

  /**
   * The change selected by GreedyChange adds up to the change owed, every
   * value fits in what was still owed, and the values are those of a
   * subsequence of the coins, in order.
   */
  lemma {:induction false} GreedyChangeSound(coins: seq<Coin>, change: nat)
    requires GreedyChange(coins, change).Some?
    ensures Total(GreedyChange(coins, change).value) == change
    ensures PickedWithinChange(GreedyChange(coins, change).value, change)
    ensures IsSubsequence(GreedyChange(coins, change).value, Values(coins))
  {
    var v := coins[0].Value();
    var rest := if change >= v.amount then change - v.amount else change;
    var vs := GreedyChange(coins, change).value;
    assert Values(coins)[1..] == Values(coins[1..]);
    if rest == 0 {
      if change >= v.amount {
        assert vs == [v];
        assert Total(vs) == Total([]) + v.amount;
        assert vs[1..] == [];
      } else {
        assert vs == [];
      }
    } else {
      var more := GreedyChange(coins[1..], rest).value;
      GreedyChangeSound(coins[1..], rest);
      if change >= v.amount {
        assert vs == [v] + more;
        TotalFirst(vs);
        assert vs[1..] == more;
      } else {
        assert vs == more;
        SubsequenceSkip(more, Values(coins[1..]), v);
        assert [v] + Values(coins[1..]) == Values(coins);
        PickedWithinMonotone(more, rest, change);
      }
    }
  }

  lemma {:induction false} PickedWithinMonotone(vs: seq<Price>, c: nat, d: nat)
    requires PickedWithinChange(vs, c) && c <= d
    ensures PickedWithinChange(vs, d)
    decreases |vs|
  {
    if vs != [] {
      PickedWithinMonotone(vs[1..], c - vs[0].amount, d - vs[0].amount);
    }
  }

  /** get_change_values returns None when there are no coins, even for zero change. */
  lemma NoCoinsNoChange(change: nat)
    ensures GreedyChange([], change) == None
  {
  }

  /**
   * The partition of buy as written: while change values remain, every coin
   * consumes the first of them (`remove(0)` runs before the comparison is
   * known), and goes to the change only when its value matched.
   */
  function PartitionAsWritten(coins: seq<Coin>, cv: seq<Price>): (r: (seq<Coin>, seq<Coin>))
    decreases |coins|
  {
    if coins == [] then ([], [])
    else if cv == [] then
      var (g, l) := PartitionAsWritten(coins[1..], cv); (g, [coins[0]] + l)
    else if coins[0].Value() == cv[0] then
      var (g, l) := PartitionAsWritten(coins[1..], cv[1..]); ([coins[0]] + g, l)
    else
      var (g, l) := PartitionAsWritten(coins[1..], cv[1..]); (g, [coins[0]] + l)
  }

  /**
   * The partition buy evidently intends: a coin goes to the change when its
   * value is the next change value still owed, which is then consumed.
   */
  function PartitionChange(coins: seq<Coin>, cv: seq<Price>): (r: (seq<Coin>, seq<Coin>))
    decreases |coins|
  {
    if coins == [] then ([], [])
    else if cv != [] && coins[0].Value() == cv[0] then
      var (g, l) := PartitionChange(coins[1..], cv[1..]); ([coins[0]] + g, l)
    else
      var (g, l) := PartitionChange(coins[1..], cv); (g, [coins[0]] + l)
  }

  /** `giving` and `leftover` interleave back into `coins`, each keeping its order. */
  predicate IsInterleaving(giving: seq<Coin>, leftover: seq<Coin>, coins: seq<Coin>)
    decreases |coins|
  {
    if coins == [] then giving == [] && leftover == []
    else
      (giving != [] && giving[0] == coins[0] && IsInterleaving(giving[1..], leftover, coins[1..])) ||
      (leftover != [] && leftover[0] == coins[0] && IsInterleaving(giving, leftover[1..], coins[1..]))
  }

  /** The intended partition splits the coins into two order-preserving parts. */
  lemma {:induction false} PartitionChangeInterleaves(coins: seq<Coin>, cv: seq<Price>)
    ensures IsInterleaving(PartitionChange(coins, cv).0, PartitionChange(coins, cv).1, coins)
    decreases |coins|
  {
    if coins != [] {
      var tail := if cv != [] && coins[0].Value() == cv[0] then cv[1..] else cv;
      PartitionChangeInterleaves(coins[1..], tail);
      var (g, l) := PartitionChange(coins[1..], tail);
      assert ([coins[0]] + g)[1..] == g && ([coins[0]] + l)[1..] == l;
    }
  }

  /** The partition as written splits the coins into two order-preserving parts. */
  lemma {:induction false} PartitionAsWrittenInterleaves(coins: seq<Coin>, cv: seq<Price>)
    ensures IsInterleaving(PartitionAsWritten(coins, cv).0, PartitionAsWritten(coins, cv).1, coins)
    decreases |coins|
  {
    if coins != [] {
      var tail := if cv == [] then cv else cv[1..];
      PartitionAsWrittenInterleaves(coins[1..], tail);
      var (g, l) := PartitionAsWritten(coins[1..], tail);
      assert ([coins[0]] + g)[1..] == g && ([coins[0]] + l)[1..] == l;
    }
  }

  /** An interleaving loses and adds nothing. */
  lemma {:induction false} InterleavingMultiset(giving: seq<Coin>, leftover: seq<Coin>, coins: seq<Coin>)
    requires IsInterleaving(giving, leftover, coins)
    ensures multiset(giving) + multiset(leftover) == multiset(coins)
    decreases |coins|
  {
    if coins != [] {
      assert coins == [coins[0]] + coins[1..];
      if giving != [] && giving[0] == coins[0] && IsInterleaving(giving[1..], leftover, coins[1..]) {
        InterleavingMultiset(giving[1..], leftover, coins[1..]);
        assert giving == [giving[0]] + giving[1..];
      } else {
        InterleavingMultiset(giving, leftover[1..], coins[1..]);
        assert leftover == [leftover[0]] + leftover[1..];
      }
    }
  }

  /** Both partitions split the coins into two order-preserving parts, losing and adding nothing. */
  lemma PartitionsInterleave(coins: seq<Coin>, cv: seq<Price>)
    ensures IsInterleaving(PartitionChange(coins, cv).0, PartitionChange(coins, cv).1, coins)
    ensures IsInterleaving(PartitionAsWritten(coins, cv).0, PartitionAsWritten(coins, cv).1, coins)
    ensures multiset(PartitionChange(coins, cv).0) + multiset(PartitionChange(coins, cv).1) == multiset(coins)
    ensures multiset(PartitionAsWritten(coins, cv).0) + multiset(PartitionAsWritten(coins, cv).1) == multiset(coins)
  {
    PartitionChangeInterleaves(coins, cv);
    PartitionAsWrittenInterleaves(coins, cv);
    InterleavingMultiset(PartitionChange(coins, cv).0, PartitionChange(coins, cv).1, coins);
    InterleavingMultiset(PartitionAsWritten(coins, cv).0, PartitionAsWritten(coins, cv).1, coins);
  }

  /**
   * The partition as written never hands out more than was selected: the
   * values of the coins it gives are a subsequence of the change values.
   */
  lemma {:induction false} PartitionAsWrittenWithinChange(coins: seq<Coin>, cv: seq<Price>)
    ensures IsSubsequence(Values(PartitionAsWritten(coins, cv).0), cv)
    decreases |coins|
  {
    if coins != [] && cv != [] {
      PartitionAsWrittenWithinChange(coins[1..], cv[1..]);
      var g := PartitionAsWritten(coins[1..], cv[1..]).0;
      assert cv == [cv[0]] + cv[1..];
      if coins[0].Value() == cv[0] {
        assert Values([coins[0]] + g) == [cv[0]] + Values(g);
        assert ([cv[0]] + Values(g))[1..] == Values(g);
      } else {
        SubsequenceSkip(Values(g), cv[1..], cv[0]);
      }
    } else if coins != [] {
      PartitionAsWrittenWithinChange(coins[1..], cv);
    }
  }

  /** A subsequence of prices adds up to no more than the whole. */
  lemma {:induction false} SubsequenceTotal(small: seq<Price>, big: seq<Price>)
    requires IsSubsequence(small, big)
    ensures Total(small) <= Total(big)
    decreases |big|
  {
    if big != [] {
      TotalFirst(big);
      if small != [] && small[0] == big[0] {
        SubsequenceTotal(small[1..], big[1..]);
        TotalFirst(small);
      } else {
        SubsequenceTotal(small, big[1..]);
      }
    }
  }

  /**
   * When the change values are the values of a subsequence of the coins
   * (as GreedyChange guarantees), the intended partition hands out coins
   * whose values are exactly the change values.
   */
  lemma {:induction false} PartitionChangeGivesChange(coins: seq<Coin>, cv: seq<Price>)
    requires IsSubsequence(cv, Values(coins))
    ensures Values(PartitionChange(coins, cv).0) == cv
    decreases |coins|
  {
    if coins == [] {
    } else {
      assert Values(coins)[0] == coins[0].Value() && Values(coins)[1..] == Values(coins[1..]);
      if cv != [] && coins[0].Value() == cv[0] {
        PartitionChangeGivesChange(coins[1..], cv[1..]);
        var g := PartitionChange(coins[1..], cv[1..]).0;
        assert Values([coins[0]] + g) == [coins[0].Value()] + Values(g);
        assert cv == [cv[0]] + cv[1..];
      } else {
        PartitionChangeGivesChange(coins[1..], cv);
      }
    }
  }

  /** Finding: the partition as written can hand back less change than was selected. */
  lemma PartitionAsWrittenShortChange()
    ensures GreedyChange([Fifty, Fifty, Twenty], 70) == Some([Price(50), Price(20)])
    ensures PartitionAsWritten([Fifty, Fifty, Twenty], [Price(50), Price(20)]) == ([Fifty], [Fifty, Twenty])
    ensures Total(Values(PartitionAsWritten([Fifty, Fifty, Twenty], [Price(50), Price(20)]).0)) == 50
  {
    assert [Fifty, Fifty, Twenty][1..] == [Fifty, Twenty];
    assert [Fifty, Twenty][1..] == [Twenty];
    assert [Twenty][1..] == [];
    assert [Price(50), Price(20)][1..] == [Price(20)];
    assert [Price(20)][1..] == [];
    assert GreedyChange([Twenty], 20) == Some([Price(20)]);
    assert [] + [Price(20)] == [Price(20)];
    assert GreedyChange([Fifty, Twenty], 20) == Some([Price(20)]);
    assert [Price(50)] + [Price(20)] == [Price(50), Price(20)];
    assert PartitionAsWritten([], []) == ([], []);
    assert [Twenty] + [] == [Twenty];
    assert PartitionAsWritten([Twenty], []) == ([], [Twenty]);
    assert [Fifty] + [Twenty] == [Fifty, Twenty];
    assert PartitionAsWritten([Fifty, Twenty], [Price(20)]) == ([], [Fifty, Twenty]);
    assert [Fifty] + [] == [Fifty];
    assert Values([Fifty]) == [Price(50)];
    assert Total([Price(50)]) == Total([]) + 50;
  }

  /** The intended partition hands out the whole change on the coins of PartitionAsWrittenShortChange. */
  lemma PartitionChangeFullChange()
    ensures PartitionChange([Fifty, Fifty, Twenty], [Price(50), Price(20)]) == ([Fifty, Twenty], [Fifty])
  {
    assert [Fifty, Fifty, Twenty][1..] == [Fifty, Twenty];
    assert [Fifty, Twenty][1..] == [Twenty];
    assert [Twenty][1..] == [];
    assert [Price(50), Price(20)][1..] == [Price(20)];
    assert [Price(20)][1..] == [];
    assert Twenty.Value() == Price(20) && Fifty.Value() == Price(50);
    assert PartitionChange([], []) == ([], []);
    assert [Twenty] + [] == [Twenty] && [Fifty] + [] == [Fifty];
    assert PartitionChange([Twenty], [Price(20)]) == ([Twenty], []);
    assert PartitionChange([Fifty, Twenty], [Price(20)]) == ([Twenty], [Fifty]);
    assert [Fifty] + [Twenty] == [Fifty, Twenty];
  }

  /** Every coin is worth something, so coins add up to zero only when there are none. */
  lemma {:induction false} TotalValuesPositive(cs: seq<Coin>)
    ensures Total(Values(cs)) == 0 <==> cs == []
  {
    if cs != [] {
      TotalFirst(Values(cs));
    }
  }

  /** Change worth more than the first coin takes that coin and goes on with the rest. */
  lemma GreedyTakesFirst(cs: seq<Coin>, change: nat)
    requires cs != [] && change > cs[0].Value().amount
    ensures GreedyChange(cs, change) == Prepend([cs[0].Value()], GreedyChange(cs[1..], change - cs[0].Value().amount))
  {
  }

  /** The values of all the coins, split into the first coin's and the rest's. */
  lemma ValuesTotalFirst(cs: seq<Coin>)
    requires cs != []
    ensures Values(cs) == [cs[0].Value()] + Values(cs[1..])
    ensures Total(Values(cs)) == cs[0].Value().amount + Total(Values(cs[1..]))
  {
    TotalFirst(Values(cs));
    assert Values(cs)[1..] == Values(cs[1..]);
  }

  /** Change equal to the value of all the coins takes all of them, in order. */
  lemma {:induction false} GreedyTakesAll(cs: seq<Coin>, change: nat)
    requires cs != [] && Total(Values(cs)) == change
    ensures GreedyChange(cs, change) == Some(Values(cs))
    decreases |cs|
  {
    ValuesTotalFirst(cs);
    TotalValuesPositive(cs[1..]);
    if cs[1..] == [] {
      assert Values(cs) == [cs[0].Value()];
    } else {
      GreedyTakesFirst(cs, change);
      GreedyTakesAll(cs[1..], change - cs[0].Value().amount);
    }
  }

  /** Change equal to the first coin's value is that coin alone. */
  lemma FirstCoinChange(cs: seq<Coin>)
    requires cs != []
    ensures GreedyChange(cs, cs[0].Value().amount) == Some([cs[0].Value()])
    ensures PartitionChange(cs, [cs[0].Value()]) == ([cs[0]], cs[1..])
    ensures PartitionAsWritten(cs, [cs[0].Value()]) == ([cs[0]], cs[1..])
  {
    assert [cs[0].Value()][1..] == [];
    PartitionChangeNothing(cs[1..]);
    PartitionAsWrittenNothing(cs[1..]);
    assert [cs[0]] + [] == [cs[0]];
  }

  /** With no change to give, every coin stays in the machine. */
  lemma {:induction false} PartitionChangeNothing(cs: seq<Coin>)
    ensures PartitionChange(cs, []) == ([], cs)
    decreases |cs|
  {
    if cs != [] {
      PartitionChangeNothing(cs[1..]);
      assert [cs[0]] + cs[1..] == cs;
    }
  }

  /** With no change to give, the partition as written also keeps every coin. */
  lemma {:induction false} PartitionAsWrittenNothing(cs: seq<Coin>)
    ensures PartitionAsWritten(cs, []) == ([], cs)
    decreases |cs|
  {
    if cs != [] {
      PartitionAsWrittenNothing(cs[1..]);
      assert [cs[0]] + cs[1..] == cs;
    }
  }

  /** Asking for the values of all the coins, the partition as written hands out all of them. */
  lemma {:induction false} PartitionAsWrittenAll(cs: seq<Coin>)
    ensures PartitionAsWritten(cs, Values(cs)) == (cs, [])
    decreases |cs|
  {
    if cs != [] {
      assert Values(cs)[1..] == Values(cs[1..]);
      PartitionAsWrittenAll(cs[1..]);
      assert [cs[0]] + cs[1..] == cs;
    }
  }

  /** Asking for the values of all the coins hands out all of them. */
  lemma {:induction false} PartitionChangeAll(cs: seq<Coin>)
    ensures PartitionChange(cs, Values(cs)) == (cs, [])
    decreases |cs|
  {
    if cs != [] {
      assert Values(cs)[1..] == Values(cs[1..]);
      PartitionChangeAll(cs[1..]);
      assert [cs[0]] + cs[1..] == cs;
    }
  }

  /** The coins the intended partition hands out for the greedy change are worth exactly the change. */
  lemma GreedyPartition(coins: seq<Coin>, change: nat)
    requires GreedyChange(coins, change).Some?
    ensures var cv := GreedyChange(coins, change).value;
      && Values(PartitionChange(coins, cv).0) == cv
      && Total(cv) == change
      && IsInterleaving(PartitionChange(coins, cv).0, PartitionChange(coins, cv).1, coins)
      && multiset(PartitionChange(coins, cv).0) + multiset(PartitionChange(coins, cv).1) == multiset(coins)
  {
    var cv := GreedyChange(coins, change).value;
    GreedyChangeSound(coins, change);
    PartitionChangeGivesChange(coins, cv);
    PartitionsInterleave(coins, cv);
  }

  /**
   * The coins the partition as written hands out for the greedy change:
   * with the coins kept they interleave into the old coins, and they are
   * worth at most the change asked.
   */
  lemma AsWrittenPartition(coins: seq<Coin>, change: nat)
    requires GreedyChange(coins, change).Some?
    ensures var cv := GreedyChange(coins, change).value;
      && IsInterleaving(PartitionAsWritten(coins, cv).0, PartitionAsWritten(coins, cv).1, coins)
      && multiset(PartitionAsWritten(coins, cv).0) + multiset(PartitionAsWritten(coins, cv).1) == multiset(coins)
      && IsSubsequence(Values(PartitionAsWritten(coins, cv).0), cv)
      && Total(Values(PartitionAsWritten(coins, cv).0)) <= change
  {
    var cv := GreedyChange(coins, change).value;
    GreedyChangeSound(coins, change);
    PartitionsInterleave(coins, cv);
    PartitionAsWrittenWithinChange(coins, cv);
    SubsequenceTotal(Values(PartitionAsWritten(coins, cv).0), cv);
  }

  datatype Product = Product(name: string, price: Price)

  /** The index of the first product called `name`, if any (Iterator::position). */
  function Position(products: seq<Product>, name: string): (r: Option<nat>)
    ensures r.Some? ==> r.value < |products| && products[r.value].name == name
    ensures r.Some? ==> forall k :: 0 <= k < r.value ==> products[k].name != name
    ensures r.None? ==> forall k :: 0 <= k < |products| ==> products[k].name != name
  {
    if products == [] then None
    else if products[0].name == name then Some(0)
    else match Position(products[1..], name)
      case None => None
      case Some(k) => Some(k + 1)
  }

  /** Vec::swap_remove: the last element takes the place of the removed one. */
  function SwapRemove<X>(s: seq<X>, i: nat): (r: seq<X>)
    requires i < |s|
    ensures |r| == |s| - 1
    ensures forall k :: 0 <= k < |r| && k != i ==> r[k] == s[k]
    ensures i < |r| ==> r[i] == s[|s| - 1]
  {
    if i == |s| - 1 then s[..i] else s[..i] + [s[|s| - 1]] + s[i + 1..|s| - 1]
  }

  /** swap_remove loses exactly the removed element. */
  lemma SwapRemoveMultiset<X>(s: seq<X>, i: nat)
    requires i < |s|
    ensures multiset(SwapRemove(s, i)) + multiset{s[i]} == multiset(s)
  {
    if i == |s| - 1 {
      assert s == s[..i] + [s[i]];
    } else {
      assert s == s[..i] + [s[i]] + s[i + 1..|s| - 1] + [s[|s| - 1]];
    }
  }

  class VendingMachine {
    var products: seq<Product>
    var coins: seq<Coin>

    /** VendingMachine::new. */
    constructor (availableCoins: seq<Coin>, products: seq<Product>)
      ensures this.products == products && coins == availableCoins
    {
      this.products := products;
      coins := availableCoins;
    }

    /** VendingMachine::get_change_values: the loop over the coins. */
    method GetChangeValues(change: Price) returns (r: Option<seq<Price>>)
      ensures r == GreedyChange(coins, change.amount)
    {
      var coinValues: seq<Price> := [];
      var left := change;
      var i := 0;
      assert coins[0..] == coins;
      PrependNothing(GreedyChange(coins, change.amount));
      while i < |coins|
        invariant 0 <= i <= |coins|
        invariant GreedyChange(coins, change.amount) == Prepend(coinValues, GreedyChange(coins[i..], left.amount))
      {
        var coinVal := coins[i].Value();
        assert coins[i..][0] == coins[i] && coins[i..][1..] == coins[i + 1..];
        ghost var before := coinValues;
        ghost var picked: seq<Price> := [];
        if !left.Less(coinVal) {
          left := left.Sub(coinVal);
          coinValues := coinValues + [coinVal];
          picked := [coinVal];
        }
        assert coinValues == before + picked;
        PrependTwice(before, picked, GreedyChange(coins[i + 1..], left.amount));
        if left.amount == 0 {
          assert Some(coinValues) == Prepend(before, Some(picked));
        }
        if left.amount == 0 {
          return Some(coinValues);
        }
        i := i + 1;
      }
      return None;
    }

    /**
     * VendingMachine::buy, as written. Fails, changing nothing, when no
     * product has that name, when the payment is below the price, or when no
     * change can be made. Otherwise it hands out the product, which leaves
     * the shelf by swap_remove, and the coins its partition picks for the
     * change values, and keeps the other coins. Those coins are worth at
     * most the change owed, and can be worth less: every coin seen while
     * change values remain uses one up, matched or not.
     */
    method Buy(productName: string, payment: Price) returns (r: Result<(Product, seq<Coin>), Unit>)
      modifies this
      ensures var pos := Position(old(products), productName);
        if pos.None? || payment.Less(old(products)[pos.value].price)
           || GreedyChange(old(coins), payment.amount - old(products)[pos.value].price.amount).None?
        then r.Err? && products == old(products) && coins == old(coins)
        else
          var change := GreedyChange(old(coins), payment.amount - old(products)[pos.value].price.amount).value;
          && r.Ok?
          && r.value.0 == old(products)[pos.value]
          && products == SwapRemove(old(products), pos.value)
          && (r.value.1, coins) == PartitionAsWritten(old(coins), change)
          && IsInterleaving(r.value.1, coins, old(coins))
          && multiset(r.value.1) + multiset(coins) == multiset(old(coins))
          && IsSubsequence(Values(r.value.1), change)
          && Total(Values(r.value.1)) <= payment.amount - old(products)[pos.value].price.amount
    {
      var productIndex := Position(products, productName);
      if productIndex.None? {
        return Err(Unit);
      }
      var product := products[productIndex.value];
      if payment.Less(product.price) {
        return Err(Unit);
      }
      var changeAmount := payment.Sub(product.price);
      var changeValues := GetChangeValues(changeAmount);
      if changeValues.None? {
        return Err(Unit);
      }
      var taken := coins;
      coins := [];
      var (givingChange, leftoverChange) := PartitionAsWritten(taken, changeValues.value);
      AsWrittenPartition(taken, changeAmount.amount);
      coins := leftoverChange;
      var bought := products[productIndex.value];
      products := SwapRemove(products, productIndex.value);
      return Ok((bought, givingChange));
    }

    /**
     * VendingMachine::buy as evidently intended: the same steps, but a
     * change value is used up only by the coin that matches it, so the coins
     * handed out have exactly the change values and are worth exactly
     * payment - price.
     */
    method BuyCorrected(productName: string, payment: Price) returns (r: Result<(Product, seq<Coin>), Unit>)
      modifies this
      ensures var pos := Position(old(products), productName);
        if pos.None? || payment.Less(old(products)[pos.value].price)
           || GreedyChange(old(coins), payment.amount - old(products)[pos.value].price.amount).None?
        then r.Err? && products == old(products) && coins == old(coins)
        else
          var change := GreedyChange(old(coins), payment.amount - old(products)[pos.value].price.amount).value;
          && r.Ok?
          && r.value.0 == old(products)[pos.value]
          && products == SwapRemove(old(products), pos.value)
          && (r.value.1, coins) == PartitionChange(old(coins), change)
          && IsInterleaving(r.value.1, coins, old(coins))
          && multiset(r.value.1) + multiset(coins) == multiset(old(coins))
          && Values(r.value.1) == change
          && Total(Values(r.value.1)) == payment.amount - old(products)[pos.value].price.amount
    {
      var productIndex := Position(products, productName);
      if productIndex.None? {
        return Err(Unit);
      }
      var product := products[productIndex.value];
      if payment.Less(product.price) {
        return Err(Unit);
      }
      var changeAmount := payment.Sub(product.price);
      var changeValues := GetChangeValues(changeAmount);
      if changeValues.None? {
        return Err(Unit);
      }
      var taken := coins;
      coins := [];
      var (givingChange, leftoverChange) := PartitionChange(taken, changeValues.value);
      GreedyPartition(taken, changeAmount.amount);
      coins := leftoverChange;
      var bought := products[productIndex.value];
      products := SwapRemove(products, productIndex.value);
      return Ok((bought, givingChange));
    }
  }

  /** The shelf of test_vending_machine: where each product is found and what swap_remove leaves. */
  lemma TestShelf(fanta: Product, pepsi: Product, snickers: Product)
    requires fanta == Product("Fanta", Price(250)) && pepsi == Product("Pepsi", Price(300))
    requires snickers == Product("Snickers", Price(430))
    ensures Position([fanta, pepsi, snickers], "Fanta") == Some(0)
    ensures SwapRemove([fanta, pepsi, snickers], 0) == [snickers, pepsi]
    ensures Position([snickers, pepsi], "Pepsi") == Some(1)
    ensures SwapRemove([snickers, pepsi], 1) == [snickers]
    ensures Position([snickers], "Snickers") == Some(0)
  {
    assert [snickers, pepsi][1..] == [pepsi];
  }

  /** The coins of test_vending_machine: the change of 50 is the first coin, a Fifty, alone, under either partition. */
  lemma TestFirstChange(start: seq<Coin>)
    requires start != [] && start[0] == Fifty && Total(Values(start)) == 360
    ensures GreedyChange(start, 50) == Some([Price(50)])
    ensures PartitionAsWritten(start, [Price(50)]) == ([Fifty], start[1..])
    ensures PartitionChange(start, [Price(50)]) == ([Fifty], start[1..])
    ensures start[1..] != [] && Total(Values(start[1..])) == 310
  {
    FirstCoinChange(start);
    TotalFirst(Values(start));
    assert Values(start)[1..] == Values(start[1..]);
    TotalValuesPositive(start[1..]);
  }

  /**
   * The second half of test_vending_machine: Pepsi for 610 asks for change
   * of all the 310 left and takes every coin, and then Snickers for 431
   * fails, as no change can be made from no coins.
   */
  method TestSellRest(machine: VendingMachine, pepsi: Product, snickers: Product)
      returns (pepsiSale: Result<(Product, seq<Coin>), Unit>, snickersSale: Result<(Product, seq<Coin>), Unit>)
    requires pepsi == Product("Pepsi", Price(300)) && snickers == Product("Snickers", Price(430))
    requires machine.products == [snickers, pepsi] && machine.coins != [] && Total(Values(machine.coins)) == 310
    modifies machine
    ensures pepsiSale == Ok((pepsi, old(machine.coins))) && snickersSale.Err?
    ensures machine.products == [snickers] && machine.coins == []
  {
    var fanta := Product("Fanta", Price(250));
    TestShelf(fanta, pepsi, snickers);
    GreedyTakesAll(machine.coins, 310);
    PartitionAsWrittenAll(machine.coins);
    pepsiSale := machine.Buy("Pepsi", Price(610));
    assert machine.coins == [] && machine.products == [snickers];
    NoCoinsNoChange(1);
    snickersSale := machine.Buy("Snickers", Price(431));
  }

  /**
   * The test test_vending_machine: make_array builds coins that start with
   * a Fifty and add up to 360, Fanta for 300 hands out that Fifty and
   * leaves 310, Pepsi for 610 takes every coin left, and Snickers for 431
   * fails on the empty machine.
   */
  method VendingScenario()
      returns (fantaSale: Result<(Product, seq<Coin>), Unit>, pepsiSale: Result<(Product, seq<Coin>), Unit>,
               snickersSale: Result<(Product, seq<Coin>), Unit>)
    ensures fantaSale == Ok((Product("Fanta", Price(250)), [Fifty]))
    ensures pepsiSale.Ok? && pepsiSale.value.0 == Product("Pepsi", Price(300)) && Total(Values(pepsiSale.value.1)) == 310
    ensures snickersSale.Err?
  {
    var pairs := [(2, Price(50)), (3, Price(20)), (5, Price(10)), (10, Price(5)), (25, Price(2)), (50, Price(1))];
    TestCoins(pairs);
    var made := MakeArray(pairs);
    var start := made.value;
    var fanta := Product("Fanta", Price(250));
    var pepsi := Product("Pepsi", Price(300));
    var snickers := Product("Snickers", Price(430));
    var machine := new VendingMachine(start, [fanta, pepsi, snickers]);
    TestShelf(fanta, pepsi, snickers);
    TestFirstChange(start);
    fantaSale := machine.Buy("Fanta", Price(300));
    assert machine.coins == start[1..] && machine.products == [snickers, pepsi];
    pepsiSale, snickersSale := TestSellRest(machine, pepsi, snickers);
    assert machine.products == [snickers] && machine.coins == [];
  }

  /**
   * The finding on a machine: with coins [Fifty, Fifty, Twenty], buying a
   * product of price 30 for 100 hands out a single Fifty as written, and
   * the Fifty and the Twenty (all 70) as intended.
   */
  method ShortChangeScenario()
      returns (asWritten: Result<(Product, seq<Coin>), Unit>, coinsLeft: seq<Coin>,
               corrected: Result<(Product, seq<Coin>), Unit>, coinsLeftCorrected: seq<Coin>)
    ensures asWritten == Ok((Product("Gum", Price(30)), [Fifty])) && coinsLeft == [Fifty, Twenty]
    ensures corrected == Ok((Product("Gum", Price(30)), [Fifty, Twenty])) && coinsLeftCorrected == [Fifty]
  {
    var gum := Product("Gum", Price(30));
    PartitionAsWrittenShortChange();
    PartitionChangeFullChange();
    var machine := new VendingMachine([Fifty, Fifty, Twenty], [gum]);
    asWritten := machine.Buy("Gum", Price(100));
    coinsLeft := machine.coins;
    var fixed := new VendingMachine([Fifty, Fifty, Twenty], [gum]);
    corrected := fixed.BuyCorrected("Gum", Price(100));
    coinsLeftCorrected := fixed.coins;
  }
}
