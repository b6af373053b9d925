/** Order-preserving subsequences, shared by the vending machine and the mem_replace solver. */
module Subsequences {

  /** `small` is `big` with some elements left out, order kept. */
  predicate IsSubsequence<X(==)>(small: seq<X>, big: seq<X>)
    decreases |big|
  {
    if small == [] then true
    else if big == [] then false
    else if small[0] == big[0] then IsSubsequence(small[1..], big[1..])
    else IsSubsequence(small, big[1..])
  }

  /** Putting an element in front of `big` keeps `small` a subsequence of it. */
  lemma {:induction false} SubsequenceSkip<X>(small: seq<X>, big: seq<X>, x: X)
    requires IsSubsequence(small, big)
    ensures IsSubsequence(small, [x] + big)
    decreases |big|, 1
  {
    assert ([x] + big)[1..] == big;
    if small != [] && small[0] == x {
      SubsequenceOfTail(small, big);
    }
  }

  /** Dropping the first element of a subsequence leaves a subsequence. */
  lemma {:induction false} SubsequenceOfTail<X>(small: seq<X>, big: seq<X>)
    requires small != [] && IsSubsequence(small, big)
    ensures IsSubsequence(small[1..], big)
    decreases |big|, 0
  {
    assert [big[0]] + big[1..] == big;
    if small[0] == big[0] {
      if small[1..] != [] {
        SubsequenceSkip(small[1..], big[1..], big[0]);
      }
    } else {
      SubsequenceOfTail(small, big[1..]);
      SubsequenceSkip(small[1..], big[1..], big[0]);
    }
  }

  /** Putting an element after the end of `big` keeps `small` a subsequence of it. */
  lemma {:induction false} SubsequenceExtend<X>(small: seq<X>, big: seq<X>, x: X)
    requires IsSubsequence(small, big)
    ensures IsSubsequence(small, big + [x])
    decreases |big|
  {
    if small != [] {
      assert (big + [x])[0] == big[0] && (big + [x])[1..] == big[1..] + [x];
      if small[0] == big[0] {
        SubsequenceExtend(small[1..], big[1..], x);
      } else {
        SubsequenceExtend(small, big[1..], x);
      }
    }
  }

  /** The same element put after both ends keeps the subsequence. */
  lemma {:induction false} SubsequenceAppend<X>(small: seq<X>, big: seq<X>, x: X)
    requires IsSubsequence(small, big)
    ensures IsSubsequence(small + [x], big + [x])
    decreases |big|
  {
    var s, b := small + [x], big + [x];
    if big == [] {
      assert s == [x] && b == [x] && s[1..] == [];
    } else {
      assert b[0] == big[0] && b[1..] == big[1..] + [x];
      if small == [] {
        assert s == [x] && s[1..] == [];
        if x != big[0] {
          SubsequenceAppend(small, big[1..], x);
        }
      } else {
        assert s[0] == small[0] && s[1..] == small[1..] + [x];
        if small[0] == big[0] {
          SubsequenceAppend(small[1..], big[1..], x);
        } else {
          SubsequenceAppend(small, big[1..], x);
        }
      }
    }
  }
}
