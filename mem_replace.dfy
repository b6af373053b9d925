/**
 * The triple rotation solver of 2_idioms/2_2_mem_replace/src/main.rs: a
 * triple `(a, b, c)` rotates to `(b, c, a)`, and the solver drops from its
 * unsolved triples every one that is a rotation of the expected triple.
 */
module MemReplace {
  import opened Subsequences

  datatype Trinity<T> = Trinity(a: T, b: T, c: T)

  /** The rotation the comment of `rotate` describes: every field takes its right neighbour's value. */
  function Rotated<T>(t: Trinity<T>): Trinity<T> {
    Trinity(t.b, t.c, t.a)
  }

  /** `x` is `e` rotated zero, one or two times. */
  predicate IsRotationOf<T(==)>(x: Trinity<T>, e: Trinity<T>) {
    x == e || x == Rotated(e) || x == Rotated(Rotated(e))
  }

  /** Trinity::rotate: swap `a` with `b`, then `b` with `c`. */
  method Rotate<T>(t: Trinity<T>) returns (r: Trinity<T>)
    ensures r == Rotated(t)
  {
    var a, b, c := t.a, t.b, t.c;
    a, b := b, a;
    b, c := c, b;
    r := Trinity(a, b, c);
  }

  /** Three rotations give the triple back, so the three-step loops see every rotation once. */
  lemma RotateThrice<T>(t: Trinity<T>)
    ensures Rotated(Rotated(Rotated(t))) == t
    ensures t != Rotated(t) ==> t != Rotated(Rotated(t))
  {
  }

  /** Rotating the expected triple does not change which triples are its rotations. */
  lemma RotationsOfRotated<T>(x: Trinity<T>, e: Trinity<T>)
    ensures IsRotationOf(x, Rotated(e)) <==> IsRotationOf(x, e)
  {
    RotateThrice(e);
  }

  /** The unsolved triples `retain` keeps: those that are not a rotation of `e`, in their order. */
  function Unsolved<T(==)>(us: seq<Trinity<T>>, e: Trinity<T>): seq<Trinity<T>> {
    if us == [] then []
    else
      var last := us[|us| - 1];
      Unsolved(us[..|us| - 1], e) + (if IsRotationOf(last, e) then [] else [last])
  }

  /**
   * What remains are exactly the triples that are no rotation of `e`, kept
   * in their order.
   */
  lemma {:induction false} UnsolvedKeeps<T>(us: seq<Trinity<T>>, e: Trinity<T>)
    ensures forall x :: x in Unsolved(us, e) <==> x in us && !IsRotationOf(x, e)
    ensures IsSubsequence(Unsolved(us, e), us)
  {
    if us != [] {
      var front, last := us[..|us| - 1], us[|us| - 1];
      UnsolvedKeeps(front, e);
      assert us == front + [last];
      if !IsRotationOf(last, e) {
        assert Unsolved(us, e) == Unsolved(front, e) + [last];
        SubsequenceAppend(Unsolved(front, e), front, last);
      } else {
        SubsequenceExtend(Unsolved(front, e), front, last);
        assert Unsolved(us, e) == Unsolved(front, e);
        assert Unsolved(us, e) != [] ==> Unsolved(us, e)[|Unsolved(us, e)| - 1] in Unsolved(front, e);
      }
    }
  }

  /** Rotating `e` leaves the triples kept as they are. */
  lemma {:induction false} UnsolvedOfRotated<T>(us: seq<Trinity<T>>, e: Trinity<T>)
    ensures Unsolved(us, Rotated(e)) == Unsolved(us, e)
  {
    if us != [] {
      UnsolvedOfRotated(us[..|us| - 1], e);
      RotationsOfRotated(us[|us| - 1], e);
    }
  }

  /** `e` rotated `k` times. */
  function RotatedTimes<T>(e: Trinity<T>, k: nat): Trinity<T> {
    if k == 0 then e else Rotated(RotatedTimes(e, k - 1))
  }

  /**
   * The closure given to `retain`: compare `u` with `e` and rotate `e`, at
   * most three times. It answers whether `u` is solved and hands back the
   * expected triple as the comparisons left it, still a rotation of `e`.
   */
  method Solve<T(==)>(u: Trinity<T>, e: Trinity<T>) returns (solved: bool, e': Trinity<T>)
    ensures solved <==> IsRotationOf(u, e)
    ensures IsRotationOf(e', e) && (!solved ==> e' == e)
  {
    e' := e;
    var k := 0;
    while k < 3
      invariant 0 <= k <= 3 && e' == RotatedTimes(e, k)
      invariant forall j :: 0 <= j < k ==> u != RotatedTimes(e, j)
    {
      if u == e' {
        return true, e';
      }
      e' := Rotate(e');
      k := k + 1;
    }
    assert RotatedTimes(e, 1) == Rotated(e) && RotatedTimes(e, 2) == Rotated(Rotated(e));
    RotateThrice(e);
    solved := false;
  }

  class Solver<T(==)> {
    var expected: Trinity<T>
    var unsolved: seq<Trinity<T>>

    constructor (expected: Trinity<T>, unsolved: seq<Trinity<T>>)
      ensures this.expected == expected && this.unsolved == unsolved
    {
      this.expected := expected;
      this.unsolved := unsolved;
    }

    /**
     * Solver::resolve: `retain` over the unsolved triples with a clone of
     * the expected triple that the closure keeps rotating from one triple to
     * the next. The solver's own expected triple is left alone.
     */
    method Resolve()
      modifies this
      ensures unsolved == Unsolved(old(unsolved), old(expected))
      ensures expected == old(expected)
    {
      var e := expected;
      var kept := [];
      var i := 0;
      while i < |unsolved|
        invariant 0 <= i <= |unsolved|
        invariant IsRotationOf(e, expected)
        invariant kept == Unsolved(unsolved[..i], expected)
        invariant unsolved == old(unsolved) && expected == old(expected)
      {
        var solved, e' := Solve(unsolved[i], e);
        assert unsolved[..i + 1][..i] == unsolved[..i];
        RotatedBack(unsolved[i], e, expected);
        RotatedBack(e', e, expected);
        if !solved {
          kept := kept + [unsolved[i]];
        }
        e := e';
        i := i + 1;
      }
      assert unsolved[..i] == unsolved;
      unsolved := kept;
    }

    /**
     * Solver::resolve_noclone: the same `retain`, with the closure rotating
     * the solver's own expected triple, which is therefore left at some
     * rotation of its old value.
     */
    method ResolveNoclone()
      modifies this
      ensures unsolved == Unsolved(old(unsolved), old(expected))
      ensures IsRotationOf(expected, old(expected))
    {
      ghost var start := expected;
      var kept := [];
      var i := 0;
      while i < |unsolved|
        invariant 0 <= i <= |unsolved|
        invariant IsRotationOf(expected, start)
        invariant kept == Unsolved(unsolved[..i], start) && unsolved == old(unsolved)
      {
        var solved, e' := Solve(unsolved[i], expected);
        assert unsolved[..i + 1][..i] == unsolved[..i];
        RotatedBack(unsolved[i], expected, start);
        RotatedBack(e', expected, start);
        if !solved {
          kept := kept + [unsolved[i]];
        }
        expected := e';
        i := i + 1;
      }
      assert unsolved[..i] == unsolved;
      unsolved := kept;
    }
  }

  /** A rotation of a rotation of `start` is a rotation of `start`, and the two share their rotations. */
  lemma RotatedBack<T>(x: Trinity<T>, e: Trinity<T>, start: Trinity<T>)
    requires IsRotationOf(e, start)
    ensures IsRotationOf(x, e) <==> IsRotationOf(x, start)
  {
    RotationsOfRotated(x, start);
    RotationsOfRotated(x, Rotated(start));
  }

  /** The program's run: of four triples, only (2, 1, 3) is no rotation of (1, 2, 3). */
  method ResolveScenario() returns (resolved: seq<Trinity<int>>, resolvedNoclone: seq<Trinity<int>>)
    ensures resolved == resolvedNoclone == [Trinity(2, 1, 3)]
  {
    var unsolved := [Trinity(1, 2, 3), Trinity(2, 1, 3), Trinity(2, 3, 1), Trinity(3, 1, 2)];
    var s := new Solver(Trinity(1, 2, 3), unsolved);
    s.Resolve();
    var e := Trinity(1, 2, 3);
    assert unsolved[..3][..2][..1][..0] == [];
    assert Unsolved(unsolved[..3][..2][..1], e) == [];
    assert !IsRotationOf(Trinity(2, 1, 3), e);
    assert Unsolved(unsolved[..3][..2], e) == [Trinity(2, 1, 3)];
    assert Unsolved(unsolved[..3], e) == [Trinity(2, 1, 3)];
    assert Unsolved(unsolved, e) == [Trinity(2, 1, 3)];
    assert s.expected == e;
    resolved := s.unsolved;
    var s2 := new Solver(Trinity(1, 2, 3), unsolved);
    s2.ResolveNoclone();
    resolvedNoclone := s2.unsolved;
  }
}
