/**
 * The `make_a_mut` implementations of 1_concepts/1_2_box_pin/src/mut_me_trait.rs:
 * a counter that goes up by one, a box and a vector that pass the call on
 * to what they hold, a unique `Rc` that does the same and a shared one
 * that panics, a string that gets a suffix, and a byte slice that is
 * replaced by the empty slice.
 */
module MutMe {
  import opened Wrappers

  const USIZE_MAX: int := 0xFFFF_FFFF_FFFF_FFFF

  type Usize = x: int | 0 <= x <= USIZE_MAX

  class TestStruct {
    var field: Usize

    /** The derived Default. */
    constructor ()
      ensures field == 0
    {
      field := 0;
    }

    /** make_a_mut for TestStruct: the field goes up by one; at usize::MAX the addition overflows. */
    method MakeAMut()
      requires field < USIZE_MAX
      modifies this
      ensures field == old(field) + 1
    {
      field := field + 1;
    }
  }

  /** make_a_mut for Box<TestStruct>: the call goes to the boxed value. */
  method MakeAMutBox(boxed: TestStruct)
    requires boxed.field < USIZE_MAX
    modifies boxed
    ensures boxed.field == old(boxed.field) + 1
  {
    boxed.MakeAMut();
  }

  /** An `Rc<TestStruct>`: the shared value and the number of handles on it. */
  class Rc {
    var strongCount: nat
    const value: TestStruct

    constructor (value: TestStruct)
      ensures this.value == value && strongCount == 1
    {
      this.value := value;
      strongCount := 1;
    }
  }

  /**
   * make_a_mut for Rc<TestStruct>: `Rc::get_mut` gives the value only to
   * its one owner, and the shared case is the panic, here Err, with nothing
   * changed.
   */
  method MakeAMutRc(rc: Rc) returns (r: Result<Unit, Unit>)
    requires rc.strongCount == 1 ==> rc.value.field < USIZE_MAX
    modifies rc.value
    ensures r.Ok? <==> rc.strongCount == 1
    ensures r.Ok? ==> rc.value.field == old(rc.value.field) + 1
    ensures r.Err? ==> rc.value.field == old(rc.value.field)
  {
    if rc.strongCount != 1 {
      return Err(Unit);
    }
    rc.value.MakeAMut();
    return Ok(Unit);
  }

  /**
   * make_a_mut for Vec<TestStruct>: every element in turn, by `iter_mut`,
   * so the length stays and every field goes up by one.
   */
  method MakeAMutVec(items: seq<TestStruct>)
    requires forall i, j :: 0 <= i < j < |items| ==> items[i] != items[j]
    requires forall i :: 0 <= i < |items| ==> items[i].field < USIZE_MAX
    modifies set i | 0 <= i < |items| :: items[i]
    ensures forall i :: 0 <= i < |items| ==> items[i].field == old(items[i].field) + 1
  {
    var k := 0;
    while k < |items|
      invariant 0 <= k <= |items|
      invariant forall i :: 0 <= i < k ==> items[i].field == old(items[i].field) + 1
      invariant forall i :: k <= i < |items| ==> items[i].field == old(items[i].field)
    {
      items[k].MakeAMut();
      k := k + 1;
    }
  }

  /** make_a_mut for String: `" mutated"` appended, the old text kept in front. */
  method MakeAMutString(s: string) returns (r: string)
    ensures |r| == |s| + 8 && r[..|s|] == s && r[|s|..] == " mutated"
  {
    r := s + " mutated";
  }

  /** make_a_mut for &[u8]: the slice replaced by the default, empty one. */
  method MakeAMutSlice(s: seq<bv8>) returns (r: seq<bv8>)
    ensures |r| == 0
  {
    r := [];
  }

  /** Two calls on a vector of two counters, one of them boxed, and a unique then a shared `Rc`. */
  method Scenario() returns (fields: seq<nat>, unique: Result<Unit, Unit>, shared: Result<Unit, Unit>, field: nat, text: string)
    ensures fields == [1, 2] && unique.Ok? && shared.Err? && field == 2
    ensures text == "text mutated"
  {
    var a := new TestStruct();
    var b := new TestStruct();
    MakeAMutBox(b);
    var v := [a, b];
    MakeAMutVec(v);
    fields := [v[0].field, v[1].field];
    var rc := new Rc(a);
    unique := MakeAMutRc(rc);
    rc.strongCount := 2;
    shared := MakeAMutRc(rc);
    field := a.field;
    text := MakeAMutString("text");
  }
}
