/**
 * Arraystep and AExprstep of act/array.cc as classes whose step methods
 * mutate the cursor in place, each proved to follow the pure machine of
 * StepperSpec.
 */
module Steppers {
  import opened Wrappers
  import opened Collab
  import opened ArraySpec
  import opened ArrayTypes
  import opened StepperSpec

  class ArrayStepper {
    /** The chain being walked (base and the nodes reachable from it). */
    const chain: seq<Block>
    const isSubrange: bool
    /** The current coordinate, sized by the first block's dimensions. */
    const deref: array<int>
    /** The block base stands at; |chain| once base is NULL. */
    var blk: nat
    var idx: int

    ghost predicate Valid()
      reads this
    {
      Steppable(chain) && deref.Length == |chain[0].r| && blk <= |chain|
    }

    function State(): StepState
      reads this, deref
    {
      StepState(blk, deref[..], idx)
    }

    /** Arraystep(a, is_subrange). */
    constructor(bs: seq<Block>, subrange: bool)
      requires Steppable(bs)
      ensures Valid() && fresh(deref) && chain == bs && isSubrange == subrange
      ensures State() == InitState(bs, subrange)
    {
      chain := bs;
      isSubrange := subrange;
      var rs := bs[0].r;
      var d := new int[|rs|];
      var i := 0;
      while i < |rs|
        invariant 0 <= i <= |rs|
        invariant forall j :: 0 <= j < i ==> d[j] == if subrange then rs[j].lo else rs[j].hi + 1
        modifies d
      {
        if subrange {
          d[i] := rs[i].lo;
        } else {
          d[i] := rs[i].hi + 1;
        }
        i := i + 1;
      }
      deref := d;
      blk := 0;
      idx := 0;
    }

    /** step: a mixed-radix increment, moving to the next block when this one overflows. */
    method Step()
      requires Valid()
      modifies this, deref
      ensures Valid() && State() == StepperSpec.Step(chain, old(State()))
    {
      if blk == |chain| {
        return;
      }
      var rs := chain[blk].r;
      var stay := CarryIn(deref, rs);
      if stay {
        idx := idx + 1;
        return;
      }
      blk := blk + 1;
      if blk == |chain| {
        idx := -1;
        return;
      }
      LoadLows(deref, chain[blk].r);
      idx := idx + 1;
    }

    /** isend: base is NULL. */
    predicate IsEnd()
      reads this
      ensures IsEnd() <==> IsEndStep(chain, StepState(blk, [], idx))
    {
      blk == |chain|
    }
  }

  /**
   * The carry loop of step: from the last dimension backwards, increment;
   * a coordinate still within its high bound ends the step (`stay`),
   * otherwise it is reset to its low bound and the carry moves left.
   */
  method CarryIn(d: array<int>, rs: seq<Range>) returns (stay: bool)
    requires AllCon(rs) && |rs| <= d.Length
    modifies d
    ensures (d[..], stay) == Carry(rs, old(d[..]), |rs|)
  {
    var i := |rs|;
    ghost var target := Carry(rs, d[..], |rs|);
    while i > 0
      invariant 0 <= i <= |rs|
      invariant Carry(rs, d[..], i) == target
    {
      ghost var c := d[..];
      d[i - 1] := d[i - 1] + 1;
      if d[i - 1] <= rs[i - 1].hi {
        assert d[..] == c[i - 1 := c[i - 1] + 1];
        return true;
      }
      d[i - 1] := rs[i - 1].lo;
      assert d[..] == c[i - 1 := rs[i - 1].lo];
      i := i - 1;
    }
    return false;
  }

  /** Moving to the next block: the coordinate takes that block's low bounds. */
  method LoadLows(d: array<int>, ns: seq<Range>)
    requires AllCon(ns) && |ns| <= d.Length
    modifies d
    ensures d[..] == SetLows(old(d[..]), ns)
  {
    ghost var c := d[..];
    var j := 0;
    while j < |ns|
      invariant 0 <= j <= |ns|
      invariant forall m :: 0 <= m < d.Length ==> d[m] == if m < j then ns[m].lo else c[m]
    {
      d[j] := ns[j].lo;
      j := j + 1;
    }
    assert d[..] == SetLows(c, ns);
  }

  /** Array::stepper: a default-mode stepper over an expanded array. */
  method Stepper(a: ActArray) returns (r: Result<ArrayStepper, Error>)
    requires a.Valid() && forall k :: 0 <= k < |a.blocks| ==> |a.blocks[k].r| <= |a.blocks[0].r|
    ensures r.Failure? <==> !a.blocks[0].expanded
    ensures r.Failure? ==> r.error == StepperUnexpanded
    ensures r.Success? ==> (fresh(r.value) && fresh(r.value.deref) && r.value.Valid() &&
                            r.value.chain == a.blocks && r.value.State() == InitState(a.blocks, false))
  {
    if !a.blocks[0].expanded {
      return Failure(StepperUnexpanded);
    }
    assert AllConcrete(a.blocks) by {
      forall k | 0 <= k < |a.blocks| ensures Concrete(a.blocks[k]) {
        assert WellFormed(a.blocks[k]);
      }
    }
    var s := new ArrayStepper(a.blocks, false);
    r := Success(s);
  }

  class AExprStepper {
    var mode: Mode
    /** u.id.a: the slice stepper of the variable leaf, if any. */
    var sub: ArrayStepper?
    var cur: Option<AExpr>
    var stack: seq<AExpr>
    var idx: int
    ghost var Repr: set<object>

    ghost predicate Valid()
      reads this, Repr
    {
      this in Repr &&
      (sub != null ==> sub in Repr && sub.deref in Repr && sub.Valid()) &&
      ReadyState(State())
    }

    ghost function State(): AState
      reads this, Repr
      requires sub != null ==> sub in Repr && sub.deref in Repr
    {
      AState(mode, if sub == null then None else Some(Sub(sub.chain, sub.State())), cur, stack, idx)
    }

    /** AExprstep(a): an empty stack, idx -1 and type 0, then one step. */
    constructor(a: AExpr)
      requires TreeReady(a)
      ensures Valid() && fresh(Repr)
      ensures State() == AStep(Unstarted(a))
    {
      mode := Walking;
      sub := null;
      cur := Some(a);
      stack := [];
      idx := -1;
      Repr := {this};
      new;
      Step();
    }

    /** step: advance within the current leaf if it has positions left, else walk to the next leaf. */
    method Step()
      requires Valid()
      modifies Repr
      ensures Valid() && fresh(Repr - old(Repr))
      ensures State() == AStep(old(State()))
    {
      if mode.AtVar? && sub != null && !sub.IsEnd() {
        sub.Step();
        idx := idx + 1;
        return;
      }
      if mode.AtValue? && mode.offset < mode.max {
        idx := idx + 1;
        mode := mode.(offset := mode.offset + 1);
        return;
      }
      ghost var s0 := State();
      assert AStep(s0) == Advance(s0);
      mode := Walking;
      sub := null;
      Repr := {this};
      if cur.None? {
        if stack == [] {
          return;
        }
        cur := Some(stack[|stack| - 1]);
        stack := stack[..|stack| - 1];
      }
      assert DescendOpt(cur, stack, idx) == Advance(s0);
      Walk();
    }

    /** The while (cur) loop of step: push right children and go left until a leaf or a NULL. */
    method Walk()
      requires this in Repr && Repr == {this} && mode == Walking && sub == null
      requires OptReady(cur) && StackReady(stack)
      modifies this
      ensures Valid() && fresh(Repr - {this})
      ensures State() == DescendOpt(old(cur), old(stack), old(idx))
    {
      ghost var target := DescendOpt(cur, stack, idx);
      while cur.Some?
        invariant mode == Walking && sub == null && Repr == {this}
        invariant OptReady(cur) && StackReady(stack)
        invariant DescendOpt(cur, stack, idx) == target
        decreases cur
      {
        match cur.value
        case Leaf(x) =>
          EnterLeaf(x);
          return;
        case Concat(l, r) =>
          stack := Push(stack, r);
          cur := l;
        case Comma(l, r) =>
          stack := Push(stack, r);
          cur := l;
      }
    }

    /** The EXPR case of the loop: classify the leaf, count it, and pop the next subtree. */
    method EnterLeaf(x: Leaf)
      requires Repr == {this} && mode == Walking && sub == null
      requires LeafReady(x) && StackReady(stack)
      modifies this
      ensures Valid() && fresh(Repr - {this})
      ensures State() == Descend(Leaf(x), old(stack), old(idx))
    {
      var (m, hasSub) := Enter(x);
      mode := m;
      if hasSub.Some? {
        var st := new ArrayStepper(x.info, false);
        sub := st;
        Repr := {this, st, st.deref};
      }
      idx := idx + 1;
      if stack == [] {
        cur := None;
      } else {
        cur := Some(stack[|stack| - 1]);
        stack := stack[..|stack| - 1];
      }
    }

    /** isend: type 0, cur NULL and an empty stack. */
    predicate IsEnd()
      reads this, Repr
      requires Valid()
      ensures IsEnd() <==> StepperSpec.IsEnd(State())
    {
      mode == Walking && cur.None? && stack == []
    }
  }
}
