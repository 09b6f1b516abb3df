/**
 * class Array of act/array.cc as a Dafny class: the chain of blocks and the
 * memoised per-block size `range_sz`. Methods that the source runs
 * recursively on `next` take the index k of the block they stand for.
 */
module ArrayTypes {
  import opened Wrappers
  import opened Collab
  import opened ArraySpec

  class ActArray {
    /** The chain: blocks[0] is this node, blocks[k + 1] the `next` of blocks[k]. */
    var blocks: seq<Block>
    /** range_sz of each block: None until size() computes it, and again after a change. */
    var cache: seq<Option<int>>

    ghost predicate Valid()
      reads this
    {
      ChainWF(blocks) && |cache| == |blocks| &&
      forall k :: 0 <= k < |cache| && cache[k].Some? ==>
        Concrete(blocks[k]) && cache[k].value == Count(blocks[k].r)
    }

    /** Array(): no dimensions; the size cache holds nothing. */
    constructor Empty()
      ensures Valid() && blocks == [Block(false, false, [])] && cache == [None]
    {
      blocks := [Block(false, false, [])];
      cache := [None];
    }

    /** Array(e, f): the range [e..f], or the single index [e] (a dereference) when f is absent. */
    constructor Single(e: Expr, f: Option<Expr>)
      ensures Valid() && cache == [None]
      ensures blocks == [if f.None? then Block(true, false, [Sym(None, e)])
                         else Block(false, false, [Sym(Some(e), f.value)])]
    {
      if f.None? {
        blocks := [Block(true, false, [Sym(None, e)])];
      } else {
        blocks := [Block(false, false, [Sym(Some(e), f.value)])];
      }
      cache := [None];
    }

    /** A fresh Array() whose chain is then filled in, as Clone and Expand do. */
    constructor Build(bs: seq<Block>)
      requires ChainWF(bs)
      ensures Valid() && blocks == bs && |cache| == |bs|
      ensures forall k :: 0 <= k < |bs| ==> cache[k].None?
    {
      blocks := bs;
      cache := seq(|bs|, _ => None);
    }

    // -------------------------------------------------------------------
    // Clone
    // -------------------------------------------------------------------

    /** Clone: a fresh array holding a copy of the whole chain. */
    method Clone() returns (a: ActArray)
      requires Valid()
      ensures fresh(a) && a.Valid() && a.blocks == blocks
      ensures forall k :: 0 <= k < |a.cache| ==> a.cache[k].None?
    {
      var bs := CopyFrom(0);
      a := new ActArray.Build(bs);
    }

    /** The deep copy of block k and everything after it. */
    method CopyFrom(k: nat) returns (bs: seq<Block>)
      requires Valid() && k < |blocks|
      ensures bs == blocks[k..]
      decreases |blocks| - k
    {
      var rest: seq<Block> := [];
      if k + 1 < |blocks| {
        rest := CopyFrom(k + 1);
      }
      var b := blocks[k];
      var rs: seq<Range> := [];
      var i := 0;
      while i < |b.r|
        invariant 0 <= i <= |b.r| && rs == b.r[..i]
      {
        rs := rs + [b.r[i]];
        i := i + 1;
      }
      assert b.r[..i] == b.r;
      bs := [Block(b.deref, b.expanded, rs)] + rest;
      assert k + 1 < |blocks| ==> bs == [blocks[k]] + blocks[k + 1..];
    }

    // -------------------------------------------------------------------
    // Comparison
    // -------------------------------------------------------------------

    /** isDimCompatible. */
    predicate IsDimCompatible(a: ActArray)
      reads this, a
      requires Valid() && a.Valid()
    {
      DimCompatible(blocks, a.blocks)
    }

    /** isEqual(a, strict); block k stands for the node the recursion has reached. */
    method IsEqual(a: ActArray, k: nat, strict: int) returns (eq: bool)
      requires Valid() && a.Valid() && SameState(blocks, a.blocks)
      requires k < |blocks| && k < |a.blocks|
      ensures eq == ChainEqual(blocks[k..], a.blocks[k..], strict)
      decreases |blocks| - k
    {
      var xs, ys := blocks[k..], a.blocks[k..];
      if !(|blocks[k].r| == |a.blocks[k].r| && blocks[k].deref == a.blocks[k].deref &&
           (k + 1 < |blocks|) == (k + 1 < |a.blocks|)) {
        return false;
      }
      var r1, r2 := blocks[k].r, a.blocks[k].r;
      if !blocks[k].expanded {
        var i := 0;
        while i < |r1|
          invariant 0 <= i <= |r1|
          invariant forall j :: 0 <= j < i ==>
            r1[j].slo.Some? == r2[j].slo.Some? &&
            (r1[j].slo.Some? ==> r1[j].slo.value == r2[j].slo.value) && r1[j].shi == r2[j].shi
        {
          if r1[i].slo.Some? != r2[i].slo.Some? {
            return false;
          }
          if r1[i].slo.Some? && r1[i].slo.value != r2[i].slo.value {
            return false;
          }
          if r1[i].shi != r2[i].shi {
            return false;
          }
          i := i + 1;
        }
      } else {
        var i := if strict == -1 then 1 else 0;
        while i < |r1|
          invariant (if strict == -1 then 1 else 0) <= i
          invariant i <= |r1| || (strict == -1 && |r1| == 0)
          invariant forall j :: (if strict == -1 then 1 else 0) <= j < i && j < |r1| ==>
            if strict == 1 then r1[j].lo == r2[j].lo && r1[j].hi == r2[j].hi
            else r1[j].hi - r1[j].lo == r2[j].hi - r2[j].lo
        {
          if strict == 1 {
            if r1[i].lo != r2[i].lo || r1[i].hi != r2[i].hi {
              return false;
            }
          } else if r1[i].hi - r1[i].lo != r2[i].hi - r2[i].lo {
            return false;
          }
          i := i + 1;
        }
      }
      if k + 1 < |blocks| {
        assert xs[1..] == blocks[k + 1..] && ys[1..] == a.blocks[k + 1..];
        eq := IsEqual(a, k + 1, strict);
      } else {
        eq := true;
      }
    }

    // -------------------------------------------------------------------
    // Concat, range_size, update_range, effDims
    // -------------------------------------------------------------------

    /** Concat(a): append a's dimensions to this dense array's; the size cache is reset. */
    method Concat(a: ActArray)
      requires Valid() && a.Valid() && a != this
      requires |blocks| == 1 && |a.blocks| == 1
      requires a.blocks[0].expanded == blocks[0].expanded
      modifies this
      ensures Valid()
      ensures blocks == [ConcatBlock(old(blocks[0]), a.blocks[0])] && cache == [None]
    {
      var b := blocks[0];
      var ar := a.blocks[0].r;
      var rs := b.r;
      var i := 0;
      while i < |ar|
        invariant 0 <= i <= |ar| && rs == b.r + ar[..i]
      {
        rs := rs + [ar[i]];
        i := i + 1;
      }
      assert ar[..i] == ar;
      var deref := b.deref;
      if !a.blocks[0].deref {
        deref := false;
      }
      blocks := [Block(deref, b.expanded, rs)];
      cache := [None];
    }

    /** range_size(d): the number of indices of dimension d of a dense expanded array. */
    function RangeSize(d: nat): (n: int)
      reads this
      requires Valid() && blocks[0].expanded && d < |blocks[0].r| && |blocks| == 1
      ensures n > 0 <==> blocks[0].r[d].lo <= blocks[0].r[d].hi
      ensures n > 0 ==> (AllCon(blocks[0].r[..d] + blocks[0].r[d + 1..]) &&
                         Count(blocks[0].r) == Count(blocks[0].r[..d] + blocks[0].r[d + 1..]) * n)
    {
      var rs := blocks[0].r;
      assert rs[d].lo <= rs[d].hi ==> (AllCon(rs[..d] + rs[d + 1..]) &&
                                       Count(rs) == Count(rs[..d] + rs[d + 1..]) * Span(rs[d])) by {
        if rs[d].lo <= rs[d].hi {
          CountFactor(rs, d);
        }
      }
      rs[d].hi - rs[d].lo + 1
    }

    /** update_range(d, lo, hi): dimension d becomes [lo, hi]; nothing else changes but the size cache. */
    method UpdateRange(d: nat, lo: int, hi: int)
      requires Valid() && blocks[0].expanded && d < |blocks[0].r| && |blocks| == 1
      modifies this
      ensures Valid() && cache == [None]
      ensures blocks == [old(blocks[0]).(r := old(blocks[0].r)[d := Con(lo, hi)])]
    {
      var b := blocks[0];
      blocks := [b.(r := b.r[d := Con(lo, hi)])];
      cache := [None];
    }

    /** effDims: the number of dimensions declared lo..hi; all of them for a sparse array. */
    method EffDims() returns (n: nat)
      requires Valid() && !blocks[0].expanded
      ensures n == if |blocks| > 1 then |blocks[0].r| else RangedDims(blocks[0].r)
    {
      if |blocks| > 1 {
        return |blocks[0].r|;
      }
      n := CountRanged(blocks[0].r);
    }

    // -------------------------------------------------------------------
    // size, in_range, Offset, Validate
    // -------------------------------------------------------------------

    /** size() of the node at block k: this block's (memoised) size plus the size of the rest of the chain. */
    method Size(k: nat) returns (count: int)
      requires Valid() && k < |blocks| && AllConcrete(blocks)
      modifies this
      ensures Valid() && blocks == old(blocks) && |cache| == |old(cache)|
      ensures count == TotalSize(blocks[k..])
      ensures forall j :: k <= j < |cache| ==> cache[j].Some?
      ensures forall j :: 0 <= j < k ==> cache[j] == old(cache[j])
      decreases |blocks| - k
    {
      if cache[k].Some? {
        count := cache[k].value;
      } else {
        var rs := blocks[k].r;
        count := 1;
        var i := 0;
        while i < |rs|
          invariant 0 <= i <= |rs| && count == Count(rs[..i])
        {
          assert rs[..i + 1][..i] == rs[..i];
          if rs[i].hi < rs[i].lo {
            CountZeroIff(rs);
            count := 0;
            break;
          }
          count := count * Span(rs[i]);
          i := i + 1;
        }
        assert i == |rs| ==> rs[..i] == rs;
        assert count == Count(rs);
        cache := cache[k := Some(count)];
      }
      assert blocks[k..] == [blocks[k]] + blocks[k + 1..];
      if k + 1 < |blocks| {
        var rest := Size(k + 1);
        count := count + rest;
      }
    }

    /**
     * in_range: the row-major offset of the candidate dereference within
     * block k alone, or -1 when one of its coordinates is outside the block.
     */
    method InRange(k: nat, cand: seq<Range>) returns (off: int)
      requires Valid() && k < |blocks| && AllConcrete(blocks)
      requires AllCon(cand) && |cand| >= |blocks[k].r|
      modifies this
      ensures Valid() && blocks == old(blocks) && |cache| == |old(cache)| && cache[k].Some?
      ensures forall j :: 0 <= j < |cache| && old(cache[j]).Some? ==> cache[j] == old(cache[j])
      ensures forall j :: 0 <= j < k ==> cache[j] == old(cache[j])
      ensures off == if Contains(blocks[k].r, cand) then RowMajor(blocks[k].r, Lows(cand)) else -1
    {
      if cache[k].None? {
        var _ := Size(k);
      }
      off := BlockOffset(blocks[k].r, cand, cache[k].value);
    }

    /**
     * Offset of the candidate in the chain from block k: found in block k,
     * or the size of block k plus its offset in the rest of the chain.
     */
    method Offset(k: nat, cand: seq<Range>) returns (off: int)
      requires Valid() && k < |blocks| && AllConcrete(blocks)
      requires AllCon(cand) && forall j :: 0 <= j < |blocks| ==> |blocks[j].r| <= |cand|
      requires FirstContaining(blocks[k..], cand) < |blocks| - k
      modifies this
      ensures Valid() && blocks == old(blocks) && |cache| == |old(cache)|
      ensures forall j :: 0 <= j < |cache| && old(cache[j]).Some? ==> cache[j] == old(cache[j])
      ensures forall j :: 0 <= j < k ==> cache[j] == old(cache[j])
      ensures off == OffsetSpec(blocks[k..], cand)
      decreases |blocks| - k
    {
      off := InRange(k, cand);
      if Contains(blocks[k].r, cand) {
        RowMajorBounds(blocks[k].r, Lows(cand));
      }
      if off == -1 {
        assert blocks[k..][1..] == blocks[k + 1..];
        var rest := Offset(k + 1, cand);
        off := cache[k].value + rest;
      }
    }

    /**
     * Validate(a) from block k: whether the successor of the dereference a
     * lies in this block or, failing that, in a later one.
     */
    method Validate(k: nat, a: Block) returns (r: Result<bool, Error>)
      requires Valid() && k < |blocks| && WellFormed(a)
      ensures r == ValidateSpec(blocks[k..], a)
      decreases |blocks| - k
    {
      if !blocks[k].expanded || !a.expanded {
        return Failure(ValidateUnexpanded);
      }
      if !a.deref {
        return Failure(ValidateNotDeref);
      }
      var rs := blocks[k].r;
      if |rs| != |a.r| {
        return Failure(ValidateDimMismatch);
      }
      var i := 0;
      while i < |rs|
        invariant 0 <= i <= |rs|
        invariant forall j :: 0 <= j < i ==> rs[j].lo <= a.r[j].hi + 1 <= rs[j].hi
      {
        var d := a.r[i].hi + 1;
        if rs[i].lo > d || rs[i].hi < d {
          if k + 1 < |blocks| {
            assert blocks[k..][1..] == blocks[k + 1..];
            r := Validate(k + 1, a);
          } else {
            r := Success(false);
          }
          return;
        }
        i := i + 1;
      }
      return Success(true);
    }

    // -------------------------------------------------------------------
    // Expand
    // -------------------------------------------------------------------

    /**
     * Expand(ns, s, is_ref): a fresh expanded array; an already expanded
     * one is returned itself.
     */
    method Expand(c: Ctx, env: Env, isRef: bool) returns (r: Result<ActArray, Error>)
      requires Valid() && HasDims(blocks)
      ensures blocks[0].expanded ==> r == Success(this)
      ensures r.Success? <==> ExpandChain(blocks, c, env, isRef).Success?
      ensures r.Success? ==> r.value.Valid() && r.value.blocks == ExpandChain(blocks, c, env, isRef).value
      ensures r.Success? && !blocks[0].expanded ==> fresh(r.value)
    {
      if blocks[0].expanded {
        return Success(this);
      }
      var bs := ExpandFrom(0, c, env, isRef);
      assert blocks[0..] == blocks;
      if bs.Failure? {
        return Failure(bs.error);
      }
      var a := new ActArray.Build(bs.value);
      r := Success(a);
    }

    /** The expansion of block k (in the given context) and of the blocks after it. */
    method ExpandFrom(k: nat, c: Ctx, env: Env, isRef: bool) returns (r: Result<seq<Block>, Error>)
      requires Valid() && HasDims(blocks) && k < |blocks| && !blocks[k].expanded
      ensures r == ExpandChain(blocks[k..], c, env, isRef)
      decreases |blocks| - k
    {
      var b := blocks[k];
      var rs: seq<Range> := [];
      var i := 0;
      while i < |b.r|
        invariant 0 <= i <= |b.r| && |rs| == i
        invariant forall j :: 0 <= j < i ==>
          c.ev(b.r[j].shi, env).IntLit? && (b.r[j].slo.Some? ==> c.ev(b.r[j].slo.value, env).IntLit?)
        invariant forall j :: 0 <= j < i ==>
          var h := c.ev(b.r[j].shi, env).i;
          rs[j] == (if b.r[j].slo.Some? then Con(c.ev(b.r[j].slo.value, env).i, h)
                    else if isRef then Con(h, h) else Con(0, h - 1))
      {
        var hval := c.ev(b.r[i].shi, env);
        if !hval.IntLit? {
          return Failure(ArrayBoundNotInt);
        }
        var x: Range;
        if b.r[i].slo.Some? {
          var lval := c.ev(b.r[i].slo.value, env);
          if !lval.IntLit? {
            return Failure(ArrayBoundNotInt);
          }
          x := Con(lval.i, hval.i);
        } else if isRef {
          x := Con(hval.i, hval.i);
        } else {
          x := Con(0, hval.i - 1);
        }
        rs := rs + [x];
        i := i + 1;
      }
      assert rs == ExpandRanges(b.r, c, env, isRef).value;
      var nb := Block(b.deref, true, rs);
      assert blocks[k..][0] == b;
      if k + 1 < |blocks| {
        assert blocks[k..][1..] == blocks[k + 1..];
        var rest := ExpandFrom(k + 1, c, env, false);
        if rest.Failure? {
          return Failure(rest.error);
        }
        r := Success([nb] + rest.value);
      } else {
        r := Success([nb]);
      }
    }
  }

  /** The loop of effDims: count the dimensions that have a low bound. */
  method CountRanged(rs: seq<Range>) returns (n: nat)
    requires forall i :: 0 <= i < |rs| ==> rs[i].Sym?
    ensures n == RangedDims(rs)
  {
    n := 0;
    var i := 0;
    while i < |rs|
      invariant 0 <= i <= |rs| && n == RangedDims(rs[..i])
    {
      assert rs[..i + 1][..i] == rs[..i];
      if rs[i].slo.Some? {
        n := n + 1;
      }
      i := i + 1;
    }
    assert rs[..i] == rs;
  }

  /**
   * The loop of in_range on one block of `sz` indices: the running offset
   * gains each coordinate's digit times the size of the dimensions after it.
   */
  method BlockOffset(rs: seq<Range>, cand: seq<Range>, sz0: int) returns (off: int)
    requires AllCon(rs) && AllCon(cand) && |cand| >= |rs| && sz0 == Count(rs)
    ensures off == if Contains(rs, cand) then RowMajor(rs, Lows(cand)) else -1
  {
    var c := Lows(cand);
    var sz := sz0;
    off := 0;
    var i := 0;
    assert rs[0..] == rs;
    while i < |rs|
      invariant 0 <= i <= |rs| && AllCon(rs[i..])
      invariant forall j :: 0 <= j < i ==>
        rs[j].lo <= cand[j].lo <= rs[j].hi && rs[j].lo <= cand[j].hi <= rs[j].hi
      invariant sz == Count(rs[i..]) && off == Horner(rs, c, i) * sz
    {
      var d := cand[i].lo;
      if rs[i].lo > d || rs[i].hi < d {
        return -1;
      }
      assert c[i] == d;
      var sz1 := sz / (rs[i].hi - rs[i].lo + 1);
      var off1 := off + (d - rs[i].lo) * sz1;
      HornerStep(rs, c, i, sz, off, sz1, off1);
      sz, off := sz1, off1;
      d := cand[i].hi;
      if rs[i].lo > d || rs[i].hi < d {
        return -1;
      }
      i := i + 1;
    }
    assert rs[i..] == [];
  }

  /** One step of in_range: dividing out dimension i and adding its digit keeps the Horner form. */
  lemma HornerStep(rs: seq<Range>, c: seq<int>, i: nat, sz: int, off: int, sz1: int, off1: int)
    requires AllCon(rs) && i < |rs| && |c| >= |rs| && rs[i].lo <= c[i] <= rs[i].hi
    requires sz == Count(rs[i..]) && off == Horner(rs, c, i) * sz
    requires sz1 == sz / (rs[i].hi - rs[i].lo + 1) && off1 == off + (c[i] - rs[i].lo) * sz1
    ensures sz1 == Count(rs[i + 1..]) && off1 == Horner(rs, c, i + 1) * sz1
  {
    assert rs[i..] == [rs[i]] + rs[i + 1..];
    CountCons(rs[i], rs[i + 1..]);
    var tail := Count(rs[i + 1..]);
    DivExact(Span(rs[i]), tail);
    MulRotate(Horner(rs, c, i), Span(rs[i]), tail);
    assert Horner(rs, c, i) * (Span(rs[i]) * tail) + (c[i] - rs[i].lo) * tail
        == (Horner(rs, c, i) * Span(rs[i]) + (c[i] - rs[i].lo)) * tail;
  }

  lemma DivExact(s: int, t: int)
    requires s > 0
    ensures (s * t) / s == t
  {
    var q, m := (s * t) / s, (s * t) % s;
    assert s * t == s * q + m && 0 <= m < s;
    assert s * (t - q) == m;
    if t - q >= 1 {
      MulMono(1, t - q, s);
      assert false;
    } else if t - q <= -1 {
      MulMono(t - q, -1, s);
      assert false;
    }
  }
}
