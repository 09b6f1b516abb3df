/**
 * The value model of an array type (class Array of act/array.cc): a chain
 * of blocks, each with its own dimension ranges. Block k of a chain is the
 * node reached by following `next` k times; a chain of one block is dense,
 * a longer one sparse. The functions here are the reference definitions the
 * imperative operations are proved against.
 */
module ArraySpec {
  import opened Wrappers
  import opened Collab

  /** One dimension: symbolic bounds (`slo` absent for a single index) before expansion, integers after. */
  datatype Range = Sym(slo: Option<Expr>, shi: Expr) | Con(lo: int, hi: int)

  /** One block of a chain. */
  datatype Block = Block(deref: bool, expanded: bool, r: seq<Range>)

  /** The ranges of a block are symbolic before expansion and concrete after. */
  predicate WellFormed(b: Block) {
    forall i :: 0 <= i < |b.r| ==> b.r[i].Con? == b.expanded
  }

  predicate AllCon(rs: seq<Range>) {
    forall i :: 0 <= i < |rs| ==> rs[i].Con?
  }

  /** An expanded block. */
  predicate Concrete(b: Block) {
    b.expanded && AllCon(b.r)
  }

  /** A chain has at least one block, and its blocks are all expanded or all symbolic. */
  predicate ChainWF(bs: seq<Block>) {
    |bs| >= 1 && forall k :: 0 <= k < |bs| ==> WellFormed(bs[k]) && bs[k].expanded == bs[0].expanded
  }

  predicate AllConcrete(bs: seq<Block>) {
    forall k :: 0 <= k < |bs| ==> Concrete(bs[k])
  }

  /** The number of indices of one concrete dimension (range_size). */
  function Span(x: Range): int
    requires x.Con?
  {
    x.hi - x.lo + 1
  }

  /**
   * The number of elements of a block with concrete ranges: the product of
   * the spans, and 0 as soon as one dimension has hi < lo.
   */
  function Count(rs: seq<Range>): int
    requires AllCon(rs)
    decreases |rs|
  {
    if rs == [] then 1
    else
      var last := rs[|rs| - 1];
      if last.hi < last.lo then 0 else Count(rs[..|rs| - 1]) * Span(last)
  }

  // ---------------------------------------------------------------------
  // Sizes
  // ---------------------------------------------------------------------

  /** A block is empty exactly when one of its dimensions is inverted; otherwise it has at least one element. */
  lemma {:induction false} CountZeroIff(rs: seq<Range>)
    requires AllCon(rs)
    ensures Count(rs) >= 0
    ensures Count(rs) == 0 <==> exists i :: 0 <= i < |rs| && rs[i].hi < rs[i].lo
    decreases |rs|
  {
    if rs != [] {
      var p := rs[..|rs| - 1];
      CountZeroIff(p);
      var last := rs[|rs| - 1];
      if last.hi >= last.lo {
        assert Span(last) >= 1;
        if Count(p) > 0 {
          assert Count(p) * Span(last) > 0;
        }
        assert forall i :: 0 <= i < |p| ==> p[i] == rs[i];
      }
    }
  }

  /** The size of a block splits off its first dimension: this is the stride rule of row-major order. */
  lemma {:induction false} CountCons(x: Range, rs: seq<Range>)
    requires x.Con? && AllCon(rs)
    ensures AllCon([x] + rs)
    ensures Count([x] + rs) == if x.hi < x.lo then 0 else Span(x) * Count(rs)
    decreases |rs|
  {
    var s := [x] + rs;
    if rs != [] {
      var p := rs[..|rs| - 1];
      assert s[..|s| - 1] == [x] + p;
      CountCons(x, p);
      var last := rs[|rs| - 1];
      if last.hi >= last.lo && x.hi >= x.lo {
        var sx, b, sp := Span(x), Count(p), Span(last);
        assert Count(s) == (sx * b) * sp;
        assert Count(rs) == b * sp;
        MulAssoc(sx, b, sp);
      }
    } else {
      assert s[..0] == [];
    }
  }

  /** The size of two blocks joined dimension-wise (Concat) is the product of their sizes. */
  lemma {:induction false} CountAppend(xs: seq<Range>, ys: seq<Range>)
    requires AllCon(xs) && AllCon(ys)
    ensures AllCon(xs + ys)
    ensures Count(xs + ys) == Count(xs) * Count(ys)
    decreases |ys|
  {
    var s := xs + ys;
    if ys == [] {
      assert s == xs;
    } else {
      var p := ys[..|ys| - 1];
      assert s[..|s| - 1] == xs + p;
      CountAppend(xs, p);
      var last := ys[|ys| - 1];
      assert s[|s| - 1] == last;
      var a, b := Count(xs), Count(p);
      if last.hi >= last.lo {
        var sp := Span(last);
        assert Count(s) == (a * b) * sp;
        assert Count(ys) == b * sp;
        MulAssoc(a, b, sp);
      } else {
        assert Count(s) == 0 && Count(ys) == 0;
        assert a * 0 == 0;
      }
    }
  }

  lemma MulAssoc(a: int, b: int, c: int)
    ensures (a * b) * c == a * (b * c)
  {
  }

  /** A block's size is the span of any non-empty dimension times the size of the other dimensions. */
  lemma CountFactor(rs: seq<Range>, d: nat)
    requires AllCon(rs) && d < |rs| && rs[d].lo <= rs[d].hi
    ensures AllCon(rs[..d] + rs[d + 1..])
    ensures Count(rs) == Count(rs[..d] + rs[d + 1..]) * Span(rs[d])
  {
    var pre, x, post := rs[..d], rs[d], rs[d + 1..];
    var tail := [x] + post;
    assert rs == pre + tail;
    CountCons(x, post);
    CountAppend(pre, tail);
    CountAppend(pre, post);
    var cp, cq, sx := Count(pre), Count(post), Span(x);
    assert Count(tail) == sx * cq;
    assert Count(rs) == cp * (sx * cq);
    MulRotate(cp, sx, cq);
  }

  /** Total number of elements of a chain: its own block plus everything after it (size()). */
  function TotalSize(bs: seq<Block>): int
    requires AllConcrete(bs)
    decreases |bs|
  {
    if bs == [] then 0 else Count(bs[0].r) + TotalSize(bs[1..])
  }

  /** The number of elements in the first k blocks of a chain. */
  function SizeBefore(bs: seq<Block>, k: nat): int
    requires AllConcrete(bs) && k <= |bs|
    decreases k
  {
    if k == 0 then 0 else Count(bs[0].r) + SizeBefore(bs[1..], k - 1)
  }

  lemma {:induction false} SizeBeforeStep(bs: seq<Block>, k: nat)
    requires AllConcrete(bs) && k < |bs|
    ensures SizeBefore(bs, k + 1) == SizeBefore(bs, k) + Count(bs[k].r)
    decreases k
  {
    if k > 0 {
      SizeBeforeStep(bs[1..], k - 1);
    }
  }

  lemma {:induction false} TotalIsSizeBefore(bs: seq<Block>)
    requires AllConcrete(bs)
    ensures TotalSize(bs) == SizeBefore(bs, |bs|)
    decreases |bs|
  {
    if bs != [] {
      TotalIsSizeBefore(bs[1..]);
    }
  }

  lemma {:induction false} SizeBeforeNonNeg(bs: seq<Block>, k: nat)
    requires AllConcrete(bs) && k <= |bs|
    ensures 0 <= SizeBefore(bs, k) <= TotalSize(bs)
    decreases k
  {
    if k > 0 {
      CountZeroIff(bs[0].r);
      SizeBeforeNonNeg(bs[1..], k - 1);
    } else {
      TotalNonNeg(bs);
    }
  }

  lemma {:induction false} TotalNonNeg(bs: seq<Block>)
    requires AllConcrete(bs)
    ensures TotalSize(bs) >= 0
    decreases |bs|
  {
    if bs != [] {
      CountZeroIff(bs[0].r);
      TotalNonNeg(bs[1..]);
    }
  }

  // ---------------------------------------------------------------------
  // Row-major offsets
  // ---------------------------------------------------------------------

  /** The coordinate `c` lies inside the concrete block `rs` in every dimension. */
  predicate InBlock(rs: seq<Range>, c: seq<int>)
    requires AllCon(rs)
  {
    |c| >= |rs| && forall i :: 0 <= i < |rs| ==> rs[i].lo <= c[i] <= rs[i].hi
  }

  /**
   * The row-major position of the first i coordinates of `c` in `rs`, the
   * last of them varying fastest (Horner form of the sum of
   * (c[j] - lo[j]) * stride(j)).
   */
  function Horner(rs: seq<Range>, c: seq<int>, i: nat): int
    requires AllCon(rs) && i <= |rs| && i <= |c|
    decreases i
  {
    if i == 0 then 0 else Horner(rs, c, i - 1) * Span(rs[i - 1]) + (c[i - 1] - rs[i - 1].lo)
  }

  /** The row-major offset of `c` within the block `rs`. */
  function RowMajor(rs: seq<Range>, c: seq<int>): int
    requires AllCon(rs) && |rs| <= |c|
  {
    Horner(rs, c, |rs|)
  }

  /** The offset of a coordinate inside its block lies in [0, size of the block). */
  lemma {:induction false} HornerBounds(rs: seq<Range>, c: seq<int>, i: nat)
    requires AllCon(rs) && i <= |rs| && i <= |c|
    requires forall j :: 0 <= j < i ==> rs[j].lo <= c[j] <= rs[j].hi
    ensures AllCon(rs[..i])
    ensures 0 <= Horner(rs, c, i) < Count(rs[..i])
    decreases i
  {
    if i == 0 {
    } else {
      HornerBounds(rs, c, i - 1);
      var p := rs[..i];
      assert p[..i - 1] == rs[..i - 1];
      assert p[i - 1] == rs[i - 1];
      var h := Horner(rs, c, i - 1);
      var s := Span(rs[i - 1]);
      var d := c[i - 1] - rs[i - 1].lo;
      var n := Count(rs[..i - 1]);
      assert Count(p) == n * s;
      assert 0 <= d < s;
      MulMono(h, n - 1, s);
      MulMono(0, h, s);
      assert (n - 1) * s + s == n * s;
    }
  }

  lemma RowMajorBounds(rs: seq<Range>, c: seq<int>)
    requires AllCon(rs) && InBlock(rs, c)
    ensures 0 <= RowMajor(rs, c) < Count(rs)
  {
    HornerBounds(rs, c, |rs|);
    assert rs[..|rs|] == rs;
  }

  /** Two coordinates of a block with the same row-major offset are the same coordinate. */
  lemma {:induction false} HornerInjective(rs: seq<Range>, c: seq<int>, e: seq<int>, i: nat)
    requires AllCon(rs) && i <= |rs| && i <= |c| && i <= |e|
    requires forall j :: 0 <= j < i ==> rs[j].lo <= c[j] <= rs[j].hi && rs[j].lo <= e[j] <= rs[j].hi
    requires Horner(rs, c, i) == Horner(rs, e, i)
    ensures c[..i] == e[..i]
    decreases i
  {
    if i > 0 {
      var s := Span(rs[i - 1]);
      var hc, he := Horner(rs, c, i - 1), Horner(rs, e, i - 1);
      var dc, de := c[i - 1] - rs[i - 1].lo, e[i - 1] - rs[i - 1].lo;
      HornerBounds(rs, c, i - 1);
      HornerBounds(rs, e, i - 1);
      DigitsUnique(s, hc, dc, he, de);
      HornerInjective(rs, c, e, i - 1);
      assert c[..i] == c[..i - 1] + [c[i - 1]];
      assert e[..i] == e[..i - 1] + [e[i - 1]];
    }
  }

  /** A number has one representation h * s + d with 0 <= d < s. */
  lemma DigitsUnique(s: int, h1: int, d1: int, h2: int, d2: int)
    requires s > 0 && 0 <= d1 < s && 0 <= d2 < s && h1 * s + d1 == h2 * s + d2
    ensures h1 == h2 && d1 == d2
  {
    if h1 < h2 {
      MulMono(h1 + 1, h2, s);
      assert false;
    } else if h2 < h1 {
      MulMono(h2 + 1, h1, s);
      assert false;
    }
  }

  lemma MulRotate(a: int, b: int, c: int)
    ensures a * (b * c) == (a * c) * b
  {
  }

  lemma MulMono(a: int, b: int, s: int)
    requires a <= b && s >= 0
    ensures a * s <= b * s
  {
    var k := b - a;
    assert b * s == a * s + k * s;
  }

  /** The low coordinates of a concrete candidate dereference (the `lo` fields in_range reads). */
  function Lows(cand: seq<Range>): (c: seq<int>)
    requires AllCon(cand)
    ensures |c| == |cand| && forall i :: 0 <= i < |cand| ==> c[i] == cand[i].lo
  {
    seq(|cand|, i requires 0 <= i < |cand| => cand[i].lo)
  }

  /** The candidate dereference lies within the block: both its lo and hi fields, in every dimension. */
  predicate Contains(rs: seq<Range>, cand: seq<Range>)
    requires AllCon(rs) && AllCon(cand)
  {
    |cand| >= |rs| &&
    forall i :: 0 <= i < |rs| ==>
      rs[i].lo <= cand[i].lo <= rs[i].hi && rs[i].lo <= cand[i].hi <= rs[i].hi
  }

  /** The first block of the chain containing the candidate, or |bs| if none does. */
  function FirstContaining(bs: seq<Block>, cand: seq<Range>): (k: nat)
    requires AllConcrete(bs) && AllCon(cand)
    ensures k <= |bs|
    ensures k < |bs| ==> Contains(bs[k].r, cand)
    ensures forall j :: 0 <= j < k ==> !Contains(bs[j].r, cand)
    decreases |bs|
  {
    if bs == [] then 0
    else if Contains(bs[0].r, cand) then 0
    else 1 + FirstContaining(bs[1..], cand)
  }

  /**
   * Offset: the offset within the first containing block, plus the sizes
   * of the blocks before it.
   */
  function OffsetSpec(bs: seq<Block>, cand: seq<Range>): int
    requires AllConcrete(bs) && AllCon(cand) && FirstContaining(bs, cand) < |bs|
    decreases |bs|
  {
    if Contains(bs[0].r, cand) then RowMajor(bs[0].r, Lows(cand))
    else Count(bs[0].r) + OffsetSpec(bs[1..], cand)
  }

  /**
   * For a candidate in block k (the first that contains it), Offset is the
   * sum of the sizes of the blocks before k plus the in-block row-major
   * offset, and it lies in [0, size of the chain).
   */
  lemma {:induction false} OffsetIsPosition(bs: seq<Block>, cand: seq<Range>)
    requires AllConcrete(bs) && AllCon(cand) && FirstContaining(bs, cand) < |bs|
    ensures var k := FirstContaining(bs, cand);
      OffsetSpec(bs, cand) == SizeBefore(bs, k) + RowMajor(bs[k].r, Lows(cand))
    ensures 0 <= OffsetSpec(bs, cand) < TotalSize(bs)
    decreases |bs|
  {
    var k := FirstContaining(bs, cand);
    if k == 0 {
      RowMajorBounds(bs[0].r, Lows(cand));
      TotalNonNeg(bs[1..]);
    } else {
      OffsetIsPosition(bs[1..], cand);
      CountZeroIff(bs[0].r);
    }
  }

  // ---------------------------------------------------------------------
  // Structural comparison
  // ---------------------------------------------------------------------

  /** isDimCompatible: same dimension count, same dereference flag, same sparseness. */
  predicate DimCompatible(xs: seq<Block>, ys: seq<Block>)
    requires |xs| >= 1 && |ys| >= 1
  {
    |xs[0].r| == |ys[0].r| && xs[0].deref == ys[0].deref && (|xs| > 1) == (|ys| > 1)
  }

  /**
   * Dimension compatibility is an equivalence, and every pair of arrays
   * that compare equal is compatible.
   */
  lemma DimCompatibleEquivalence(xs: seq<Block>, ys: seq<Block>, zs: seq<Block>)
    requires |xs| >= 1 && |ys| >= 1 && |zs| >= 1
    ensures DimCompatible(xs, xs)
    ensures DimCompatible(xs, ys) == DimCompatible(ys, xs)
    ensures DimCompatible(xs, ys) && DimCompatible(ys, zs) ==> DimCompatible(xs, zs)
  {
  }

  /** The comparison of two symbolic blocks: lo present in both or neither, and the bounds structurally equal. */
  predicate SymRangesEqual(x: seq<Range>, y: seq<Range>)
    requires |x| == |y|
    requires forall i :: 0 <= i < |x| ==> x[i].Sym? && y[i].Sym?
  {
    forall i :: 0 <= i < |x| ==>
      x[i].slo.Some? == y[i].slo.Some? &&
      (x[i].slo.Some? ==> x[i].slo.value == y[i].slo.value) &&
      x[i].shi == y[i].shi
  }

  /**
   * The comparison of two concrete blocks: strict = 1 compares bounds, any
   * other mode compares spans hi - lo, and strict = -1 skips dimension 0.
   */
  predicate ConRangesEqual(x: seq<Range>, y: seq<Range>, strict: int)
    requires |x| == |y| && AllCon(x) && AllCon(y)
  {
    forall i :: (if strict == -1 then 1 else 0) <= i < |x| ==>
      if strict == 1 then x[i].lo == y[i].lo && x[i].hi == y[i].hi
      else x[i].hi - x[i].lo == y[i].hi - y[i].lo
  }

  /** Two chains both expanded or both not (isEqual reads the other's ranges in its own form). */
  predicate SameState(xs: seq<Block>, ys: seq<Block>)
    requires |xs| >= 1 && |ys| >= 1
  {
    xs[0].expanded == ys[0].expanded
  }

  /** isEqual, block by block down the chain. */
  function ChainEqual(xs: seq<Block>, ys: seq<Block>, strict: int): (eq: bool)
    requires ChainWF(xs) && ChainWF(ys) && SameState(xs, ys)
    ensures eq ==> |xs| == |ys|
    ensures eq ==> forall k :: 0 <= k < |xs| ==> |xs[k].r| == |ys[k].r| && xs[k].deref == ys[k].deref
    decreases |xs|
  {
    DimCompatible(xs, ys) &&
    (if xs[0].expanded then ConRangesEqual(xs[0].r, ys[0].r, strict) else SymRangesEqual(xs[0].r, ys[0].r)) &&
    (|xs| > 1 ==> ChainEqual(xs[1..], ys[1..], strict))
  }

  /** Arrays that compare equal are dimension-compatible. */
  lemma EqualIsCompatible(xs: seq<Block>, ys: seq<Block>, strict: int)
    requires ChainWF(xs) && ChainWF(ys) && SameState(xs, ys) && ChainEqual(xs, ys, strict)
    ensures DimCompatible(xs, ys)
  {
  }

  /** Comparing bounds implies comparing spans, which implies comparing spans from dimension 1. */
  lemma {:induction false} StrictImpliesLoose(xs: seq<Block>, ys: seq<Block>)
    requires ChainWF(xs) && ChainWF(ys) && SameState(xs, ys)
    ensures ChainEqual(xs, ys, 1) ==> ChainEqual(xs, ys, 0)
    ensures ChainEqual(xs, ys, 0) ==> ChainEqual(xs, ys, -1)
    decreases |xs|
  {
    if |xs| > 1 && |ys| > 1 {
      StrictImpliesLoose(xs[1..], ys[1..]);
    }
  }

  /** Every chain equals itself, in every mode. */
  lemma {:induction false} ChainEqualReflexive(xs: seq<Block>, strict: int)
    requires ChainWF(xs)
    ensures SameState(xs, xs) && ChainEqual(xs, xs, strict)
    decreases |xs|
  {
    if |xs| > 1 {
      ChainEqualReflexive(xs[1..], strict);
    }
  }

  /** isEqual is symmetric. */
  lemma {:induction false} ChainEqualSymmetric(xs: seq<Block>, ys: seq<Block>, strict: int)
    requires ChainWF(xs) && ChainWF(ys) && SameState(xs, ys)
    ensures SameState(ys, xs)
    ensures ChainEqual(xs, ys, strict) == ChainEqual(ys, xs, strict)
    decreases |xs|
  {
    if |xs| > 1 && |ys| > 1 {
      ChainEqualSymmetric(xs[1..], ys[1..], strict);
    }
  }

  // ---------------------------------------------------------------------
  // Validate
  // ---------------------------------------------------------------------

  /** The successor of the dereference `a` (each hi field plus one) lies within the block. */
  predicate SuccessorIn(rs: seq<Range>, a: seq<Range>)
    requires AllCon(rs) && AllCon(a) && |a| == |rs|
  {
    forall i :: 0 <= i < |rs| ==> rs[i].lo <= a[i].hi + 1 <= rs[i].hi
  }

  /** Validate: walk the chain until a block holds the successor of `a`. */
  function ValidateSpec(bs: seq<Block>, a: Block): (r: Result<bool, Error>)
    requires ChainWF(bs) && WellFormed(a)
    ensures r == Success(false) ==>
      a.deref && a.expanded &&
      forall k :: 0 <= k < |bs| ==> Concrete(bs[k]) && |bs[k].r| == |a.r| && !SuccessorIn(bs[k].r, a.r)
    ensures r == Success(true) ==>
      a.deref && a.expanded &&
      exists k :: 0 <= k < |bs| && Concrete(bs[k]) && |bs[k].r| == |a.r| && SuccessorIn(bs[k].r, a.r)
    ensures a.expanded && a.deref && AllConcrete(bs) && (forall k :: 0 <= k < |bs| ==> |bs[k].r| == |a.r|)
      ==> r.Success?
    decreases |bs|
  {
    if !bs[0].expanded || !a.expanded then Failure(ValidateUnexpanded)
    else if !a.deref then Failure(ValidateNotDeref)
    else if |bs[0].r| != |a.r| then Failure(ValidateDimMismatch)
    else if SuccessorIn(bs[0].r, a.r) then Success(true)
    else if |bs| > 1 then
      var r := ValidateSpec(bs[1..], a);
      assert forall k :: 1 <= k < |bs| ==> bs[1..][k - 1] == bs[k];
      r
    else Success(false)
  }

  // ---------------------------------------------------------------------
  // effDims, Concat, Expand
  // ---------------------------------------------------------------------

  /** The number of dimensions declared as a range lo..hi rather than a single index. */
  function RangedDims(rs: seq<Range>): (n: nat)
    requires forall i :: 0 <= i < |rs| ==> rs[i].Sym?
    ensures n <= |rs|
    ensures n == 0 <==> forall i :: 0 <= i < |rs| ==> rs[i].slo.None?
    ensures n == |rs| <==> forall i :: 0 <= i < |rs| ==> rs[i].slo.Some?
    decreases |rs|
  {
    if rs == [] then 0
    else
      var n := RangedDims(rs[..|rs| - 1]);
      assert forall i :: 0 <= i < |rs| - 1 ==> rs[..|rs| - 1][i] == rs[i];
      n + (if rs[|rs| - 1].slo.Some? then 1 else 0)
  }

  /** Concat: the dimensions of `y` appended to those of `x`; the dereference flag is cleared unless y is one. */
  function ConcatBlock(x: Block, y: Block): (b: Block)
    requires WellFormed(x) && WellFormed(y) && x.expanded == y.expanded
    ensures WellFormed(b) && b.expanded == x.expanded
    ensures |b.r| == |x.r| + |y.r| && b.r[..|x.r|] == x.r && b.r[|x.r|..] == y.r
    ensures b.deref == (x.deref && y.deref)
    ensures Concrete(x) && Concrete(y) ==> Concrete(b) && Count(b.r) == Count(x.r) * Count(y.r)
  {
    var b := Block(x.deref && y.deref, x.expanded, x.r + y.r);
    assert Concrete(x) && Concrete(y) ==> Concrete(b) && Count(b.r) == Count(x.r) * Count(y.r) by {
      if Concrete(x) && Concrete(y) {
        CountAppend(x.r, y.r);
      }
    }
    b
  }

  /**
   * The concrete form of one dimension under Expand: [lo, hi] with an
   * explicit lo; [hi, hi] without one in a reference context; [0, hi-1]
   * otherwise. Both bounds must evaluate to integer constants.
   */
  function ExpandRanges(rs: seq<Range>, c: Ctx, env: Env, isRef: bool): (r: Result<seq<Range>, Error>)
    requires forall i :: 0 <= i < |rs| ==> rs[i].Sym?
    ensures r.Success? <==> forall i :: 0 <= i < |rs| ==>
      c.ev(rs[i].shi, env).IntLit? && (rs[i].slo.Some? ==> c.ev(rs[i].slo.value, env).IntLit?)
    ensures r.Failure? ==> r.error == ArrayBoundNotInt
    ensures r.Success? ==> |r.value| == |rs| && AllCon(r.value) && forall i :: 0 <= i < |rs| ==>
      var h := c.ev(rs[i].shi, env).i;
      r.value[i] == (if rs[i].slo.Some? then Con(c.ev(rs[i].slo.value, env).i, h)
                     else if isRef then Con(h, h) else Con(0, h - 1))
    decreases |rs|
  {
    if rs == [] then Success([])
    else
      var rest := ExpandRanges(rs[1..], c, env, isRef);
      assert forall i :: 1 <= i < |rs| ==> rs[1..][i - 1] == rs[i];
      var hv := c.ev(rs[0].shi, env);
      if !hv.IntLit? then Failure(ArrayBoundNotInt)
      else if rs[0].slo.Some? && !c.ev(rs[0].slo.value, env).IntLit? then Failure(ArrayBoundNotInt)
      else if rest.Failure? then Failure(ArrayBoundNotInt)
      else
        var x := if rs[0].slo.Some? then Con(c.ev(rs[0].slo.value, env).i, hv.i)
                 else if isRef then Con(hv.i, hv.i) else Con(0, hv.i - 1);
        ExpandedRangesCons(rs, c, env, isRef, x, rest.value);
        Success([x] + rest.value)
  }

  /** The first dimension's concrete range followed by the rest's is the expansion of all of them. */
  lemma ExpandedRangesCons(rs: seq<Range>, c: Ctx, env: Env, isRef: bool, x: Range, rest: seq<Range>)
    requires |rs| >= 1 && forall i :: 0 <= i < |rs| ==> rs[i].Sym?
    requires forall i :: 0 <= i < |rs| ==>
      c.ev(rs[i].shi, env).IntLit? && (rs[i].slo.Some? ==> c.ev(rs[i].slo.value, env).IntLit?)
    requires x == (var h := c.ev(rs[0].shi, env).i;
      if rs[0].slo.Some? then Con(c.ev(rs[0].slo.value, env).i, h) else if isRef then Con(h, h) else Con(0, h - 1))
    requires |rest| == |rs| - 1 && AllCon(rest) && forall i :: 1 <= i < |rs| ==>
      var h := c.ev(rs[i].shi, env).i;
      rest[i - 1] == (if rs[i].slo.Some? then Con(c.ev(rs[i].slo.value, env).i, h)
                      else if isRef then Con(h, h) else Con(0, h - 1))
    ensures var out := [x] + rest;
      |out| == |rs| && AllCon(out) && forall i :: 0 <= i < |rs| ==>
      var h := c.ev(rs[i].shi, env).i;
      out[i] == (if rs[i].slo.Some? then Con(c.ev(rs[i].slo.value, env).i, h)
                 else if isRef then Con(h, h) else Con(0, h - 1))
  {
    var out := [x] + rest;
    assert forall i :: 1 <= i < |rs| ==> out[i] == rest[i - 1];
  }

  /** Unexpanded blocks declare at least one dimension. */
  predicate HasDims(bs: seq<Block>) {
    forall k :: 0 <= k < |bs| && !bs[k].expanded ==> |bs[k].r| > 0
  }

  /**
   * The bounds of every block of a chain evaluate to integers, the first
   * block's in the given context and the later ones' outside a reference
   * context.
   */
  predicate BoundsEvaluate(bs: seq<Block>, c: Ctx, env: Env, isRef: bool)
    requires forall k, i :: 0 <= k < |bs| && 0 <= i < |bs[k].r| ==> bs[k].r[i].Sym?
    decreases |bs|
  {
    bs == [] ||
    (ExpandRanges(bs[0].r, c, env, isRef).Success? && BoundsEvaluate(bs[1..], c, env, false))
  }

  /** BoundsEvaluate holds exactly when every block's ranges expand. */
  lemma {:induction false} BoundsEvaluateEvery(bs: seq<Block>, c: Ctx, env: Env, isRef: bool)
    requires forall k, i :: 0 <= k < |bs| && 0 <= i < |bs[k].r| ==> bs[k].r[i].Sym?
    ensures BoundsEvaluate(bs, c, env, isRef) <==>
      forall k :: 0 <= k < |bs| ==> ExpandRanges(bs[k].r, c, env, k == 0 && isRef).Success?
    decreases |bs|
  {
    if bs != [] {
      var tl := bs[1..];
      assert forall k :: 1 <= k < |bs| ==> tl[k - 1] == bs[k];
      BoundsEvaluateEvery(tl, c, env, false);
    }
  }

  /** The expanded first block followed by the expanded tail is the expansion of the chain. */
  lemma ExpandedCons(bs: seq<Block>, c: Ctx, env: Env, isRef: bool, b: Block, rest: seq<Block>)
    requires ChainWF(bs) && HasDims(bs) && |bs| >= 2 && !bs[0].expanded
    requires forall k, i :: 0 <= k < |bs| && 0 <= i < |bs[k].r| ==> bs[k].r[i].Sym?
    requires ExpandRanges(bs[0].r, c, env, isRef) == Success(b.r) && b == Block(bs[0].deref, true, b.r)
    requires |rest| == |bs| - 1 && ChainWF(rest) && AllConcrete(rest)
    requires forall k :: 0 <= k < |rest| ==>
      |rest[k].r| == |bs[k + 1].r| && rest[k].deref == bs[k + 1].deref &&
      ExpandRanges(bs[k + 1].r, c, env, false) == Success(rest[k].r)
    ensures var out := [b] + rest;
      |out| == |bs| && ChainWF(out) && AllConcrete(out) &&
      (forall k :: 0 <= k < |bs| ==> |out[k].r| == |bs[k].r| && out[k].deref == bs[k].deref) &&
      forall k :: 0 <= k < |bs| ==> ExpandRanges(bs[k].r, c, env, k == 0 && isRef) == Success(out[k].r)
  {
    var out := [b] + rest;
    assert out[0] == b && Concrete(b);
    assert forall k :: 1 <= k < |bs| ==> out[k] == rest[k - 1];
  }

  /**
   * Expand of a chain: each block gets concrete ranges (the first one in
   * the given context, the later ones outside a reference context); a chain
   * that is already expanded is returned as it is.
   */
  function ExpandChain(bs: seq<Block>, c: Ctx, env: Env, isRef: bool): (r: Result<seq<Block>, Error>)
    requires ChainWF(bs) && HasDims(bs)
    ensures r.Success? ==> |r.value| == |bs| && ChainWF(r.value) && AllConcrete(r.value)
    ensures r.Success? ==> forall k :: 0 <= k < |bs| ==>
      |r.value[k].r| == |bs[k].r| && r.value[k].deref == bs[k].deref
    ensures r.Success? && !bs[0].expanded ==> forall k :: 0 <= k < |bs| ==>
      ExpandRanges(bs[k].r, c, env, k == 0 && isRef) == Success(r.value[k].r)
    ensures !bs[0].expanded ==> (r.Success? <==> BoundsEvaluate(bs, c, env, isRef))
    ensures r.Failure? ==> r.error == ArrayBoundNotInt
    ensures bs[0].expanded ==> r == Success(bs)
    decreases |bs|
  {
    if bs[0].expanded then Success(bs)
    else
      var rs :- ExpandRanges(bs[0].r, c, env, isRef);
      var b := Block(bs[0].deref, true, rs);
      if |bs| == 1 then Success([b])
      else
        var tl := bs[1..];
        assert forall k :: 1 <= k < |bs| ==> tl[k - 1] == bs[k];
        assert ChainWF(tl) && HasDims(tl);
        var rest :- ExpandChain(tl, c, env, false);
        ExpandedCons(bs, c, env, isRef, b, rest);
        Success([b] + rest)
  }
}
