/**
 * prs_expr_expand, prs_expand and attr_expand as they run: recursive
 * methods that build their results with loops and accumulators and bind
 * loop variables in a mutable scope. Each is proved to compute the
 * corresponding function of PrsSpec and, when it succeeds, to leave the
 * scope as it found it.
 */
module PrsElab {
  import opened Wrappers
  import opened Collab
  import opened PrsSpec

  /** prs_expr_expand. */
  method ExprExpand(p: PrsExpr, c: Ctx, sc: Scope) returns (r: Result<PrsExpr, Error>)
    modifies sc
    ensures r == ExpandExpr(p, c, old(sc.env))
    ensures r.Success? ==> sc.env == old(sc.env)
    decreases p, 2
  {
    match p
    case Bin(op, l, rr, pchg, pt) =>
      var l' :- ExprExpand(l, c, sc);
      var r' :- ExprExpand(rr, c, sc);
      var pc :- OptExpand(pchg, c, sc);
      var pick := -1;
      if l'.PTrue? {
        pick := if op == And then 0 else 1;
      } else if l'.PFalse? {
        pick := if op == And then 1 else 0;
      } else if r'.PTrue? {
        pick := if op == And then 1 else 0;
      } else if r'.PFalse? {
        pick := if op == And then 0 else 1;
      }
      if pick == 0 {
        r := Success(r');
      } else if pick == 1 {
        r := Success(l');
      } else {
        r := Success(Bin(op, l', r', pc, pt));
      }
    case Not(x) =>
      var x' :- ExprExpand(x, c, sc);
      if x'.PFalse? {
        r := Success(PTrue);
      } else if x'.PTrue? {
        r := Success(PFalse);
      } else {
        r := Success(Not(x'));
      }
    case Label(s) =>
      r := Success(Label(s));
    case Var(id, sz) =>
      var sz' :- ExpandSize(sz, c, sc.env);
      var id' :- ResolveVar(id, c, sc.env);
      r := Success(Var(id', sz'));
    case Loop(op, v, lo, hi, body) =>
      r := LoopExpand(op, v, lo, hi, body, c, sc);
    case PTrue =>
      r := Success(PTrue);
    case PFalse =>
      r := Success(PFalse);
  }

  method OptExpand(p: Option<PrsExpr>, c: Ctx, sc: Scope) returns (r: Result<Option<PrsExpr>, Error>)
    modifies sc
    ensures r == ExpandOpt(p, c, old(sc.env))
    ensures r.Success? ==> sc.env == old(sc.env)
    decreases p, 2
  {
    if p.None? {
      return Success(None);
    }
    var x :- ExprExpand(p.value, c, sc);
    r := Success(Some(x));
  }

  /**
   * The ANDLOOP / ORLOOP case: bind the variable, evaluate the bounds,
   * allocate the pint, expand the body once per index keeping `ret` and
   * stopping at the absorbing constant, then release the pint and the name.
   */
  method LoopExpand(op: BinOp, v: string, lo: Option<Expr>, hi: Expr, body: PrsExpr, c: Ctx, sc: Scope)
    returns (r: Result<PrsExpr, Error>)
    modifies sc
    ensures r == ExpandExpr(Loop(op, v, lo, hi, body), c, old(sc.env))
    ensures r.Success? ==> sc.env == old(sc.env)
    decreases Loop(op, v, lo, hi, body), 1
  {
    ghost var env0 := sc.env;
    ExprLoopCase(op, v, lo, hi, body, c, env0);
    var ok := sc.Add(v);
    if !ok {
      return Failure(NameAlreadyBound(v));
    }
    var b := LoopBounds(lo, hi, c, sc.env);
    if b.Failure? {
      return Failure(b.error);
    }
    var ilo, ihi := b.value.0, b.value.1;
    var slot := sc.AllocPInt(v);
    var ret: PrsExpr;
    if ihi < ilo {
      ret := Identity(op);
    } else {
      ret :- RepeatBody(op, body, ilo, ihi, c, sc, ExpandExpr(body, c, sc.env));
      if NeverEnds(ihi) && ret != Absorbing(op) {
        // the index wraps to 0 and the loop goes on: only a break could end it
        return Failure(LoopNeverEnds);
      }
    }
    sc.DeallocPInt(slot, 1);
    sc.Del(v);
    assert sc.env == LoopScopeAfter(env0, v, []);
    LoopBindingRestores(env0, v, []);
    r := Success(ret);
  }

  /** The ANDLOOP / ORLOOP case of the expansion, one binding step at a time. */
  lemma ExprLoopCase(op: BinOp, v: string, lo: Option<Expr>, hi: Expr, body: PrsExpr, c: Ctx, env: Env)
    ensures v in env.names ==> ExpandExpr(Loop(op, v, lo, hi, body), c, env) == Failure(NameAlreadyBound(v))
    ensures v !in env.names && LoopBounds(lo, hi, c, env.Add(v)).Failure? ==>
      ExpandExpr(Loop(op, v, lo, hi, body), c, env) == Failure(LoopBounds(lo, hi, c, env.Add(v)).error)
    ensures v !in env.names && LoopBounds(lo, hi, c, env.Add(v)).Success? ==>
      var b := LoopBounds(lo, hi, c, env.Add(v)).value;
      ExpandExpr(Loop(op, v, lo, hi, body), c, env) ==
        if b.1 < b.0 then Success(Identity(op))
        else
          var at :- ExpandExpr(body, c, env.Add(v).AllocPInt(v));
          var res := LoopResult(op, Repeat(at, b.1 - b.0 + 1));
          if NeverEnds(b.1) && res != Absorbing(op) then Failure(LoopNeverEnds) else Success(res)
  {
  }

  /** The iterations ilo .. ihi of an AND / OR loop; the scope is the same in each, so is the body's tree. */
  method RepeatBody(op: BinOp, body: PrsExpr, ilo: int, ihi: int, c: Ctx, sc: Scope, ghost at0: Result<PrsExpr, Error>)
    returns (r: Result<PrsExpr, Error>)
    requires ilo <= ihi && at0 == ExpandExpr(body, c, sc.env)
    modifies sc
    ensures r == (var at :- at0; Success(LoopResult(op, Repeat(at, ihi - ilo + 1))))
    ensures r.Success? ==> sc.env == old(sc.env)
    decreases body, 3
  {
    ghost var n := ihi - ilo + 1;
    var acc: Option<PrsExpr> := None;
    var i := ilo;
    while i <= ihi
      invariant ilo <= i <= ihi + 1 && sc.env == old(sc.env)
      invariant i == ilo ==> acc.None?
      invariant i > ilo ==> at0.Success? && LoopAcc(acc, false) == LoopFold(op, Repeat(at0.value, i - ilo))
      decreases ihi - i
    {
      var at := ExprExpand(body, c, sc);
      if at.Failure? {
        return Failure(at.error);
      }
      var x := at.value;
      ghost var acc0 := acc;
      var brk;
      acc, brk := AccStep(op, acc, x);
      IterationAcc(op, x, i - ilo, acc0, acc, brk);
      if brk {
        LoopFoldStops(op, x, i - ilo + 1, n);
        break;
      }
      i := i + 1;
    }
    assert at0.Success? && LoopFold(op, Repeat(at0.value, n)).ret == acc;
    r := Success(if acc.None? then Identity(op) else acc.value);
  }

  lemma IterationAcc(op: BinOp, x: PrsExpr, k: nat, acc: Option<PrsExpr>, acc': Option<PrsExpr>, brk: bool)
    requires k == 0 ==> acc.None?
    requires k > 0 ==> LoopAcc(acc, false) == LoopFold(op, Repeat(x, k))
    requires LoopAcc(acc', brk) == LoopStep(op, LoopAcc(acc, false), x)
    ensures LoopAcc(acc', brk) == LoopFold(op, Repeat(x, k + 1))
  {
    LoopFoldNext(op, x, k);
    if k == 0 {
      assert Repeat(x, 0) == [];
    }
  }

  /**
   * One iteration's effect on `ret`: a NULL `ret` takes the iteration's tree,
   * except that the identity constant leaves it NULL; the absorbing constant
   * replaces `ret` and ends the loop (`brk`).
   */
  method AccStep(op: BinOp, acc: Option<PrsExpr>, x: PrsExpr) returns (acc': Option<PrsExpr>, brk: bool)
    ensures LoopAcc(acc', brk) == LoopStep(op, LoopAcc(acc, false), x)
  {
    acc', brk := acc, false;
    if acc.None? {
      acc' := Some(x);
      if x.PTrue? {
        if op == And {
          acc' := None;
        } else {
          brk := true;
        }
      } else if x.PFalse? {
        if op == And {
          brk := true;
        } else {
          acc' := None;
        }
      }
    } else if x.PTrue? {
      if op != And {
        acc' := Some(x);
        brk := true;
      }
    } else if x.PFalse? {
      if op == And {
        acc' := Some(x);
        brk := true;
      }
    }
  }

  /** attr_expand: evaluate each attribute value in turn and queue it; a non-constant one stops the elaboration. */
  method AttrsExpand(attrs: seq<Attr>, c: Ctx, sc: Scope) returns (r: Result<seq<Attr>, Error>)
    ensures r == AttrExpand(attrs, c, sc.env)
  {
    var hd: seq<Attr> := [];
    var i := 0;
    while i < |attrs|
      invariant 0 <= i <= |attrs| && |hd| == i
      invariant forall j :: 0 <= j < i ==>
        ConstValue(c.ev(attrs[j].e, sc.env)) && hd[j] == Attr(attrs[j].attr, c.ev(attrs[j].e, sc.env))
    {
      var e := c.ev(attrs[i].e, sc.env);
      if !ConstValue(e) {
        return Failure(AttrNotConst(attrs[i].attr));
      }
      hd := hd + [Attr(attrs[i].attr, e)];
      i := i + 1;
    }
    assert AttrExpand(attrs, c, sc.env).value == hd;
    return Success(hd);
  }

  /** prs_expand of a rule list: expand each element and append its output to the result queue. */
  method RulesExpand(ps: seq<PrsLang>, c: Ctx, sc: Scope) returns (r: Result<seq<PrsLang>, Error>)
    modifies sc
    ensures r == ExpandRules(ps, c, old(sc.env))
    ensures r.Success? ==> sc.env == old(sc.env)
    decreases SizeLs(ps), 2, 0
  {
    ghost var env0 := sc.env;
    var out: seq<PrsLang> := [];
    var k := 0;
    while k < |ps|
      invariant 0 <= k <= |ps| && sc.env == env0
      invariant ExpandRules(ps[..k], c, env0) == Success(out)
    {
      SizeLsElement(ps, k);
      var tmp := OneExpand(ps[k], c, sc);
      RulesPrefixStep(ps, k, c, env0);
      if tmp.Failure? {
        RulesPrefixFail(ps, k, c, env0);
        return Failure(tmp.error);
      }
      out := out + tmp.value;
      k := k + 1;
    }
    assert ps[..k] == ps;
    r := Success(out);
  }

  /** One element of a rule list. */
  method OneExpand(p: PrsLang, c: Ctx, sc: Scope) returns (r: Result<seq<PrsLang>, Error>)
    modifies sc
    ensures r == ExpandOne(p, c, old(sc.env))
    ensures r.Success? ==> sc.env == old(sc.env)
    decreases SizeL(p), 1, 0
  {
    match p
    case Rule(attrs, e, t, arrow, dir) =>
      var attrs' :- AttrsExpand(attrs, c, sc);
      var e' :- ExprExpand(e, c, sc);
      var t' :- ExpandTarget(t, c, sc.env);
      r := Success([Rule(attrs', e', t', arrow, dir)]);
    case Gate(attrs, s, d, g, g_, sz) =>
      var attrs' :- AttrsExpand(attrs, c, sc);
      var s' :- ResolveVar(s, c, sc.env);
      var d' :- ResolveVar(d, c, sc.env);
      var gg :- ResolveOpt(g, c, sc.env);
      var gg_ :- ResolveOpt(g_, c, sc.env);
      var sz' :- ExpandSize(sz, c, sc.env);
      r := Success([Gate(attrs', s', d', gg, gg_, sz')]);
    case LoopL(v, lo, hi, body) =>
      r := StructLoop(v, lo, hi, body, c, sc);
    case Tree(param, body) =>
      var x := c.ev(param, sc.env);
      if !x.IntLit? {
        return Failure(TreeParamNotInt);
      }
      var body' :- RulesExpand(body, c, sc);
      r := Success([Tree(x, body')]);
    case Subckt(name, body) =>
      var body' :- RulesExpand(body, c, sc);
      r := Success([Subckt(name, body')]);
  }

  /**
   * The structural LOOP case: bind the variable, evaluate the bounds,
   * allocate the pint, and for each index in increasing order set the pint
   * and append the expanded body to the output; then release pint and name.
   */
  method StructLoop(v: string, lo: Option<Expr>, hi: Expr, body: seq<PrsLang>, c: Ctx, sc: Scope)
    returns (r: Result<seq<PrsLang>, Error>)
    modifies sc
    ensures r == ExpandOne(LoopL(v, lo, hi, body), c, old(sc.env))
    ensures r.Success? ==> sc.env == old(sc.env)
    decreases SizeL(LoopL(v, lo, hi, body)), 0, 0
  {
    ghost var env0 := sc.env;
    var ok := sc.Add(v);
    if !ok {
      return Failure(NameAlreadyBound(v));
    }
    var b := LoopBounds(lo, hi, c, sc.env);
    if b.Failure? {
      return Failure(b.error);
    }
    var ilo, ihi := b.value.0, b.value.1;
    var slot := sc.AllocPInt(v);
    ghost var env2 := sc.env;
    var hd :- StructIterations(body, slot, ilo, ihi, [], c, sc);
    if NeverEnds(ihi) {
      // the index wraps to 0 and the iterations start over; only an error stops them
      RulesLoopSlotReset(body, c, env2, slot, ihi, 0, ilo - 1, hd == []);
      var again :- StructIterations(body, slot, 0, ilo - 1, hd, c, sc);
      return Failure(LoopNeverEnds);
    }
    sc.DeallocPInt(slot, 1);
    sc.Del(v);
    if ilo > ihi {
      LoopBindingRestores(env0, v, []);
    } else {
      LoopBindingRestores(env0, v, [ihi]);
    }
    r := Success(hd);
  }

  /**
   * The iterations ilo .. ihi of a structural loop after the output `hd0`
   * gathered so far: set the loop's pint to the index, expand the body, and
   * append its output; while nothing has been gathered, the iteration must
   * produce something.
   */
  method StructIterations(body: seq<PrsLang>, slot: nat, ilo: int, ihi: int, hd0: seq<PrsLang>, c: Ctx, sc: Scope)
    returns (r: Result<seq<PrsLang>, Error>)
    requires slot < |sc.env.pints|
    modifies sc
    ensures r == Prepend(hd0, RulesLoop(body, c, old(sc.env), slot, ilo, ihi, hd0 == []))
    ensures r.Success? ==> sc.env == if ilo > ihi then old(sc.env) else old(sc.env).SetPInt(slot, ihi)
    decreases SizeLs(body), 3, 0
  {
    ghost var env2 := sc.env;
    ghost var spec := Prepend(hd0, RulesLoop(body, c, env2, slot, ilo, ihi, hd0 == []));
    var hd := hd0;
    var i := ilo;
    while i <= ihi
      invariant ilo <= i <= if ilo <= ihi then ihi + 1 else ilo
      invariant sc.env == if i == ilo then env2 else env2.SetPInt(slot, i - 1)
      invariant hd == [] <==> hd0 == [] && i == ilo
      invariant spec == Prepend(hd, RulesLoop(body, c, env2, slot, i, ihi, hd == []))
      decreases ihi - i
    {
      sc.SetPInt(slot, i);
      assert sc.env == env2.SetPInt(slot, i);
      var px := RulesExpand(body, c, sc);
      assert RulesLoop(body, c, env2, slot, i, ihi, hd == []) ==
        (var q :- px; if hd == [] && q == [] then Failure(NullFirstIteration)
                      else Prepend(q, RulesLoop(body, c, env2, slot, i + 1, ihi, false)));
      if px.Failure? {
        return Failure(px.error);
      }
      ghost var hd1 := hd;
      PrependAppend(hd1, px.value, RulesLoop(body, c, env2, slot, i + 1, ihi, false));
      if hd == [] {
        if px.value == [] {
          return Failure(NullFirstIteration);
        }
        hd := px.value;
      } else {
        hd := hd + px.value;
      }
      assert hd == hd1 + px.value;
      i := i + 1;
    }
    assert hd + [] == hd;
    r := Success(hd);
  }

  /** prs_expand of an act_prs. */
  method PrsExpand(p: Option<Prs>, c: Ctx, sc: Scope) returns (r: Result<Option<Prs>, Error>)
    modifies sc
    ensures r == ExpandPrs(p, c, old(sc.env))
    ensures r.Success? ==> sc.env == old(sc.env)
  {
    if p.None? {
      return Success(None);
    }
    var vdd :- ResolveOpt(p.value.vdd, c, sc.env);
    var gnd :- ResolveOpt(p.value.gnd, c, sc.env);
    var psc :- ResolveOpt(p.value.psc, c, sc.env);
    var nsc :- ResolveOpt(p.value.nsc, c, sc.env);
    var rules :- RulesExpand(p.value.rules, c, sc);
    r := Success(Some(Prs(vdd, gnd, psc, nsc, rules)));
  }

  /** The output gathered so far in front of what the remaining iterations produce. */
  function Prepend(hd: seq<PrsLang>, r: Result<seq<PrsLang>, Error>): (q: Result<seq<PrsLang>, Error>)
    ensures q.Failure? <==> r.Failure?
    ensures q.Success? ==> q.value == hd + r.value
    ensures hd == [] ==> q == r
  {
    match r
    case Success(rest) => assert hd == [] ==> hd + rest == rest; Success(hd + rest)
    case Failure(e) => Failure(e)
  }

  lemma PrependAppend(a: seq<PrsLang>, b: seq<PrsLang>, r: Result<seq<PrsLang>, Error>)
    ensures Prepend(a, Prepend(b, r)) == Prepend(a + b, r)
  {
    if r.Success? {
      assert a + (b + r.value) == (a + b) + r.value;
    }
  }

  lemma SizeLsElement(ps: seq<PrsLang>, k: nat)
    requires k < |ps|
    ensures SizeL(ps[k]) <= SizeLs(ps)
  {
    if k > 0 {
      SizeLsElement(ps[1..], k - 1);
    }
  }
}
