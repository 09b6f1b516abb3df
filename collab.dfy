/**
 * The collaborators of the elaboration core that are not part of it: the
 * expression evaluator, identifier resolution and the scope. They appear
 * here only through the narrow contract the core relies on.
 */
module Collab {
  import opened Wrappers

  /**
   * An expression. The constant forms are the tags the core tests for
   * (E_INT, E_REAL, E_TRUE, E_FALSE); every other expression is a `Term`,
   * kept as its structure. Structural expression equality is `==`.
   */
  datatype Expr = IntLit(i: int) | RealLit(x: real) | TrueLit | FalseLit | Term(text: string)

  /** An identifier, before or after resolution. */
  datatype Id = Id(name: string)

  /** What the scope records for a name: whether it is initialised and its int slot. */
  datatype Binding = Binding(init: bool, slot: int)

  /**
   * The observable state of a scope: the bound names and the parameter-int
   * slots, a slot holding `None` until it is assigned.
   */
  datatype Env = Env(names: map<string, Binding>, pints: seq<Option<int>>) {

    /** Binds `id` to a fresh, uninitialised pint. */
    function Add(id: string): (e: Env)
      ensures e.names.Keys == names.Keys + {id} && e.pints == pints
    {
      Env(names[id := Binding(false, 0)], pints)
    }

    /** Allocates a new slot at the end and makes `id` an initialised pint living there. */
    function AllocPInt(id: string): (e: Env)
      ensures e.names.Keys == names.Keys + {id}
      ensures |e.pints| == |pints| + 1 && e.pints[..|pints|] == pints && e.pints[|pints|] == None
    {
      Env(names[id := Binding(true, |pints|)], pints + [None])
    }

    /** Assigns `v` to slot `slot`. */
    function SetPInt(slot: nat, v: int): (e: Env)
      requires slot < |pints|
      ensures e.names == names && |e.pints| == |pints| && e.pints[slot] == Some(v)
      ensures forall j :: 0 <= j < |pints| && j != slot ==> e.pints[j] == pints[j]
    {
      Env(names, pints[slot := Some(v)])
    }

    /** A second assignment to a slot overrides the first. */
    lemma SetPIntTwice(slot: nat, v: int, w: int)
      requires slot < |pints|
      ensures SetPInt(slot, v).SetPInt(slot, w) == SetPInt(slot, w)
    {
      assert pints[slot := Some(v)][slot := Some(w)] == pints[slot := Some(w)];
    }

    /** Releases the `n` slots starting at `slot`. */
    function DeallocPInt(slot: nat, n: nat): (e: Env)
      requires slot + n <= |pints|
      ensures e.names == names && |e.pints| == |pints| - n
    {
      Env(names, pints[..slot] + pints[slot + n..])
    }

    /** Unbinds `id`. */
    function Del(id: string): (e: Env)
      ensures e.names.Keys == names.Keys - {id} && e.pints == pints
    {
      Env(names - {id}, pints)
    }
  }

  /**
   * Binding a loop variable, allocating and (any number of times) setting
   * its slot, then releasing the slot and unbinding the name gives back the
   * scope the loop started from.
   */
  lemma {:induction false} LoopBindingRestores(e: Env, id: string, vs: seq<int>)
    requires id !in e.names
    ensures LoopScopeAfter(e, id, vs) == e
  {
    var a := e.Add(id).AllocPInt(id);
    var s := SetAll(a, |e.pints|, vs);
    var d := s.DeallocPInt(|e.pints|, 1);
    assert d.pints == e.pints by {
      assert d.pints == s.pints[..|e.pints|];
      assert forall j :: 0 <= j < |e.pints| ==> s.pints[j] == a.pints[j] == e.pints[j];
    }
    assert d.Del(id).names == e.names by {
      assert a.names == e.names[id := Binding(true, |e.pints|)];
    }
  }

  /** The scope after the whole bind / allocate / set* / release / unbind sequence. */
  function LoopScopeAfter(e: Env, id: string, vs: seq<int>): Env
  {
    SetAll(e.Add(id).AllocPInt(id), |e.pints|, vs).DeallocPInt(|e.pints|, 1).Del(id)
  }

  /** Assigns the values `vs` to slot `slot`, one after the other. */
  function SetAll(e: Env, slot: nat, vs: seq<int>): (r: Env)
    requires slot < |e.pints|
    ensures r.names == e.names && |r.pints| == |e.pints|
    ensures forall j :: 0 <= j < |e.pints| && j != slot ==> r.pints[j] == e.pints[j]
    decreases |vs|
  {
    if vs == [] then e else SetAll(e.SetPInt(slot, vs[0]), slot, vs[1..])
  }

  /**
   * The mutable scope. The core changes it only through these operations,
   * and only in the strictly nested bind/unbind discipline of its loops.
   */
  class Scope {
    var env: Env

    constructor (e: Env)
      ensures env == e
    {
      env := e;
    }

    /** Scope::Add: fails, changing nothing, when the name is already bound. */
    method Add(id: string) returns (ok: bool)
      modifies this
      ensures ok == (id !in old(env).names)
      ensures env == if ok then old(env).Add(id) else old(env)
    {
      ok := id !in env.names;
      if ok {
        env := env.Add(id);
      }
    }

    /** Marks `id` initialised and gives it a freshly allocated slot (LookupVal + AllocPInt). */
    method AllocPInt(id: string) returns (slot: nat)
      modifies this
      ensures slot == |old(env).pints| && env == old(env).AllocPInt(id)
    {
      slot := |env.pints|;
      env := env.AllocPInt(id);
    }

    method SetPInt(slot: nat, v: int)
      requires slot < |env.pints|
      modifies this
      ensures env == old(env).SetPInt(slot, v)
    {
      env := env.SetPInt(slot, v);
    }

    method DeallocPInt(slot: nat, n: nat)
      requires slot + n <= |env.pints|
      modifies this
      ensures env == old(env).DeallocPInt(slot, n)
    {
      env := env.DeallocPInt(slot, n);
    }

    method Del(id: string)
      modifies this
      ensures env == old(env).Del(id)
    {
      env := env.Del(id);
    }
  }

  /**
   * The evaluator and the identifier resolver, both reading the scope.
   * `ev` is expr_expand: a constant, or a residual expression. `res` is
   * ActId::Expand followed by Eval: `Some(x)` when the identifier denotes
   * the variable `x` (an E_VAR result), `None` otherwise.
   */
  datatype Ctx = Ctx(ev: (Expr, Env) -> Expr, res: (Id, Env) -> Option<Id>)

  /** Why an elaboration stopped. */
  datatype Error =
    | ArrayBoundNotInt          // an array bound is not an integer constant
    | ValidateUnexpanded        // Validate on an unexpanded array
    | ValidateNotDeref          // Validate of something that is not a dereference
    | ValidateDimMismatch       // Validate with differing dimension counts
    | LoopBoundNotInt           // a loop bound is not an integer constant
    | LoopNeverEnds             // a loop's unsigned index can never pass its upper bound
    | TreeParamNotInt           // the tree<> parameter is not an integer constant
    | SizeNotNumeric            // a size expression is neither pint nor preal
    | AttrNotConst(attr: string) // an attribute is rejected
    | NotAVariable              // an identifier did not resolve to a variable
    | NameAlreadyBound(name: string) // a loop variable is already bound in the scope
    | NullFirstIteration        // the first iteration of a structural loop produced nothing
    | StepperUnexpanded         // a stepper asked of an unexpanded array
  {
    /** Internal invariant violations, as opposed to errors in the user's input. */
    predicate IsInternal() {
      ValidateUnexpanded? || ValidateDimMismatch? || NotAVariable? || NameAlreadyBound? || NullFirstIteration? ||
      StepperUnexpanded?
    }
  }
}
