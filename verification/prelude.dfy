/**
 The builtin library that every compiled program starts with: the constants
 `_else` and `nil`, and the variadic reductions `sum` and `sub`.

 Numbers are exact reals here: the host's doubles without rounding. The
 literal order of operations of the host loops is kept in `AddFold` and
 `SubFold`; `Sigma` is the mathematical sum they are proved against.
 */
module Prelude {

  /** `_else`: the guard that closes a compiled conditional chain. */
  const Else: bool := true

  /**
   Outcome of a compiled conditional chain: `Nil` when no arm is selected and
   the chain falls through to `nil`, `Just(v)` when an arm is selected and its
   body is `v`.
   */
  datatype Maybe<+T> = Nil | Just(value: T)

  /** One `guard ? body` arm of a compiled conditional chain. */
  datatype Branch<T> = Branch(guard: bool, body: T)

  /** Evaluates `g1 ? e1 : g2 ? e2 : ... : undefined`, the shape the compiler emits. */
  function Conditional<T>(branches: seq<Branch<T>>): (r: Maybe<T>)
    ensures r == Nil <==> forall i :: 0 <= i < |branches| ==> !branches[i].guard
    ensures forall i :: 0 <= i < |branches| && branches[i].guard &&
                        (forall j :: 0 <= j < i ==> !branches[j].guard) ==>
                        r == Just(branches[i].body)
  {
    if |branches| == 0 then Nil
    else if branches[0].guard then Just(branches[0].body)
    else Conditional(branches[1..])
  }

  /**
   A guard of `_else` always selects its body, so a two-way `g ? e1 : e2`
   is the chain `g ? e1 : _else ? e2 : undefined`.
   */
  lemma ElseSelects<T>(g: bool, e1: T, e: T)
    ensures Conditional([Branch(Else, e)]) == Just(e)
    ensures Conditional([Branch(g, e1), Branch(Else, e)]) == Just(if g then e1 else e)
  {
  }

  /**
   Appending an `_else` arm turns a fall-through into the else body and
   leaves every other outcome alone: a chain closed by `_else` never falls
   through to `nil`.
   */
  lemma {:induction false} ElseArmIsFallback<T>(branches: seq<Branch<T>>, e: T)
    ensures Conditional(branches + [Branch(Else, e)]) ==
            (if Conditional(branches) == Nil then Just(e) else Conditional(branches))
    ensures Conditional(branches + [Branch(Else, e)]) != Nil
  {
    var chain := branches + [Branch(Else, e)];
    if |branches| == 0 {
      assert chain == [Branch(Else, e)];
    } else {
      assert chain[0] == branches[0];
      assert chain[1..] == branches[1..] + [Branch(Else, e)];
      ElseArmIsFallback(branches[1..], e);
    }
  }

  /** Outcome of a builtin: a number, or the message of the error it throws. */
  datatype Result<+T> = Success(value: T) | Failure(message: string)

  const SubArityMessage: string := "builtin function 'sub' requires at least 1 argument"
  const SumArityMessage: string := "builtin function 'sum' requires at least 2 arguments"

  /** The mathematical sum of a sequence, head first. */
  function Sigma(a: seq<real>): (total: real)
  {
    if a == [] then 0.0 else a[0] + Sigma(a[1..])
  }

  /** `0 + a1 + ... + an`, evaluated left to right as `sum`'s loop does. */
  function AddFold(a: seq<real>): (acc: real)
  {
    if a == [] then 0.0 else AddFold(a[..|a| - 1]) + a[|a| - 1]
  }

  /** `0 - a1 - ... - an`, evaluated left to right as `sub`'s loop does. */
  function SubFold(a: seq<real>): (acc: real)
  {
    if a == [] then 0.0 else SubFold(a[..|a| - 1]) - a[|a| - 1]
  }

  lemma {:induction false} SigmaAppend(a: seq<real>, x: real)
    ensures Sigma(a + [x]) == Sigma(a) + x
  {
    if a == [] {
      assert a + [x] == [x];
      assert [x][1..] == [];
    } else {
      assert (a + [x])[1..] == a[1..] + [x];
      SigmaAppend(a[1..], x);
    }
  }

  /** Over exact arithmetic the left fold of `sum` is the mathematical sum. */
  lemma {:induction false} AddFoldIsSigma(a: seq<real>)
    ensures AddFold(a) == Sigma(a)
  {
    if a != [] {
      var init := a[..|a| - 1];
      assert a == init + [a[|a| - 1]];
      AddFoldIsSigma(init);
      SigmaAppend(init, a[|a| - 1]);
    }
  }

  /** Over exact arithmetic `0 - a1 - ... - an` is `-(a1 + ... + an)`. */
  lemma {:induction false} SubFoldIsNegatedSum(a: seq<real>)
    ensures SubFold(a) == -AddFold(a)
    ensures SubFold(a) == -Sigma(a)
  {
    if a != [] {
      SubFoldIsNegatedSum(a[..|a| - 1]);
    }
    AddFoldIsSigma(a);
  }

  /**
   The correction `sub` applies after its loop: over exact arithmetic
   `(0 - a1 - ... - an) + a1 + a1` is `a1 - (a2 + ... + an)`.
   */
  lemma {:induction false} SubCorrection(args: seq<real>)
    requires |args| >= 1
    ensures SubFold(args) + args[0] + args[0] == args[0] - Sigma(args[1..])
  {
    SubFoldIsNegatedSum(args);
  }

  /** `sum(a1, ..., an)`: at least two arguments, folded left from 0. */
  function Sum(args: seq<real>): (r: Result<real>)
    ensures r.Failure? <==> |args| < 2
    ensures r.Failure? ==> r.message == SumArityMessage
    ensures |args| >= 2 ==> r == Success(Sigma(args))
  {
    if |args| < 2 then Failure(SumArityMessage)
    else
      AddFoldIsSigma(args);
      Success(AddFold(args))
  }

  /**
   `sub(a1, ..., an)`: at least one argument; one argument is negated,
   several are reduced as `(0 - a1 - ... - an) + a1 + a1`.
   */
  function Sub(args: seq<real>): (r: Result<real>)
    ensures r.Failure? <==> |args| == 0
    ensures r.Failure? ==> r.message == SubArityMessage
    ensures |args| == 1 ==> r == Success(-args[0])
    ensures |args| >= 2 ==> r == Success(args[0] - Sigma(args[1..]))
  {
    if |args| < 1 then Failure(SubArityMessage)
    else if |args| == 1 then Success(-args[0])
    else
      SubCorrection(args);
      Success(SubFold(args) + args[0] + args[0])
  }

  /** `sum` as the host runs it: arity check, then an accumulating loop. */
  method EvalSum(args: seq<real>) returns (r: Result<real>)
    ensures r == Sum(args)
    ensures r.Success? ==> r.value == Sigma(args)
  {
    if |args| < 2 {
      return Failure(SumArityMessage);
    }
    var result := 0.0;
    var i := 0;
    while i < |args|
      invariant 0 <= i <= |args|
      invariant result == AddFold(args[..i])
    {
      assert args[..i + 1][..i] == args[..i];
      result := result + args[i];
      i := i + 1;
    }
    assert args[..i] == args;
    AddFoldIsSigma(args);
    return Success(result);
  }

  /** `sub` as the host runs it: arity checks, a subtracting loop, the correction. */
  method EvalSub(args: seq<real>) returns (r: Result<real>)
    ensures r == Sub(args)
    ensures |args| >= 2 ==> r.Success? && r.value == args[0] - Sigma(args[1..])
  {
    if |args| < 1 {
      return Failure(SubArityMessage);
    }
    if |args| == 1 {
      return Success(-args[0]);
    }
    var i := 0;
    var result := 0.0;
    while i < |args|
      invariant 0 <= i <= |args|
      invariant result == SubFold(args[..i])
      invariant result == -AddFold(args[..i])
    {
      assert args[..i + 1][..i] == args[..i];
      result := result - args[i];
      i := i + 1;
    }
    assert args[..i] == args;
    SubCorrection(args);
    return Success(result + args[0] + args[0]);
  }

  /** Worked examples of `sum` and `sub`. */
  lemma BuiltinExamples()
    ensures Sum([]) == Failure(SumArityMessage) && Sum([1.0]) == Failure(SumArityMessage)
    ensures Sum([1.0, 2.0]) == Success(3.0) && Sum([1.0, 2.0, 3.0]) == Success(6.0)
    ensures Sum([-1.0, -2.0]) == Success(-3.0) && Sum([2.5, 0.25]) == Success(2.75)
    ensures Sub([]) == Failure(SubArityMessage) && Sub([5.0]) == Success(-5.0)
    ensures Sub([10.0, 3.0]) == Success(7.0) && Sub([10.0, 3.0, 2.0]) == Success(5.0)
  {
  }
}
