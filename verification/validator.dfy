/** The fluent `Validator` of src/Validator.hpp: a value `t` and a polarity,
    with checks that throw `ValidationError` when their outcome disagrees
    with the polarity. A thrown error is an `Err` here, and the validator a
    check returns is the `Ok` value. */
module Validators {
  import opened Wrappers
  import opened Order

  /** The message standing for `ValidationError`. */
  const Invalid: string := "ValidationError"

  /** `Validator<T>`: the value under test and the polarity. Its `And`,
      `but` and `Or` members are references to the validator itself, so
      they have no state of their own and are not separate fields. */
  datatype Validator<T> = Validator(t: T, positive: bool)

  /** `expect(t)`: a positive validator for `t`. */
  function Expect<T>(t: T): (v: Validator<T>)
    ensures v.t == t && v.positive
  {
    Validator(t, true)
  }

  /** `execute(passed)`: throws when `passed ^ positive`. */
  function Execute<T>(v: Validator<T>, passed: bool): (r: Result<Validator<T>>)
    ensures r.Ok? <==> passed == v.positive
    ensures r.Ok? ==> r.value == v
    ensures r.Err? ==> r.msg == Invalid
  {
    if passed != v.positive then Err(Invalid) else Ok(v)
  }

  /** `Not()`: flip the polarity for the rest of the chain. */
  function Not<T>(v: Validator<T>): (r: Validator<T>)
    ensures r.t == v.t && r.positive != v.positive
  {
    v.(positive := !v.positive)
  }

  /** `toBe(b)`: `t == b`, the element type's equality being the
      equivalence of its order `lt`. */
  function ToBe<T>(v: Validator<T>, lt: (T, T) -> bool, b: T): (r: Result<Validator<T>>)
    ensures r.Ok? <==> (Equiv(lt, v.t, b) == v.positive)
  {
    Execute(v, Equiv(lt, v.t, b))
  }

  /** `toBeOneOf(first, ts...)`: the arguments are tried in turn; with none
      left the check fails. */
  function ToBeOneOf<T>(v: Validator<T>, lt: (T, T) -> bool, opts: seq<T>): (r: Result<Validator<T>>)
    ensures r == Execute(v, exists i :: 0 <= i < |opts| && Equiv(lt, v.t, opts[i]))
    decreases |opts|
  {
    if opts == [] then Execute(v, false)
    else if Equiv(lt, v.t, opts[0]) then Execute(v, true)
    else
      var r := ToBeOneOf(v, lt, opts[1..]);
      assert forall i :: 0 < i < |opts| ==> opts[i] == opts[1..][i - 1];
      r
  }

  /** `le(b)`: `t <= b`, that is, `b` is not less than `t`. */
  function Le<T>(v: Validator<T>, lt: (T, T) -> bool, b: T): (r: Result<Validator<T>>)
    ensures r.Ok? <==> (!lt(b, v.t) == v.positive)
  {
    Execute(v, !lt(b, v.t))
  }

  /** `ge(b)`: `t >= b`, that is, `t` is not less than `b`. */
  function Ge<T>(v: Validator<T>, lt: (T, T) -> bool, b: T): (r: Result<Validator<T>>)
    ensures r.Ok? <==> (!lt(v.t, b) == v.positive)
  {
    Execute(v, !lt(v.t, b))
  }

  /** Every character of `t` occurs in `b`. */
  ghost predicate AllIn(t: string, b: string) {
    forall i :: 0 <= i < |t| ==> t[i] in b
  }

  /** `consistedOf(b)`: fails at the first character of `t` that `b` does
      not contain; an empty `t` passes. */
  method ConsistedOf(v: Validator<string>, b: string) returns (r: Result<Validator<string>>)
    ensures r == Execute(v, AllIn(v.t, b))
  {
    var i := 0;
    while i < |v.t|
      invariant 0 <= i <= |v.t|
      invariant forall j :: 0 <= j < i ==> v.t[j] in b
    {
      if v.t[i] !in b {
        return Execute(v, false);
      }
      i := i + 1;
    }
    return Execute(v, true);
  }

  // ---------------------------------------------------------------------
  // Chains
  // ---------------------------------------------------------------------

  /** One link of a chain such as `expect(x).toBe(a).Or.Not().le(b)`. */
  datatype Check<T> = IsEq(b: T) | OneOf(opts: seq<T>) | AtMost(b: T) | AtLeast(b: T) | Negate

  /** The outcome a check computes before `execute` compares it with the
      polarity (`Negate` computes none). */
  ghost predicate Outcome<T>(lt: (T, T) -> bool, t: T, c: Check<T>) {
    match c
    case IsEq(b) => Equiv(lt, t, b)
    case OneOf(opts) => exists i :: 0 <= i < |opts| && Equiv(lt, t, opts[i])
    case AtMost(b) => !lt(b, t)
    case AtLeast(b) => !lt(t, b)
    case Negate => true
  }

  /** One link applied to a validator. */
  function Step<T>(v: Validator<T>, lt: (T, T) -> bool, c: Check<T>): (r: Result<Validator<T>>)
    ensures c.Negate? ==> r == Ok(Not(v))
    ensures !c.Negate? ==> r == Execute(v, Outcome(lt, v.t, c))
  {
    match c
    case IsEq(b) => ToBe(v, lt, b)
    case OneOf(opts) => ToBeOneOf(v, lt, opts)
    case AtMost(b) => Le(v, lt, b)
    case AtLeast(b) => Ge(v, lt, b)
    case Negate => Ok(Not(v))
  }

  /** A chain, left to right; `And`, `but` and `Or` between links return
      the same validator, so they add nothing. The first failing link
      throws, always with `ValidationError`; a chain that passes checks
      the same value it was given. */
  function Run<T>(v: Validator<T>, lt: (T, T) -> bool, cs: seq<Check<T>>): (r: Result<Validator<T>>)
    ensures r.Ok? ==> r.value.t == v.t
    ensures r.Err? ==> r.msg == Invalid
    decreases |cs|
  {
    if cs == [] then Ok(v)
    else
      match Step(v, lt, cs[0])
      case Err(msg) => Err(msg)
      case Ok(w) => Run(w, lt, cs[1..])
  }

  /** The polarity after the links `cs`: flipped once per `Not()`. */
  function Polarity<T>(p: bool, cs: seq<Check<T>>): bool
    decreases |cs|
  {
    if cs == [] then p else Polarity(if cs[0].Negate? then !p else p, cs[1..])
  }

  /** Each check of the chain agrees with the polarity in force when it
      runs. */
  ghost predicate Agrees<T>(lt: (T, T) -> bool, v: Validator<T>, cs: seq<Check<T>>) {
    forall i :: 0 <= i < |cs| && !cs[i].Negate? ==> Outcome(lt, v.t, cs[i]) == Polarity(v.positive, cs[..i])
  }

  // ---------------------------------------------------------------------
  // Correctness
  // ---------------------------------------------------------------------

  /** Two `Not()`s restore the polarity, and `Not()` turns every passing
      check into a failing one and back. */
  lemma NotSpec<T>(v: Validator<T>, passed: bool)
    ensures Not(Not(v)) == v
    ensures Execute(Not(v), passed).Ok? <==> !Execute(v, passed).Ok?
  {
  }

  /** Under a total order, `le` passes exactly when `t` is less than or
      equal to `b` and `ge` exactly when it is greater or equal. */
  lemma LeGeSpec<T(!new)>(v: Validator<T>, lt: (T, T) -> bool, b: T)
    requires WeakOrder(lt) && v.positive
    ensures Le(v, lt, b).Ok? <==> lt(v.t, b) || Equiv(lt, v.t, b)
    ensures Ge(v, lt, b).Ok? <==> lt(b, v.t) || Equiv(lt, v.t, b)
  {
  }

  /** A chain passes exactly when each of its checks agrees with the
      polarity in force at that point; it then returns the same value with
      the polarity left by its `Not()`s. */
  lemma {:induction false} RunSpec<T>(v: Validator<T>, lt: (T, T) -> bool, cs: seq<Check<T>>)
    ensures Run(v, lt, cs).Ok? <==> Agrees(lt, v, cs)
    ensures Run(v, lt, cs).Ok? ==> Run(v, lt, cs).value == Validator(v.t, Polarity(v.positive, cs))
    ensures Run(v, lt, cs).Err? ==> Run(v, lt, cs).msg == Invalid
    decreases |cs|
  {
    if cs != [] {
      var c := cs[0];
      var w := v.(positive := if c.Negate? then !v.positive else v.positive);
      var rest := cs[1..];
      assert forall i :: 0 < i <= |cs| ==> cs[..i][1..] == rest[..i - 1];
      if Step(v, lt, c).Ok? {
        assert Step(v, lt, c).value == w;
        RunSpec(w, lt, rest);
        forall i | 0 < i < |cs|
          ensures cs[i] == rest[i - 1]
          ensures Polarity(v.positive, cs[..i]) == Polarity(w.positive, rest[..i - 1])
        {
          assert cs[..i][0] == c;
        }
        if Agrees(lt, w, rest) {
          forall i | 0 <= i < |cs| && !cs[i].Negate?
            ensures Outcome(lt, v.t, cs[i]) == Polarity(v.positive, cs[..i])
          {
            if i > 0 {
              assert !rest[i - 1].Negate?;
            }
          }
        }
        if Agrees(lt, v, cs) {
          forall j | 0 <= j < |rest| && !rest[j].Negate?
            ensures Outcome(lt, w.t, rest[j]) == Polarity(w.positive, rest[..j])
          {
            assert cs[j + 1] == rest[j];
          }
        }
      } else {
        assert !c.Negate?;
        assert cs[..0] == [];
      }
    }
  }

  /** `Or` is not a disjunction: `expect(x).toBe(a).Or.toBe(b)` passes only
      when `x` equals both `a` and `b`. */
  lemma OrIsConjunction<T>(x: T, lt: (T, T) -> bool, a: T, b: T)
    ensures Run(Expect(x), lt, [IsEq(a), IsEq(b)]).Ok? <==> Equiv(lt, x, a) && Equiv(lt, x, b)
  {
    var v, cs := Expect(x), [IsEq(a), IsEq(b)];
    RunSpec(v, lt, cs);
    assert cs[..0] == [] && cs[..1] == [IsEq(a)];
    assert Polarity(true, cs[..1]);
    if Agrees(lt, v, cs) {
      assert Outcome(lt, x, cs[0]) && Outcome(lt, x, cs[1]);
    }
    if Equiv(lt, x, a) && Equiv(lt, x, b) {
      forall i | 0 <= i < |cs| && !cs[i].Negate?
        ensures Outcome(lt, v.t, cs[i]) == Polarity(v.positive, cs[..i])
      {
      }
    }
  }

  /** `Not()` persists to the end of the chain: in `expect(x).Not().toBe(a)
      .toBe(b)` both checks are negated. */
  lemma NotPersists<T>(x: T, lt: (T, T) -> bool, a: T, b: T)
    ensures Run(Expect(x), lt, [Negate, IsEq(a), IsEq(b)]).Ok? <==> !Equiv(lt, x, a) && !Equiv(lt, x, b)
  {
    var v, cs := Expect(x), [Negate, IsEq(a), IsEq(b)];
    RunSpec(v, lt, cs);
    assert cs[..1] == [Negate] && cs[..2] == [Negate, IsEq(a)];
    var one: seq<Check<T>> := [IsEq(a)];
    assert one[1..] == [] && cs[..2][1..] == one && cs[..1][1..] == [];
    assert !Polarity(false, one);
    assert Polarity(true, cs[..2]) == Polarity(false, one);
    assert !Polarity(true, cs[..1]);
    if Agrees(lt, v, cs) {
      assert !Outcome(lt, x, cs[1]) && !Outcome(lt, x, cs[2]);
    }
    if !Equiv(lt, x, a) && !Equiv(lt, x, b) {
      forall i | 0 <= i < |cs| && !cs[i].Negate?
        ensures Outcome(lt, v.t, cs[i]) == Polarity(v.positive, cs[..i])
      {
      }
    }
  }
}
