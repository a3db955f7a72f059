/** Type resolution of condition expressions: variables whose type is still `Unknown`
    are given the function's return type (the name `ret`) or the type of the
    function argument of the same name. */
module Resolve {
  import opened Ast
  import opened Outcome

  /** A declared local of the function; `name` is absent for a pattern argument. */
  datatype LocalDecl = LocalDecl(name: Option<string>, ty: Types)

  datatype Option<+T> = None | Some(value: T)

  /** What the compiler pass collects about the function being verified. The types
      are already mapped from the compiler's types to `Types`. */
  datatype MirData = MirData(
    argData: seq<LocalDecl>,
    varData: seq<LocalDecl>,
    tempData: seq<LocalDecl>,
    funcReturnType: Types)

  /** Every argument at an index in [lo, hi) has a name, and none of them is `name`. */
  predicate NamedOtherThan(name: string, args: seq<LocalDecl>, lo: nat, hi: nat)
    requires lo <= hi <= |args|
  {
    forall j :: lo <= j < hi ==> args[j].name.Some? && args[j].name.value != name
  }

  /** The type of the first argument called `name`, `Unknown` when there is none; the scan
      panics when it reaches an unnamed argument first. */
  function ArgumentType(name: string, args: seq<LocalDecl>): (r: Result<Types>)
    ensures r.Ok? && r.value != Unknown ==> LocalDecl(Some(name), r.value) in args
    ensures (forall a :: a in args ==> a.name.Some?) ==> r.Ok?
    ensures r.Err? ==> r.error == UnwrapOnNone && exists a :: a in args && a.name.None?
  {
    if args == [] then Ok(Unknown)
    else if args[0].name.None? then Err(UnwrapOnNone)
    else if args[0].name.value == name then Ok(args[0].ty)
    else ArgumentType(name, args[1..])
  }

  /** The first argument named `name` decides, whatever follows it. */
  lemma {:induction false} ArgumentTypeFirstMatch(name: string, args: seq<LocalDecl>, i: nat)
    requires i < |args| && args[i].name == Some(name)
    requires NamedOtherThan(name, args, 0, i)
    ensures ArgumentType(name, args) == Ok(args[i].ty)
  {
    if i > 0 {
      assert NamedOtherThan(name, args[1..], 0, i - 1) by {
        forall j | 0 <= j < i - 1 ensures args[1..][j] == args[j + 1] { }
      }
      ArgumentTypeFirstMatch(name, args[1..], i - 1);
    }
  }

  /** With no argument named `name` and all arguments named, the type stays `Unknown`. */
  lemma {:induction false} ArgumentTypeNoMatch(name: string, args: seq<LocalDecl>)
    requires NamedOtherThan(name, args, 0, |args|)
    ensures ArgumentType(name, args) == Ok(Unknown)
  {
    if args != [] {
      assert NamedOtherThan(name, args[1..], 0, |args| - 1) by {
        forall j | 0 <= j < |args| - 1 ensures args[1..][j] == args[j + 1] { }
      }
      ArgumentTypeNoMatch(name, args[1..]);
    }
  }

  /** An unnamed argument reached before any match makes the lookup panic. */
  lemma {:induction false} ArgumentTypeUnnamed(name: string, args: seq<LocalDecl>, i: nat)
    requires i < |args| && args[i].name.None?
    requires NamedOtherThan(name, args, 0, i)
    ensures ArgumentType(name, args) == Err(UnwrapOnNone)
  {
    if i > 0 {
      assert NamedOtherThan(name, args[1..], 0, i - 1) by {
        forall j | 0 <= j < i - 1 ensures args[1..][j] == args[j + 1] { }
      }
      ArgumentTypeUnnamed(name, args[1..], i - 1);
    }
  }

  /** The argument lookup as the pass runs it: a scan of the argument list that returns
      at the first argument with the wanted name. Locals and temporaries are not read. */
  method GetArgumentType(name: string, data: MirData) returns (r: Result<Types>)
    ensures r == ArgumentType(name, data.argData)
  {
    var args := data.argData;
    var i := 0;
    while i < |args|
      invariant 0 <= i <= |args|
      invariant ArgumentType(name, args[i..]) == ArgumentType(name, args)
    {
      var arg := args[i];
      if arg.name.None? {
        return Err(UnwrapOnNone);
      }
      if arg.name.value == name {
        return Ok(arg.ty);
      }
      assert args[i..][1..] == args[i + 1..];
      i := i + 1;
    }
    return Ok(Unknown);
  }

  /** Resolves the variables of a condition: each variable whose type is `Unknown` gets the
      return type when it is called `ret`, and the argument lookup's type otherwise. */
  function WalkAndReplace(e: Expression, data: MirData): (r: Result<Expression>)
    ensures r.Ok? ==> SameShape(e, r.value)
    ensures r.Err? ==> r.error == UnwrapOnNone
  {
    match e
    case VariableMapping(name, ty) =>
      if ty != Unknown then Ok(VariableMapping(name, ty))
      else if name == "ret" then Ok(VariableMapping(name, data.funcReturnType))
      else
        var t :- ArgumentType(name, data.argData);
        Ok(VariableMapping(name, t))
    case BinaryExpression(left, op, right) =>
      var l :- WalkAndReplace(left, data);
      var r :- WalkAndReplace(right, data);
      Ok(BinaryExpression(l, op, r))
    case UnaryExpression(uop, operand) =>
      var o :- WalkAndReplace(operand, data);
      Ok(UnaryExpression(uop, o))
    case _ => Ok(e)
  }

  /** What resolution does to each variable occurrence, in order: names are kept, known
      types are kept, `ret` gets the return type (even when an argument is called `ret`),
      and any other name gets the argument lookup's type. */
  lemma {:induction false} WalkAndReplaceVars(e: Expression, data: MirData)
    requires WalkAndReplace(e, data).Ok?
    ensures var vs, vs' := Vars(e), Vars(WalkAndReplace(e, data).value);
      && |vs'| == |vs|
      && (forall i :: 0 <= i < |vs| ==> vs'[i].0 == vs[i].0)
      && (forall i :: 0 <= i < |vs| && vs[i].1 != Unknown ==> vs'[i].1 == vs[i].1)
      && (forall i :: 0 <= i < |vs| && vs[i].1 == Unknown && vs[i].0 == "ret" ==>
            vs'[i].1 == data.funcReturnType)
      && (forall i :: 0 <= i < |vs| && vs[i].1 == Unknown && vs[i].0 != "ret" ==>
            ArgumentType(vs[i].0, data.argData) == Ok(vs'[i].1))
  {
    match e
    case VariableMapping(_, _) =>
    case BinaryExpression(left, _, right) =>
      WalkAndReplaceVars(left, data);
      WalkAndReplaceVars(right, data);
    case UnaryExpression(_, operand) =>
      WalkAndReplaceVars(operand, data);
    case _ =>
  }

  /** Resolution panics exactly when some unresolved variable other than `ret` makes the
      argument lookup panic. */
  lemma {:induction false} WalkAndReplacePanics(e: Expression, data: MirData)
    ensures WalkAndReplace(e, data).Err? <==>
      exists v :: v in Vars(e) && v.1 == Unknown && v.0 != "ret" && ArgumentType(v.0, data.argData).Err?
  {
    match e
    case VariableMapping(name, ty) =>
      assert Vars(e) == [(name, ty)];
    case BinaryExpression(left, _, right) =>
      WalkAndReplacePanics(left, data);
      WalkAndReplacePanics(right, data);
    case UnaryExpression(_, operand) =>
      WalkAndReplacePanics(operand, data);
    case _ =>
  }

  /** A condition all of whose variables are resolved comes back unchanged. */
  lemma {:induction false} WalkAndReplaceResolved(e: Expression, data: MirData)
    requires Resolved(e)
    ensures WalkAndReplace(e, data) == Ok(e)
  {
    match e
    case VariableMapping(name, ty) =>
      assert (name, ty) in Vars(e);
    case BinaryExpression(left, _, right) =>
      WalkAndReplaceResolved(left, data);
      WalkAndReplaceResolved(right, data);
    case UnaryExpression(_, operand) =>
      WalkAndReplaceResolved(operand, data);
    case _ =>
  }

  /** Resolving an already resolved condition again changes nothing. */
  lemma {:induction false} WalkAndReplaceIdempotent(e: Expression, data: MirData)
    requires WalkAndReplace(e, data).Ok?
    ensures WalkAndReplace(WalkAndReplace(e, data).value, data) == WalkAndReplace(e, data)
  {
    match e
    case VariableMapping(_, _) =>
    case BinaryExpression(left, _, right) =>
      WalkAndReplaceIdempotent(left, data);
      WalkAndReplaceIdempotent(right, data);
    case UnaryExpression(_, operand) =>
      WalkAndReplaceIdempotent(operand, data);
    case _ =>
  }

  /** Only the arguments and the return type are consulted: locals and temporaries
      never change the outcome. */
  lemma {:induction false} WalkAndReplaceIgnoresLocals(e: Expression, data: MirData,
                                                      vars: seq<LocalDecl>, temps: seq<LocalDecl>)
    ensures WalkAndReplace(e, data) == WalkAndReplace(e, data.(varData := vars, tempData := temps))
  {
    match e
    case VariableMapping(_, _) =>
    case BinaryExpression(left, _, right) =>
      WalkAndReplaceIgnoresLocals(left, data, vars, temps);
      WalkAndReplaceIgnoresLocals(right, data, vars, temps);
    case UnaryExpression(_, operand) =>
      WalkAndReplaceIgnoresLocals(operand, data, vars, temps);
    case _ =>
  }

  /** The variable `name` is bound by resolution to a type other than `Unknown`. */
  predicate Bindable(name: string, data: MirData)
  {
    if name == "ret" then data.funcReturnType != Unknown
    else ArgumentType(name, data.argData).Ok? && ArgumentType(name, data.argData).value != Unknown
  }

  /** When resolution succeeds, its result has no `Unknown` variable exactly when every
      unresolved variable of the input names `ret` with a known return type or an
      argument of known type. */
  lemma {:induction false} WalkAndReplaceResolves(e: Expression, data: MirData)
    requires WalkAndReplace(e, data).Ok?
    ensures Resolved(WalkAndReplace(e, data).value) <==>
      forall v :: v in Vars(e) && v.1 == Unknown ==> Bindable(v.0, data)
  {
    var vs, vs' := Vars(e), Vars(WalkAndReplace(e, data).value);
    WalkAndReplaceVars(e, data);
    if Resolved(WalkAndReplace(e, data).value) {
      forall v | v in vs && v.1 == Unknown ensures Bindable(v.0, data) {
        var i :| 0 <= i < |vs| && vs[i] == v;
        assert vs'[i] in vs';
      }
    } else {
      var w :| w in vs' && w.1 == Unknown;
      var i :| 0 <= i < |vs'| && vs'[i] == w;
      assert vs[i] in vs;
      if vs[i].1 != Unknown {
        assert false;
      }
      assert !Bindable(vs[i].0, data);
    }
  }

  /** With every argument named, resolution never panics. */
  lemma {:induction false} NamedArgumentsNeverPanic(e: Expression, data: MirData)
    requires forall a :: a in data.argData ==> a.name.Some?
    ensures WalkAndReplace(e, data).Ok?
  {
    WalkAndReplacePanics(e, data);
  }
}
