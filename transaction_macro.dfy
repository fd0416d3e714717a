/**
 * The `golem_operation` attribute: it reads `compensation = ..` / `compensation_with_result = ..`
 * arguments, checks that the function returns a `Result<_, _>` and takes no `self`, and emits a
 * trait whose method has `self` added and its error type wrapped in `TransactionFailure`.
 * Expressions and patterns are kept as text or syntax; the emitted tokens are summarised by the
 * parts they are built from. Panics of the macro are `Err`s here, in the order they are reached.
 */
module TransactionMacro {
  import opened Wrappers
  import opened RustSyntax

  /** One attribute argument: `path = value` (value as text), or any other `syn::Meta`. */
  datatype MetaArg = NameValue(path: seq<string>, value: string) | OtherMeta

  datatype TxError =
    | ArgNotIdent          // `get_ident().unwrap()` on a `name = value` whose name is a longer path
    | MissingResultType    // "Expected function to have a return type of Result<_, _>"
    | ReceiverInput        // "Expected function to have no self argument"
    | BothCompensations    // "Cannot specify both compensation and compensation_with_result"

  // ---------------------------------------------------------------------------------------------
  // `result_type`
  // ---------------------------------------------------------------------------------------------

  function SegmentIdents(segments: seq<PathSegment>): (r: seq<string>)
    ensures |r| == |segments| && forall i :: 0 <= i < |segments| ==> r[i] == segments[i].ident
  {
    if segments == [] then [] else [segments[0].ident] + SegmentIdents(segments[1..])
  }

  /** The three accepted spellings of the result type's path. */
  predicate IsResultPath(idents: seq<string>)
  {
    idents == ["Result"] || idents == ["std", "result", "Result"] || idents == ["core", "result", "Result"]
  }

  /** `result_type`: the success and error types of a `Result<S, E>`, looking through groups and parentheses. */
  function ResultType(t: Type): Option<(Type, Type)>
  {
    match t
    case GroupType(elem) => ResultType(elem)
    case ParenType(elem) => ResultType(elem)
    case PathType(qself, segments) =>
      if !qself && IsResultPath(SegmentIdents(segments)) then
        (match segments[|segments| - 1].arguments
         case AngleBracketed(args) =>
           if |args| == 2 && args[0].TypeArg? && args[1].TypeArg? then Some((args[0].ty, args[1].ty)) else None
         case _ => None)
      else None
    case _ => None
  }

  /** `t` with its group and parenthesis wrappers removed. */
  function Unwrapped(t: Type): (r: Type)
    ensures !r.GroupType? && !r.ParenType?
  {
    match t
    case GroupType(elem) => Unwrapped(elem)
    case ParenType(elem) => Unwrapped(elem)
    case _ => t
  }

  /**
   * `result_type` recognises exactly an unqualified path spelled `Result`, `std::result::Result`
   * or `core::result::Result`, under any number of wrappers, with two type arguments, which it
   * returns in order.
   */
  lemma {:induction false} ResultTypeRecognises(t: Type)
    ensures ResultType(t).Some? <==>
      var u := Unwrapped(t);
      && u.PathType? && !u.qself && IsResultPath(SegmentIdents(u.segments))
      && var args := u.segments[|u.segments| - 1].arguments;
      && args.AngleBracketed? && |args.args| == 2 && args.args[0].TypeArg? && args.args[1].TypeArg?
    ensures ResultType(t).Some? ==>
      var args := Unwrapped(t).segments[|Unwrapped(t).segments| - 1].arguments.args;
      ResultType(t).value == (args[0].ty, args[1].ty)
  {
    match t
    case GroupType(elem) => ResultTypeRecognises(elem);
    case ParenType(elem) => ResultTypeRecognises(elem);
    case _ =>
  }

  /** `Result<succ, err>` as written by the macro (its first path segment is `Result`). */
  function ResultOfType(succ: Type, err: Type): Type
  {
    PathType(false, [PathSegment("Result", AngleBracketed([TypeArg(succ), TypeArg(err)]))])
  }

  /** `std::result::Result<succ, err>`, the type the macro gives the compensation's `op_result`. */
  function StdResultOfType(succ: Type, err: Type): Type
  {
    PathType(false, [PathSegment("std", NoArgs), PathSegment("result", NoArgs),
                     PathSegment("Result", AngleBracketed([TypeArg(succ), TypeArg(err)]))])
  }

  /** `golem_rust::TransactionFailure<err>`. */
  function FailureType(err: Type): Type
  {
    PathType(false, [PathSegment("golem_rust", NoArgs), PathSegment("TransactionFailure", AngleBracketed([TypeArg(err)]))])
  }

  /** The new return type is again one `result_type` recognises, with the error wrapped. */
  lemma RewrittenReturnRecognised(succ: Type, err: Type)
    ensures ResultType(ResultOfType(succ, err)) == Some((succ, err))
    ensures ResultType(ResultOfType(succ, FailureType(err))) == Some((succ, FailureType(err)))
  {
    assert SegmentIdents([PathSegment("Result", AngleBracketed([TypeArg(succ), TypeArg(err)]))]) == ["Result"];
    assert SegmentIdents([PathSegment("Result", AngleBracketed([TypeArg(succ), TypeArg(FailureType(err))]))]) == ["Result"];
  }

  /** The fully qualified spelling given to `op_result` is recognised too, with the same two types. */
  lemma StdResultRecognised(succ: Type, err: Type)
    ensures ResultType(StdResultOfType(succ, err)) == Some((succ, err))
    ensures StdResultOfType(succ, err) != ResultOfType(succ, err)
  {
    var segments := StdResultOfType(succ, err).segments;
    assert SegmentIdents(segments) == ["std", "result", "Result"] by {
      assert SegmentIdents(segments)[0] == "std";
      assert SegmentIdents(segments)[1] == "result";
      assert SegmentIdents(segments)[2] == "Result";
    }
  }

  // ---------------------------------------------------------------------------------------------
  // The argument loop and the input loop, as functions of how far they have got
  // ---------------------------------------------------------------------------------------------

  /** The two optional compensation expressions, in the order (`compensation`, `compensation_with_result`). */
  type Compensations = (Option<string>, Option<string>)

  /** One iteration of the argument loop: a later assignment replaces an earlier one. */
  function ArgStep(acc: Compensations, arg: MetaArg): Result<Compensations, TxError>
  {
    match arg
    case OtherMeta => Ok(acc)
    case NameValue(path, value) =>
      if |path| != 1 then Err(ArgNotIdent)
      else if path[0] == "compensation" then Ok((Some(value), acc.1))
      else if path[0] == "compensation_with_result" then Ok((acc.0, Some(value)))
      else Ok(acc)
  }

  /** The state of the argument loop after its first `n` iterations. */
  function CompensationsUpTo(args: seq<MetaArg>, n: nat): Result<Compensations, TxError>
    requires n <= |args|
  {
    if n == 0 then Ok((None, None))
    else match CompensationsUpTo(args, n - 1)
      case Err(e) => Err(e)
      case Ok(acc) => ArgStep(acc, args[n - 1])
  }

  /** The names and types of the inputs after the first `n` iterations of the input loop. */
  function InputsUpTo(inputs: seq<FnArg>, n: nat): (r: Result<(seq<Pat>, seq<Type>), TxError>)
    requires n <= |inputs|
    ensures r.Ok? ==> |r.value.0| == n && |r.value.1| == n
  {
    if n == 0 then Ok(([], []))
    else match InputsUpTo(inputs, n - 1)
      case Err(e) => Err(e)
      case Ok(acc) =>
        (match inputs[n - 1]
         case Receiver => Err(ReceiverInput)
         case Typed(pat, ty) => Ok((acc.0 + [pat], acc.1 + [ty])))
  }

  /** The input loop fails exactly when there is a `self` receiver, and otherwise splits every input. */
  lemma {:induction false} InputsUpToSpec(inputs: seq<FnArg>, n: nat)
    requires n <= |inputs|
    ensures InputsUpTo(inputs, n).Err? <==> exists i :: 0 <= i < n && inputs[i].Receiver?
    ensures InputsUpTo(inputs, n).Err? ==> InputsUpTo(inputs, n) == Err(ReceiverInput)
    ensures InputsUpTo(inputs, n).Ok? ==> forall i :: 0 <= i < n ==>
              inputs[i] == Typed(InputsUpTo(inputs, n).value.0[i], InputsUpTo(inputs, n).value.1[i])
  {
    if n > 0 {
      InputsUpToSpec(inputs, n - 1);
    }
  }

  /** Which compensation is used and whether it also receives the operation's result. */
  function Selection(c: Compensations): Result<(string, bool), TxError>
  {
    match c
    case (Some(f), None) => Ok((f, false))
    case (None, Some(f)) => Ok((f, true))
    case (Some(_), Some(_)) => Err(BothCompensations)
    case (None, None) => Ok(("", false))
  }

  // ---------------------------------------------------------------------------------------------
  // The expansion
  // ---------------------------------------------------------------------------------------------

  /** An argument the compensation is called with: an input by its pattern, or the operation's result. */
  datatype CompArg = InputArg(pat: Pat) | OpResult

  /** The parts the emitted trait and impl are built from. */
  datatype Operation = Operation(
    traitName: string,              // the pascal-cased function name
    signature: Signature,           // the rewritten signature of the trait method
    operation: string,              // `operation` or `operation_with_result`
    compensate: string,             // the compensation expression, empty when none is given
    inputNames: seq<Pat>,
    inputTypes: seq<Type>,
    opResultType: Option<Type>,     // the type of the extra `op_result` parameter, if any
    compensationArgs: seq<CompArg>)

  function InputArgs(names: seq<Pat>): (r: seq<CompArg>)
    ensures |r| == |names| && forall i :: 0 <= i < |names| ==> r[i] == InputArg(names[i])
  {
    if names == [] then [] else [InputArg(names[0])] + InputArgs(names[1..])
  }

  /** What `golem_operation_impl` produces for the attribute arguments `args` and the function `sig`. */
  function GolemOperation(args: seq<MetaArg>, sig: Signature, pascal: string -> string): Result<Operation, TxError>
  {
    match CompensationsUpTo(args, |args|)
    case Err(e) => Err(e)
    case Ok(comps) =>
      var returned := if sig.output.Some? then ResultType(sig.output.value) else None;
      (match returned
       case None => Err(MissingResultType)
       case Some((succ, err)) =>
         (match InputsUpTo(sig.inputs, |sig.inputs|)
          case Err(e) => Err(e)
          case Ok((names, types)) =>
            (match Selection(comps)
             case Err(e) => Err(e)
             case Ok((compensate, withResult)) =>
               Ok(Operation(
                    pascal(sig.ident),
                    Signature(sig.ident, [Receiver] + sig.inputs, Some(ResultOfType(succ, FailureType(err)))),
                    if withResult then "operation_with_result" else "operation",
                    compensate,
                    names,
                    types,
                    if withResult then Some(StdResultOfType(succ, err)) else None,
                    InputArgs(names) + (if withResult then [OpResult] else []))))))
  }

  /**
   * `golem_operation_impl`: the argument loop, the return-type check, the input loop, the choice
   * of compensation, and the rewrite of the signature.
   */
  method GolemOperationImpl(args: seq<MetaArg>, sig: Signature, pascal: string -> string) returns (r: Result<Operation, TxError>)
    ensures r == GolemOperation(args, sig, pascal)
  {
    var compensation: Option<string> := None;
    var compensationWithResult: Option<string> := None;
    var i := 0;
    while i < |args|
      invariant 0 <= i <= |args|
      invariant CompensationsUpTo(args, i) == Ok((compensation, compensationWithResult))
    {
      match args[i] {
        case OtherMeta =>
        case NameValue(path, value) =>
          if |path| != 1 {
            assert CompensationsUpTo(args, i + 1) == Err(ArgNotIdent);
            CompensationsStayFailed(args, i + 1, |args|);
            return Err(ArgNotIdent);
          }
          var name := path[0];
          if name == "compensation" {
            compensation := Some(value);
          } else if name == "compensation_with_result" {
            compensationWithResult := Some(value);
          }
      }
      i := i + 1;
    }

    if sig.output.None? || ResultType(sig.output.value).None? {
      return Err(MissingResultType);
    }
    var (succ, err) := ResultType(sig.output.value).value;

    var inputNames: seq<Pat> := [];
    var inputTypes: seq<Type> := [];
    var j := 0;
    while j < |sig.inputs|
      invariant 0 <= j <= |sig.inputs|
      invariant InputsUpTo(sig.inputs, j) == Ok((inputNames, inputTypes))
    {
      match sig.inputs[j] {
        case Receiver =>
          assert InputsUpTo(sig.inputs, j + 1) == Err(ReceiverInput);
          InputsStayFailed(sig.inputs, j + 1, |sig.inputs|);
          return Err(ReceiverInput);
        case Typed(pat, ty) =>
          inputNames := inputNames + [pat];
          inputTypes := inputTypes + [ty];
      }
      j := j + 1;
    }

    var compensate: string;
    var withResult: bool;
    match (compensation, compensationWithResult) {
      case (Some(f), None) => compensate, withResult := f, false;
      case (None, Some(f)) => compensate, withResult := f, true;
      case (Some(_), Some(_)) => return Err(BothCompensations);
      case (None, None) => compensate, withResult := "", false;
    }

    var compensationArgs := InputArgs(inputNames);
    var opResultType: Option<Type> := None;
    var operation := "operation";
    if withResult {
      compensationArgs := compensationArgs + [OpResult];
      opResultType := Some(StdResultOfType(succ, err));
      operation := "operation_with_result";
    }
    var fnsig := Signature(sig.ident, [Receiver] + sig.inputs, Some(ResultOfType(succ, FailureType(err))));
    assert CompensationsUpTo(args, |args|) == Ok((compensation, compensationWithResult));
    assert Selection((compensation, compensationWithResult)) == Ok((compensate, withResult));
    assert InputsUpTo(sig.inputs, |sig.inputs|) == Ok((inputNames, inputTypes));
    assert compensationArgs == InputArgs(inputNames) + (if withResult then [OpResult] else []);
    r := Ok(Operation(pascal(sig.ident), fnsig, operation, compensate, inputNames, inputTypes, opResultType, compensationArgs));
  }

  /** Once the argument loop has failed it stays failed. */
  lemma {:induction false} CompensationsStayFailed(args: seq<MetaArg>, n: nat, m: nat)
    requires n <= m <= |args| && CompensationsUpTo(args, n).Err?
    ensures CompensationsUpTo(args, m) == CompensationsUpTo(args, n)
    decreases m - n
  {
    if n < m {
      CompensationsStayFailed(args, n, m - 1);
    }
  }

  /** Once the input loop has failed it stays failed. */
  lemma {:induction false} InputsStayFailed(inputs: seq<FnArg>, n: nat, m: nat)
    requires n <= m <= |inputs| && InputsUpTo(inputs, n).Err?
    ensures InputsUpTo(inputs, m) == InputsUpTo(inputs, n)
    decreases m - n
  {
    if n < m {
      InputsStayFailed(inputs, n, m - 1);
    }
  }

  // ---------------------------------------------------------------------------------------------
  // Properties of the expansion
  // ---------------------------------------------------------------------------------------------

  /** Arguments other than the two compensation names (and non-`name = value` ones) are ignored. */
  lemma IgnoredArgument(args: seq<MetaArg>, arg: MetaArg)
    requires arg.OtherMeta? || (|arg.path| == 1 && arg.path[0] != "compensation" && arg.path[0] != "compensation_with_result")
    ensures CompensationsUpTo(args + [arg], |args| + 1) == CompensationsUpTo(args, |args|)
  {
    CompensationsPrefix(args, [arg], |args|);
  }

  /** The loop over `args + more` passes through the states of the loop over `args`. */
  lemma {:induction false} CompensationsPrefix(args: seq<MetaArg>, more: seq<MetaArg>, n: nat)
    requires n <= |args|
    ensures CompensationsUpTo(args + more, n) == CompensationsUpTo(args, n)
  {
    if n > 0 {
      CompensationsPrefix(args, more, n - 1);
      assert (args + more)[n - 1] == args[n - 1];
    }
  }

  /**
   * With neither name given there is no compensation, the plain `operation` is used, and the
   * compensation would be called with every input, in order, and nothing else.
   */
  lemma NoCompensation(args: seq<MetaArg>, sig: Signature, pascal: string -> string)
    requires CompensationsUpTo(args, |args|) == Ok((None, None))
    requires GolemOperation(args, sig, pascal).Ok?
    ensures var op := GolemOperation(args, sig, pascal).value;
      && op.compensate == [] && op.operation == "operation" && op.opResultType == None
      && |op.compensationArgs| == |sig.inputs|
      && forall i :: 0 <= i < |sig.inputs| ==> sig.inputs[i].Typed? && op.compensationArgs[i] == InputArg(sig.inputs[i].pat)
  {
    InputsUpToSpec(sig.inputs, |sig.inputs|);
  }

  /**
   * Both names given is rejected with `BothCompensations`, once the return type and the inputs
   * have passed their checks; a missing `Result` return or a `self` input is reported first.
   */
  lemma BothRejected(args: seq<MetaArg>, sig: Signature, pascal: string -> string, f: string, g: string)
    requires CompensationsUpTo(args, |args|) == Ok((Some(f), Some(g)))
    ensures GolemOperation(args, sig, pascal) ==
      if sig.output.None? || ResultType(sig.output.value).None? then Err(MissingResultType)
      else if exists i :: 0 <= i < |sig.inputs| && sig.inputs[i].Receiver? then Err(ReceiverInput)
      else Err(BothCompensations)
  {
    InputsUpToSpec(sig.inputs, |sig.inputs|);
  }

  /**
   * With `compensation_with_result` the compensation is called with every input, in order, then
   * `op_result` typed `std::result::Result<succ, err>`, through `operation_with_result`.
   */
  lemma WithResultArguments(args: seq<MetaArg>, sig: Signature, pascal: string -> string, f: string)
    requires CompensationsUpTo(args, |args|) == Ok((None, Some(f)))
    requires GolemOperation(args, sig, pascal).Ok?
    ensures var op := GolemOperation(args, sig, pascal).value;
      var (succ, err) := ResultType(sig.output.value).value;
      && op.compensate == f && op.operation == "operation_with_result"
      && op.opResultType == Some(StdResultOfType(succ, err))
      && |op.compensationArgs| == |sig.inputs| + 1 && op.compensationArgs[|sig.inputs|] == OpResult
      && forall i :: 0 <= i < |sig.inputs| ==> sig.inputs[i].Typed? && op.compensationArgs[i] == InputArg(sig.inputs[i].pat)
  {
    InputsUpToSpec(sig.inputs, |sig.inputs|);
  }

  /**
   * The trait method takes `self` and then the original inputs, and returns
   * `Result<succ, TransactionFailure<err>>`; a function with a `self` receiver is rejected, with
   * `ReceiverInput` once the attribute arguments and the return type have passed.
   */
  lemma SignatureRewrite(args: seq<MetaArg>, sig: Signature, pascal: string -> string)
    ensures (exists i :: 0 <= i < |sig.inputs| && sig.inputs[i].Receiver?) ==> GolemOperation(args, sig, pascal).Err?
    ensures CompensationsUpTo(args, |args|).Ok? && sig.output.Some? && ResultType(sig.output.value).Some? &&
            (exists i :: 0 <= i < |sig.inputs| && sig.inputs[i].Receiver?) ==>
              GolemOperation(args, sig, pascal) == Err(ReceiverInput)
    ensures GolemOperation(args, sig, pascal).Ok? ==>
      var op := GolemOperation(args, sig, pascal).value;
      var (succ, err) := ResultType(sig.output.value).value;
      && op.signature.inputs == [Receiver] + sig.inputs
      && ResultType(op.signature.output.value) == Some((succ, FailureType(err)))
      && |op.inputNames| == |sig.inputs|
      && forall i :: 0 <= i < |sig.inputs| ==> sig.inputs[i] == Typed(op.inputNames[i], op.inputTypes[i])
  {
    InputsUpToSpec(sig.inputs, |sig.inputs|);
    if GolemOperation(args, sig, pascal).Ok? {
      var (succ, err) := ResultType(sig.output.value).value;
      RewrittenReturnRecognised(succ, err);
    }
  }

  /** The rewritten signature cannot be rewritten again: it now starts with `self`. */
  lemma NotReapplicable(args: seq<MetaArg>, sig: Signature, pascal: string -> string)
    requires GolemOperation(args, sig, pascal).Ok?
    ensures GolemOperation(args, GolemOperation(args, sig, pascal).value.signature, pascal) == Err(ReceiverInput)
  {
    var op := GolemOperation(args, sig, pascal).value;
    var (succ, err) := ResultType(sig.output.value).value;
    RewrittenReturnRecognised(succ, err);
    InputsUpToSpec(op.signature.inputs, |op.signature.inputs|);
    assert op.signature.inputs[0].Receiver?;
  }
}
