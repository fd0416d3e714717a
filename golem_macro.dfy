/**
 * The `golem` derive macros: for a struct or an enum they emit an implementation of
 * `HasWitMetadata` whose `WIT` constant describes the type, plus a registry entry. Token streams
 * are modelled as the text of the expressions and names they contain; an `Err` is the
 * compile error (or panic) the macro reports, the first one in declaration order.
 */
module GolemMacro {
  import opened Wrappers
  import opened Ascii
  import opened RustSyntax

  datatype MacroError =
    | UnsupportedType              // "Unsupported type": anything but an unqualified path
    | UnsupportedGenericArgument   // a lifetime, const or binding among the `<..>` arguments
    | EmptyPath                    // "Paths to be non-empty"
    | MissingFieldName             // "Field to have name"
    | UnsupportedShape             // the input is not the shape the derive accepts

  // ---------------------------------------------------------------------------------------------
  // `make_type_wit_const`
  // ---------------------------------------------------------------------------------------------

  /**
   * The expression naming the WIT description of `t`: the last path segment's identifier, its
   * generic arguments rewritten in turn (`Name::<..>`), and `::WIT` at the root only.
   */
  function TypeWitConst(t: Type, isRoot: bool): Result<string, MacroError>
  {
    match t
    case PathType(qself, segments) =>
      if qself then Err(UnsupportedType)
      else if segments == [] then Err(EmptyPath)
      else
        var seg := segments[|segments| - 1];
        (match seg.arguments
         case AngleBracketed(args) =>
           (match ArgConsts(args)
            case Err(e) => Err(e)
            case Ok(consts) =>
              var generic := seg.ident + "::<" + Join(", ", consts) + ">";
              Ok(if isRoot then generic + "::WIT" else generic))
         case _ => Ok(if isRoot then seg.ident + "::WIT" else seg.ident))
    case _ => Err(UnsupportedType)
  }

  /** A generic argument is rewritten as a nested (non-root) type; anything else is refused. */
  function ArgConst(g: GenericArg): Result<string, MacroError>
  {
    match g
    case TypeArg(ty) => TypeWitConst(ty, false)
    case OtherArg(_) => Err(UnsupportedGenericArgument)
  }

  /** The arguments in order; the first one that fails aborts the rewrite. */
  function ArgConsts(args: seq<GenericArg>): (r: Result<seq<string>, MacroError>)
    ensures r.Ok? <==> forall i :: 0 <= i < |args| ==> ArgConst(args[i]).Ok?
    ensures r.Ok? ==> |r.value| == |args| && forall i :: 0 <= i < |args| ==> ArgConst(args[i]) == Ok(r.value[i])
    ensures r.Err? ==> exists k :: 0 <= k < |args| && ArgConst(args[k]) == Err(r.error) && forall i :: 0 <= i < k ==> ArgConst(args[i]).Ok?
  {
    if args == [] then Ok([])
    else match ArgConst(args[0])
      case Err(e) => Err(e)
      case Ok(c) =>
        (match ArgConsts(args[1..])
         case Err(e) =>
           assert forall i :: 1 <= i < |args| ==> args[i] == args[1..][i - 1];
           Err(e)
         case Ok(cs) =>
           assert forall i :: 1 <= i < |args| ==> args[i] == args[1..][i - 1];
           Ok([c] + cs))
  }

  /** The types `make_type_wit_const` accepts: unqualified paths whose arguments are all such types. */
  predicate Rewritable(t: Type)
  {
    match t
    case PathType(qself, segments) =>
      && !qself && segments != []
      && (segments[|segments| - 1].arguments.AngleBracketed? ==> ArgsRewritable(segments[|segments| - 1].arguments.args))
    case _ => false
  }

  predicate ArgRewritable(g: GenericArg)
  {
    g.TypeArg? && Rewritable(g.ty)
  }

  predicate ArgsRewritable(args: seq<GenericArg>)
  {
    forall i :: 0 <= i < |args| ==> ArgRewritable(args[i])
  }

  /**
   * The rewrite succeeds exactly on rewritable types, and the root form is the nested form
   * followed by `::WIT`.
   */
  lemma {:induction false} TypeWitConstRoot(t: Type)
    ensures TypeWitConst(t, true).Ok? <==> Rewritable(t)
    ensures TypeWitConst(t, false).Ok? <==> Rewritable(t)
    ensures TypeWitConst(t, true).Ok? ==> TypeWitConst(t, true).value == TypeWitConst(t, false).value + "::WIT"
    ensures TypeWitConst(t, true).Err? ==> TypeWitConst(t, true) == TypeWitConst(t, false)
    decreases t, 1
  {
    match t
    case PathType(qself, segments) =>
      if !qself && segments != [] {
        var seg := segments[|segments| - 1];
        if seg.arguments.AngleBracketed? {
          ArgConstsRewritable(seg.arguments.args);
        }
      }
    case _ =>
  }

  lemma {:induction false} ArgConstsRewritable(args: seq<GenericArg>)
    ensures ArgConsts(args).Ok? <==> ArgsRewritable(args)
    decreases args, 0
  {
    if args != [] {
      ArgConstRewritable(args[0]);
      ArgConstsRewritable(args[1..]);
      if ArgConsts(args).Ok? {
        forall i | 0 <= i < |args|
          ensures ArgRewritable(args[i])
        {
          if i > 0 {
            assert args[i] == args[1..][i - 1];
          }
        }
      } else if ArgConst(args[0]).Ok? {
        var i :| 0 <= i < |args[1..]| && !ArgRewritable(args[1..][i]);
        assert !ArgRewritable(args[i + 1]);
      }
    }
  }

  lemma {:induction false} ArgConstRewritable(g: GenericArg)
    ensures ArgConst(g).Ok? <==> ArgRewritable(g)
    decreases g, 2
  {
    if g.TypeArg? {
      TypeWitConstRoot(g.ty);
    }
  }

  /** Only the last segment counts: `std::result::Result<..>` is rewritten like `Result<..>`. */
  lemma LastSegmentOnly(segments: seq<PathSegment>, isRoot: bool)
    requires segments != []
    ensures TypeWitConst(PathType(false, segments), isRoot) == TypeWitConst(PathType(false, [segments[|segments| - 1]]), isRoot)
  {
  }

  /** A type without generic arguments is rewritten to its name, plus `::WIT` at the root. */
  lemma PlainTypeConst(name: string, isRoot: bool)
    ensures TypeWitConst(NamedType(name, []), isRoot) == Ok(if isRoot then name + "::WIT" else name)
  {
  }

  /**
   * A generic type whose arguments are all rewritable is rewritten to `Name::<` followed by each
   * argument rewritten as a nested type, in order and separated by `, `, then `>`.
   */
  lemma GenericTypeConst(name: string, args: seq<Type>, isRoot: bool) returns (consts: seq<string>)
    requires args != [] && forall i :: 0 <= i < |args| ==> Rewritable(args[i])
    ensures |consts| == |args| && forall i :: 0 <= i < |args| ==> TypeWitConst(args[i], false) == Ok(consts[i])
    ensures var generic := name + "::<" + Join(", ", consts) + ">";
      TypeWitConst(NamedType(name, args), isRoot) == Ok(if isRoot then generic + "::WIT" else generic)
  {
    var targs := TypeArgs(args);
    forall i | 0 <= i < |args|
      ensures ArgConst(targs[i]).Ok?
    {
      TypeWitConstRoot(args[i]);
    }
    consts := ArgConsts(targs).value;
  }

  /** `Result<Option<T>, E>` becomes `Result::<Option::<T>, E>::WIT`, for any type names `T` and `E`. */
  lemma NestedExample(tName: string, eName: string)
    ensures var t := NamedType(tName, []);
      var e := NamedType(eName, []);
      TypeWitConst(NamedType("Result", [NamedType("Option", [t]), e]), true)
        == Ok("Result::<Option::<" + tName + ">, " + eName + ">::WIT")
  {
    var t, e := NamedType(tName, []), NamedType(eName, []);
    var o := NamedType("Option", [t]);
    PlainTypeConst(tName, false);
    PlainTypeConst(eName, false);
    var inner := GenericTypeConst("Option", [t], false);
    assert inner == [tName];
    var optionConst := "Option::<" + tName + ">";
    NestedText(tName, eName, optionConst);
    TypeWitConstRoot(o);
    var outer := GenericTypeConst("Result", [o, e], true);
    assert outer == [optionConst, eName];
    assert Join(", ", [optionConst, eName]) == optionConst + ", " + eName by {
      assert [optionConst, eName][..1] == [optionConst];
    }
  }

  /** The pieces `NestedExample` assembles, regrouped into the expected text. */
  lemma NestedText(tName: string, eName: string, optionConst: string)
    requires optionConst == "Option::<" + tName + ">"
    ensures "Option" + "::<" + tName + ">" == optionConst
    ensures "Result" + "::<" + (optionConst + ", " + eName) + ">" + "::WIT"
      == "Result::<Option::<" + tName + ">, " + eName + ">::WIT"
  {
    assert "Option" + "::<" == "Option::<";
    assert "Result" + "::<" == "Result::<";
    assert ">" + "::WIT" == ">::WIT";
    assert ">" + ", " == ">, ";
  }

  // ---------------------------------------------------------------------------------------------
  // The derives
  // ---------------------------------------------------------------------------------------------

  /** The `WIT` constant a derive emits, with the arguments it is built from. */
  datatype WitConst =
    | RecordConst(name: string, fields: seq<(string, string)>)
    | EnumConst(name: string, cases: seq<string>)
    | VariantConst(name: string, options: seq<(string, seq<string>)>)

  /** What a derive emits besides the input itself: the `HasWitMetadata` impl and the registry entry. */
  datatype Expansion = Expansion(ident: string, wit: WitConst, registry: string)

  /** `make_distributed_slice`: the registry static is the ASCII-uppercased type name plus `_WIT`. */
  function RegistryName(ident: string): (r: string)
    ensures |r| == |ident| + 4 && r[|ident|..] == "_WIT"
    ensures forall i :: 0 <= i < |ident| ==> r[i] == ToUpper(ident[i])
  {
    Uppercase(ident) + "_WIT"
  }

  /** One record field: its name and the root expression of its type, name first. */
  function FieldConst(f: Field): Result<(string, string), MacroError>
  {
    match f.ident
    case None => Err(MissingFieldName)
    case Some(name) =>
      (match TypeWitConst(f.ty, true)
       case Err(e) => Err(e)
       case Ok(c) => Ok((name, c)))
  }

  /** The fields in declaration order; the first field that fails aborts the expansion. */
  function FieldConsts(fields: seq<Field>): (r: Result<seq<(string, string)>, MacroError>)
    ensures r.Ok? <==> forall i :: 0 <= i < |fields| ==> FieldConst(fields[i]).Ok?
    ensures r.Ok? ==> |r.value| == |fields| && forall i :: 0 <= i < |fields| ==> r.value[i] == FieldConst(fields[i]).value
    ensures r.Err? ==> exists k :: 0 <= k < |fields| && FieldConst(fields[k]) == Err(r.error) && forall i :: 0 <= i < k ==> FieldConst(fields[i]).Ok?
  {
    if fields == [] then Ok([])
    else match FieldConst(fields[0])
      case Err(e) => Err(e)
      case Ok(c) =>
        (match FieldConsts(fields[1..])
         case Err(e) =>
           assert forall i :: 1 <= i < |fields| ==> fields[i] == fields[1..][i - 1];
           Err(e)
         case Ok(cs) =>
           assert forall i :: 1 <= i < |fields| ==> fields[i] == fields[1..][i - 1];
           Ok([c] + cs))
  }

  /** `structure::expand`: only structs with named fields are accepted. */
  function ExpandStruct(item: Item): Result<Expansion, MacroError>
  {
    match item
    case StructItem(ident, NamedFields(fields)) =>
      (match FieldConsts(fields)
       case Err(e) => Err(e)
       case Ok(consts) => Ok(Expansion(ident, RecordConst(ident, consts), RegistryName(ident))))
    case _ => Err(UnsupportedShape)
  }

  /** `enumeration::expand`: only enums whose cases are all units; the cases by name, in order. */
  function ExpandEnum(item: Item): Result<Expansion, MacroError>
  {
    match item
    case EnumItem(ident, variants) =>
      if forall i :: 0 <= i < |variants| ==> variants[i].fields.UnitFields? then
        Ok(Expansion(ident, EnumConst(ident, CaseNames(variants)), RegistryName(ident)))
      else Err(UnsupportedShape)
    case _ => Err(UnsupportedShape)
  }

  function CaseNames(variants: seq<EnumVariant>): (r: seq<string>)
    ensures |r| == |variants| && forall i :: 0 <= i < |variants| ==> r[i] == variants[i].ident
  {
    if variants == [] then [] else [variants[0].ident] + CaseNames(variants[1..])
  }

  /** The payload types of one tuple case, each as a root expression, in order. */
  function PayloadConsts(fields: seq<Field>): (r: Result<seq<string>, MacroError>)
    ensures r.Ok? <==> forall i :: 0 <= i < |fields| ==> TypeWitConst(fields[i].ty, true).Ok?
    ensures r.Ok? ==> |r.value| == |fields| && forall i :: 0 <= i < |fields| ==> r.value[i] == TypeWitConst(fields[i].ty, true).value
    ensures r.Err? ==> exists k :: 0 <= k < |fields| && TypeWitConst(fields[k].ty, true) == Err(r.error) && forall i :: 0 <= i < k ==> TypeWitConst(fields[i].ty, true).Ok?
  {
    if fields == [] then Ok([])
    else match TypeWitConst(fields[0].ty, true)
      case Err(e) => Err(e)
      case Ok(c) =>
        (match PayloadConsts(fields[1..])
         case Err(e) =>
           assert forall i :: 1 <= i < |fields| ==> fields[i] == fields[1..][i - 1];
           Err(e)
         case Ok(cs) =>
           assert forall i :: 1 <= i < |fields| ==> fields[i] == fields[1..][i - 1];
           Ok([c] + cs))
  }

  /** The options of a variant, case by case; the first failing payload aborts the expansion. */
  function OptionConsts(variants: seq<EnumVariant>): (r: Result<seq<(string, seq<string>)>, MacroError>)
    ensures r.Ok? <==> forall i :: 0 <= i < |variants| ==> PayloadConsts(variants[i].fields.List()).Ok?
    ensures r.Ok? ==> |r.value| == |variants| && forall i :: 0 <= i < |variants| ==>
              r.value[i] == (variants[i].ident, PayloadConsts(variants[i].fields.List()).value)
  {
    if variants == [] then Ok([])
    else match PayloadConsts(variants[0].fields.List())
      case Err(e) => Err(e)
      case Ok(cs) =>
        (match OptionConsts(variants[1..])
         case Err(e) =>
           assert forall i :: 1 <= i < |variants| ==> variants[i] == variants[1..][i - 1];
           Err(e)
         case Ok(os) =>
           assert forall i :: 1 <= i < |variants| ==> variants[i] == variants[1..][i - 1];
           Ok([(variants[0].ident, cs)] + os))
  }

  /** The variant derive's options fail with the error of the first failing payload, wherever it is. */
  lemma {:induction false} FirstPayloadFails(variants: seq<EnumVariant>, k: nat)
    requires k < |variants| && PayloadConsts(variants[k].fields.List()).Err?
    requires forall i :: 0 <= i < k ==> PayloadConsts(variants[i].fields.List()).Ok?
    ensures OptionConsts(variants) == Err(PayloadConsts(variants[k].fields.List()).error)
  {
    if k > 0 {
      assert forall i :: 1 <= i < |variants| ==> variants[i] == variants[1..][i - 1];
      FirstPayloadFails(variants[1..], k - 1);
    }
  }

  /** `variant::expand`: only enums whose cases all carry a tuple payload. */
  function ExpandVariant(item: Item): Result<Expansion, MacroError>
  {
    match item
    case EnumItem(ident, variants) =>
      if forall i :: 0 <= i < |variants| ==> variants[i].fields.UnnamedFields? then
        (match OptionConsts(variants)
         case Err(e) => Err(e)
         case Ok(options) => Ok(Expansion(ident, VariantConst(ident, options), RegistryName(ident))))
      else Err(UnsupportedShape)
    case _ => Err(UnsupportedShape)
  }

  /**
   * The struct derive succeeds exactly when every field has a name and a rewritable type; it then
   * lists every field, in declaration order, with the root expression of its type.
   */
  lemma ExpandStructFields(ident: string, fields: seq<Field>)
    ensures ExpandStruct(StructItem(ident, NamedFields(fields))).Ok? <==>
              forall i :: 0 <= i < |fields| ==> fields[i].ident.Some? && Rewritable(fields[i].ty)
    ensures ExpandStruct(StructItem(ident, NamedFields(fields))).Ok? ==>
              var x := ExpandStruct(StructItem(ident, NamedFields(fields))).value;
              && x.wit == RecordConst(ident, x.wit.fields) && x.registry == RegistryName(ident)
              && |x.wit.fields| == |fields|
              && forall i :: 0 <= i < |fields| ==>
                   x.wit.fields[i] == (fields[i].ident.value, TypeWitConst(fields[i].ty, false).value + "::WIT")
  {
    forall i | 0 <= i < |fields|
      ensures TypeWitConst(fields[i].ty, true).Ok? <==> Rewritable(fields[i].ty)
      ensures TypeWitConst(fields[i].ty, true).Ok? ==> TypeWitConst(fields[i].ty, true).value == TypeWitConst(fields[i].ty, false).value + "::WIT"
    {
      TypeWitConstRoot(fields[i].ty);
    }
  }

  /**
   * The struct derive fails with the error of the first failing field, wherever it is and
   * whatever follows it.
   */
  lemma FirstFieldFails(ident: string, fields: seq<Field>, k: nat)
    requires k < |fields| && FieldConst(fields[k]).Err?
    requires forall i :: 0 <= i < k ==> FieldConst(fields[i]).Ok?
    ensures ExpandStruct(StructItem(ident, NamedFields(fields))) == Err(FieldConst(fields[k]).error)
  {
    var r := FieldConsts(fields);
    var j :| 0 <= j < |fields| && FieldConst(fields[j]) == Err(r.error) && forall i :: 0 <= i < j ==> FieldConst(fields[i]).Ok?;
    assert j == k;
  }

  /** Two types whose names differ only in case share a registry static. */
  lemma RegistryCollision()
    ensures RegistryName("Ab") == RegistryName("AB") == "AB_WIT"
  {
    assert Uppercase("Ab") == "AB";
    assert Uppercase("AB") == "AB";
  }

  // ---------------------------------------------------------------------------------------------
  // `implement_global_function`
  // ---------------------------------------------------------------------------------------------

  /** The items the attribute on a function emits. */
  datatype Emitted =
    | MarkerStruct(name: string)                   // `struct Name {}`
    | RegistryEntry(name: string, target: string)  // `static NAME: fn() -> &WitMeta = || Target::WIT;`
    | OriginalFn(ident: string)                    // the function itself, unchanged

  /**
   * `implement_global_function`, with heck's `to_pascal_case` as the parameter `pascal`: a marker
   * struct named by the pascal-cased function name, its registry entry `FUN` + that name
   * uppercased, and the function. No `HasWitMetadata` impl is emitted.
   */
  function GlobalFunction(fnIdent: string, pascal: string -> string): (r: seq<Emitted>)
    ensures |r| == 3 && r[2] == OriginalFn(fnIdent) && r[0] == MarkerStruct(pascal(fnIdent))
    ensures r[1].RegistryEntry? && r[1].target == pascal(fnIdent)
    ensures |r[1].name| == 3 + |pascal(fnIdent)| && r[1].name[..3] == "FUN"
    ensures forall i :: 0 <= i < |pascal(fnIdent)| ==> r[1].name[3 + i] == ToUpper(pascal(fnIdent)[i])
  {
    var structName := pascal(fnIdent);
    [MarkerStruct(structName), RegistryEntry("FUN" + Uppercase(structName), structName), OriginalFn(fnIdent)]
  }

  /** A string is the uppercase of another when it agrees with `ToUpper` character by character. */
  lemma UppercaseMatches(s: string, u: string)
    requires |s| == |u| && forall i :: 0 <= i < |s| ==> ToUpper(s[i]) == u[i]
    ensures Uppercase(s) == u
  {
    assert Uppercase(s) == u;
  }

  /** `get_address`, pascal-cased to `GetAddress`, is registered as `FUNGETADDRESS`: no separator. */
  lemma GlobalFunctionExample(pascal: string -> string)
    requires pascal("get_address") == "GetAddress"
    ensures GlobalFunction("get_address", pascal)[1] == RegistryEntry("FUNGETADDRESS", "GetAddress")
  {
    var structName := pascal("get_address");
    assert GlobalFunction("get_address", pascal)[1] == RegistryEntry("FUN" + Uppercase(structName), structName);
    UppercaseExample();
    FunPrefixExample();
  }

  lemma UppercaseExample()
    ensures Uppercase("GetAddress") == "GETADDRESS"
  {
    UppercaseMatches("GetAddress", "GETADDRESS");
  }

  /** The registry name of the example: the prefix directly followed by the uppercased name. */
  lemma FunPrefixExample()
    ensures "FUN" + "GETADDRESS" == "FUNGETADDRESS"
  {
  }
}
