/**
 * The syntax-walking WIT generator of golem-rust: it maps the Rust items of a module straight to
 * WIT text. Every `panic!`/`unwrap` of the source is an `Err` here; where several items or
 * arguments are processed in order, the first failure is the one reported.
 */
module WitGen {
  import opened Wrappers
  import opened Ascii
  import opened RustSyntax
  import opened WitModel
  import opened WitText

  /** Why generation stops: each value stands for one `panic!`/`unwrap`/error of the source. */
  datatype GenError =
    | EmptyPath                     // `segments.first().unwrap()` on an empty path
    | SuperPath                     // "Types need to be defined inside module."
    | Unhandled                     // "unhandled": a non-type generic argument, or `Box` without `<..>`
    | MissingGenericArgument        // `args.first().unwrap()` on `Box<>`, `Vec<>`, `Option<>`
    | EmptyName                     // `nth(0).unwrap()` in `pascal_case_to_kebab_case`
    | ReservedName(name: string)    // `check_unsupported_identifiers`
    | MissingFieldName              // `f.ident.unwrap()` on a tuple-struct field
    | ReceiverParameter             // "do proper error handling later"
    | UnsupportedPattern            // "unsupported" parameter pattern
    | UnsupportedTraitItem          // "unsupported" trait item
    | UnknownItem                   // "Unknown item in module"
    | MissingModuleContent          // `content.unwrap()` on `mod name;`

  // ---------------------------------------------------------------------------------------------
  // Names
  // ---------------------------------------------------------------------------------------------

  /** The text written for every character after the first: an uppercase letter becomes `-` and its lowercase. */
  function PascalRest(s: string): (r: string)
  {
    if s == [] then []
    else PascalRest(s[..|s| - 1]) + (if IsUpper(s[|s| - 1]) then "-" + [ToLower(s[|s| - 1])] else [s[|s| - 1]])
  }

  /** `pascal_case_to_kebab_case`: the first character lowered, every later capital split off. */
  function PascalToKebab(s: string): (r: Result<string, GenError>)
    ensures r.Err? <==> s == []
    ensures r.Ok? ==> |r.value| > 0 && r.value[0] == ToLower(s[0])
  {
    if s == [] then Err(EmptyName) else Ok([ToLower(s[0])] + PascalRest(s[1..]))
  }

  /** `.to_lowercase().replace("_", "-")`, used for field, parameter and function names. */
  function DashedLower(s: string): (r: string)
    ensures |r| == |s|
  {
    ReplaceChar(Lowercase(s), '_', '-')
  }

  /** The package name: the module ident lowercased with `_` replaced by `:`. */
  function PackageName(ident: string): (r: string)
    ensures |r| == |ident|
  {
    ReplaceChar(Lowercase(ident), '_', ':')
  }

  /** `check_unsupported_identifiers`: `option` and `result` are WIT keywords. */
  function CheckUnsupportedIdentifiers(name: string): (r: Result<(), GenError>)
  {
    if name == "option" || name == "result" then Err(ReservedName(name)) else Ok(())
  }

  // ---------------------------------------------------------------------------------------------
  // Types
  // ---------------------------------------------------------------------------------------------

  /** `convert_rust_types_to_wit_types`: the fixed table, and the kebab form of any other name. */
  function ConvertRustType(name: string): Result<string, GenError>
  {
    match name
    case "bool" => Ok("bool")
    case "i8" => Ok("s8")
    case "i16" => Ok("s16")
    case "i32" => Ok("s32")
    case "i64" => Ok("s64")
    case "isize" => Ok("s64")
    case "u8" => Ok("u8")
    case "u16" => Ok("u16")
    case "u32" => Ok("u32")
    case "u64" => Ok("u64")
    case "usize" => Ok("u64")
    case "f32" => Ok("float32")
    case "f64" => Ok("float64")
    case "String" => Ok("string")
    case "char" => Ok("char")
    case _ => PascalToKebab(name)
  }

  /** `resolve_type`. */
  function ResolveType(t: Type): Result<string, GenError>
  {
    match t
    case PathType(_, segments) =>
      if segments == [] then Err(EmptyPath)
      else if segments[0].ident == "super" then Err(SuperPath)
      else ResolveSegment(segments[|segments| - 1])
    case TupleType(elems) =>
      (match ResolveTypes(elems)
       case Err(e) => Err(e)
       case Ok(rs) => var joined := Join(", ", rs); Ok(if joined == [] then "" else "tuple<" + joined + ">"))
    case SliceType(elem) =>
      (match ResolveType(elem)
       case Err(e) => Err(e)
       case Ok(r) => Ok("list<" + r + ">"))
    case _ => Ok("")
  }

  /** The last segment of a path type decides its text: `Box`, `Vec`, `Result`, `Option`, or the table. */
  function ResolveSegment(seg: PathSegment): Result<string, GenError>
  {
    if seg.ident == "Box" then
      (match seg.arguments
       case AngleBracketed(args) => FirstTypeArg(args)
       case _ => Err(Unhandled))
    else if seg.arguments.AngleBracketed? && seg.ident == "Vec" then
      (match FirstTypeArg(seg.arguments.args)
       case Err(e) => Err(e)
       case Ok(r) => Ok("list<" + r + ">"))
    else if seg.arguments.AngleBracketed? && seg.ident == "Result" then
      (match ResolveArgs(seg.arguments.args)
       case Err(e) => Err(e)
       case Ok(rs) => Ok("result<" + Join(", ", rs) + ">"))
    else if seg.arguments.AngleBracketed? && seg.ident == "Option" then
      (match FirstTypeArg(seg.arguments.args)
       case Err(e) => Err(e)
       case Ok(r) => Ok("option<" + r + ">"))
    else ConvertRustType(seg.ident)
  }

  /** A generic argument must be a type ("unhandled" otherwise). */
  function ResolveArg(g: GenericArg): Result<string, GenError>
  {
    match g
    case TypeArg(ty) => ResolveType(ty)
    case OtherArg(_) => Err(Unhandled)
  }

  /** `args.first().unwrap()`, then the argument. */
  function FirstTypeArg(args: seq<GenericArg>): Result<string, GenError>
  {
    if args == [] then Err(MissingGenericArgument) else ResolveArg(args[0])
  }

  /** Every argument of `Result<..>` in order; the first failing one decides. */
  function ResolveArgs(args: seq<GenericArg>): (r: Result<seq<string>, GenError>)
    ensures r.Ok? <==> forall i :: 0 <= i < |args| ==> ResolveArg(args[i]).Ok?
    ensures r.Ok? ==> |r.value| == |args| && forall i :: 0 <= i < |args| ==> ResolveArg(args[i]) == Ok(r.value[i])
    ensures r.Err? ==> exists k :: 0 <= k < |args| && ResolveArg(args[k]) == Err(r.error) && forall i :: 0 <= i < k ==> ResolveArg(args[i]).Ok?
  {
    if args == [] then Ok([])
    else match ResolveArg(args[0])
      case Err(e) => Err(e)
      case Ok(r) =>
        (match ResolveArgs(args[1..])
         case Err(e) =>
           assert forall i :: 1 <= i < |args| ==> args[i] == args[1..][i - 1];
           Err(e)
         case Ok(rs) =>
           assert forall i :: 1 <= i < |args| ==> args[i] == args[1..][i - 1];
           Ok([r] + rs))
  }

  /** The elements of a tuple in order; the first failing one decides. */
  function ResolveTypes(ts: seq<Type>): (r: Result<seq<string>, GenError>)
    ensures r.Ok? <==> forall i :: 0 <= i < |ts| ==> ResolveType(ts[i]).Ok?
    ensures r.Ok? ==> |r.value| == |ts| && forall i :: 0 <= i < |ts| ==> ResolveType(ts[i]) == Ok(r.value[i])
    ensures r.Err? ==> exists k :: 0 <= k < |ts| && ResolveType(ts[k]) == Err(r.error) && forall i :: 0 <= i < k ==> ResolveType(ts[i]).Ok?
  {
    if ts == [] then Ok([])
    else match ResolveType(ts[0])
      case Err(e) => Err(e)
      case Ok(r) =>
        (match ResolveTypes(ts[1..])
         case Err(e) =>
           assert forall i :: 1 <= i < |ts| ==> ts[i] == ts[1..][i - 1];
           Err(e)
         case Ok(rs) =>
           assert forall i :: 1 <= i < |ts| ==> ts[i] == ts[1..][i - 1];
           Ok([r] + rs))
  }

  // ---------------------------------------------------------------------------------------------
  // Items
  // ---------------------------------------------------------------------------------------------

  /**
   * `iter.map(f).collect::<Vec<String>>()` where `f` may panic: the results in order, or the
   * failure of the first element that fails (later elements are never looked at).
   */
  function CollectAll<T>(f: T -> Result<string, GenError>, xs: seq<T>): (r: Result<seq<string>, GenError>)
    ensures r.Ok? <==> forall i :: 0 <= i < |xs| ==> f(xs[i]).Ok?
    ensures r.Ok? ==> |r.value| == |xs| && forall i :: 0 <= i < |xs| ==> r.value[i] == f(xs[i]).value
    ensures r.Err? ==> exists k :: 0 <= k < |xs| && f(xs[k]) == Err(r.error) && forall i :: 0 <= i < k ==> f(xs[i]).Ok?
  {
    if xs == [] then Ok([])
    else match f(xs[0])
      case Err(e) => Err(e)
      case Ok(s) =>
        (match CollectAll(f, xs[1..])
         case Err(e) =>
           assert forall i :: 1 <= i < |xs| ==> xs[i] == xs[1..][i - 1];
           Err(e)
         case Ok(ss) => Ok([s] + ss))
  }

  /** A struct field line `name: type`; a field without a name is an `unwrap` failure. */
  function FieldLine(f: Field): Result<string, GenError>
  {
    match f.ident
    case None => Err(MissingFieldName)
    case Some(name) =>
      (match ResolveType(f.ty)
       case Err(e) => Err(e)
       case Ok(t) => Ok(DashedLower(name) + ": " + t))
  }

  /** A struct becomes a `record`; with no fields it is written on one line. */
  function StructText(ident: string, fields: Fields): Result<string, GenError>
  {
    match PascalToKebab(ident)
    case Err(e) => Err(e)
    case Ok(title) =>
      (match CheckUnsupportedIdentifiers(title)
       case Err(e) => Err(e)
       case Ok(_) =>
         (match CollectAll(FieldLine, fields.List())
          case Err(e) => Err(e)
          case Ok(lines) =>
            var joined := Join(", \n\t\t", lines);
            Ok(if joined == [] then "    record " + title + " {}"
               else "\n    record " + title + " {\n        " + joined + ",\n    }")))
  }

  /** `extract_return_type`: no `-> T` is the empty text. */
  function ExtractReturnType(output: Option<Type>): Result<string, GenError>
  {
    match output
    case None => Ok("")
    case Some(t) => ResolveType(t)
  }

  /** `pat_type_to_param` for a typed parameter; a `self` receiver is a panic. */
  function ParamText(arg: FnArg): Result<string, GenError>
  {
    match arg
    case Receiver => Err(ReceiverParameter)
    case Typed(pat, ty) =>
      (match pat
       case OtherPat => Err(UnsupportedPattern)
       case IdentPat(name) =>
         (match ResolveType(ty)
          case Err(e) => Err(e)
          case Ok(t) => Ok(DashedLower(name) + ": " + t)))
  }

  /** The sixteen spaces each trait function and enum block ends with. */
  const TrailingSpaces: string := "                "

  /** A trait method: its name, then the return type, then the parameters are worked out. */
  function TraitItemText(item: TraitItem): Result<string, GenError>
  {
    match item
    case OtherTraitItem => Err(UnsupportedTraitItem)
    case TraitFn(sig) =>
      var title := DashedLower(sig.ident);
      (match ExtractReturnType(sig.output)
       case Err(e) => Err(e)
       case Ok(ret) =>
         (match CollectAll(ParamText, sig.inputs)
          case Err(e) => Err(e)
          case Ok(params) =>
            Ok("\n    " + title + ": func(" + Join(", ", params) + ")"
               + (if ret == [] then "" else " -> " + ret) + "\n" + TrailingSpaces)))
  }

  /** A trait contributes its methods, one after another; its own name only has to convert. */
  function TraitText(ident: string, items: seq<TraitItem>): Result<string, GenError>
  {
    match PascalToKebab(ident)
    case Err(e) => Err(e)
    case Ok(_) =>
      (match CollectAll(TraitItemText, items)
       case Err(e) => Err(e)
       case Ok(texts) => Ok(Join("\n", texts)))
  }

  /** The type of a variant field; its name, if any, is dropped. */
  function FieldType(f: Field): Result<string, GenError>
  {
    ResolveType(f.ty)
  }

  /** An enum case: its kebab name, and its field types in parentheses unless it is a unit case. */
  function EnumCaseText(v: EnumVariant): Result<string, GenError>
  {
    match PascalToKebab(v.ident)
    case Err(e) => Err(e)
    case Ok(name) =>
      if v.fields.UnitFields? then Ok(name)
      else
        (match CollectAll(FieldType, v.fields.List())
         case Err(e) => Err(e)
         case Ok(ts) => Ok(name + "(" + Join(", ", ts) + ")"))
  }

  /** Every enum becomes a `variant`, whatever its cases look like. */
  function EnumText(ident: string, variants: seq<EnumVariant>): Result<string, GenError>
  {
    match PascalToKebab(ident)
    case Err(e) => Err(e)
    case Ok(title) =>
      (match CollectAll(EnumCaseText, variants)
       case Err(e) => Err(e)
       case Ok(cases) =>
         Ok("\n    variant " + title + " {\n        " + Join(", \n \t\t", cases) + "\n    }\n" + TrailingSpaces))
  }

  /** The text of one module item; any item other than a struct, trait or enum is an error. */
  function ItemText(item: Item): Result<string, GenError>
  {
    match item
    case StructItem(ident, fields) => StructText(ident, fields)
    case TraitDecl(ident, items) => TraitText(ident, items)
    case EnumItem(ident, variants) => EnumText(ident, variants)
    case OtherItem => Err(UnknownItem)
  }

  // ---------------------------------------------------------------------------------------------
  // The document
  // ---------------------------------------------------------------------------------------------

  /** The characters `str::trim` removes (those of them that are ASCII). */
  predicate IsWhitespace(c: char)
  {
    c == ' ' || c == '\t' || c == '\n' || c == '\r' || c == '\U{000B}' || c == '\U{000C}'
  }

  /** `str::trim`. */
  function TrimWhitespace(s: string): (r: string)
    ensures |r| <= |s|
    decreases |s|
  {
    if s != [] && IsWhitespace(s[0]) then TrimWhitespace(s[1..])
    else if s != [] && IsWhitespace(s[|s| - 1]) then TrimWhitespace(s[..|s| - 1])
    else s
  }

  /** The untrimmed document: package line, the `api` interface holding the items, the world. */
  function Document(package: string, texts: seq<string>): string
  {
    "package " + package + "\n\ninterface api {\n" + Join("\n", texts) + "\n}\n\nworld golem-service {\n    export api\n}"
  }

  /** The text `generate_witfile` writes for a module (before the file is created and written). */
  function WitFile(m: ItemMod): Result<string, GenError>
  {
    var package := PackageName(m.ident);
    match m.content
    case None => Err(MissingModuleContent)
    case Some(items) =>
      (match CollectAll(ItemText, items)
       case Err(e) => Err(e)
       case Ok(texts) => Ok(TrimWhitespace(Document(package, texts))))
  }
}
