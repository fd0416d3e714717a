/**
 * The fragment of Rust syntax (as the `syn` crate represents it) that the WIT generator and
 * the procedural macros inspect. Spans, attributes and token details are not represented.
 */
module RustSyntax {
  import opened Wrappers

  /** `syn::GenericArgument`: a type, or anything else (lifetime, const, binding, constraint). */
  datatype GenericArg = TypeArg(ty: Type) | OtherArg(text: string)

  /** `syn::PathArguments`: none, `<..>`, or `(..) -> ..` (as in `Fn(A) -> B`). */
  datatype PathArguments = NoArgs | AngleBracketed(args: seq<GenericArg>) | Parenthesized

  datatype PathSegment = PathSegment(ident: string, arguments: PathArguments)

  /**
   * `syn::Type`. `qself` records a qualified self type (`<T as Trait>::Name`).
   * `OtherType` stands for references, `*const`/`*mut` types, arrays, `fn` types, trait objects, `!`, ...
   */
  datatype Type =
    | PathType(qself: bool, segments: seq<PathSegment>)
    | TupleType(elems: seq<Type>)
    | SliceType(elem: Type)
    | GroupType(elem: Type)
    | ParenType(elem: Type)
    | OtherType(kind: string)

  /** `syn::Pat` of a function parameter: a plain identifier or any other pattern. */
  datatype Pat = IdentPat(ident: string) | OtherPat

  /** `syn::FnArg`: a `self` receiver or a typed parameter `pat: ty`. */
  datatype FnArg = Receiver | Typed(pat: Pat, ty: Type)

  /** `syn::Signature`; `output == None` is `ReturnType::Default` (no `-> T`). */
  datatype Signature = Signature(ident: string, inputs: seq<FnArg>, output: Option<Type>)

  /** `syn::Field`: `ident` is `None` for a tuple-struct or tuple-variant field. */
  datatype Field = Field(ident: Option<string>, ty: Type)

  /** `syn::Fields`: `{ a: A, .. }`, `( A, .. )`, or nothing. */
  datatype Fields = NamedFields(named: seq<Field>) | UnnamedFields(unnamed: seq<Field>) | UnitFields
  {
    /** The fields in declaration order (`Fields::iter`). */
    function List(): seq<Field>
    {
      match this
      case NamedFields(fs) => fs
      case UnnamedFields(fs) => fs
      case UnitFields => []
    }
  }

  /** `syn::Variant` of an enum. */
  datatype EnumVariant = EnumVariant(ident: string, fields: Fields)

  /** `syn::TraitItem`: a method signature, or anything else (consts, types, macros). */
  datatype TraitItem = TraitFn(sig: Signature) | OtherTraitItem

  /**
   * `syn::Item` as far as the generator and the derive macros look at it; `OtherItem` is every
   * other kind of item (functions, impls, uses, unions, ...).
   */
  datatype Item =
    | StructItem(ident: string, fields: Fields)
    | TraitDecl(ident: string, items: seq<TraitItem>)
    | EnumItem(ident: string, variants: seq<EnumVariant>)
    | OtherItem

  /** `syn::ItemMod`: `content == None` for `mod name;` without a body. */
  datatype ItemMod = ItemMod(ident: string, content: Option<seq<Item>>)

  /** The single-segment path `name<args>` with no qualified self; `args == []` writes no `<>`. */
  function NamedType(name: string, args: seq<Type>): (t: Type)
    ensures t.PathType? && !t.qself && |t.segments| == 1 && t.segments[0].ident == name
  {
    PathType(false, [PathSegment(name, if args == [] then NoArgs else AngleBracketed(TypeArgs(args)))])
  }

  function TypeArgs(ts: seq<Type>): (r: seq<GenericArg>)
    ensures |r| == |ts|
    ensures forall i :: 0 <= i < |ts| ==> r[i] == TypeArg(ts[i])
  {
    if ts == [] then [] else [TypeArg(ts[0])] + TypeArgs(ts[1..])
  }
}
