/**
 * The typed schema model of golem-rust: the WIT shapes a Rust type or function is described by,
 * and the fixed table of `HasWitMeta` implementations for Rust's built-in types.
 */
module WitModel {
  import opened Wrappers

  datatype PrimitiveMeta = S8 | S16 | S32 | S64 | U8 | U16 | U32 | U64 | F32 | F64 | Bool | Char | String

  /** A type reference. Names are the declared Rust identifiers, not yet kebab-cased. */
  datatype WitMeta =
    | Result(ok: WitMeta, err: WitMeta)
    | Option(inner: WitMeta)
    | List(inner: WitMeta)
    | Tuple(items: seq<WitMeta>)
    | Primitive(primitive: PrimitiveMeta)
    | Record(record: RecordMeta)
    | Variant(variant: VariantMeta)
    | Enum(enumeration: EnumMeta)
    | FlagMeta(flag: FlagDecl)

  datatype RecordMeta = RecordMeta(name: string, fields: seq<(string, WitMeta)>)

  /**
   * One case of a variant with its positional payload. The serializer reads a list of payloads
   * per case (`option.fields`); the single optional payload declared in model.rs is not used.
   */
  datatype VariantOption = VariantOption(name: string, fields: seq<WitMeta>)

  datatype VariantMeta = VariantMeta(name: string, options: seq<VariantOption>)

  datatype EnumMeta = EnumMeta(name: string, variants: seq<string>)

  datatype FlagDecl = FlagDecl(name: string, variants: seq<string>)

  datatype FunctionMeta = FunctionMeta(name: string, args: seq<(string, WitMeta)>, result: WitMeta)

  /** A top-level export of the generated interface. */
  datatype WitExport =
    | RecordExport(record: RecordMeta)
    | VariantExport(variant: VariantMeta)
    | EnumExport(enumeration: EnumMeta)
    | FlagExport(flag: FlagDecl)
    | FunctionExport(func: FunctionMeta)
  {
    /** `WitExport::name`: the declared name of whichever shape is exported. */
    function Name(): (n: string)
      ensures RecordExport? ==> n == record.name
      ensures VariantExport? ==> n == variant.name
      ensures EnumExport? ==> n == enumeration.name
      ensures FlagExport? ==> n == flag.name
      ensures FunctionExport? ==> n == func.name
    {
      match this
      case RecordExport(m) => m.name
      case VariantExport(m) => m.name
      case EnumExport(m) => m.name
      case FlagExport(m) => m.name
      case FunctionExport(m) => m.name
    }
  }

  /** A Rust type as far as the `HasWitMeta` table distinguishes it. */
  datatype RustType =
    | Named(name: string)
    | ResultOf(okType: RustType, errType: RustType)
    | OptionOf(inner: RustType)
    | VecOf(inner: RustType)
    | TupleOf(items: seq<RustType>)

  /** The primitive `HasWitMeta` implementations; `None` for a type without one. */
  function PrimitiveOf(name: string): Option<PrimitiveMeta>
  {
    match name
    case "i8" => Some(S8)
    case "i16" => Some(S16)
    case "i32" => Some(S32)
    case "i64" => Some(S64)
    case "isize" => Some(S64)
    case "u8" => Some(U8)
    case "u16" => Some(U16)
    case "u32" => Some(U32)
    case "u64" => Some(U64)
    case "usize" => Some(U64)
    case "f32" => Some(F32)
    case "f64" => Some(F64)
    case "bool" => Some(Bool)
    case "char" => Some(Char)
    case "String" => Some(String)
    case _ => None
  }

  /**
   * `<T as HasWitMeta>::REF`: `None` when this table has no implementation for `t` (a user type
   * gets its description from the macros instead). The tuple implementations start at one item,
   * so the unit type `()` has none.
   */
  function MetaOf(t: RustType): Option<WitMeta>
  {
    match t
    case Named(n) => (match PrimitiveOf(n) case Some(p) => Some(Primitive(p)) case None => None)
    case ResultOf(a, b) =>
      (match (MetaOf(a), MetaOf(b))
       case (Some(ma), Some(mb)) => Some(Result(ma, mb))
       case _ => None)
    case OptionOf(a) => (match MetaOf(a) case Some(m) => Some(Option(m)) case None => None)
    case VecOf(a) => (match MetaOf(a) case Some(m) => Some(List(m)) case None => None)
    case TupleOf(items) =>
      if items == [] then None
      else (match MetasOf(items) case Some(ms) => Some(Tuple(ms)) case None => None)
  }

  function MetasOf(ts: seq<RustType>): (r: Option<seq<WitMeta>>)
    ensures r.Some? ==> |r.value| == |ts|
  {
    if ts == [] then Some([])
    else match (MetaOf(ts[0]), MetasOf(ts[1..]))
      case (Some(m), Some(ms)) => Some([m] + ms)
      case _ => None
  }

  /** `isize` and `usize` are described as their 64-bit counterparts. */
  lemma PrimitiveAliases()
    ensures PrimitiveOf("isize") == PrimitiveOf("i64") == Some(S64)
    ensures PrimitiveOf("usize") == PrimitiveOf("u64") == Some(U64)
    ensures forall a: string, b: string :: a != b && PrimitiveOf(a).Some? && PrimitiveOf(a) == PrimitiveOf(b) ==>
              || (a == "isize" && b == "i64") || (a == "i64" && b == "isize")
              || (a == "usize" && b == "u64") || (a == "u64" && b == "usize")
  {
  }

  /** Every named leaf of `t` is one of the primitive types the table covers, and no tuple is `()`. */
  predicate Supported(t: RustType)
  {
    match t
    case Named(n) => PrimitiveOf(n).Some?
    case ResultOf(a, b) => Supported(a) && Supported(b)
    case OptionOf(a) => Supported(a)
    case VecOf(a) => Supported(a)
    case TupleOf(items) => items != [] && forall i :: 0 <= i < |items| ==> Supported(items[i])
  }

  /** The table describes exactly the types built from primitives by the four generic impls. */
  lemma {:induction false} MetaOfSupported(t: RustType)
    ensures MetaOf(t).Some? <==> Supported(t)
    decreases t, 1
  {
    match t
    case Named(_) =>
    case ResultOf(a, b) => MetaOfSupported(a); MetaOfSupported(b);
    case OptionOf(a) => MetaOfSupported(a);
    case VecOf(a) => MetaOfSupported(a);
    case TupleOf(items) => MetasOfSupported(items);
  }

  lemma {:induction false} MetasOfSupported(ts: seq<RustType>)
    ensures MetasOf(ts).Some? <==> forall i :: 0 <= i < |ts| ==> Supported(ts[i])
    decreases ts, 0
  {
    if ts != [] {
      MetaOfSupported(ts[0]);
      MetasOfSupported(ts[1..]);
      if MetasOf(ts).Some? {
        forall i | 0 <= i < |ts|
          ensures Supported(ts[i])
        {
          if i > 0 {
            assert ts[i] == ts[1..][i - 1];
          }
        }
      } else if MetaOf(ts[0]).Some? {
        var i :| 0 <= i < |ts[1..]| && !Supported(ts[1..][i]);
        assert !Supported(ts[i + 1]);
      }
    }
  }

  /** A tuple is described element by element, in element order. */
  lemma {:induction false} MetasOfPointwise(ts: seq<RustType>)
    requires MetasOf(ts).Some?
    ensures forall i :: 0 <= i < |ts| ==> MetaOf(ts[i]) == Some(MetasOf(ts).value[i])
  {
    if ts != [] {
      MetasOfPointwise(ts[1..]);
      forall i | 0 <= i < |ts|
        ensures MetaOf(ts[i]) == Some(MetasOf(ts).value[i])
      {
        if i > 0 {
          assert ts[i] == ts[1..][i - 1];
        }
      }
    }
  }
}
