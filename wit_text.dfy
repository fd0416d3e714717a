/**
 * The text the WIT serializers write, as functions of the schema. Both serializers (the current
 * one in golem-rust and the older copy in golem-rust-examples) render type references and list
 * items identically except for one thing: whether `write_kebab` first strips leading and trailing
 * underscores. That difference is the `trim` parameter below.
 */
module WitText {
  import opened Ascii
  import opened WitModel

  // ---------------------------------------------------------------------------------------------
  // Underscore trimming (`trim_start_matches('_')`, `trim_end_matches('_')`)
  // ---------------------------------------------------------------------------------------------

  function TrimStartUnderscores(s: string): string
  {
    if s != [] && s[0] == '_' then TrimStartUnderscores(s[1..]) else s
  }

  function TrimEndUnderscores(s: string): string
  {
    if s != [] && s[|s| - 1] == '_' then TrimEndUnderscores(s[..|s| - 1]) else s
  }

  /**
   * The string `write_kebab` converts: `s` with every leading and trailing underscore removed.
   * Stated as one recursion; `TrimUnderscoresSteps` shows it equals trimming the start, then the end.
   */
  function TrimUnderscores(s: string): string
  {
    if s != [] && s[0] == '_' then TrimUnderscores(s[1..])
    else if s != [] && s[|s| - 1] == '_' then TrimUnderscores(s[..|s| - 1])
    else s
  }

  /** `s.trim_start_matches('_').trim_end_matches('_')` is `TrimUnderscores(s)`. */
  lemma {:induction false} TrimUnderscoresSteps(s: string)
    ensures TrimEndUnderscores(TrimStartUnderscores(s)) == TrimUnderscores(s)
  {
    if s != [] && s[0] == '_' {
      TrimUnderscoresSteps(s[1..]);
    } else if s != [] && s[|s| - 1] == '_' {
      TrimUnderscoresSteps(s[..|s| - 1]);
      if |s| > 1 {
        assert s[..|s| - 1][0] == s[0];
      }
    }
  }

  /** `trim_start_matches('_')` removes exactly the leading run of underscores. */
  lemma {:induction false} TrimStartUnderscoresSpec(s: string)
    ensures var r := TrimStartUnderscores(s);
      && |r| <= |s| && r == s[|s| - |r|..]
      && (forall i :: 0 <= i < |s| - |r| ==> s[i] == '_')
      && (r == [] || r[0] != '_')
  {
    if s != [] && s[0] == '_' {
      TrimStartUnderscoresSpec(s[1..]);
      var r := TrimStartUnderscores(s[1..]);
      assert s[1..][|s| - 1 - |r|..] == s[|s| - |r|..];
      forall i | 0 <= i < |s| - |r|
        ensures s[i] == '_'
      {
        if i > 0 {
          assert s[i] == s[1..][i - 1];
        }
      }
    }
  }

  /** `trim_end_matches('_')` removes exactly the trailing run of underscores. */
  lemma {:induction false} TrimEndUnderscoresSpec(s: string)
    ensures var r := TrimEndUnderscores(s);
      && |r| <= |s| && r == s[..|r|]
      && (forall i :: |r| <= i < |s| ==> s[i] == '_')
      && (r == [] || r[|r| - 1] != '_')
  {
    if s != [] && s[|s| - 1] == '_' {
      TrimEndUnderscoresSpec(s[..|s| - 1]);
      var r := TrimEndUnderscores(s[..|s| - 1]);
      assert s[..|s| - 1][..|r|] == s[..|r|];
      forall i | |r| <= i < |s|
        ensures s[i] == '_'
      {
        if i < |s| - 1 {
          assert s[i] == s[..|s| - 1][i];
        }
      }
    }
  }


  // ---------------------------------------------------------------------------------------------
  // Kebab-casing (`write_kebab`)
  // ---------------------------------------------------------------------------------------------

  /**
   * What `write_kebab` writes for the character at index `i`: an uppercase letter is lowered and
   * preceded by `-` unless it is first or follows another uppercase letter; `_` becomes `-`; any
   * other character is written as the byte `c as u8`.
   */
  function KebabPiece(s: string, i: nat): string
    requires i < |s|
  {
    if IsUpper(s[i]) then (if i > 0 && !IsUpper(s[i - 1]) then "-" else "") + [ToLower(s[i])]
    else if s[i] == '_' then "-"
    else [LowByte(s[i])]
  }

  /** The output of the first `n` loop iterations of `write_kebab` over `s`. */
  function KebabPrefix(s: string, n: nat): string
    requires n <= |s|
  {
    if n == 0 then [] else KebabPrefix(s, n - 1) + KebabPiece(s, n - 1)
  }

  /** One more iteration of `write_kebab` appends the piece for the next character. */
  lemma KebabPrefixStep(s: string, n: nat, w: string, w0: string)
    requires n < |s|
    requires w == w0 + KebabPrefix(s, n)
    ensures w + KebabPiece(s, n) == w0 + KebabPrefix(s, n + 1)
  {
  }

  /** The conversion loop of `write_kebab`, without any trimming. */
  function KebabCore(s: string): string
  {
    KebabPrefix(s, |s|)
  }

  /** `write_kebab`: the current serializer trims underscores first (`trim`), the older one does not. */
  function Kebab(trim: bool, s: string): string
  {
    KebabCore(if trim then TrimUnderscores(s) else s)
  }

  /** Number of hyphens `write_kebab` inserts before uppercase letters in `s`. */
  function WordBreaks(s: string): nat
  {
    if |s| <= 1 then 0
    else WordBreaks(s[..|s| - 1]) + (if IsUpper(s[|s| - 1]) && !IsUpper(s[|s| - 2]) then 1 else 0)
  }

  // ---------------------------------------------------------------------------------------------
  // Separators, prefixes and indentation
  // ---------------------------------------------------------------------------------------------

  /**
   * What `interleave` writes: every item preceded by `prefix`, and `separator` between each two
   * consecutive items.
   */
  function Interleaved(prefix: string, separator: string, xs: seq<string>): string
  {
    InterleavedPrefix(prefix, separator, xs, |xs|)
  }

  /** What `interleave` has written after its first `n` iterations over `xs`. */
  function InterleavedPrefix(prefix: string, separator: string, xs: seq<string>, n: nat): string
    requires n <= |xs|
  {
    if n == 0 then []
    else if n == 1 then prefix + xs[0]
    else InterleavedPrefix(prefix, separator, xs, n - 1) + separator + prefix + xs[n - 1]
  }

  /**
   * One iteration of `interleave` on a buffer: having written `n` items after `w`, writing the
   * separator (unless `n` is 0), the prefix and item `n` leaves `n + 1` items written after `w`.
   */
  lemma InterleavedStep(w: string, prefix: string, separator: string, xs: seq<string>, n: nat, before: string, separated: string)
    requires n < |xs|
    requires before == w + InterleavedPrefix(prefix, separator, xs, n)
    requires separated == before + (if n == 0 then [] else separator) + prefix
    ensures separated + xs[n] == w + InterleavedPrefix(prefix, separator, xs, n + 1)
  {
    if n == 0 {
      Append2(w, prefix, xs[n]);
    } else {
      Append4(w, InterleavedPrefix(prefix, separator, xs, n), separator, prefix, xs[n]);
    }
  }

  /** The serializer's indent unit. */
  const Indent: string := "   "

  /** What `write_indentation` writes at `level`. */
  function Indentation(level: nat): (r: string)
    ensures |r| == 3 * level
    ensures forall i :: 0 <= i < |r| ==> r[i] == ' '
  {
    if level == 0 then [] else Indentation(level - 1) + Indent
  }

  // ---------------------------------------------------------------------------------------------
  // Type references (`wit_ref`, `primitive_wit`)
  // ---------------------------------------------------------------------------------------------

  function PrimitiveWit(p: PrimitiveMeta): string
  {
    match p
    case S8 => "s8"
    case S16 => "s16"
    case S32 => "s32"
    case S64 => "s64"
    case U8 => "u8"
    case U16 => "u16"
    case U32 => "u32"
    case U64 => "u64"
    case F32 => "f32"
    case F64 => "f64"
    case Bool => "bool"
    case Char => "char"
    case String => "string"
  }

  /**
   * What `wit_ref` writes. Named shapes are referred to by their kebab-cased name only; containers
   * nest. A tuple opens `tuple<` and, as written in the source, never closes it.
   */
  function RefText(trim: bool, m: WitMeta): string
    decreases m, 1
  {
    match m
    case Record(r) => Kebab(trim, r.name)
    case Variant(v) => Kebab(trim, v.name)
    case Enum(e) => Kebab(trim, e.name)
    case FlagMeta(f) => Kebab(trim, f.name)
    case Result(ok, err) => "result<" + RefText(trim, ok) + ", " + RefText(trim, err) + ">"
    case Option(x) => "option<" + RefText(trim, x) + ">"
    case List(x) => "list<" + RefText(trim, x) + ">"
    case Tuple(items) => "tuple<" + Interleaved("", ", ", RefTexts(trim, items))
    case Primitive(p) => PrimitiveWit(p)
  }

  function RefTexts(trim: bool, ms: seq<WitMeta>): (r: seq<string>)
    ensures |r| == |ms| && forall i :: 0 <= i < |ms| ==> r[i] == RefText(trim, ms[i])
    decreases ms, 0
  {
    if ms == [] then [] else RefTexts(trim, ms[..|ms| - 1]) + [RefText(trim, ms[|ms| - 1])]
  }

  // ---------------------------------------------------------------------------------------------
  // Items of an interleaved list (the closures handed to `interleave`)
  // ---------------------------------------------------------------------------------------------

  /**
   * One item the serializer writes inside an interleaved list: a record field (name verbatim), a
   * function argument (name kebab-cased), a variant case with its payload, an enum case, or a
   * bare type reference (tuple item, variant payload).
   */
  datatype Piece =
    | FieldPiece(name: string, meta: WitMeta)
    | ArgPiece(name: string, meta: WitMeta)
    | OptionPiece(option: VariantOption)
    | CasePiece(name: string)
    | RefPiece(meta: WitMeta)

  /** A variant case: the bare name without payload, else `name(` payload refs joined by `, ` `)`. */
  function OptionText(trim: bool, o: VariantOption): string
  {
    if o.fields == [] then Kebab(trim, o.name)
    else Kebab(trim, o.name) + "(" + Interleaved("", ", ", RefTexts(trim, o.fields)) + ")"
  }

  function PieceText(trim: bool, p: Piece): string
  {
    match p
    case FieldPiece(name, m) => name + ": " + RefText(trim, m)
    case ArgPiece(name, m) => Kebab(trim, name) + ": " + RefText(trim, m)
    case OptionPiece(o) => OptionText(trim, o)
    case CasePiece(name) => Kebab(trim, name)
    case RefPiece(m) => RefText(trim, m)
  }

  function PieceTexts(trim: bool, ps: seq<Piece>): (r: seq<string>)
    ensures |r| == |ps|
  {
    if ps == [] then [] else PieceTexts(trim, ps[..|ps| - 1]) + [PieceText(trim, ps[|ps| - 1])]
  }

  lemma {:induction false} PieceTextsAt(trim: bool, ps: seq<Piece>, i: nat)
    requires i < |ps|
    ensures PieceTexts(trim, ps)[i] == PieceText(trim, ps[i])
  {
    if i < |ps| - 1 {
      PieceTextsAt(trim, ps[..|ps| - 1], i);
    }
  }

  function FieldPieces(fields: seq<(string, WitMeta)>): (r: seq<Piece>)
    ensures |r| == |fields|
  {
    if fields == [] then [] else FieldPieces(fields[..|fields| - 1]) + [FieldPiece(fields[|fields| - 1].0, fields[|fields| - 1].1)]
  }

  function ArgPieces(args: seq<(string, WitMeta)>): (r: seq<Piece>)
    ensures |r| == |args|
  {
    if args == [] then [] else ArgPieces(args[..|args| - 1]) + [ArgPiece(args[|args| - 1].0, args[|args| - 1].1)]
  }

  function OptionPieces(options: seq<VariantOption>): (r: seq<Piece>)
    ensures |r| == |options|
  {
    if options == [] then [] else OptionPieces(options[..|options| - 1]) + [OptionPiece(options[|options| - 1])]
  }

  function CasePieces(names: seq<string>): (r: seq<Piece>)
    ensures |r| == |names|
  {
    if names == [] then [] else CasePieces(names[..|names| - 1]) + [CasePiece(names[|names| - 1])]
  }

  function RefPieces(ms: seq<WitMeta>): (r: seq<Piece>)
    ensures |r| == |ms|
  {
    if ms == [] then [] else RefPieces(ms[..|ms| - 1]) + [RefPiece(ms[|ms| - 1])]
  }

  // ---------------------------------------------------------------------------------------------
  // Top-level declarations of the current serializer (`into_wit`, `export_wit_interface`)
  // ---------------------------------------------------------------------------------------------

  /** The lines a block declaration writes at `level`: header, body at `level + 1`, closing brace. */
  function BlockText(level: nat, keyword: string, name: string, separator: string, body: seq<string>): string
  {
    Indentation(level) + keyword + Kebab(true, name) + " {" + "\n"
    + Interleaved(Indentation(level + 1), separator, body) + "\n"
    + Indentation(level) + "}" + "\n"
  }

  /** Writing a block's header, its body and its closing line after `w` leaves `w + BlockText(..)`. */
  lemma BlockWritten(w: string, level: nat, keyword: string, name: string, separator: string, body: seq<string>,
                     afterHeader: string, afterBody: string, written: string)
    requires afterHeader == w + Indentation(level) + keyword + Kebab(true, name) + " {" + "\n"
    requires afterBody == afterHeader + Interleaved(Indentation(level + 1), separator, body)
    requires written == afterBody + "\n" + Indentation(level) + "}" + "\n"
    ensures written == w + BlockText(level, keyword, name, separator, body)
  {
    var header := Indentation(level) + keyword + Kebab(true, name) + " {" + "\n";
    Append5(w, Indentation(level), keyword, Kebab(true, name), " {", "\n");
    var items := Interleaved(Indentation(level + 1), separator, body);
    Append2(w, header, items);
    Append5(w, header + items, "\n", Indentation(level), "}", "\n");
  }

  /** Writing a function's line after `w` leaves `w + FunctionText(..)`. */
  lemma FunctionWritten(w: string, level: nat, f: FunctionMeta, afterArgs: string, written: string)
    requires afterArgs == w + Indentation(level) + Kebab(true, f.name) + ": func("
                         + Interleaved("", ", ", PieceTexts(true, ArgPieces(f.args)))
    requires written == afterArgs + ") -> " + RefText(true, f.result) + "\n"
    ensures written == w + FunctionText(level, f)
  {
    var args := Interleaved("", ", ", PieceTexts(true, ArgPieces(f.args)));
    Append4(w, Indentation(level), Kebab(true, f.name), ": func(", args);
    Append4(w, Indentation(level) + Kebab(true, f.name) + ": func(" + args, ") -> ", RefText(true, f.result), "\n");
  }

  /** What `into_wit` writes for one export when the serializer is at `level`. */
  function ExportText(level: nat, e: WitExport): string
    requires !e.FlagExport?
  {
    match e
    case RecordExport(r) => BlockText(level, "record ", r.name, "\n", PieceTexts(true, FieldPieces(r.fields)))
    case VariantExport(v) => BlockText(level, "variant ", v.name, ",\n", PieceTexts(true, OptionPieces(v.options)))
    case EnumExport(en) => BlockText(level, "enum ", en.name, ",\n", PieceTexts(true, CasePieces(en.variants)))
    case FunctionExport(f) => FunctionText(level, f)
  }

  /** A function export: one line at `level`, the arrow and result always present. */
  function FunctionText(level: nat, f: FunctionMeta): string
  {
    Indentation(level) + Kebab(true, f.name) + ": func("
    + Interleaved("", ", ", PieceTexts(true, ArgPieces(f.args)))
    + ") -> " + RefText(true, f.result) + "\n"
  }

  predicate NoFlags(es: seq<WitExport>)
  {
    forall i :: 0 <= i < |es| ==> !es[i].FlagExport?
  }

  /** The exports rendered one after another at `level`, each followed by an extra `\n`. */
  function ExportsText(level: nat, es: seq<WitExport>): string
    requires NoFlags(es)
  {
    if es == [] then [] else ExportsText(level, es[..|es| - 1]) + ExportText(level, es[|es| - 1]) + "\n"
  }

  /** The document `export_wit_interface` returns. */
  function InterfaceText(interfaceName: string, worldName: string, es: seq<WitExport>): string
    requires NoFlags(es)
  {
    "interface " + interfaceName + " {\n" + ExportsText(1, es) + "\n}\n\nworld " + worldName
    + " {\n   export " + interfaceName + ";\n}"
  }

  // ---------------------------------------------------------------------------------------------
  // Sizes: a termination measure for the serializer's mutually recursive methods
  // ---------------------------------------------------------------------------------------------

  ghost function MetaSize(m: WitMeta): nat
    decreases m, 1
  {
    match m
    case Result(ok, err) => 1 + MetaSize(ok) + MetaSize(err)
    case Option(x) => 1 + MetaSize(x)
    case List(x) => 1 + MetaSize(x)
    case Tuple(items) => 1 + MetasSize(items)
    case _ => 1
  }

  ghost function MetasSize(ms: seq<WitMeta>): nat
    decreases ms, 0
  {
    if ms == [] then 0 else MetasSize(ms[..|ms| - 1]) + 1 + MetaSize(ms[|ms| - 1])
  }

  ghost function PieceSize(p: Piece): nat
  {
    match p
    case FieldPiece(_, m) => 1 + MetaSize(m)
    case ArgPiece(_, m) => 1 + MetaSize(m)
    case OptionPiece(o) => 1 + MetasSize(o.fields)
    case CasePiece(_) => 1
    case RefPiece(m) => 1 + MetaSize(m)
  }

  ghost function PiecesSize(ps: seq<Piece>): nat
  {
    if ps == [] then 0 else PiecesSize(ps[..|ps| - 1]) + PieceSize(ps[|ps| - 1])
  }

  lemma {:induction false} PieceSizeBound(ps: seq<Piece>, i: nat)
    requires i < |ps|
    ensures PieceSize(ps[i]) <= PiecesSize(ps)
  {
    if i < |ps| - 1 {
      PieceSizeBound(ps[..|ps| - 1], i);
    }
  }

  /** A list of bare references is rendered exactly as the references themselves. */
  lemma {:induction false} RefPiecesText(trim: bool, ms: seq<WitMeta>)
    ensures PieceTexts(trim, RefPieces(ms)) == RefTexts(trim, ms)
  {
    if ms != [] {
      var init, last := ms[..|ms| - 1], ms[|ms| - 1];
      RefPiecesText(trim, init);
      var ps := RefPieces(ms);
      assert ps == RefPieces(init) + [RefPiece(last)];
      assert ps[..|ps| - 1] == RefPieces(init);
      assert ps[|ps| - 1] == RefPiece(last);
      RefPieceText(trim, last);
      assert PieceTexts(trim, ps) == PieceTexts(trim, RefPieces(init)) + [RefText(trim, last)];
    }
  }

  lemma RefPieceText(trim: bool, m: WitMeta)
    ensures PieceText(trim, RefPiece(m)) == RefText(trim, m)
  {
  }

  lemma {:induction false} RefPiecesSize(ms: seq<WitMeta>)
    ensures PiecesSize(RefPieces(ms)) == MetasSize(ms)
  {
    if ms != [] {
      RefPiecesSize(ms[..|ms| - 1]);
      assert RefPieces(ms)[..|ms| - 1] == RefPieces(ms[..|ms| - 1]);
    }
  }
}
