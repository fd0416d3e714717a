/**
 * How the output of the current serializer (golem-rust) relates to the older copy in
 * golem-rust-examples. At level 0 they agree on variants, enums and functions up to the newline
 * the current one adds, as long as no name starts or ends with `_`; on records they differ in
 * the field separator.
 */
module SerializerComparison {
  import opened Ascii
  import opened WitModel
  import opened WitText
  import opened LegacyIntoWit
  import WitTextProps

  /** A name with no leading or trailing underscore, which trimming leaves alone. */
  predicate Untrimmed(s: string)
  {
    s == [] || (s[0] != '_' && s[|s| - 1] != '_')
  }

  /** Every name a reference to `m` writes is untrimmed. */
  predicate UntrimmedNames(m: WitMeta)
  {
    match m
    case Record(r) => Untrimmed(r.name)
    case Variant(v) => Untrimmed(v.name)
    case Enum(e) => Untrimmed(e.name)
    case FlagMeta(f) => Untrimmed(f.name)
    case Result(ok, err) => UntrimmedNames(ok) && UntrimmedNames(err)
    case Option(x) => UntrimmedNames(x)
    case List(x) => UntrimmedNames(x)
    case Tuple(items) => forall i :: 0 <= i < |items| ==> UntrimmedNames(items[i])
    case Primitive(_) => true
  }

  /** Every kebab-cased name a piece writes is untrimmed (record field names are written verbatim). */
  predicate UntrimmedPiece(p: Piece)
  {
    match p
    case FieldPiece(_, m) => UntrimmedNames(m)
    case ArgPiece(name, m) => Untrimmed(name) && UntrimmedNames(m)
    case OptionPiece(o) => Untrimmed(o.name) && forall i :: 0 <= i < |o.fields| ==> UntrimmedNames(o.fields[i])
    case CasePiece(name) => Untrimmed(name)
    case RefPiece(m) => UntrimmedNames(m)
  }

  /** Trimming changes nothing for an untrimmed name. */
  lemma KebabAgree(s: string)
    requires Untrimmed(s)
    ensures Kebab(true, s) == Kebab(false, s)
  {
    assert TrimUnderscores(s) == s;
  }

  /**
   * A leading underscore is where the two serializers disagree on a name: the current one drops
   * it, the older one writes it as `-`.
   */
  lemma KebabDisagree(s: string)
    requires |s| > 0 && s[0] == '_'
    ensures Kebab(true, s) == Kebab(true, s[1..])
    ensures |Kebab(false, s)| > 0 && Kebab(false, s)[0] == '-'
  {
    KebabPrefixHead(s, |s|);
  }

  /** The loop's output over a name starting with `_` starts with `-` from the first iteration on. */
  lemma {:induction false} KebabPrefixHead(s: string, n: nat)
    requires 0 < n <= |s| && s[0] == '_'
    ensures |KebabPrefix(s, n)| > 0 && KebabPrefix(s, n)[0] == '-'
  {
    if n > 1 {
      KebabPrefixHead(s, n - 1);
    }
  }

  lemma {:induction false} RefTextAgree(m: WitMeta)
    requires UntrimmedNames(m)
    ensures RefText(true, m) == RefText(false, m)
    decreases m, 1
  {
    match m
    case Record(r) => KebabAgree(r.name);
    case Variant(v) => KebabAgree(v.name);
    case Enum(e) => KebabAgree(e.name);
    case FlagMeta(f) => KebabAgree(f.name);
    case Result(ok, err) => RefTextAgree(ok); RefTextAgree(err);
    case Option(x) => RefTextAgree(x);
    case List(x) => RefTextAgree(x);
    case Tuple(items) => RefTextsAgree(items);
    case Primitive(_) =>
  }

  lemma {:induction false} RefTextsAgree(ms: seq<WitMeta>)
    requires forall i :: 0 <= i < |ms| ==> UntrimmedNames(ms[i])
    ensures RefTexts(true, ms) == RefTexts(false, ms)
    decreases ms, 0
  {
    if ms != [] {
      RefTextsAgree(ms[..|ms| - 1]);
      RefTextAgree(ms[|ms| - 1]);
    }
  }

  lemma PieceTextAgree(p: Piece)
    requires UntrimmedPiece(p)
    ensures PieceText(true, p) == PieceText(false, p)
  {
    match p
    case FieldPiece(_, m) => RefTextAgree(m);
    case ArgPiece(name, m) => KebabAgree(name); RefTextAgree(m);
    case OptionPiece(o) => KebabAgree(o.name); RefTextsAgree(o.fields);
    case CasePiece(name) => KebabAgree(name);
    case RefPiece(m) => RefTextAgree(m);
  }

  lemma {:induction false} PieceTextsAgree(ps: seq<Piece>)
    requires forall i :: 0 <= i < |ps| ==> UntrimmedPiece(ps[i])
    ensures PieceTexts(true, ps) == PieceTexts(false, ps)
  {
    if ps != [] {
      PieceTextsAgree(ps[..|ps| - 1]);
      PieceTextAgree(ps[|ps| - 1]);
    }
  }

  // The pieces of each kind of declaration, item by item.

  lemma {:induction false} FieldPiecesAt(fields: seq<(string, WitMeta)>, i: nat)
    requires i < |fields|
    ensures FieldPieces(fields)[i] == FieldPiece(fields[i].0, fields[i].1)
  {
    if i < |fields| - 1 {
      FieldPiecesAt(fields[..|fields| - 1], i);
    }
  }

  lemma {:induction false} ArgPiecesAt(args: seq<(string, WitMeta)>, i: nat)
    requires i < |args|
    ensures ArgPieces(args)[i] == ArgPiece(args[i].0, args[i].1)
  {
    if i < |args| - 1 {
      ArgPiecesAt(args[..|args| - 1], i);
    }
  }

  lemma {:induction false} OptionPiecesAt(options: seq<VariantOption>, i: nat)
    requires i < |options|
    ensures OptionPieces(options)[i] == OptionPiece(options[i])
  {
    if i < |options| - 1 {
      OptionPiecesAt(options[..|options| - 1], i);
    }
  }

  lemma {:induction false} CasePiecesAt(names: seq<string>, i: nat)
    requires i < |names|
    ensures CasePieces(names)[i] == CasePiece(names[i])
  {
    if i < |names| - 1 {
      CasePiecesAt(names[..|names| - 1], i);
    }
  }

  /** Every name an export writes, at any depth, is untrimmed. */
  predicate UntrimmedExport(e: WitExport)
  {
    match e
    case RecordExport(r) => Untrimmed(r.name) && forall i :: 0 <= i < |r.fields| ==> UntrimmedNames(r.fields[i].1)
    case VariantExport(v) => Untrimmed(v.name) && forall i :: 0 <= i < |v.options| ==> UntrimmedPiece(OptionPiece(v.options[i]))
    case EnumExport(en) => Untrimmed(en.name) && forall i :: 0 <= i < |en.variants| ==> Untrimmed(en.variants[i])
    case FlagExport(f) => Untrimmed(f.name)
    case FunctionExport(f) => Untrimmed(f.name) && UntrimmedNames(f.result)
                              && forall i :: 0 <= i < |f.args| ==> Untrimmed(f.args[i].0) && UntrimmedNames(f.args[i].1)
  }

  /** The one- and zero-level indentation of the current serializer. */
  lemma IndentationOne()
    ensures Indentation(0) == [] && Indentation(1) == Indent
  {
  }

  /** The current block layout at level 0 is the older one followed by a newline. */
  lemma BlockRegroup(keyword: string, k: string, items: string)
    ensures [] + keyword + k + " {" + "\n" + items + "\n" + [] + "}" + "\n"
         == keyword + k + " {\n" + items + "\n}" + "\n"
  {
    assert " {" + "\n" == " {\n";
    assert "\n" + [] + "}" + "\n" == "\n}" + "\n";
  }

  lemma BlockAgree(keyword: string, name: string, body: seq<string>)
    requires Untrimmed(name)
    ensures BlockText(0, keyword, name, ",\n", body) == LegacyBlockText(keyword, name, body) + "\n"
  {
    KebabAgree(name);
    IndentationOne();
    BlockRegroup(keyword, Kebab(true, name), Interleaved(Indent, ",\n", body));
  }

  lemma VariantAgree(v: VariantMeta)
    requires UntrimmedExport(VariantExport(v))
    ensures ExportText(0, VariantExport(v)) == LegacyExportText(VariantExport(v)) + "\n"
  {
    var ps := OptionPieces(v.options);
    forall i | 0 <= i < |ps|
      ensures UntrimmedPiece(ps[i])
    {
      OptionPiecesAt(v.options, i);
    }
    PieceTextsAgree(ps);
    BlockAgree("variant ", v.name, PieceTexts(true, ps));
  }

  lemma EnumAgree(en: EnumMeta)
    requires UntrimmedExport(EnumExport(en))
    ensures ExportText(0, EnumExport(en)) == LegacyExportText(EnumExport(en)) + "\n"
  {
    var ps := CasePieces(en.variants);
    forall i | 0 <= i < |ps|
      ensures UntrimmedPiece(ps[i])
    {
      CasePiecesAt(en.variants, i);
    }
    PieceTextsAgree(ps);
    BlockAgree("enum ", en.name, PieceTexts(true, ps));
  }

  lemma FunctionAgree(f: FunctionMeta)
    requires UntrimmedExport(FunctionExport(f))
    ensures FunctionText(0, f) == LegacyFunctionText(f) + "\n"
  {
    var ps := ArgPieces(f.args);
    forall i | 0 <= i < |ps|
      ensures UntrimmedPiece(ps[i])
    {
      ArgPiecesAt(f.args, i);
    }
    PieceTextsAgree(ps);
    KebabAgree(f.name);
    RefTextAgree(f.result);
    IndentationOne();
    FunctionRegroup(Kebab(true, f.name), Interleaved("", ", ", PieceTexts(true, ps)), RefText(true, f.result));
  }

  lemma FunctionRegroup(k: string, args: string, res: string)
    ensures [] + k + ": func(" + args + ") -> " + res + "\n" == k + ": func(" + args + ") -> " + res + "\n"
  {
  }

  /**
   * At level 0 and with untrimmed names, the current serializer writes a variant, an enum or a
   * function exactly as the older one did, followed by one newline.
   */
  lemma ExportAgree(e: WitExport)
    requires !e.FlagExport? && !e.RecordExport? && UntrimmedExport(e)
    ensures ExportText(0, e) == LegacyExportText(e) + "\n"
  {
    match e
    case VariantExport(v) => VariantAgree(v);
    case EnumExport(en) => EnumAgree(en);
    case FunctionExport(f) => FunctionAgree(f);
  }

  /**
   * Records: the older serializer separates fields by `,\n` where the current one writes `\n`, so
   * (with untrimmed names, at level 0) its text plus a newline is one character longer per
   * separator; with at most one field the two agree.
   */
  lemma RecordSeparators(r: RecordMeta)
    requires UntrimmedExport(RecordExport(r))
    ensures |LegacyExportText(RecordExport(r)) + "\n"| == |ExportText(0, RecordExport(r))| + (if r.fields == [] then 0 else |r.fields| - 1)
    ensures |r.fields| <= 1 ==> ExportText(0, RecordExport(r)) == LegacyExportText(RecordExport(r)) + "\n"
  {
    var ps := FieldPieces(r.fields);
    forall i | 0 <= i < |ps|
      ensures UntrimmedPiece(ps[i])
    {
      FieldPiecesAt(r.fields, i);
    }
    PieceTextsAgree(ps);
    var body := PieceTexts(true, ps);
    BlockAgree("record ", r.name, body);
    BlockSeparatorLength("record ", r.name, body);
    if |r.fields| <= 1 {
      SingleInterleaved(Indentation(1), "\n", ",\n", body);
    }
  }

  /** A block whose items are separated by `,\n` is one character longer per separator than with `\n`. */
  lemma BlockSeparatorLength(keyword: string, name: string, body: seq<string>)
    ensures |BlockText(0, keyword, name, ",\n", body)| == |BlockText(0, keyword, name, "\n", body)| + (if body == [] then 0 else |body| - 1)
  {
    WitTextProps.InterleavedLength(Indentation(1), "\n", body);
    WitTextProps.InterleavedLength(Indentation(1), ",\n", body);
  }

  /** With at most one item the separator is never written. */
  lemma SingleInterleaved(prefix: string, a: string, b: string, xs: seq<string>)
    requires |xs| <= 1
    ensures Interleaved(prefix, a, xs) == Interleaved(prefix, b, xs)
  {
  }
}
