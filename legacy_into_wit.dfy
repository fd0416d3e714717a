/**
 * The earlier copy of the WIT serializer kept in the test module of golem-rust-examples. It has
 * no indentation level: list items get a fixed prefix, names are kebab-cased without trimming
 * underscores, record fields are separated by `,\n`, and nothing follows a closing brace or a
 * function's result.
 */
module LegacyIntoWit {
  import opened Ascii
  import opened WitModel
  import opened WitText

  /** The lines of a block declaration: header, prefixed body items, closing brace without newline. */
  function LegacyBlockText(keyword: string, name: string, body: seq<string>): string
  {
    keyword + Kebab(false, name) + " {\n" + Interleaved(Indent, ",\n", body) + "\n}"
  }

  function LegacyFunctionText(f: FunctionMeta): string
  {
    Kebab(false, f.name) + ": func(" + Interleaved("", ", ", PieceTexts(false, ArgPieces(f.args)))
    + ") -> " + RefText(false, f.result)
  }

  /** What the older `into_wit` writes for one export. */
  function LegacyExportText(e: WitExport): string
    requires !e.FlagExport?
  {
    match e
    case RecordExport(r) => LegacyBlockText("record ", r.name, PieceTexts(false, FieldPieces(r.fields)))
    case VariantExport(v) => LegacyBlockText("variant ", v.name, PieceTexts(false, OptionPieces(v.options)))
    case EnumExport(en) => LegacyBlockText("enum ", en.name, PieceTexts(false, CasePieces(en.variants)))
    case FunctionExport(f) => LegacyFunctionText(f)
  }

  /** Writing a block's header, body and closing after `w` leaves `w + LegacyBlockText(..)`. */
  lemma LegacyBlockWritten(w: string, keyword: string, name: string, body: seq<string>, afterHeader: string, written: string)
    requires afterHeader == w + keyword + Kebab(false, name) + " {\n"
    requires written == afterHeader + Interleaved(Indent, ",\n", body) + "\n}"
    ensures written == w + LegacyBlockText(keyword, name, body)
  {
    Append3(w, keyword, Kebab(false, name), " {\n");
    Append3(w, keyword + Kebab(false, name) + " {\n", Interleaved(Indent, ",\n", body), "\n}");
  }

  lemma LegacyFunctionWritten(w: string, f: FunctionMeta, afterArgs: string, written: string)
    requires afterArgs == w + Kebab(false, f.name) + ": func(" + Interleaved("", ", ", PieceTexts(false, ArgPieces(f.args)))
    requires written == afterArgs + ") -> " + RefText(false, f.result)
    ensures written == w + LegacyFunctionText(f)
  {
    var args := Interleaved("", ", ", PieceTexts(false, ArgPieces(f.args)));
    Append3(w, Kebab(false, f.name), ": func(", args);
    Append3(w, Kebab(false, f.name) + ": func(" + args, ") -> ", RefText(false, f.result));
  }

  class LegacyWitSerializer {
    /** Everything written so far. */
    var writer: string
    const indent: string := "   "

    constructor ()
      ensures writer == []
    {
      writer := [];
    }

    method WriteStr(s: string)
      modifies this`writer
      ensures writer == old(writer) + s
    {
      writer := writer + s;
    }

    /** `write_kebab` without trimming: a leading or trailing `_` becomes `-`. */
    method WriteKebab(s: string)
      modifies this`writer
      ensures writer == old(writer) + Kebab(false, s)
    {
      var prevCharUppercase := false;
      var index := 0;
      while index < |s|
        invariant 0 <= index <= |s|
        invariant prevCharUppercase == (index > 0 && IsUpper(s[index - 1]))
        invariant writer == old(writer) + KebabPrefix(s, index)
      {
        ghost var before := writer;
        var c := s[index];
        if IsUpper(c) {
          if index > 0 && !prevCharUppercase {
            WriteStr("-");
            WriteStr([ToLower(c)]);
            Append2(before, "-", [ToLower(c)]);
          } else {
            WriteStr([ToLower(c)]);
          }
          prevCharUppercase := true;
        } else if c == '_' {
          WriteStr("-");
          prevCharUppercase := false;
        } else {
          WriteStr([LowByte(c)]);
          prevCharUppercase := false;
        }
        KebabPrefixStep(s, index, before, old(writer));
        index := index + 1;
      }
    }

    /** `interleave` with a fixed prefix string written before every item. */
    method Interleave(prefix: string, separator: string, items: seq<Piece>)
      modifies this`writer
      ensures writer == old(writer) + Interleaved(prefix, separator, PieceTexts(false, items))
      decreases PiecesSize(items), 1
    {
      ghost var texts := PieceTexts(false, items);
      var first := true;
      var i := 0;
      while i < |items|
        invariant 0 <= i <= |items|
        invariant first <==> i == 0
        invariant writer == old(writer) + InterleavedPrefix(prefix, separator, texts, i)
      {
        ghost var before := writer;
        if first {
          first := false;
        } else {
          WriteStr(separator);
        }
        WriteStr(prefix);
        ghost var separated := writer;
        PieceSizeBound(items, i);
        WritePiece(items[i]);
        PieceTextsAt(false, items, i);
        InterleavedStep(old(writer), prefix, separator, texts, i, before, separated);
        i := i + 1;
      }
    }

    method WritePiece(p: Piece)
      modifies this`writer
      ensures writer == old(writer) + PieceText(false, p)
      decreases PieceSize(p), 0
    {
      ghost var w0 := writer;
      match p
      case FieldPiece(name, m) =>
        WriteStr(name);
        WriteStr(": ");
        WitRef(m);
        Append3(w0, name, ": ", RefText(false, m));
      case ArgPiece(name, m) =>
        WriteKebab(name);
        WriteStr(": ");
        WitRef(m);
        Append3(w0, Kebab(false, name), ": ", RefText(false, m));
      case OptionPiece(o) =>
        WriteKebab(o.name);
        if o.fields != [] {
          WriteStr("(");
          RefPiecesSize(o.fields);
          Interleave("", ", ", RefPieces(o.fields));
          WriteStr(")");
          RefPiecesText(false, o.fields);
          Append4(w0, Kebab(false, o.name), "(", Interleaved("", ", ", RefTexts(false, o.fields)), ")");
        }
      case CasePiece(name) =>
        WriteKebab(name);
      case RefPiece(m) =>
        WitRef(m);
    }

    method WitRef(m: WitMeta)
      modifies this`writer
      ensures writer == old(writer) + RefText(false, m)
      decreases MetaSize(m), 0
    {
      ghost var w0 := writer;
      match m
      case Record(r) => WriteKebab(r.name);
      case Variant(v) => WriteKebab(v.name);
      case Enum(e) => WriteKebab(e.name);
      case FlagMeta(f) => WriteKebab(f.name);
      case Result(ok, err) =>
        WriteStr("result<");
        WitRef(ok);
        WriteStr(", ");
        WitRef(err);
        WriteStr(">");
        Append5(w0, "result<", RefText(false, ok), ", ", RefText(false, err), ">");
      case Option(x) =>
        WriteStr("option<");
        WitRef(x);
        WriteStr(">");
        Append3(w0, "option<", RefText(false, x), ">");
      case List(x) =>
        WriteStr("list<");
        WitRef(x);
        WriteStr(">");
        Append3(w0, "list<", RefText(false, x), ">");
      case Tuple(items) =>
        WriteStr("tuple<");
        RefPiecesSize(items);
        Interleave("", ", ", RefPieces(items));
        RefPiecesText(false, items);
        Append2(w0, "tuple<", Interleaved("", ", ", RefTexts(false, items)));
      case Primitive(p) => WriteStr(PrimitiveWit(p));
    }

    /** The shared shape of the record, variant and enum arms: header, prefixed items, `\n}`. */
    method WriteBlock(keyword: string, name: string, items: seq<Piece>)
      modifies this`writer
      ensures writer == old(writer) + LegacyBlockText(keyword, name, PieceTexts(false, items))
    {
      ghost var w0 := writer;
      WriteStr(keyword);
      WriteKebab(name);
      WriteStr(" {\n");
      ghost var afterHeader := writer;
      Interleave(indent, ",\n", items);
      WriteStr("\n}");
      LegacyBlockWritten(w0, keyword, name, PieceTexts(false, items), afterHeader, writer);
    }

    method WriteFunction(f: FunctionMeta)
      modifies this`writer
      ensures writer == old(writer) + LegacyFunctionText(f)
    {
      ghost var w0 := writer;
      WriteKebab(f.name);
      WriteStr(": func(");
      Interleave("", ", ", ArgPieces(f.args));
      ghost var afterArgs := writer;
      WriteStr(") -> ");
      WitRef(f.result);
      LegacyFunctionWritten(w0, f, afterArgs, writer);
    }

    /** The older `into_wit`; `Flag` exports are a `todo!()` there too. */
    method IntoWit(e: WitExport)
      requires !e.FlagExport?
      modifies this`writer
      ensures writer == old(writer) + LegacyExportText(e)
    {
      match e
      case RecordExport(r) => WriteBlock("record ", r.name, FieldPieces(r.fields));
      case VariantExport(v) => WriteBlock("variant ", v.name, OptionPieces(v.options));
      case EnumExport(en) => WriteBlock("enum ", en.name, CasePieces(en.variants));
      case FunctionExport(f) => WriteFunction(f);
    }
  }

  /** The older free function `into_wit`. */
  method LegacyIntoWitString(e: WitExport) returns (r: string)
    requires !e.FlagExport?
    ensures r == LegacyExportText(e)
  {
    var serializer := new LegacyWitSerializer();
    serializer.IntoWit(e);
    r := serializer.writer;
  }
}
