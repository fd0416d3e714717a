/**
 * The WIT serializer of golem-rust: an object that appends text to an output buffer and keeps
 * an indentation level. Every write is proved to append exactly the text `WitText` specifies.
 * The Rust writer is an in-memory `Vec<u8>`, so no write can fail and the model is infallible.
 */
module IntoWit {
  import opened Ascii
  import opened WitModel
  import opened WitText

  class WitSerializer {
    /** Everything written so far. */
    var writer: string
    /** Current indentation depth; `write_indentation` writes `indent` this many times. */
    var level: nat
    const indent: string := "   "

    constructor (level: nat)
      ensures writer == [] && this.level == level
    {
      writer := [];
      this.level := level;
    }

    method WriteStr(s: string)
      modifies this`writer
      ensures writer == old(writer) + s
    {
      writer := writer + s;
    }

    method NewLine()
      modifies this`writer
      ensures writer == old(writer) + "\n"
    {
      WriteStr("\n");
    }

    method IncIndent()
      modifies this`level
      ensures level == old(level) + 1
    {
      level := level + 1;
    }

    /** `level -= 1` on a `usize`: underflow is a panic, so the level must be positive. */
    method DecIndent()
      requires level > 0
      modifies this`level
      ensures level == old(level) - 1
    {
      level := level - 1;
    }

    method WriteIndentation()
      modifies this`writer
      ensures writer == old(writer) + Indentation(level)
    {
      for i := 0 to level
        invariant writer == old(writer) + Indentation(i)
      {
        WriteStr(indent);
      }
    }

    method WriteIndentLine(s: string)
      modifies this`writer
      ensures writer == old(writer) + Indentation(level) + s + "\n"
    {
      WriteIndentation();
      WriteStr(s);
      NewLine();
    }

    method WriteKebab(s: string)
      modifies this`writer
      ensures writer == old(writer) + Kebab(true, s)
    {
      var prevCharUppercase := false;
      var t := TrimEndUnderscores(TrimStartUnderscores(s));
      TrimUnderscoresSteps(s);
      var index := 0;
      while index < |t|
        invariant 0 <= index <= |t|
        invariant prevCharUppercase == (index > 0 && IsUpper(t[index - 1]))
        invariant writer == old(writer) + KebabPrefix(t, index)
      {
        ghost var before := writer;
        var c := t[index];
        if IsUpper(c) {
          if index > 0 && !prevCharUppercase {
            WriteStr("-");
            WriteStr([ToLower(c)]);
            Append2(before, "-", [ToLower(c)]);
          } else {
            WriteStr([ToLower(c)]);
          }
          prevCharUppercase := true;
        } else if c == '_' {
          WriteStr("-");
          prevCharUppercase := false;
        } else {
          WriteStr([LowByte(c)]);
          prevCharUppercase := false;
        }
        KebabPrefixStep(t, index, before, old(writer));
        index := index + 1;
      }
    }

    /**
     * `interleave`: writes the items in order, the separator between each two of them, and the
     * prefix (`write_indentation` when `indentPrefix`, nothing otherwise) before each.
     */
    method Interleave(indentPrefix: bool, separator: string, items: seq<Piece>)
      modifies this`writer
      ensures writer == old(writer) + Interleaved(if indentPrefix then Indentation(level) else [], separator, PieceTexts(true, items))
      decreases PiecesSize(items), 1
    {
      ghost var prefix := if indentPrefix then Indentation(level) else [];
      ghost var texts := PieceTexts(true, items);
      var first := true;
      var i := 0;
      while i < |items|
        invariant 0 <= i <= |items|
        invariant first <==> i == 0
        invariant writer == old(writer) + InterleavedPrefix(prefix, separator, texts, i)
      {
        ghost var before := writer;
        if first {
          first := false;
        } else {
          WriteStr(separator);
        }
        ghost var sep := writer;
        if indentPrefix {
          WriteIndentation();
          assert writer == sep + prefix;
        } else {
          assert writer == writer + prefix;
        }
        ghost var separated := writer;
        PieceSizeBound(items, i);
        WritePiece(items[i]);
        PieceTextsAt(true, items, i);
        InterleavedStep(old(writer), prefix, separator, texts, i, before, separated);
        i := i + 1;
      }
    }

    method WritePiece(p: Piece)
      modifies this`writer
      ensures writer == old(writer) + PieceText(true, p)
      decreases PieceSize(p), 0
    {
      ghost var w0 := writer;
      match p
      case FieldPiece(name, m) =>
        WriteStr(name);
        WriteStr(": ");
        WitRef(m);
        Append3(w0, name, ": ", RefText(true, m));
      case ArgPiece(name, m) =>
        WriteKebab(name);
        WriteStr(": ");
        WitRef(m);
        Append3(w0, Kebab(true, name), ": ", RefText(true, m));
      case OptionPiece(o) =>
        WriteKebab(o.name);
        if o.fields != [] {
          WriteStr("(");
          RefPiecesSize(o.fields);
          Interleave(false, ", ", RefPieces(o.fields));
          WriteStr(")");
          RefPiecesText(true, o.fields);
          Append4(w0, Kebab(true, o.name), "(", Interleaved("", ", ", RefTexts(true, o.fields)), ")");
        }
      case CasePiece(name) =>
        WriteKebab(name);
      case RefPiece(m) =>
        WitRef(m);
    }

    method WitRef(m: WitMeta)
      modifies this`writer
      ensures writer == old(writer) + RefText(true, m)
      decreases MetaSize(m), 0
    {
      ghost var w0 := writer;
      match m
      case Record(r) => WriteKebab(r.name);
      case Variant(v) => WriteKebab(v.name);
      case Enum(e) => WriteKebab(e.name);
      case FlagMeta(f) => WriteKebab(f.name);
      case Result(ok, err) =>
        WriteStr("result<");
        WitRef(ok);
        WriteStr(", ");
        WitRef(err);
        WriteStr(">");
        Append5(w0, "result<", RefText(true, ok), ", ", RefText(true, err), ">");
      case Option(x) =>
        WriteStr("option<");
        WitRef(x);
        WriteStr(">");
        Append3(w0, "option<", RefText(true, x), ">");
      case List(x) =>
        WriteStr("list<");
        WitRef(x);
        WriteStr(">");
        Append3(w0, "list<", RefText(true, x), ">");
      case Tuple(items) =>
        WriteStr("tuple<");
        RefPiecesSize(items);
        Interleave(false, ", ", RefPieces(items));
        RefPiecesText(true, items);
        Append2(w0, "tuple<", Interleaved("", ", ", RefTexts(true, items)));
      case Primitive(p) => WriteStr(PrimitiveWit(p));
    }

    /** The opening line of a block declaration: indentation, keyword, kebab name, ` {`. */
    method WriteBlockHeader(keyword: string, name: string)
      modifies this`writer
      ensures writer == old(writer) + Indentation(level) + keyword + Kebab(true, name) + " {" + "\n"
    {
      WriteIndentation();
      WriteStr(keyword);
      WriteKebab(name);
      WriteStr(" {");
      NewLine();
    }

    /** The closing of a block declaration: a newline, one level less, and `}` on its own line. */
    method WriteBlockFooter()
      requires level > 0
      modifies this`writer, this`level
      ensures level == old(level) - 1
      ensures writer == old(writer) + "\n" + Indentation(level) + "}" + "\n"
    {
      NewLine();
      DecIndent();
      WriteIndentLine("}");
    }

    /** The `Record` arm of `into_wit`. */
    method WriteRecord(r: RecordMeta)
      modifies this`writer, this`level
      ensures level == old(level)
      ensures writer == old(writer) + BlockText(old(level), "record ", r.name, "\n", PieceTexts(true, FieldPieces(r.fields)))
    {
      ghost var w0 := writer;
      ghost var outerLevel := level;
      WriteBlockHeader("record ", r.name);
      IncIndent();
      ghost var afterHeader := writer;
      Interleave(true, "\n", FieldPieces(r.fields));
      ghost var afterBody := writer;
      WriteBlockFooter();
      BlockWritten(w0, outerLevel, "record ", r.name, "\n", PieceTexts(true, FieldPieces(r.fields)), afterHeader, afterBody, writer);
    }

    /** The `Variant` arm of `into_wit`. */
    method WriteVariant(v: VariantMeta)
      modifies this`writer, this`level
      ensures level == old(level)
      ensures writer == old(writer) + BlockText(old(level), "variant ", v.name, ",\n", PieceTexts(true, OptionPieces(v.options)))
    {
      ghost var w0 := writer;
      ghost var outerLevel := level;
      WriteBlockHeader("variant ", v.name);
      IncIndent();
      ghost var afterHeader := writer;
      Interleave(true, ",\n", OptionPieces(v.options));
      ghost var afterBody := writer;
      WriteBlockFooter();
      BlockWritten(w0, outerLevel, "variant ", v.name, ",\n", PieceTexts(true, OptionPieces(v.options)), afterHeader, afterBody, writer);
    }

    /** The `Enum` arm of `into_wit`. */
    method WriteEnum(en: EnumMeta)
      modifies this`writer, this`level
      ensures level == old(level)
      ensures writer == old(writer) + BlockText(old(level), "enum ", en.name, ",\n", PieceTexts(true, CasePieces(en.variants)))
    {
      ghost var w0 := writer;
      ghost var outerLevel := level;
      WriteBlockHeader("enum ", en.name);
      IncIndent();
      ghost var afterHeader := writer;
      Interleave(true, ",\n", CasePieces(en.variants));
      ghost var afterBody := writer;
      WriteBlockFooter();
      BlockWritten(w0, outerLevel, "enum ", en.name, ",\n", PieceTexts(true, CasePieces(en.variants)), afterHeader, afterBody, writer);
    }

    /** The `Function` arm of `into_wit`: one line, `name: func(args) -> result`. */
    method WriteFunction(f: FunctionMeta)
      modifies this`writer
      ensures writer == old(writer) + FunctionText(level, f)
    {
      ghost var w0 := writer;
      WriteIndentation();
      WriteKebab(f.name);
      WriteStr(": func(");
      Interleave(false, ", ", ArgPieces(f.args));
      ghost var afterArgs := writer;
      WriteStr(") -> ");
      WitRef(f.result);
      NewLine();
      FunctionWritten(w0, level, f, afterArgs, writer);
    }

    /**
     * `into_wit` for one export. Each block declaration raises the level for its body and lowers
     * it before the closing brace, so the level is the same afterwards. `Flag` exports are a
     * `todo!()` in the source and are excluded.
     */
    method IntoWit(e: WitExport)
      requires !e.FlagExport?
      modifies this`writer, this`level
      ensures level == old(level)
      ensures writer == old(writer) + ExportText(old(level), e)
    {
      match e
      case RecordExport(r) => WriteRecord(r);
      case VariantExport(v) => WriteVariant(v);
      case EnumExport(en) => WriteEnum(en);
      case FunctionExport(f) => WriteFunction(f);
    }
  }

  /** `export_wit_interface`: all exports at level 1, each followed by `\n`, wrapped in the interface and world blocks. */
  method ExportWitInterface(interfaceName: string, worldName: string, exports: seq<WitExport>) returns (r: string)
    requires NoFlags(exports)
    ensures r == InterfaceText(interfaceName, worldName, exports)
  {
    var serializer := new WitSerializer(1);
    for i := 0 to |exports|
      invariant serializer.level == 1
      invariant serializer.writer == ExportsText(1, exports[..i])
    {
      serializer.IntoWit(exports[i]);
      serializer.WriteStr("\n");
      assert exports[..i + 1][..i] == exports[..i];
    }
    assert exports[..|exports|] == exports;
    r := "interface " + interfaceName + " {\n" + serializer.writer + "\n}\n\nworld " + worldName
      + " {\n   export " + interfaceName + ";\n}";
  }

  /** The free function `into_wit`: one export rendered at level 0. */
  method IntoWitString(e: WitExport) returns (r: string)
    requires !e.FlagExport?
    ensures r == ExportText(0, e)
  {
    var serializer := new WitSerializer(0);
    serializer.IntoWit(e);
    r := serializer.writer;
  }
}
