/**
 * Properties of the syntax-walking WIT generator, and how its choices compare with those of the
 * metadata serializer (`WitText`): name conversion, type resolution, and the document layout.
 */
module WitGenProps {
  import opened Wrappers
  import opened Ascii
  import opened RustSyntax
  import opened WitModel
  import opened WitText
  import opened WitGen
  import WitTextProps

  // ---------------------------------------------------------------------------------------------
  // Names
  // ---------------------------------------------------------------------------------------------

  /** Number of uppercase letters in `s`. */
  function Uppers(s: string): nat
  {
    if s == [] then 0 else Uppers(s[..|s| - 1]) + (if IsUpper(s[|s| - 1]) then 1 else 0)
  }

  /** What `pascal_case_to_kebab_case` writes for one character after the first. */
  function PascalPiece(c: char): string
  {
    if IsUpper(c) then "-" + [ToLower(c)] else [c]
  }

  lemma PascalPieceCounts(c: char)
    ensures |PascalPiece(c)| == 1 + (if IsUpper(c) then 1 else 0)
    ensures forall i :: 0 <= i < |PascalPiece(c)| ==> !IsUpper(PascalPiece(c)[i])
    ensures Count('-', PascalPiece(c)) == Count('-', [c]) + (if IsUpper(c) then 1 else 0)
    ensures Count('_', PascalPiece(c)) == Count('_', [c])
  {
    if IsUpper(c) {
      var p := PascalPiece(c);
      assert p[..1] == "-";
      assert Count('-', p) == Count('-', "-") + 0;
      assert Count('_', p) == Count('_', "-") + 0;
    }
  }

  /**
   * Every later capital becomes `-` and its lowercase: one character longer per capital, no
   * capital left, one more hyphen per capital, and underscores kept as they are.
   */
  lemma {:induction false} PascalRestCounts(s: string)
    ensures |PascalRest(s)| == |s| + Uppers(s)
    ensures forall i :: 0 <= i < |PascalRest(s)| ==> !IsUpper(PascalRest(s)[i])
    ensures Count('-', PascalRest(s)) == Count('-', s) + Uppers(s)
    ensures Count('_', PascalRest(s)) == Count('_', s)
  {
    if s != [] {
      var init, c := s[..|s| - 1], s[|s| - 1];
      PascalRestCounts(init);
      PascalPieceCounts(c);
      var prev, piece := PascalRest(init), PascalPiece(c);
      assert PascalRest(s) == prev + piece;
      CountAppend('-', prev, piece);
      CountAppend('_', prev, piece);
      assert s == init + [c];
      CountAppend('-', init, [c]);
      CountAppend('_', init, [c]);
      forall i | 0 <= i < |prev + piece|
        ensures !IsUpper((prev + piece)[i])
      {
        if i >= |prev| {
          assert (prev + piece)[i] == piece[i - |prev|];
        }
      }
    }
  }

  /**
   * `pascal_case_to_kebab_case` on a non-empty name: every capital after the first character
   * splits off with a hyphen (acronyms included), nothing uppercase remains, `_` is kept.
   */
  lemma PascalToKebabCounts(s: string)
    requires s != []
    ensures PascalToKebab(s).Ok?
    ensures var r := PascalToKebab(s).value;
      && |r| == |s| + Uppers(s[1..])
      && (forall i :: 0 <= i < |r| ==> !IsUpper(r[i]))
      && Count('-', r) == Count('-', s) + Uppers(s[1..])
      && Count('_', r) == Count('_', s)
  {
    var r := PascalToKebab(s).value;
    var head, rest := [ToLower(s[0])], PascalRest(s[1..]);
    PascalRestCounts(s[1..]);
    assert r == head + rest;
    assert s == [s[0]] + s[1..];
    CountAppend('-', head, rest);
    CountAppend('_', head, rest);
    CountAppend('-', [s[0]], s[1..]);
    CountAppend('_', [s[0]], s[1..]);
    forall i | 0 <= i < |r|
      ensures !IsUpper(r[i])
    {
      if i > 0 {
        assert r[i] == rest[i - 1];
      }
    }
  }

  /** A name without capitals after its first character is copied as it is. */
  lemma {:induction false} PascalRestLower(s: string)
    requires forall i :: 0 <= i < |s| ==> !IsUpper(s[i])
    ensures PascalRest(s) == s
  {
    if s != [] {
      PascalRestLower(s[..|s| - 1]);
      assert s == s[..|s| - 1] + [s[|s| - 1]];
    }
  }

  /** No two uppercase letters in a row, as in `AuctionService` (but not `HTTPServer`). */
  predicate NoAdjacentUppers(s: string)
  {
    forall i :: 0 < i < |s| ==> !(IsUpper(s[i - 1]) && IsUpper(s[i]))
  }

  predicate NoUnderscore(s: string)
  {
    forall i :: 0 <= i < |s| ==> s[i] != '_'
  }

  lemma {:induction false} PascalPrefixAgree(s: string, n: nat)
    requires 1 <= n <= |s|
    requires IsAscii(s) && NoUnderscore(s) && NoAdjacentUppers(s)
    ensures [ToLower(s[0])] + PascalRest(s[1..n]) == KebabPrefix(s, n)
  {
    if n == 1 {
      assert s[1..1] == [];
      assert KebabPrefix(s, 1) == KebabPiece(s, 0);
    } else {
      PascalPrefixAgree(s, n - 1);
      assert s[1..n][..n - 2] == s[1..n - 1];
      assert s[1..n][n - 2] == s[n - 1];
      assert PascalRest(s[1..n]) == PascalRest(s[1..n - 1]) + PascalPiece(s[n - 1]);
      assert KebabPiece(s, n - 1) == PascalPiece(s[n - 1]) by {
        assert IsAsciiChar(s[n - 1]);
        assert IsUpper(s[n - 1]) ==> !IsUpper(s[n - 2]);
      }
      var prev := KebabPrefix(s, n - 1);
      assert KebabPrefix(s, n) == prev + KebabPiece(s, n - 1);
    }
  }

  /**
   * On ASCII names without underscores and without consecutive capitals, the generator's
   * `pascal_case_to_kebab_case` and the serializer's `write_kebab` (either version) agree.
   */
  lemma PascalKebabAgree(s: string)
    requires s != [] && IsAscii(s) && NoUnderscore(s) && NoAdjacentUppers(s)
    ensures PascalToKebab(s) == Ok(Kebab(false, s)) == Ok(Kebab(true, s))
  {
    PascalPrefixAgree(s, |s|);
    assert s[1..|s|] == s[1..];
    assert TrimUnderscores(s) == s;
  }

  /** Where they differ: the generator splits every capital, `write_kebab` keeps acronyms whole. */
  lemma AcronymSplit()
    ensures PascalToKebab("AB") == Ok("a-b")
    ensures Kebab(true, "AB") == Kebab(false, "AB") == "ab"
  {
    assert "B"[..0] == [];
    assert ToLower('B') == 'b' && ToLower('A') == 'a';
    assert PascalRest("B") == "-b";
    assert PascalToKebab("AB").value == "a-b";
    assert PascalRest("B") == PascalRest([]) + PascalPiece('B');
    assert "AB"[1..] == "B";
    assert TrimUnderscores("AB") == "AB";
    assert KebabPrefix("AB", 1) == "a";
  }

  lemma {:induction false} DashedPrefix(s: string, n: nat)
    requires n <= |s|
    requires IsAscii(s) && forall i :: 0 <= i < |s| ==> !IsUpper(s[i])
    ensures KebabPrefix(s, n) == DashedLower(s)[..n]
  {
    if n > 0 {
      DashedPrefix(s, n - 1);
      assert IsAsciiChar(s[n - 1]);
      assert KebabPiece(s, n - 1) == [DashedLower(s)[n - 1]];
      assert DashedLower(s)[..n] == DashedLower(s)[..n - 1] + [DashedLower(s)[n - 1]];
    }
  }

  /**
   * Field, parameter and function names: on ASCII names without capitals, `to_lowercase` plus
   * `_` → `-` is what the older `write_kebab` writes; the result has no capital and no `_`.
   */
  lemma DashedLowerAgree(s: string)
    requires IsAscii(s) && forall i :: 0 <= i < |s| ==> !IsUpper(s[i])
    ensures DashedLower(s) == Kebab(false, s)
    ensures forall i :: 0 <= i < |s| ==> !IsUpper(DashedLower(s)[i]) && DashedLower(s)[i] != '_'
  {
    DashedPrefix(s, |s|);
  }

  /** The package name keeps every character but lowers capitals and turns `_` into `:`. */
  lemma PackageNameForm(ident: string)
    ensures forall i :: 0 <= i < |ident| ==>
      PackageName(ident)[i] == (if ident[i] == '_' then ':' else ToLower(ident[i]))
    ensures forall i :: 0 <= i < |ident| ==> !IsUpper(PackageName(ident)[i]) && PackageName(ident)[i] != '_'
  {
  }

  // ---------------------------------------------------------------------------------------------
  // Types
  // ---------------------------------------------------------------------------------------------

  /**
   * `convert_rust_types_to_wit_types` and the `HasWitMeta` table cover the same fifteen names and
   * agree on all of them but the floats; every other name is kebab-cased.
   */
  lemma ConvertMatchesPrimitives(name: string)
    ensures PrimitiveOf(name).None? ==> ConvertRustType(name) == PascalToKebab(name)
    ensures PrimitiveOf(name).Some? && name != "f32" && name != "f64" ==>
              ConvertRustType(name) == Ok(PrimitiveWit(PrimitiveOf(name).value))
    ensures ConvertRustType("f32") == Ok("float32") && PrimitiveWit(PrimitiveOf("f32").value) == "f32"
    ensures ConvertRustType("f64") == Ok("float64") && PrimitiveWit(PrimitiveOf("f64").value) == "f64"
  {
  }

  /** A path is resolved by its last segment alone; `super::..` is refused. */
  lemma ResolvePath(qself: bool, segments: seq<PathSegment>)
    requires segments != []
    ensures segments[0].ident == "super" ==> ResolveType(PathType(qself, segments)) == Err(SuperPath)
    ensures segments[0].ident != "super" && segments[|segments| - 1].ident != "super" ==>
              ResolveType(PathType(qself, segments)) == ResolveType(PathType(false, [segments[|segments| - 1]]))
  {
  }

  /** `Box<T>` is transparent. */
  lemma ResolveBox(t: Type)
    ensures ResolveType(NamedType("Box", [t])) == ResolveType(t)
  {
    var seg := PathSegment("Box", AngleBracketed([TypeArg(t)]));
    assert TypeArgs([t]) == [TypeArg(t)];
    assert NamedType("Box", [t]) == PathType(false, [seg]);
    assert ResolveSegment(seg) == ResolveArg(TypeArg(t));
  }

  /** The Rust type syntax of a type the `HasWitMeta` table describes. */
  function SyntaxOf(t: RustType): (r: Type)
    ensures r.PathType? ==> |r.segments| == 1
  {
    match t
    case Named(n) => NamedType(n, [])
    case ResultOf(a, b) => NamedType("Result", [SyntaxOf(a), SyntaxOf(b)])
    case OptionOf(a) => NamedType("Option", [SyntaxOf(a)])
    case VecOf(a) => NamedType("Vec", [SyntaxOf(a)])
    case TupleOf(items) => TupleType(SyntaxesOf(items))
  }

  function SyntaxesOf(ts: seq<RustType>): (r: seq<Type>)
    ensures |r| == |ts| && forall i :: 0 <= i < |ts| ==> r[i] == SyntaxOf(ts[i])
  {
    if ts == [] then [] else
      assert forall i :: 1 <= i < |ts| ==> ts[i] == ts[1..][i - 1];
      [SyntaxOf(ts[0])] + SyntaxesOf(ts[1..])
  }

  /** Built from integer, `bool`, `char` and `String` leaves by `Result`, `Option` and `Vec` only. */
  predicate Plain(t: RustType)
  {
    match t
    case Named(n) => PrimitiveOf(n).Some? && n != "f32" && n != "f64"
    case ResultOf(a, b) => Plain(a) && Plain(b)
    case OptionOf(a) => Plain(a)
    case VecOf(a) => Plain(a)
    case TupleOf(_) => false
  }

  lemma JoinPair(sep: string, a: string, b: string)
    ensures Join(sep, [a, b]) == a + sep + b
  {
    assert [a, b][..1] == [a];
  }

  /** Joining with a non-empty separator gives nothing exactly for no item or one empty item. */
  lemma JoinEmpty(sep: string, xs: seq<string>)
    requires sep != []
    ensures Join(sep, xs) == [] <==> xs == [] || (|xs| == 1 && xs[0] == [])
  {
    if |xs| > 1 {
      assert |Join(sep, xs)| >= |sep|;
    }
  }

  /**
   * `Result<..>` whose arguments all resolve, however many there are: `result<` and the
   * arguments' texts, in order, joined by `, `, then `>`.
   */
  lemma ResolveResult(types: seq<Type>) returns (rs: seq<string>)
    requires types != [] && forall i :: 0 <= i < |types| ==> ResolveType(types[i]).Ok?
    ensures |rs| == |types| && forall i :: 0 <= i < |types| ==> ResolveType(types[i]) == Ok(rs[i])
    ensures ResolveType(NamedType("Result", types)) == Ok("result<" + Join(", ", rs) + ">")
  {
    var args := TypeArgs(types);
    assert forall i :: 0 <= i < |args| ==> ResolveArg(args[i]) == ResolveType(types[i]);
    rs := ResolveArgs(args).value;
    var seg := PathSegment("Result", AngleBracketed(args));
    assert NamedType("Result", types) == PathType(false, [seg]);
    assert ResolveType(PathType(false, [seg])) == ResolveSegment(seg);
  }

  /** The first argument of `Result<..>` that fails decides the failure, whatever follows it. */
  lemma ResolveResultFails(types: seq<Type>, k: nat)
    requires k < |types| && ResolveType(types[k]).Err?
    requires forall i :: 0 <= i < k ==> ResolveType(types[i]).Ok?
    ensures ResolveType(NamedType("Result", types)) == ResolveType(types[k])
  {
    var args := TypeArgs(types);
    assert forall i :: 0 <= i < |args| ==> ResolveArg(args[i]) == ResolveType(types[i]);
    assert !ResolveArg(args[k]).Ok?;
    var r := ResolveArgs(args);
    var j :| 0 <= j < |args| && ResolveArg(args[j]) == Err(r.error) && forall i :: 0 <= i < j ==> ResolveArg(args[i]).Ok?;
    assert j == k;
    var seg := PathSegment("Result", AngleBracketed(args));
    assert NamedType("Result", types) == PathType(false, [seg]);
    assert ResolveType(PathType(false, [seg])) == ResolveSegment(seg);
  }

  /** `Result<A, B>` resolves to `result<a, b>`, in that order. */
  lemma ResolveResultPair(sa: Type, sb: Type, ra: string, rb: string)
    requires ResolveType(sa) == Ok(ra) && ResolveType(sb) == Ok(rb)
    ensures ResolveType(NamedType("Result", [sa, sb])) == Ok("result<" + ra + ", " + rb + ">")
  {
    var rs := ResolveResult([sa, sb]);
    assert rs == [ra, rb];
    JoinPair(", ", ra, rb);
    assert "result<" + (ra + ", " + rb) + ">" == "result<" + ra + ", " + rb + ">";
  }

  /**
   * A tuple whose elements all resolve: `tuple<` and their texts, in order, joined by `, `, then
   * `>`; but nothing at all when the joined texts are empty, which happens exactly for `()` and
   * for a one-element tuple whose element resolves to nothing.
   */
  lemma ResolveTuple(types: seq<Type>) returns (rs: seq<string>)
    requires forall i :: 0 <= i < |types| ==> ResolveType(types[i]).Ok?
    ensures |rs| == |types| && forall i :: 0 <= i < |types| ==> ResolveType(types[i]) == Ok(rs[i])
    ensures ResolveType(TupleType(types)) == Ok("") <==> types == [] || (|types| == 1 && rs[0] == [])
    ensures ResolveType(TupleType(types)) != Ok("") ==> ResolveType(TupleType(types)) == Ok("tuple<" + Join(", ", rs) + ">")
  {
    rs := ResolveTypes(types).value;
    JoinEmpty(", ", rs);
  }

  /** The first element of a tuple that fails decides the failure, whatever follows it. */
  lemma ResolveTupleFails(types: seq<Type>, k: nat)
    requires k < |types| && ResolveType(types[k]).Err?
    requires forall i :: 0 <= i < k ==> ResolveType(types[i]).Ok?
    ensures ResolveType(TupleType(types)) == ResolveType(types[k])
  {
    var r := ResolveTypes(types);
    var j :| 0 <= j < |types| && ResolveType(types[j]) == Err(r.error) && forall i :: 0 <= i < j ==> ResolveType(types[i]).Ok?;
    assert j == k;
  }

  /** A slice `[T]` resolves exactly as `Vec<T>` does: `list<t>`, or the element's failure. */
  lemma ResolveSlice(t: Type)
    ensures ResolveType(SliceType(t)) == ResolveType(NamedType("Vec", [t]))
    ensures ResolveType(t).Ok? ==> ResolveType(SliceType(t)) == Ok("list<" + ResolveType(t).value + ">")
    ensures ResolveType(t).Err? ==> ResolveType(SliceType(t)) == ResolveType(t)
  {
    var seg := PathSegment("Vec", AngleBracketed([TypeArg(t)]));
    assert TypeArgs([t]) == [TypeArg(t)];
    assert NamedType("Vec", [t]) == PathType(false, [seg]);
    assert FirstTypeArg([TypeArg(t)]) == ResolveType(t);
  }

  /**
   * Every other type resolves to nothing, without failing: references, pointers, arrays, function
   * types, and also a parenthesised or invisible-group type, whatever it contains.
   */
  lemma ResolveOther(t: Type)
    requires t.OtherType? || t.GroupType? || t.ParenType?
    ensures ResolveType(t) == Ok("")
  {
  }

  /** `Option<T>` resolves to `option<t>` and `Vec<T>` to `list<t>`. */
  lemma ResolveWrapped(s: Type, r: string)
    requires ResolveType(s) == Ok(r)
    ensures ResolveType(NamedType("Option", [s])) == Ok("option<" + r + ">")
    ensures ResolveType(NamedType("Vec", [s])) == Ok("list<" + r + ">")
  {
    assert TypeArgs([s]) == [TypeArg(s)];
    assert ResolveArg(TypeArg(s)) == Ok(r);
    assert FirstTypeArg([TypeArg(s)]) == Ok(r);
    var option, vec := PathSegment("Option", AngleBracketed([TypeArg(s)])), PathSegment("Vec", AngleBracketed([TypeArg(s)]));
    assert NamedType("Option", [s]) == PathType(false, [option]);
    assert NamedType("Vec", [s]) == PathType(false, [vec]);
    assert ResolveSegment(option).value == "option<" + r + ">";
    assert ResolveSegment(vec).value == "list<" + r + ">";
  }

  /**
   * The two strategies agree: for a plain type, the generator's `resolve_type` writes exactly what
   * the serializer's `wit_ref` writes for the table's description of that type.
   */
  lemma {:induction false} StrategiesAgree(trim: bool, t: RustType)
    requires Plain(t)
    ensures MetaOf(t).Some?
    ensures ResolveType(SyntaxOf(t)) == Ok(RefText(trim, MetaOf(t).value))
  {
    match t
    case Named(n) =>
      ConvertMatchesPrimitives(n);
      assert ResolveType(SyntaxOf(t)) == ConvertRustType(n);
    case ResultOf(a, b) =>
      StrategiesAgree(trim, a);
      StrategiesAgree(trim, b);
      ResolveResultPair(SyntaxOf(a), SyntaxOf(b), RefText(trim, MetaOf(a).value), RefText(trim, MetaOf(b).value));
    case OptionOf(a) =>
      StrategiesAgree(trim, a);
      ResolveWrapped(SyntaxOf(a), RefText(trim, MetaOf(a).value));
    case VecOf(a) =>
      StrategiesAgree(trim, a);
      ResolveWrapped(SyntaxOf(a), RefText(trim, MetaOf(a).value));
  }

  /** A plain type is described by the table, and its reference text is never empty. */
  lemma PlainTextNonEmpty(trim: bool, t: RustType)
    requires Plain(t)
    ensures MetaOf(t).Some? && RefText(trim, MetaOf(t).value) != []
  {
    StrategiesAgree(trim, t);
    match MetaOf(t).value
    case Primitive(p) =>
      assert |PrimitiveWit(p)| > 0;
    case _ =>
  }

  /**
   * The items of a tuple of plain types: all described by the table, all resolved by the
   * generator, each to the serializer's reference text of its description, the last one non-empty.
   */
  lemma PlainItems(trim: bool, items: seq<RustType>) returns (ms: seq<WitMeta>, rs: seq<string>)
    requires items != [] && forall i :: 0 <= i < |items| ==> Plain(items[i])
    ensures MetasOf(items) == Some(ms)
    ensures |rs| == |items| && forall i :: 0 <= i < |items| ==> ResolveType(SyntaxesOf(items)[i]) == Ok(rs[i])
    ensures rs == RefTexts(trim, ms) && rs[|rs| - 1] != []
  {
    forall i | 0 <= i < |items|
      ensures Supported(items[i]) && MetaOf(items[i]).Some?
      ensures ResolveType(SyntaxesOf(items)[i]) == Ok(RefText(trim, MetaOf(items[i]).value))
      ensures RefText(trim, MetaOf(items[i]).value) != []
    {
      StrategiesAgree(trim, items[i]);
      MetaOfSupported(items[i]);
      PlainTextNonEmpty(trim, items[i]);
    }
    MetasOfSupported(items);
    MetasOfPointwise(items);
    ms := MetasOf(items).value;
    rs := RefTexts(trim, ms);
  }

  /**
   * Unlike `wit_ref`, `resolve_type` closes a tuple: for a non-empty tuple of plain types the
   * generator writes the serializer's text of the tuple followed by the missing `>`.
   */
  lemma TupleClosed(trim: bool, items: seq<RustType>)
    requires items != [] && forall i :: 0 <= i < |items| ==> Plain(items[i])
    ensures MetaOf(TupleOf(items)).Some?
    ensures ResolveType(SyntaxOf(TupleOf(items))) == Ok(RefText(trim, MetaOf(TupleOf(items)).value) + ">")
  {
    var types := SyntaxesOf(items);
    var ms, rs := PlainItems(trim, items);
    assert SyntaxOf(TupleOf(items)) == TupleType(types);
    assert MetaOf(TupleOf(items)) == Some(Tuple(ms));
    var resolved := ResolveTuple(types);
    assert resolved == rs;
    assert !(|types| == 1 && resolved[0] == []);
    assert ResolveType(TupleType(types)) == Ok("tuple<" + Join(", ", rs) + ">");
    WitTextProps.TupleJoin(trim, ms);
    assert RefText(trim, Tuple(ms)) == "tuple<" + Join(", ", rs);
  }

  /** `()` resolves to nothing, and so does a one-element tuple of `()`. */
  lemma EmptyTuples()
    ensures ResolveType(TupleType([])) == Ok("")
    ensures ResolveType(TupleType([TupleType([])])) == Ok("")
  {
    var rs := ResolveTuple([]);
    var rs1 := ResolveTuple([TupleType([])]);
  }

  // ---------------------------------------------------------------------------------------------
  // Items
  // ---------------------------------------------------------------------------------------------

  /** Collecting two lists that are pointwise alike gives the same result, failures included. */
  lemma {:induction false} CollectAllCongruent<T, U>(f: T -> Result<string, GenError>, xs: seq<T>,
                                                     g: U -> Result<string, GenError>, ys: seq<U>)
    requires |xs| == |ys|
    requires forall i :: 0 <= i < |xs| ==> f(xs[i]) == g(ys[i])
    ensures CollectAll(f, xs) == CollectAll(g, ys)
  {
    if xs != [] {
      assert f(xs[0]) == g(ys[0]);
      forall i | 0 <= i < |xs[1..]|
        ensures f(xs[1..][i]) == g(ys[1..][i])
      {
        assert xs[1..][i] == xs[i + 1] && ys[1..][i] == ys[i + 1];
      }
      CollectAllCongruent(f, xs[1..], g, ys[1..]);
    }
  }

  /** `Option` and `Result` structs are refused: their kebab names are WIT keywords. */
  lemma ReservedStructs(fields: Fields)
    ensures StructText("Option", fields) == Err(ReservedName("option"))
    ensures StructText("Result", fields) == Err(ReservedName("result"))
  {
    ReservedTitles();
  }

  /** The kebab titles of `Option` and `Result`. */
  lemma ReservedTitles()
    ensures PascalToKebab("Option") == Ok("option")
    ensures PascalToKebab("Result") == Ok("result")
  {
    assert "Option"[1..] == "ption";
    PascalRestLower("ption");
    assert PascalToKebab("Option").value == "option";
    assert "Result"[1..] == "esult";
    PascalRestLower("esult");
    assert PascalToKebab("Result").value == "result";
  }

  lemma JoinNonEmpty(sep: string, xs: seq<string>)
    requires sep != [] && xs != [] && xs[0] != []
    ensures Join(sep, xs) != []
  {
    if |xs| > 1 {
      assert |Join(sep, xs)| >= |sep|;
    }
  }

  /**
   * A struct without fields is written on one line, `    record <title> {}`; a struct with fields
   * opens on a new line and lists them, each followed by a comma.
   */
  lemma StructLayout(ident: string, fields: Fields)
    requires StructText(ident, fields).Ok?
    ensures var title := PascalToKebab(ident).value;
      var t := StructText(ident, fields).value;
      && (fields.List() == [] ==> t == "    record " + title + " {}")
      && (fields.List() != [] ==> t[..12] == "\n    record " && t[|t| - 7..] == ",\n    }")
  {
    var lines := CollectAll(FieldLine, fields.List()).value;
    if fields.List() != [] {
      var name := fields.List()[0].ident.value;
      assert lines[0] == DashedLower(name) + ": " + ResolveType(fields.List()[0].ty).value;
      JoinNonEmpty(", \n\t\t", lines);
    }
  }

  /** Field names of an enum case are dropped: a case with named fields reads like a tuple case. */
  lemma NamedCasesFlattened(ident: string, named: seq<Field>, unnamed: seq<Field>)
    requires |named| == |unnamed|
    requires forall i :: 0 <= i < |named| ==> named[i].ty == unnamed[i].ty
    ensures EnumCaseText(EnumVariant(ident, NamedFields(named))) == EnumCaseText(EnumVariant(ident, UnnamedFields(unnamed)))
  {
    CollectAllCongruent(FieldType, named, FieldType, unnamed);
  }

  /** A trait method returning `()` is written like one with no return type: without `->`. */
  lemma UnitReturnOmitsArrow(sig: Signature)
    requires sig.output == Some(TupleType([]))
    ensures TraitItemText(TraitFn(sig)) == TraitItemText(TraitFn(sig.(output := None)))
  {
  }

  /** Generation fails exactly when the module has no body or one of its items fails. */
  lemma WitFileFailure(m: ItemMod)
    ensures WitFile(m).Err? <==> m.content.None? || exists i :: 0 <= i < |m.content.value| && ItemText(m.content.value[i]).Err?
    ensures m.content.Some? && WitFile(m).Err? ==>
              exists k :: 0 <= k < |m.content.value| && ItemText(m.content.value[k]) == Err(WitFile(m).error)
                       && forall i :: 0 <= i < k ==> ItemText(m.content.value[i]).Ok?
  {
  }

  /** Trimming removes nothing: the document starts with `package` and ends with `}`. */
  lemma WitFileText(m: ItemMod)
    requires WitFile(m).Ok?
    ensures var texts := CollectAll(ItemText, m.content.value).value;
      WitFile(m).value == Document(PackageName(m.ident), texts)
  {
    var d := Document(PackageName(m.ident), CollectAll(ItemText, m.content.value).value);
    assert d[0] == 'p';
    assert d[|d| - 1] == '}';
  }

  /**
   * `str::trim` leaves the part of `s` between its leading and trailing whitespace: a slice that
   * starts at `k`, neither starts nor ends with whitespace, and has only whitespace around it.
   */
  lemma {:induction false} TrimWhitespaceSlice(s: string) returns (k: nat)
    ensures var r := TrimWhitespace(s);
      && k + |r| <= |s| && r == s[k..k + |r|]
      && (forall i :: 0 <= i < k ==> IsWhitespace(s[i]))
      && (forall i :: k + |r| <= i < |s| ==> IsWhitespace(s[i]))
      && (r == [] || (!IsWhitespace(r[0]) && !IsWhitespace(r[|r| - 1])))
    decreases |s|
  {
    var r := TrimWhitespace(s);
    if s != [] && IsWhitespace(s[0]) {
      var t := s[1..];
      var j := TrimWhitespaceSlice(t);
      k := j + 1;
      assert r == t[j..j + |r|];
      forall i | 0 <= i < k
        ensures IsWhitespace(s[i])
      {
        if i > 0 {
          assert s[i] == t[i - 1];
        }
      }
      forall i | k + |r| <= i < |s|
        ensures IsWhitespace(s[i])
      {
        assert s[i] == t[i - 1];
      }
    } else if s != [] && IsWhitespace(s[|s| - 1]) {
      var t := s[..|s| - 1];
      k := TrimWhitespaceSlice(t);
      assert r == t[k..k + |r|];
      forall i | k + |r| <= i < |s|
        ensures IsWhitespace(s[i])
      {
        if i < |t| {
          assert s[i] == t[i];
        }
      }
    } else {
      k := 0;
      assert r == s[0..|s|];
    }
  }
}
