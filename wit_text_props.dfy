/**
 * Properties of the text the WIT serializers write: what kebab-casing does to a name, what an
 * interleaved list consists of, and how type references nest.
 */
module WitTextProps {
  import opened Ascii
  import opened WitModel
  import opened WitText

  /** An ASCII Rust identifier: letters, digits and underscores. */
  predicate IsIdent(s: string)
  {
    forall i :: 0 <= i < |s| ==> IsUpper(s[i]) || IsLower(s[i]) || IsDigit(s[i]) || s[i] == '_'
  }

  /** Lowercase kebab text: ASCII, with no uppercase letter and no underscore. */
  predicate IsKebabText(s: string)
  {
    forall i :: 0 <= i < |s| ==> IsAsciiChar(s[i]) && !IsUpper(s[i]) && s[i] != '_'
  }

  // ---------------------------------------------------------------------------------------------
  // Trimming
  // ---------------------------------------------------------------------------------------------

  /**
   * `TrimUnderscores(s)` is the part of `s` between its leading and its trailing run of
   * underscores: a contiguous slice that neither starts nor ends with `_`, everything around it `_`.
   */
  lemma TrimUnderscoresSlice(s: string)
    ensures var r := TrimUnderscores(s);
      var k := |s| - |TrimStartUnderscores(s)|;
      && 0 <= k <= k + |r| <= |s|
      && r == s[k..k + |r|]
      && (forall i :: 0 <= i < k ==> s[i] == '_')
      && (forall i :: k + |r| <= i < |s| ==> s[i] == '_')
      && (r == [] || (r[0] != '_' && r[|r| - 1] != '_'))
  {
    var t := TrimStartUnderscores(s);
    TrimStartUnderscoresSpec(s);
    TrimEndUnderscoresSpec(t);
    TrimUnderscoresSteps(s);
    var r := TrimUnderscores(s);
    var k := |s| - |t|;
    assert r == t[..|r|];
    assert r == s[k..k + |r|];
    forall i | k + |r| <= i < |s|
      ensures s[i] == '_'
    {
      assert s[i] == t[i - k];
    }
  }

  lemma TrimmedIdent(s: string)
    requires IsIdent(s)
    ensures IsIdent(TrimUnderscores(s))
  {
    TrimUnderscoresSlice(s);
    var r := TrimUnderscores(s);
    var k := |s| - |TrimStartUnderscores(s)|;
    forall i | 0 <= i < |r|
      ensures IsUpper(r[i]) || IsLower(r[i]) || IsDigit(r[i]) || r[i] == '_'
    {
      assert r[i] == s[k + i];
    }
  }

  lemma TrimmedAscii(s: string)
    requires IsAscii(s)
    ensures IsAscii(TrimUnderscores(s))
  {
    TrimUnderscoresSlice(s);
    var r := TrimUnderscores(s);
    var k := |s| - |TrimStartUnderscores(s)|;
    forall i | 0 <= i < |r|
      ensures IsAsciiChar(r[i])
    {
      assert r[i] == s[k + i];
    }
  }

  // ---------------------------------------------------------------------------------------------
  // Kebab-casing
  // ---------------------------------------------------------------------------------------------

  lemma KebabTextAppend(a: string, b: string)
    requires IsKebabText(a) && IsKebabText(b)
    ensures IsKebabText(a + b)
  {
    forall i | 0 <= i < |a + b|
      ensures IsAsciiChar((a + b)[i]) && !IsUpper((a + b)[i]) && (a + b)[i] != '_'
    {
      if i >= |a| {
        assert (a + b)[i] == b[i - |a|];
      }
    }
  }

  lemma {:induction false} KebabPrefixIsKebab(s: string, n: nat)
    requires IsAscii(s) && n <= |s|
    ensures IsKebabText(KebabPrefix(s, n))
  {
    if n > 0 {
      KebabPrefixIsKebab(s, n - 1);
      KebabTextAppend(KebabPrefix(s, n - 1), KebabPiece(s, n - 1));
    }
  }

  /** On ASCII input `write_kebab` writes no uppercase letter and no underscore. */
  lemma KebabIsKebabText(trim: bool, s: string)
    requires IsAscii(s)
    ensures IsKebabText(Kebab(trim, s))
  {
    if trim {
      TrimmedAscii(s);
    }
    var t := if trim then TrimUnderscores(s) else s;
    KebabPrefixIsKebab(t, |t|);
  }

  lemma {:induction false} KebabPrefixIdentity(s: string, n: nat)
    requires IsKebabText(s) && n <= |s|
    ensures KebabPrefix(s, n) == s[..n]
  {
    if n > 0 {
      KebabPrefixIdentity(s, n - 1);
      assert KebabPiece(s, n - 1) == [s[n - 1]];
      assert s[..n] == s[..n - 1] + [s[n - 1]];
    }
  }

  /** A name already in lowercase kebab form is written unchanged. */
  lemma KebabIdentity(trim: bool, s: string)
    requires IsKebabText(s)
    ensures Kebab(trim, s) == s
  {
    if trim {
      assert TrimUnderscores(s) == s;
    }
    KebabPrefixIdentity(s, |s|);
  }

  /** Kebab-casing an ASCII name twice, with or without trimming, changes nothing the second time. */
  lemma KebabIdempotent(trim: bool, again: bool, s: string)
    requires IsAscii(s)
    ensures Kebab(again, Kebab(trim, s)) == Kebab(trim, s)
  {
    KebabIsKebabText(trim, s);
    KebabIdentity(again, Kebab(trim, s));
  }

  lemma {:induction false} KebabPrefixLength(s: string, n: nat)
    requires n <= |s|
    ensures |KebabPrefix(s, n)| == n + WordBreaks(s[..n])
  {
    if n > 0 {
      KebabPrefixLength(s, n - 1);
      if n > 1 {
        assert s[..n][..n - 1] == s[..n - 1];
      }
    }
  }

  /** The conversion adds exactly one character per word break and keeps every other one. */
  lemma KebabLength(s: string)
    ensures |KebabCore(s)| == |s| + WordBreaks(s)
  {
    KebabPrefixLength(s, |s|);
    assert s[..|s|] == s;
  }

  /** Extending a prefix of `s` by one character. */
  lemma CountStep(c: char, s: string, n: nat)
    requires 0 < n <= |s|
    ensures Count(c, s[..n]) == Count(c, s[..n - 1]) + (if s[n - 1] == c then 1 else 0)
  {
    assert s[..n][..n - 1] == s[..n - 1];
  }

  lemma WordBreaksStep(s: string, n: nat)
    requires 0 < n <= |s|
    ensures WordBreaks(s[..n]) == WordBreaks(s[..n - 1]) + (if n > 1 && IsUpper(s[n - 1]) && !IsUpper(s[n - 2]) then 1 else 0)
  {
    assert s[..n][..n - 1] == s[..n - 1];
  }

  lemma CountSingle(c: char, d: char)
    ensures Count(c, [d]) == if c == d then 1 else 0
  {
    assert [d][..0] == [];
  }

  /** The hyphens written for the character at index `i`. */
  lemma PieceHyphens(s: string, i: nat)
    requires i < |s| && IsAsciiChar(s[i])
    ensures Count('-', KebabPiece(s, i))
      == (if s[i] == '-' || s[i] == '_' then 1 else 0) + (if i > 0 && IsUpper(s[i]) && !IsUpper(s[i - 1]) then 1 else 0)
  {
    var d := s[i];
    if IsUpper(d) {
      CountSingle('-', ToLower(d));
      if i > 0 && !IsUpper(s[i - 1]) {
        CountAppend('-', "-", [ToLower(d)]);
        CountSingle('-', '-');
      } else {
        assert KebabPiece(s, i) == [ToLower(d)];
      }
    } else if d == '_' {
      CountSingle('-', '-');
    } else {
      CountSingle('-', LowByte(d));
    }
  }

  lemma {:induction false} KebabPrefixHyphens(s: string, n: nat)
    requires IsAscii(s) && n <= |s|
    ensures Count('-', KebabPrefix(s, n)) == Count('-', s[..n]) + Count('_', s[..n]) + WordBreaks(s[..n])
  {
    if n > 0 {
      var prev, piece := KebabPrefix(s, n - 1), KebabPiece(s, n - 1);
      assert KebabPrefix(s, n) == prev + piece;
      KebabPrefixHyphens(s, n - 1);
      CountStep('-', s, n);
      CountStep('_', s, n);
      WordBreaksStep(s, n);
      CountAppend('-', prev, piece);
      PieceHyphens(s, n - 1);
    }
  }

  /**
   * Every hyphen `write_kebab` writes is a hyphen of the name, an underscore of the name, or a
   * word break before an uppercase letter that follows a non-uppercase one.
   */
  lemma KebabHyphens(s: string)
    requires IsAscii(s)
    ensures Count('-', KebabCore(s)) == Count('-', s) + Count('_', s) + WordBreaks(s)
  {
    KebabPrefixHyphens(s, |s|);
    assert s[..|s|] == s;
  }

  /** The occurrences of a non-letter `c` other than `-` and `_` written for the character at `i`. */
  lemma PieceKeeps(c: char, s: string, i: nat)
    requires i < |s| && IsAsciiChar(s[i])
    requires c != '-' && c != '_' && !IsUpper(c) && !IsLower(c)
    ensures Count(c, KebabPiece(s, i)) == if s[i] == c then 1 else 0
  {
    var d := s[i];
    if IsUpper(d) {
      CountSingle(c, ToLower(d));
      if i > 0 && !IsUpper(s[i - 1]) {
        CountAppend(c, "-", [ToLower(d)]);
        CountSingle(c, '-');
      } else {
        assert KebabPiece(s, i) == [ToLower(d)];
      }
    } else if d == '_' {
      CountSingle(c, '-');
    } else {
      CountSingle(c, LowByte(d));
    }
  }

  lemma {:induction false} KebabPrefixKeeps(c: char, s: string, n: nat)
    requires IsAscii(s) && n <= |s|
    requires c != '-' && c != '_' && !IsUpper(c) && !IsLower(c)
    ensures Count(c, KebabPrefix(s, n)) == Count(c, s[..n])
  {
    if n > 0 {
      var prev, piece := KebabPrefix(s, n - 1), KebabPiece(s, n - 1);
      assert KebabPrefix(s, n) == prev + piece;
      KebabPrefixKeeps(c, s, n - 1);
      CountStep(c, s, n);
      CountAppend(c, prev, piece);
      PieceKeeps(c, s, n - 1);
    }
  }

  /** A character that is neither a letter, `-` nor `_` occurs as often in the output as in the name. */
  lemma KebabKeeps(c: char, s: string)
    requires IsAscii(s)
    requires c != '-' && c != '_' && !IsUpper(c) && !IsLower(c)
    ensures Count(c, KebabCore(s)) == Count(c, s)
  {
    KebabPrefixKeeps(c, s, |s|);
    assert s[..|s|] == s;
  }

  // ---------------------------------------------------------------------------------------------
  // Interleaving
  // ---------------------------------------------------------------------------------------------

  /** Every item with the prefix in front of it. */
  function Prefixed(prefix: string, xs: seq<string>): (r: seq<string>)
    ensures |r| == |xs|
  {
    seq(|xs|, i requires 0 <= i < |xs| => prefix + xs[i])
  }

  lemma {:induction false} InterleavedPrefixAgree(prefix: string, separator: string, xs: seq<string>, ys: seq<string>, n: nat)
    requires n <= |xs| && n <= |ys| && xs[..n] == ys[..n]
    ensures InterleavedPrefix(prefix, separator, xs, n) == InterleavedPrefix(prefix, separator, ys, n)
  {
    if n > 0 {
      assert xs[n - 1] == xs[..n][n - 1] == ys[..n][n - 1] == ys[n - 1];
      assert xs[..n - 1] == xs[..n][..n - 1] == ys[..n][..n - 1] == ys[..n - 1];
      InterleavedPrefixAgree(prefix, separator, xs, ys, n - 1);
    }
  }

  lemma InterleavedInit(prefix: string, separator: string, xs: seq<string>)
    requires |xs| > 0
    ensures Interleaved(prefix, separator, xs[..|xs| - 1]) == InterleavedPrefix(prefix, separator, xs, |xs| - 1)
  {
    InterleavedPrefixAgree(prefix, separator, xs[..|xs| - 1], xs, |xs| - 1);
  }

  /**
   * `interleave` writes what joining the prefixed items with the separator gives: the prefix
   * before every item, the separator only between two consecutive items.
   */
  lemma {:induction false} InterleavedIsJoin(prefix: string, separator: string, xs: seq<string>)
    ensures Interleaved(prefix, separator, xs) == Join(separator, Prefixed(prefix, xs))
    decreases |xs|
  {
    if |xs| > 1 {
      var init := xs[..|xs| - 1];
      InterleavedIsJoin(prefix, separator, init);
      InterleavedInit(prefix, separator, xs);
      assert Prefixed(prefix, xs)[..|xs| - 1] == Prefixed(prefix, init);
    }
  }

  /** Number of occurrences of `c` in all of `xs`. */
  function CountIn(c: char, xs: seq<string>): nat
  {
    if xs == [] then 0 else CountIn(c, xs[..|xs| - 1]) + Count(c, xs[|xs| - 1])
  }

  lemma {:induction false} InterleavedPrefixLength(prefix: string, separator: string, xs: seq<string>, n: nat)
    requires n <= |xs|
    ensures |InterleavedPrefix(prefix, separator, xs, n)|
      == |Concat(xs[..n])| + n * |prefix| + (if n == 0 then 0 else (n - 1) * |separator|)
  {
    if n > 0 {
      InterleavedPrefixLength(prefix, separator, xs, n - 1);
      assert xs[..n][..n - 1] == xs[..n - 1];
      assert n * |prefix| == (n - 1) * |prefix| + |prefix|;
      if n > 1 {
        assert (n - 1) * |separator| == (n - 2) * |separator| + |separator|;
      }
    }
  }

  /** The items, one prefix per item and one separator fewer than there are items. */
  lemma InterleavedLength(prefix: string, separator: string, xs: seq<string>)
    ensures |Interleaved(prefix, separator, xs)|
      == |Concat(xs)| + |xs| * |prefix| + (if xs == [] then 0 else (|xs| - 1) * |separator|)
  {
    InterleavedPrefixLength(prefix, separator, xs, |xs|);
    assert xs[..|xs|] == xs;
  }

  lemma {:induction false} InterleavedPrefixCount(c: char, prefix: string, separator: string, xs: seq<string>, n: nat)
    requires n <= |xs|
    requires Count(c, prefix) == 0 && Count(c, separator) == 0
    ensures Count(c, InterleavedPrefix(prefix, separator, xs, n)) == CountIn(c, xs[..n])
  {
    if n > 0 {
      InterleavedPrefixCount(c, prefix, separator, xs, n - 1);
      assert xs[..n][..n - 1] == xs[..n - 1];
      var before := InterleavedPrefix(prefix, separator, xs, n - 1);
      if n == 1 {
        CountAppend(c, prefix, xs[0]);
        assert CountIn(c, xs[..0]) == 0;
      } else {
        CountAppend(c, before, separator);
        CountAppend(c, before + separator, prefix);
        CountAppend(c, before + separator + prefix, xs[n - 1]);
      }
    }
  }

  /** When neither prefix nor separator contains `c`, the interleaved text has exactly the items' `c`s. */
  lemma InterleavedCount(c: char, prefix: string, separator: string, xs: seq<string>)
    requires Count(c, prefix) == 0 && Count(c, separator) == 0
    ensures Count(c, Interleaved(prefix, separator, xs)) == CountIn(c, xs)
  {
    InterleavedPrefixCount(c, prefix, separator, xs, |xs|);
    assert xs[..|xs|] == xs;
  }

  // ---------------------------------------------------------------------------------------------
  // Type references
  // ---------------------------------------------------------------------------------------------

  /** Every named shape referred to in `m` has an ASCII identifier as its name. */
  predicate IdentNames(m: WitMeta)
  {
    match m
    case Record(r) => IsIdent(r.name)
    case Variant(v) => IsIdent(v.name)
    case Enum(e) => IsIdent(e.name)
    case FlagMeta(f) => IsIdent(f.name)
    case Result(ok, err) => IdentNames(ok) && IdentNames(err)
    case Option(x) => IdentNames(x)
    case List(x) => IdentNames(x)
    case Tuple(items) => forall i :: 0 <= i < |items| ==> IdentNames(items[i])
    case Primitive(_) => true
  }

  /** Number of tuple references in `m`, at any depth. */
  function Tuples(m: WitMeta): nat
    decreases m, 1
  {
    match m
    case Result(ok, err) => Tuples(ok) + Tuples(err)
    case Option(x) => Tuples(x)
    case List(x) => Tuples(x)
    case Tuple(items) => 1 + TuplesIn(items)
    case _ => 0
  }

  function TuplesIn(ms: seq<WitMeta>): nat
    decreases ms, 0
  {
    if ms == [] then 0 else TuplesIn(ms[..|ms| - 1]) + Tuples(ms[|ms| - 1])
  }

  lemma IdentHasNoBrackets(s: string)
    requires IsIdent(s)
    ensures Count('<', s) == 0 && Count('>', s) == 0
  {
    CountZero('<', s);
    CountZero('>', s);
  }

  lemma KebabNoBrackets(trim: bool, s: string)
    requires IsIdent(s)
    ensures Count('<', Kebab(trim, s)) == 0 && Count('>', Kebab(trim, s)) == 0
  {
    var t := if trim then TrimUnderscores(s) else s;
    if trim {
      TrimmedIdent(s);
    }
    assert IsAscii(t);
    IdentHasNoBrackets(t);
    KebabKeeps('<', t);
    KebabKeeps('>', t);
  }

  /** Counts of the literal pieces `wit_ref` writes around nested references. */
  /** The brackets in a literal `w + "<"` where `w` has none. */
  lemma OpeningBrackets(w: string, s: string)
    requires s == w + "<"
    requires forall i :: 0 <= i < |w| ==> w[i] != '<' && w[i] != '>'
    ensures Count('<', s) == 1 && Count('>', s) == 0
  {
    CountZero('<', w);
    CountZero('>', w);
    CountSingle('<', '<');
    CountSingle('>', '<');
    CountAppend('<', w, "<");
    CountAppend('>', w, "<");
  }

  /** Counts of the literal pieces `wit_ref` writes around nested references. */
  lemma LiteralBrackets()
    ensures Count('<', "result<") == 1 && Count('>', "result<") == 0
    ensures Count('<', "option<") == 1 && Count('>', "option<") == 0
    ensures Count('<', "list<") == 1 && Count('>', "list<") == 0
    ensures Count('<', "tuple<") == 1 && Count('>', "tuple<") == 0
    ensures Count('<', ", ") == 0 && Count('>', ", ") == 0
    ensures Count('<', ">") == 0 && Count('>', ">") == 1
  {
    OpeningBrackets("result", "result<");
    OpeningBrackets("option", "option<");
    OpeningBrackets("list", "list<");
    OpeningBrackets("tuple", "tuple<");
    CountZero('<', ", ");
    CountZero('>', ", ");
    CountSingle('<', '>');
    CountSingle('>', '>');
  }

  lemma PrimitiveNoBrackets(p: PrimitiveMeta)
    ensures Count('<', PrimitiveWit(p)) == 0 && Count('>', PrimitiveWit(p)) == 0
  {
    CountZero('<', PrimitiveWit(p));
    CountZero('>', PrimitiveWit(p));
  }

  /**
   * `wit_ref` closes every `<` it opens except the one of each tuple: in the text of `m` there are
   * exactly `Tuples(m)` more `<` than `>`, so any reference containing a tuple is unbalanced.
   */
  lemma {:induction false} RefTextBrackets(trim: bool, m: WitMeta)
    requires IdentNames(m)
    ensures Count('<', RefText(trim, m)) == Count('>', RefText(trim, m)) + Tuples(m)
    decreases m, 1
  {
    LiteralBrackets();
    match m
    case Record(r) => KebabNoBrackets(trim, r.name);
    case Variant(v) => KebabNoBrackets(trim, v.name);
    case Enum(e) => KebabNoBrackets(trim, e.name);
    case FlagMeta(f) => KebabNoBrackets(trim, f.name);
    case Primitive(p) => PrimitiveNoBrackets(p);
    case Result(ok, err) =>
      RefTextBrackets(trim, ok);
      RefTextBrackets(trim, err);
      WrappedCount('<', "result<", RefText(trim, ok), ", ", RefText(trim, err), ">");
      WrappedCount('>', "result<", RefText(trim, ok), ", ", RefText(trim, err), ">");
    case Option(x) =>
      RefTextBrackets(trim, x);
      EnclosedCount('<', "option<", RefText(trim, x), ">");
      EnclosedCount('>', "option<", RefText(trim, x), ">");
    case List(x) =>
      RefTextBrackets(trim, x);
      EnclosedCount('<', "list<", RefText(trim, x), ">");
      EnclosedCount('>', "list<", RefText(trim, x), ">");
    case Tuple(items) =>
      RefTextsBrackets(trim, items);
      InterleavedCount('<', "", ", ", RefTexts(trim, items));
      InterleavedCount('>', "", ", ", RefTexts(trim, items));
      CountAppend('<', "tuple<", Interleaved("", ", ", RefTexts(trim, items)));
      CountAppend('>', "tuple<", Interleaved("", ", ", RefTexts(trim, items)));
  }

  lemma {:induction false} RefTextsBrackets(trim: bool, ms: seq<WitMeta>)
    requires forall i :: 0 <= i < |ms| ==> IdentNames(ms[i])
    ensures CountIn('<', RefTexts(trim, ms)) == CountIn('>', RefTexts(trim, ms)) + TuplesIn(ms)
    decreases ms, 0
  {
    if ms != [] {
      var init := ms[..|ms| - 1];
      RefTextsBrackets(trim, init);
      RefTextBrackets(trim, ms[|ms| - 1]);
      var texts := RefTexts(trim, ms);
      assert texts[..|texts| - 1] == RefTexts(trim, init);
    }
  }

  /** Counting `c` in `a + x + b + y + z`. */
  lemma WrappedCount(c: char, a: string, x: string, b: string, y: string, z: string)
    ensures Count(c, a + x + b + y + z) == Count(c, a) + Count(c, x) + Count(c, b) + Count(c, y) + Count(c, z)
  {
    CountAppend(c, a, x);
    CountAppend(c, a + x, b);
    CountAppend(c, a + x + b, y);
    CountAppend(c, a + x + b + y, z);
  }

  /** Counting `c` in `a + x + z`. */
  lemma EnclosedCount(c: char, a: string, x: string, z: string)
    ensures Count(c, a + x + z) == Count(c, a) + Count(c, x) + Count(c, z)
  {
    CountAppend(c, a, x);
    CountAppend(c, a + x, z);
  }

  /**
   * Because a tuple is never closed, two different tuple shapes are written identically:
   * `(( i32 ,), i32)` and `((i32, i32),)` both become `tuple<tuple<s32, s32`.
   */
  lemma InterleavedPair(prefix: string, separator: string, x: string, y: string)
    ensures Interleaved(prefix, separator, [x]) == prefix + x
    ensures Interleaved(prefix, separator, [x, y]) == prefix + x + separator + prefix + y
  {
    assert InterleavedPrefix(prefix, separator, [x, y], 1) == prefix + x;
  }

  lemma RefTextsPair(trim: bool, m: WitMeta, n: WitMeta)
    ensures RefTexts(trim, [m]) == [RefText(trim, m)]
    ensures RefTexts(trim, [m, n]) == [RefText(trim, m), RefText(trim, n)]
  {
    assert [m, n][..1] == [m];
  }

  /**
   * Because a tuple's closing `>` is never written, `tuple<tuple<x>, y>` and `tuple<tuple<x, y>>`
   * are both written as `tuple<tuple<x, y`, whatever the item types `x` and `y`.
   */
  lemma TupleAmbiguity(trim: bool, x: WitMeta, y: WitMeta)
    ensures var a := Tuple([Tuple([x]), y]);
      var b := Tuple([Tuple([x, y])]);
      a != b && RefText(trim, a) == RefText(trim, b) == "tuple<tuple<" + RefText(trim, x) + ", " + RefText(trim, y)
  {
    var a, b := Tuple([Tuple([x]), y]), Tuple([Tuple([x, y])]);
    assert |a.items| != |b.items|;
    TupleTexts(trim, x, y);
    TupleTexts(trim, Tuple([x]), y);
    TupleTexts(trim, Tuple([x, y]), y);
    TupleRegroup(RefText(trim, x), RefText(trim, y));
  }

  /** The text of a one- and a two-item tuple. */
  lemma TupleTexts(trim: bool, x: WitMeta, y: WitMeta)
    ensures RefText(trim, Tuple([x])) == "tuple<" + RefText(trim, x)
    ensures RefText(trim, Tuple([x, y])) == "tuple<" + (RefText(trim, x) + ", " + RefText(trim, y))
  {
    var tx, ty := RefText(trim, x), RefText(trim, y);
    RefTextsPair(trim, x, y);
    InterleavedBare(", ", tx, ty);
    TupleText(trim, [x], tx);
    TupleText(trim, [x, y], tx + ", " + ty);
  }

  /** Without a prefix, one item is written as itself and two with the separator between them. */
  lemma InterleavedBare(separator: string, x: string, y: string)
    ensures Interleaved("", separator, [x]) == x
    ensures Interleaved("", separator, [x, y]) == x + separator + y
  {
    InterleavedPair("", separator, x, y);
    assert "" + x == x && "" + y == y;
    assert x + separator + "" == x + separator;
  }

  /** A tuple is written as `tuple<` and its items interleaved with `, `, and nothing after them. */
  lemma TupleText(trim: bool, items: seq<WitMeta>, inner: string)
    requires Interleaved("", ", ", RefTexts(trim, items)) == inner
    ensures RefText(trim, Tuple(items)) == "tuple<" + inner
  {
  }

  /**
   * A tuple is written as `tuple<` followed by the texts of its items, in order, joined by `, `,
   * with no closing `>`.
   */
  lemma TupleJoin(trim: bool, items: seq<WitMeta>)
    ensures RefText(trim, Tuple(items)) == "tuple<" + Join(", ", RefTexts(trim, items))
  {
    var xs := RefTexts(trim, items);
    InterleavedIsJoin("", ", ", xs);
    forall i | 0 <= i < |xs|
      ensures Prefixed("", xs)[i] == xs[i]
    {
      assert "" + xs[i] == xs[i];
    }
    assert Prefixed("", xs) == xs;
    TupleText(trim, items, Interleaved("", ", ", xs));
  }

  /** The two tuple texts of `TupleAmbiguity`, regrouped. */
  lemma TupleRegroup(tx: string, ty: string)
    ensures "tuple<" + (("tuple<" + tx) + ", " + ty) == "tuple<" + ("tuple<" + (tx + ", " + ty))
    ensures "tuple<" + (("tuple<" + tx) + ", " + ty) == "tuple<tuple<" + tx + ", " + ty
  {
    assert "tuple<" + "tuple<" == "tuple<tuple<";
  }

  // ---------------------------------------------------------------------------------------------
  // The interface document
  // ---------------------------------------------------------------------------------------------

  /** Every part of a flag-free list of exports is flag-free, and so is a concatenation of two. */
  lemma NoFlagsParts(es: seq<WitExport>, more: seq<WitExport>)
    ensures NoFlags(es + more) <==> NoFlags(es) && NoFlags(more)
  {
    if NoFlags(es + more) {
      forall i | 0 <= i < |more|
        ensures !more[i].FlagExport?
      {
        assert more[i] == (es + more)[|es| + i];
      }
      forall i | 0 <= i < |es|
        ensures !es[i].FlagExport?
      {
        assert es[i] == (es + more)[i];
      }
    }
  }

  /** One export more at the end: its text and a newline more. */
  lemma ExportsTextLast(level: nat, xs: seq<WitExport>, init: seq<WitExport>, last: WitExport)
    requires NoFlags(xs) && xs == init + [last]
    ensures NoFlags(init) && !last.FlagExport?
    ensures ExportsText(level, xs) == ExportsText(level, init) + ExportText(level, last) + "\n"
  {
    NoFlagsParts(init, [last]);
    assert [last][0] == last;
    assert xs[..|xs| - 1] == init;
  }

  /** The exports are written one after another and independently: the text of two lists is the two texts. */
  lemma {:induction false} ExportsTextConcat(level: nat, es: seq<WitExport>, more: seq<WitExport>)
    requires NoFlags(es) && NoFlags(more)
    ensures NoFlags(es + more)
    ensures ExportsText(level, es + more) == ExportsText(level, es) + ExportsText(level, more)
    decreases |more|
  {
    NoFlagsParts(es, more);
    if more == [] {
      assert es + more == es;
    } else {
      var init, last := more[..|more| - 1], more[|more| - 1];
      assert more == init + [last];
      NoFlagsParts(init, [last]);
      ExportsTextConcat(level, es, init);
      var all := es + more;
      assert all[..|all| - 1] == es + init;
      assert all[|all| - 1] == last;
      var t := ExportText(level, last);
      ExportsTextLast(level, all, es + init, last);
      ExportsTextLast(level, more, init, last);
      Append3(ExportsText(level, es), ExportsText(level, init), t, "\n");
    }
  }

  /**
   * The document holds the text of every export, in order, inside the interface block: the
   * exports before `e`, then `e`'s own text and newline, then the exports after it.
   */
  lemma InterfaceHoldsExports(interfaceName: string, worldName: string, es: seq<WitExport>, e: WitExport, more: seq<WitExport>)
    requires NoFlags(es) && !e.FlagExport? && NoFlags(more)
    ensures NoFlags(es + [e] + more)
    ensures InterfaceText(interfaceName, worldName, es + [e] + more)
      == "interface " + interfaceName + " {\n" + ExportsText(1, es) + ExportText(1, e) + "\n" + ExportsText(1, more)
         + "\n}\n\nworld " + worldName + " {\n   export " + interfaceName + ";\n}"
  {
    assert NoFlags([e]);
    NoFlagsParts(es, [e]);
    NoFlagsParts(es + [e], more);
    ExportsTextLast(1, es + [e], es, e);
    ExportsTextConcat(1, es + [e], more);
    Append4("interface " + interfaceName + " {\n", ExportsText(1, es), ExportText(1, e), "\n", ExportsText(1, more));
  }
}
