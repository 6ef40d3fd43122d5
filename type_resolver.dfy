/**
 * `datatype_to_type_length`: turns a type token such as `u16`, `str32`, `c4`,
 * `8` or `struct:Foo` into a category and a width in bytes.
 *
 * A token that starts with `struct:` is a nested record of width 0. Any other
 * token is split into its letters (the category code) and its digits (a
 * number). For the integer, float and length-prefixed string codes the number
 * is a bit width and the byte width is that number divided by 8; for fixed
 * characters (`c`) and raw data (`data` or no letters at all) the number is
 * already a byte count.
 */
module TypeResolver {
  import opened Wrappers
  import opened Errors

  datatype Category = Signed | Unsigned | Float | Chars | Str | Data | Struct

  const StructPrefix: string := "struct:"

  predicate IsDigit(c: char) {
    '0' <= c <= '9'
  }

  predicate IsLetter(c: char) {
    'a' <= c <= 'z' || 'A' <= c <= 'Z'
  }

  /** The digits of s, in order (`filter(str.isnumeric, s)`). */
  function Digits(s: string): (r: string)
    ensures forall i :: 0 <= i < |r| ==> IsDigit(r[i])
  {
    if s == [] then []
    else (if IsDigit(s[0]) then [s[0]] else []) + Digits(s[1..])
  }

  /** The letters of s, in order (`filter(str.isalpha, s)`). */
  function Letters(s: string): (r: string)
    ensures forall i :: 0 <= i < |r| ==> IsLetter(r[i])
  {
    if s == [] then []
    else (if IsLetter(s[0]) then [s[0]] else []) + Letters(s[1..])
  }

  function DigitValue(c: char): nat
    requires IsDigit(c)
  {
    c as int - '0' as int
  }

  /** `int(ds)` for a non-empty string of decimal digits. */
  function ParseNat(ds: string): nat
    requires forall i :: 0 <= i < |ds| ==> IsDigit(ds[i])
  {
    if ds == [] then 0 else 10 * ParseNat(ds[..|ds| - 1]) + DigitValue(ds[|ds| - 1])
  }

  /** The category a type code stands for; an empty code means raw data. */
  function CategoryOf(code: string): Option<Category> {
    if code == "s" then Some(Signed)
    else if code == "u" then Some(Unsigned)
    else if code == "f" then Some(Float)
    else if code == "c" then Some(Chars)
    else if code == "str" then Some(Str)
    else if code == "data" || code == "" then Some(Data)
    else None
  }

  /** `var[:7] == "struct:"` */
  predicate IsStructToken(token: string) {
    |token| >= |StructPrefix| && token[..|StructPrefix|] == StructPrefix
  }

  /** The template name of a struct token (`var[7:]`). */
  function StructName(token: string): string
    requires IsStructToken(token)
  {
    token[|StructPrefix|..]
  }

  /** Whether the number of a token of this category counts bytes rather than bits. */
  predicate CountsBytes(cat: Category) {
    cat == Chars || cat == Data
  }

  function TypeToLength(token: string): (r: Result<(Category, nat), Error>)
    ensures r.Ok? && r.value.0 == Struct ==> IsStructToken(token) && r.value.1 == 0
  {
    if IsStructToken(token) then Ok((Struct, 0))
    else
      var ds := Digits(token);
      if ds == [] then Err(InvalidLiteral)
      else
        match CategoryOf(Letters(token))
        case None => Err(UnknownVariableType)
        case Some(cat) =>
          var n := ParseNat(ds);
          Ok((cat, if CountsBytes(cat) then n else n / 8))
  }

  // ---------------------------------------------------------------------
  // Rendering tokens: the partner of the resolver.

  function DigitChar(d: nat): (c: char)
    requires d < 10
    ensures IsDigit(c) && DigitValue(c) == d
  {
    ('0' as int + d) as char
  }

  /** The decimal digits of n, without leading zeros. */
  function NatToString(n: nat): (r: string)
    ensures |r| > 0
    ensures forall i :: 0 <= i < |r| ==> IsDigit(r[i])
  {
    (if n < 10 then [] else NatToString(n / 10)) + [DigitChar(n % 10)]
  }

  lemma {:induction false} ParseNatToString(n: nat)
    ensures ParseNat(NatToString(n)) == n
  {
    var s := NatToString(n);
    assert s[..|s| - 1] == if n < 10 then [] else NatToString(n / 10);
    if n >= 10 {
      ParseNatToString(n / 10);
    }
  }

  lemma {:induction false} DigitsAppend(a: string, b: string)
    ensures Digits(a + b) == Digits(a) + Digits(b)
    ensures Letters(a + b) == Letters(a) + Letters(b)
  {
    if a != [] {
      assert (a + b)[1..] == a[1..] + b;
      DigitsAppend(a[1..], b);
    } else {
      assert a + b == b;
    }
  }

  lemma {:induction false} DigitsOfDigits(s: string)
    requires forall i :: 0 <= i < |s| ==> IsDigit(s[i])
    ensures Digits(s) == s && Letters(s) == []
  {
    if s != [] {
      DigitsOfDigits(s[1..]);
    }
  }

  lemma {:induction false} LettersOfLetters(s: string)
    requires forall i :: 0 <= i < |s| ==> IsLetter(s[i])
    ensures Letters(s) == s && Digits(s) == []
  {
    if s != [] {
      LettersOfLetters(s[1..]);
    }
  }

  /**
   * A token made of a known type code followed by a decimal number resolves
   * to that code's category; the byte width is the number itself for `c` and
   * raw data, and the number divided by 8 (a bit width) for the others.
   */
  lemma TypeToLengthOfToken(code: string, n: nat)
    requires CategoryOf(code).Some?
    ensures var cat := CategoryOf(code).value;
            TypeToLength(code + NatToString(n)) == Ok((cat, if CountsBytes(cat) then n else n / 8))
  {
    var ds := NatToString(n);
    var t := code + ds;
    LettersOfLetters(code);
    DigitsOfDigits(ds);
    DigitsAppend(code, ds);
    assert Digits(t) == ds && Letters(t) == code;
    ParseNatToString(n);
    CodeAndNumberNotStruct(code, ds);
  }

  /** Letters followed by digits cannot carry the `struct:` prefix. */
  lemma CodeAndNumberNotStruct(code: string, ds: string)
    requires forall i :: 0 <= i < |code| ==> IsLetter(code[i])
    requires forall i :: 0 <= i < |ds| ==> IsDigit(ds[i])
    ensures !IsStructToken(code + ds)
  {
    var t := code + ds;
    forall i | 0 <= i < |t| ensures IsLetter(t[i]) || IsDigit(t[i]) {
      if i < |code| { assert t[i] == code[i]; } else { assert t[i] == ds[i - |code|]; }
    }
    AlphanumericNotStruct(t);
  }

  /** A token made only of letters and digits cannot carry the `struct:` prefix. */
  lemma AlphanumericNotStruct(t: string)
    requires forall i :: 0 <= i < |t| ==> IsLetter(t[i]) || IsDigit(t[i])
    ensures !IsStructToken(t)
  {
    if |t| >= |StructPrefix| {
      assert IsLetter(t[6]) || IsDigit(t[6]);
      assert t[..|StructPrefix|][6] == t[6];
    }
  }

  /** The type code of a category: the inverse of `CategoryOf`, with raw data written as a bare number. */
  function CodeOf(cat: Category): (code: string)
    requires cat != Struct
    ensures CategoryOf(code) == Some(cat)
  {
    match cat
    case Signed => "s"
    case Unsigned => "u"
    case Float => "f"
    case Chars => "c"
    case Str => "str"
    case Data => ""
  }

  /** The canonical token of a category and byte width. */
  function TokenOf(cat: Category, width: nat): string
    requires cat != Struct
  {
    CodeOf(cat) + NatToString(if CountsBytes(cat) then width else 8 * width)
  }

  /** Resolving the canonical token of a layout gives the layout back. */
  lemma TypeToLengthTokenOf(cat: Category, width: nat)
    requires cat != Struct
    ensures TypeToLength(TokenOf(cat, width)) == Ok((cat, width))
  {
    TypeToLengthOfToken(CodeOf(cat), if CountsBytes(cat) then width else 8 * width);
  }

  /** Everything after `struct:` is ignored by the resolver. */
  lemma StructTokenResolves(rest: string)
    ensures TypeToLength(StructPrefix + rest) == Ok((Struct, 0))
    ensures StructName(StructPrefix + rest) == rest
  {
    assert (StructPrefix + rest)[..|StructPrefix|] == StructPrefix;
  }

  /** A token whose letters are not a type code fails, whatever its digits. */
  lemma UnknownCodeFails(token: string)
    requires !IsStructToken(token) && Digits(token) != []
    requires CategoryOf(Letters(token)).None?
    ensures TypeToLength(token) == Err(UnknownVariableType)
  {
  }

  /** A token without digits fails before its letters are looked at. */
  lemma MissingNumberFails(token: string)
    requires !IsStructToken(token) && Digits(token) == []
    ensures TypeToLength(token) == Err(InvalidLiteral)
  {
  }

  // Tokens the scenario format uses, with their layouts.

  lemma ResolvesU16()
    ensures TypeToLength("u16") == Ok((Unsigned, 2))
  {
    assert NatToString(16) == "16";
    TypeToLengthOfToken("u", 16);
    assert "u" + "16" == "u16";
  }

  lemma ResolvesF64()
    ensures TypeToLength("f64") == Ok((Float, 8))
  {
    assert NatToString(64) == "64";
    TypeToLengthOfToken("f", 64);
    assert "f" + "64" == "f64";
  }

  lemma ResolvesStr32()
    ensures TypeToLength("str32") == Ok((Str, 4))
  {
    assert NatToString(32) == "32";
    TypeToLengthOfToken("str", 32);
    assert "str" + "32" == "str32";
  }

  lemma ResolvesC4()
    ensures TypeToLength("c4") == Ok((Chars, 4))
  {
    assert NatToString(4) == "4";
    TypeToLengthOfToken("c", 4);
    assert "c" + "4" == "c4";
  }

  lemma ResolvesBareNumber()
    ensures TypeToLength("8") == Ok((Data, 8))
  {
    assert NatToString(8) == "8";
    TypeToLengthOfToken("", 8);
    assert "" + "8" == "8";
  }
}
