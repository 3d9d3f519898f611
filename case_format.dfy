/** The case formatter `formatString` of index.ts: upper-cases its input when
    the optional flag is `true` or absent, lower-cases it when the flag is
    explicitly `false`. Case mapping is modelled on ASCII letters only. */
module CaseFormat {

  /** An optional argument: `None` is an argument that was not supplied. */
  datatype Option<T> = None | Some(value: T)

  predicate IsUpper(c: char) { 'A' <= c <= 'Z' }

  predicate IsLower(c: char) { 'a' <= c <= 'z' }

  /** Distance between a lower-case ASCII letter and its upper-case partner. */
  const CaseOffset: int := 'a' as int - 'A' as int

  /** `b` is `a` itself, or the same ASCII letter in the other case. */
  predicate CaseVariant(a: char, b: char) {
    || b == a
    || (IsUpper(a) && b as int == a as int + CaseOffset)
    || (IsLower(a) && b as int == a as int - CaseOffset)
  }

  /** `r` is the upper-case form of `s`: character by character a case variant
      of `s`, with no lower-case letter left. */
  ghost predicate UpperCaseOf(r: string, s: string) {
    |r| == |s| && forall i :: 0 <= i < |s| ==> CaseVariant(s[i], r[i]) && !IsLower(r[i])
  }

  /** `r` is the lower-case form of `s`: character by character a case variant
      of `s`, with no upper-case letter left. */
  ghost predicate LowerCaseOf(r: string, s: string) {
    |r| == |s| && forall i :: 0 <= i < |s| ==> CaseVariant(s[i], r[i]) && !IsUpper(r[i])
  }

  function UpperChar(c: char): (r: char)
    ensures CaseVariant(c, r) && !IsLower(r)
    ensures r == c <==> !IsLower(c)
  {
    if IsLower(c) then (c as int - CaseOffset) as char else c
  }

  function LowerChar(c: char): (r: char)
    ensures CaseVariant(c, r) && !IsUpper(r)
    ensures r == c <==> !IsUpper(c)
  {
    if IsUpper(c) then (c as int + CaseOffset) as char else c
  }

  /** `String.prototype.toUpperCase`, restricted to ASCII letters. */
  function ToUpperCase(s: string): (r: string)
    ensures UpperCaseOf(r, s)
  {
    seq(|s|, i requires 0 <= i < |s| => UpperChar(s[i]))
  }

  /** `String.prototype.toLowerCase`, restricted to ASCII letters. */
  function ToLowerCase(s: string): (r: string)
    ensures LowerCaseOf(r, s)
  {
    seq(|s|, i requires 0 <= i < |s| => LowerChar(s[i]))
  }

  /** `formatString(input, toUpper?)`: upper case unless the flag is an
      explicit `false`. */
  function FormatString(input: string, toUpper: Option<bool>): (r: string)
    ensures toUpper == Some(true) ==> UpperCaseOf(r, input)
    ensures toUpper == None ==> UpperCaseOf(r, input)
    ensures toUpper == Some(false) ==> LowerCaseOf(r, input)
  {
    if toUpper == Some(true) || toUpper == None then ToUpperCase(input) else ToLowerCase(input)
  }

  /** The upper-case form is unique: any string that meets `UpperCaseOf` is
      the one `ToUpperCase` computes. */
  lemma UpperCaseOfIsToUpperCase(r: string, s: string)
    ensures UpperCaseOf(r, s) <==> r == ToUpperCase(s)
  {
    if UpperCaseOf(r, s) {
      forall i | 0 <= i < |s| ensures r[i] == ToUpperCase(s)[i] {
        assert CaseVariant(s[i], r[i]) && !IsLower(r[i]);
      }
    }
  }

  /** The lower-case form is unique: any string that meets `LowerCaseOf` is
      the one `ToLowerCase` computes. */
  lemma LowerCaseOfIsToLowerCase(r: string, s: string)
    ensures LowerCaseOf(r, s) <==> r == ToLowerCase(s)
  {
    if LowerCaseOf(r, s) {
      forall i | 0 <= i < |s| ensures r[i] == ToLowerCase(s)[i] {
        assert CaseVariant(s[i], r[i]) && !IsUpper(r[i]);
      }
    }
  }

  /** Leaving the flag out behaves exactly as passing `true`. */
  lemma AbsentFlagMeansUpper(input: string)
    ensures FormatString(input, None) == FormatString(input, Some(true))
    ensures FormatString(input, None) == ToUpperCase(input)
  {
  }

  /** Formatting twice with the same flag gives the result of formatting once. */
  lemma FormatStringIdempotent(input: string, toUpper: Option<bool>)
    ensures FormatString(FormatString(input, toUpper), toUpper) == FormatString(input, toUpper)
  {
    var r := FormatString(input, toUpper);
    match toUpper
    case Some(false) =>
      assert LowerCaseOf(r, r);
      LowerCaseOfIsToLowerCase(r, r);
    case _ =>
      assert UpperCaseOf(r, r);
      UpperCaseOfIsToUpperCase(r, r);
  }

  /** Formatting only changes case: with either flag, the result and the input
      have the same lower-case form. */
  lemma FormatStringPreservesLetters(input: string, toUpper: Option<bool>)
    ensures ToLowerCase(FormatString(input, toUpper)) == ToLowerCase(input)
  {
    var r := FormatString(input, toUpper);
    var l := ToLowerCase(input);
    assert LowerCaseOf(l, r);
    LowerCaseOfIsToLowerCase(l, r);
  }

  lemma FormatStringExamples()
    ensures FormatString("Hello", None) == "HELLO"
    ensures FormatString("Hello", Some(false)) == "hello"
    ensures FormatString("a-Z 9", Some(true)) == "A-Z 9"
  {
    UpperCaseOfIsToUpperCase("HELLO", "Hello");
    LowerCaseOfIsToLowerCase("hello", "Hello");
    UpperCaseOfIsToUpperCase("A-Z 9", "a-Z 9");
  }
}
