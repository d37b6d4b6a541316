/** The address validator of the route form: a reserved-character blacklist
    plus a "not blank after trimming" test, with JavaScript's String.prototype.trim
    written out over an explicit whitespace set. */
module Validation {

  /** The code points String.prototype.trim strips: ECMAScript WhiteSpace
      (TAB, VT, FF, ZWNBSP and every Unicode Zs space separator) and
      LineTerminator (LF, CR, LS, PS). */
  predicate IsWhitespace(c: char) {
    c == '\t' || c == '\n' || c == '\U{000B}' || c == '\U{000C}' || c == '\r'
    || c == ' ' || c == '\U{00A0}' || c == '\U{1680}'
    || ('\U{2000}' <= c <= '\U{200A}')
    || c == '\U{2028}' || c == '\U{2029}' || c == '\U{202F}' || c == '\U{205F}'
    || c == '\U{3000}' || c == '\U{FEFF}'
  }

  /** Every character of `s` is whitespace (the empty string included). */
  predicate IsBlank(s: string) {
    forall i :: 0 <= i < |s| ==> IsWhitespace(s[i])
  }

  /** Drops the leading whitespace: what remains is a suffix of `s` that does
      not start with whitespace, and all that was dropped is whitespace. */
  function TrimStart(s: string): (r: string)
    ensures |r| <= |s| && r == s[|s| - |r|..]
    ensures r == [] || !IsWhitespace(r[0])
    ensures IsBlank(s[..|s| - |r|])
  {
    if s != [] && IsWhitespace(s[0]) then TrimStart(s[1..]) else s
  }

  /** Drops the trailing whitespace: what remains is a prefix of `s` that does
      not end with whitespace, and all that was dropped is whitespace. */
  function TrimEnd(s: string): (r: string)
    ensures |r| <= |s| && r == s[..|r|]
    ensures r == [] || !IsWhitespace(r[|r| - 1])
    ensures IsBlank(s[|r|..])
  {
    if s != [] && IsWhitespace(s[|s| - 1]) then TrimEnd(s[..|s| - 1]) else s
  }

  /** Drops the whitespace at both ends, as String.prototype.trim does. */
  function Trim(s: string): (r: string)
  {
    TrimEnd(TrimStart(s))
  }

  /** Trimming yields the empty string exactly for a blank input; otherwise
      the result neither starts nor ends with whitespace. */
  lemma TrimShape(s: string)
    ensures |Trim(s)| <= |s|
    ensures Trim(s) == [] <==> IsBlank(s)
    ensures Trim(s) != [] ==> !IsWhitespace(Trim(s)[0]) && !IsWhitespace(Trim(s)[|Trim(s)| - 1])
  {
    var t := TrimStart(s);
    var k := |s| - |t|;
    var r := TrimEnd(t);
    if r == [] {
      assert IsBlank(t[|r|..]) && t == t[|r|..];
      assert t == [];
      assert s[..k] == s;
    } else {
      assert r[0] == t[0] == s[k];
    }
  }

  /** The reserved characters, in the order the form lists them. */
  const IllegalChars: seq<char> := ['@', '%', '&', '"', '\'', '/', '(', ')', '\U{00BF}', ';']

  /** Some reserved character occurs somewhere in the input. */
  predicate ContainsIllegal(input: string) {
    exists k :: 0 <= k < |IllegalChars| && IllegalChars[k] in input
  }

  /** The address validator: no reserved character and not blank after
      trimming; defined for every string. */
  predicate ValidateInput(input: string) {
    !ContainsIllegal(input) && Trim(input) != ""
  }

  /** An address is accepted exactly when none of its characters is reserved
      and some character is not whitespace. */
  lemma ValidateInputMeaning(input: string)
    ensures ValidateInput(input) <==>
      (forall i :: 0 <= i < |input| ==> input[i] !in IllegalChars) && !IsBlank(input)
  {
    TrimShape(input);
    if ContainsIllegal(input) {
      var k :| 0 <= k < |IllegalChars| && IllegalChars[k] in input;
      var i :| 0 <= i < |input| && input[i] == IllegalChars[k];
      assert input[i] in IllegalChars;
    }
  }

  /** Any reserved character anywhere in the input rejects it. */
  lemma ReservedCharRejects(input: string, i: nat)
    requires i < |input| && input[i] in IllegalChars
    ensures !ValidateInput(input)
  {
    ValidateInputMeaning(input);
  }

  /** The digit 0 is not reserved: appended to any string free of reserved
      characters (the empty one included) it yields an accepted address. */
  lemma DigitZeroAccepted(s: string)
    requires forall i :: 0 <= i < |s| ==> s[i] !in IllegalChars
    ensures ValidateInput(s + "0")
  {
    var t := s + "0";
    assert t[|s|] == '0';
    ValidateInputMeaning(t);
  }
}
