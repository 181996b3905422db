/** Password requirements and the password predicate (index.js:122-161).
    Characters follow the ASCII model of module Text. */
module Password {
  import opened Wrappers
  import opened Text

  /** The `password` section of the factory configuration; every key may be
      absent.  Only boolean and integer values are modelled. */
  datatype PasswordConfig = PasswordConfig(
    override: Option<bool>,
    minLength: Option<int>,
    needMixed: Option<bool>,
    needSymbol: Option<bool>,
    needNumber: Option<bool>,
    needAlpha: Option<bool>)

  /** The `password = {}` default when the section is missing. */
  const NoPasswordConfig := PasswordConfig(None, None, None, None, None, None)

  /** The five-field record the library validates against. */
  datatype Requirements = Requirements(
    minLength: int,
    needMixed: bool,
    needSymbol: bool,
    needNumber: bool,
    needAlpha: bool)

  /** The development override: one character of anything. */
  const Relaxed := Requirements(1, false, false, false, false)

  /** `pwdReqs` (index.js:142-161): a truthy `override` wins; otherwise each
      setting falls back to the most restrictive default. */
  function PwdReqs(p: PasswordConfig): (r: Requirements)
    ensures r.minLength != 0
  {
    if p.override == Some(true) then Relaxed
    else Requirements(
      IntOr(p.minLength, 8),
      FlagOn(p.needMixed),
      FlagOn(p.needSymbol),
      FlagOn(p.needNumber),
      FlagOn(p.needAlpha))
  }

  /** With the override, nothing else in the section matters. */
  lemma OverrideWins(p: PasswordConfig)
    requires p.override == Some(true)
    ensures PwdReqs(p) == Requirements(1, false, false, false, false)
  {
  }

  /** Without the override: the given length unless missing or 0, then 8; each
      flag false exactly when it is given as `false`. */
  lemma Resolution(p: PasswordConfig)
    requires p.override != Some(true)
    ensures PwdReqs(p).minLength == (if p.minLength == None || p.minLength == Some(0) then 8 else p.minLength.value)
    ensures !PwdReqs(p).needMixed <==> p.needMixed == Some(false)
    ensures !PwdReqs(p).needSymbol <==> p.needSymbol == Some(false)
    ensures !PwdReqs(p).needNumber <==> p.needNumber == Some(false)
    ensures !PwdReqs(p).needAlpha <==> p.needAlpha == Some(false)
  {
  }

  /** No configuration at all gives the strictest requirements. */
  lemma DefaultRequirements()
    ensures PwdReqs(NoPasswordConfig) == Requirements(8, true, true, true, true)
  {
  }

  // The helper checks of `validPassword` (index.js:126-130).

  predicate MeetsMinLength(np: string, minLength: int)
  {
    |np| >= minLength
  }

  /** The string changes under both upper- and lower-casing. */
  predicate HasMixed(np: string)
  {
    np != UpperStr(np) && np != LowerStr(np)
  }

  /** The string changes under at least one of the two case mappings. */
  predicate HasAlpha(np: string)
  {
    np != UpperStr(np) || np != LowerStr(np)
  }

  /** `Number(c) > 0` for a one-character string: the digits 1 to 9. */
  predicate PositiveNumeral(c: char)
  {
    '1' <= c <= '9'
  }

  /** The symbol test of index.js:128: caseless, not a positive numeral, not
      `'0'`.  In the ASCII model that is every non-letter non-digit, space
      included. */
  predicate IsSymbolChar(c: char): (b: bool)
    ensures b <==> !IsLetter(c) && !IsDigit(c)
  {
    CaseInvariantIff(c);
    ToUpper(c) == ToLower(c) && !PositiveNumeral(c) && c != '0'
  }

  /** The number test of index.js:129. */
  predicate IsNumberChar(c: char): (b: bool)
    ensures b <==> IsDigit(c)
  {
    PositiveNumeral(c) || c == '0'
  }

  predicate HasSymbol(np: string)
  {
    exists i :: 0 <= i < |np| && IsSymbolChar(np[i])
  }

  predicate HasNumber(np: string)
  {
    exists i :: 0 <= i < |np| && IsNumberChar(np[i])
  }

  /** `validPassword` (index.js:122-138): the length check always, and each
      other check when its flag asks for it. */
  predicate ValidPassword(reqs: Requirements, pass: string)
  {
    MeetsMinLength(pass, reqs.minLength)
    && (!reqs.needMixed || HasMixed(pass))
    && (!reqs.needSymbol || HasSymbol(pass))
    && (!reqs.needNumber || HasNumber(pass))
    && (!reqs.needAlpha || HasAlpha(pass))
  }

  /** Mixed case means an upper-case letter and a lower-case letter. */
  lemma HasMixedIff(s: string)
    ensures HasMixed(s) <==>
      (exists i :: 0 <= i < |s| && IsUpper(s[i])) && (exists j :: 0 <= j < |s| && IsLower(s[j]))
  {
    LowerChangesIff(s);
    UpperChangesIff(s);
  }

  /** Alpha means some letter. */
  lemma HasAlphaIff(s: string)
    ensures HasAlpha(s) <==> exists i :: 0 <= i < |s| && IsLetter(s[i])
  {
    LowerChangesIff(s);
    UpperChangesIff(s);
  }

  /** A string without letters fails both the mixed and the alpha check. */
  lemma LetterFree(s: string)
    requires forall i :: 0 <= i < |s| ==> !IsLetter(s[i])
    ensures !HasMixed(s) && !HasAlpha(s)
  {
    HasMixedIff(s);
    HasAlphaIff(s);
  }

  /** A reference statement of the whole predicate in terms of characters. */
  lemma ValidPasswordIff(reqs: Requirements, s: string)
    ensures ValidPassword(reqs, s) <==>
      |s| >= reqs.minLength
      && (reqs.needMixed ==> (exists i :: 0 <= i < |s| && IsUpper(s[i])) && (exists j :: 0 <= j < |s| && IsLower(s[j])))
      && (reqs.needSymbol ==> exists i :: 0 <= i < |s| && !IsLetter(s[i]) && !IsDigit(s[i]))
      && (reqs.needNumber ==> exists i :: 0 <= i < |s| && IsDigit(s[i]))
      && (reqs.needAlpha ==> exists i :: 0 <= i < |s| && IsLetter(s[i]))
  {
    HasMixedIff(s);
    HasAlphaIff(s);
  }

  /** The length check is never switched off: the empty string fails even the
      override, whose minimum is 1. */
  lemma LengthAlwaysChecked(reqs: Requirements, s: string)
    requires ValidPassword(reqs, s)
    ensures |s| >= reqs.minLength
  {
  }

  lemma EmptyFailsOverride()
    ensures !ValidPassword(PwdReqs(PasswordConfig(Some(true), None, None, None, None, None)), "")
  {
  }

  /** With every `need*` flag off the predicate is exactly the length check. */
  lemma OnlyLength(reqs: Requirements, s: string)
    requires !reqs.needMixed && !reqs.needSymbol && !reqs.needNumber && !reqs.needAlpha
    ensures ValidPassword(reqs, s) <==> |s| >= reqs.minLength
  {
  }

  /** `"Aaaaaa1!"` meets the default requirements. */
  lemma DefaultAccepts()
    ensures ValidPassword(PwdReqs(NoPasswordConfig), "Aaaaaa1!")
  {
    var s := "Aaaaaa1!";
    assert IsUpper(s[0]) && IsLower(s[1]);
    assert IsSymbolChar(s[7]) && IsNumberChar(s[6]);
    ValidPasswordIff(PwdReqs(NoPasswordConfig), s);
  }

  /** `"1!1!1!1!"`, with no letter at all, fails them twice over. */
  lemma DefaultRejectsLetterFree()
    ensures !ValidPassword(PwdReqs(NoPasswordConfig), "1!1!1!1!")
  {
    var s := "1!1!1!1!";
    assert forall i :: 0 <= i < |s| ==> !IsLetter(s[i]);
    LetterFree(s);
  }

  /** With `needMixed: false`, `"1!1!1!1!"` fails, and the alpha check alone
      rejects it: without that check it would pass. */
  lemma NoMixedRejectsLetterFree()
    ensures var r := PwdReqs(PasswordConfig(None, None, Some(false), None, None, None));
      !ValidPassword(r, "1!1!1!1!") && ValidPassword(r.(needAlpha := false), "1!1!1!1!")
  {
    var s := "1!1!1!1!";
    assert forall i :: 0 <= i < |s| ==> !IsLetter(s[i]);
    LetterFree(s);
    assert IsSymbolChar(s[1]) && IsNumberChar(s[0]);
  }

  /** Under the override one letter is enough. */
  lemma OverrideAcceptsOne()
    ensures ValidPassword(PwdReqs(PasswordConfig(Some(true), None, None, None, None, None)), "A")
  {
  }

  /** `"AAAAAA1!"`, with no lower-case letter, fails them. */
  lemma DefaultRejectsUpper()
    ensures !ValidPassword(PwdReqs(NoPasswordConfig), "AAAAAA1!")
  {
    var s := "AAAAAA1!";
    HasMixedIff(s);
    assert forall j :: 0 <= j < |s| ==> !IsLower(s[j]);
  }
}
