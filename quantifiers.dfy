/**
 * `simple_quantifier` and the rendering half of `add_quantifier_options_to`:
 * how the bounds of a node become a regex quantifier, and how the node's
 * regex is wrapped so that the quantifier applies to all of it.
 */
module Quantifiers {
  import opened Wrappers
  import opened RegexText
  import opened RegexScan

  /** `"#{x}"` for an optional Integer: `nil` interpolates as nothing. */
  function Interpolate(x: Option<nat>): string {
    match x
    case Some(n) => NatToString(n)
    case None => ""
  }

  /**
   * `simple_quantifier` as written. The "exactly N times" branch compares
   * `@at_least` with `@most`, an instance variable that is never assigned, so
   * it is taken exactly when `@at_least` is nil.
   */
  function SimpleQuantifier(atLeast: Option<nat>, atMost: Option<nat>, dontBackTrack: bool): (r: string)
    ensures r == "" <==> atLeast.None? && atMost.None?
    ensures r != "" ==> (r[|r| - 1] == '+' <==> dontBackTrack || (atLeast == Some(1) && atMost.None?))
  {
    var quantifier :=
      if atLeast.None? && atMost.None? then ""
      else if atLeast == Some(0) && atMost == Some(1) then "?"
      else if atLeast == Some(0) && atMost.None? then "*"
      else if atLeast == Some(1) && atMost.None? then "+"
      else if atLeast.None? then "{" + Interpolate(atLeast) + "}"
      else "{" + Interpolate(atLeast) + "," + Interpolate(atMost) + "}";
    if quantifier != "" && dontBackTrack then quantifier + "+" else quantifier
  }

  /** The surface syntax of each pair of bounds, with and without the possessive suffix. */
  lemma QuantifierTable(possessive: bool)
    ensures var plus := if possessive then "+" else "";
      && SimpleQuantifier(None, None, possessive) == ""
      && SimpleQuantifier(Some(0), Some(1), possessive) == "?" + plus
      && SimpleQuantifier(Some(0), None, possessive) == "*" + plus
      && SimpleQuantifier(Some(1), None, possessive) == "+" + plus
  {
  }

  /** Any other pair with both bounds set renders as a `{lo,hi}` range, also when lo == hi. */
  lemma QuantifierRange(lo: nat, hi: nat, possessive: bool)
    requires !(lo == 0 && hi == 1)
    ensures SimpleQuantifier(Some(lo), Some(hi), possessive)
         == "{" + NatToString(lo) + "," + NatToString(hi) + "}" + (if possessive then "+" else "")
  {
  }

  /** An exact count renders as `{n,n}`, not `{n}`. */
  lemma ExactCountRendersAsRange()
    ensures SimpleQuantifier(Some(3), Some(3), false) == "{3,3}"
    ensures SimpleQuantifier(Some(2), Some(5), false) == "{2,5}"
  {
    assert NatToString(3) == "3" && NatToString(2) == "2" && NatToString(5) == "5";
  }

  /** An upper bound alone renders as `{}`: the default lower bound of 1 is assigned to a dead local. */
  lemma UpperBoundAloneRendersEmptyBraces(k: nat, possessive: bool)
    ensures SimpleQuantifier(None, Some(k), possessive) == "{}" + (if possessive then "+" else "")
  {
  }

  /** A lower bound alone (other than 0 and 1) renders as an open range. */
  lemma LowerBoundAloneRendersOpenRange(n: nat)
    requires n >= 2
    ensures SimpleQuantifier(Some(n), None, false) == "{" + NatToString(n) + ",}"
  {
  }

  /**
   * The rendering of `add_quantifier_options_to` once the payload is a
   * string: a non-empty quantifier goes after the regex, which is first put in
   * a non-capturing group unless it is one entity; with no quantifier a
   * possessive node becomes an atomic group.
   */
  function Quantify(m: string, quantifier: string, dontBackTrack: bool): (r: string)
    ensures quantifier != "" ==> |r| >= |quantifier| && r[|r| - |quantifier|..] == quantifier
    ensures quantifier != "" ==> r == m + quantifier || r == "(?:" + m + ")" + quantifier
    ensures quantifier != "" && IsSingleEntity(m) ==> r == m + quantifier
  {
    if quantifier != "" then
      (if IsSingleEntity(m) then m else "(?:" + m + ")") + quantifier
    else if dontBackTrack then "(?>" + m + ")"
    else m
  }

  /**
   * Whatever a quantifier is appended to is one entity, when the regex being
   * quantified is balanced (escaped text always is): either it was one
   * already, or it is wrapped as `(?:...)`.
   */
  lemma QuantifiedOperandIsSingleEntity(m: string, quantifier: string, dontBackTrack: bool)
    requires Balanced(m) && quantifier != ""
    ensures var r := Quantify(m, quantifier, dontBackTrack);
      IsSingleEntity(r[..|r| - |quantifier|])
    ensures var r := Quantify(m, quantifier, dontBackTrack);
      r[..|r| - |quantifier|] == m || r[..|r| - |quantifier|] == "(?:" + m + ")"
  {
    var operand := if IsSingleEntity(m) then m else "(?:" + m + ")";
    var r := Quantify(m, quantifier, dontBackTrack);
    assert r == operand + quantifier;
    assert r[..|r| - |quantifier|] == operand;
    if !IsSingleEntity(m) {
      WrappedBalancedIsSingleEntity("(?:", m);
    }
  }

  /** Without a quantifier the regex is left alone unless the node is possessive. */
  lemma UnquantifiedRendering(m: string, dontBackTrack: bool)
    ensures Quantify(m, "", dontBackTrack) == (if dontBackTrack then "(?>" + m + ")" else m)
  {
  }

  /** Two letters are not one entity, so `ab` quantified with `*` becomes `(?:ab)*`, not `ab*`. */
  lemma SequenceGetsWrapped()
    ensures Quantify("ab", SimpleQuantifier(Some(0), None, false), false) == "(?:ab)*"
  {
    TwoLettersAreNotSingleEntity();
  }
}
