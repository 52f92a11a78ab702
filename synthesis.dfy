/**
 * Regex synthesis: `add_quantifier_options_to`, `add_capture_group_if_needed`,
 * `do_evaluate_self`, `integrate_pattern` and `evaluate`. Each node renders
 * its own payload, the renderings are concatenated along the chain, and the
 * placeholder pass runs once, at the top level.
 */
module Synthesis {
  import opened Wrappers
  import opened RegexText
  import opened RegexScan
  import opened Patterns
  import opened Quantifiers
  import opened Groups
  import opened References

  /** `add_capture_group_if_needed`: one pair of parentheses around a capturing node's regex. */
  function AddCaptureGroupIfNeeded(a: Attributes, s: string): (r: string)
    ensures NeedsToCapture(a) ==>
      |r| == |s| + 2 && r[0] == '(' && r[|r| - 1] == ')' && r[1..|r| - 1] == s
    ensures !NeedsToCapture(a) ==> r == s
  {
    if NeedsToCapture(a) then "(" + s + ")" else s
  }

  /** The string a payload stands for: a nested pattern is evaluated as a top-level pattern of its own. */
  function PayloadRegex(p: Pattern): Result<string, Error>
    decreases p, 0
  {
    match p.payload
    case Source(s) => Ok(s)
    case Nested(q) => Evaluate(q)
  }

  /**
   * `add_quantifier_options_to(@match, groups)`; the groups argument is not
   * passed on. The quantifier applies to the payload's own regex, in a
   * non-capturing group only when that regex is not one entity.
   */
  function AddQuantifierOptionsTo(p: Pattern): (r: Result<string, Error>)
    decreases p, 1
    ensures PayloadRegex(p).Err? ==> r == Err(PayloadRegex(p).error)
    ensures PayloadRegex(p).Ok? ==> r.Ok?
    ensures PayloadRegex(p).Ok? ==>
      var m, q := PayloadRegex(p).value, SimpleQuantifier(p.atLeast, p.atMost, p.arguments.dontBackTrack);
      q != "" ==> r.value == m + q || r.value == "(?:" + m + ")" + q
    ensures PayloadRegex(p).Ok? ==>
      var m, q := PayloadRegex(p).value, SimpleQuantifier(p.atLeast, p.atMost, p.arguments.dontBackTrack);
      q != "" && IsSingleEntity(m) ==> r.value == m + q
  {
    var m :- PayloadRegex(p);
    var quantifier := SimpleQuantifier(p.atLeast, p.atMost, p.arguments.dontBackTrack);
    Ok(Quantify(m, quantifier, p.arguments.dontBackTrack))
  }

  /** `do_evaluate_self`: quantify, then capture. */
  function DoEvaluateSelf(p: Pattern): Result<string, Error>
    decreases p, 2
  {
    var quantified :- AddQuantifierOptionsTo(p);
    Ok(AddCaptureGroupIfNeeded(p.arguments, quantified))
  }

  /**
   * `evaluate(groups)` with groups given: this node, then `integrate_pattern`
   * of the successor; no fixup. The single-entity verdict computed before
   * integrating is ignored by `integrate_pattern`; with the conservative
   * scanner that verdict cannot raise, so it has no effect here.
   */
  function Synth(p: Pattern): Result<string, Error>
    decreases p, 3
  {
    var own :- DoEvaluateSelf(p);
    match p.next
    case None => Ok(own)
    case Some(n) =>
      var rest :- Synth(n);
      Ok(own + rest)
  }

  /** `evaluate()`: the top level numbers the groups of the whole tree and resolves the placeholders. */
  function Evaluate(p: Pattern): Result<string, Error>
    decreases p, 4
  {
    var synthesized :- Synth(p);
    Fixup(TopLevelGroups(p), synthesized)
  }

  // ---------------------------------------------------------------------
  // The chain is the concatenation of its nodes
  // ---------------------------------------------------------------------

  /** Concatenation of two renderings; the first failure wins, as evaluation goes left to right. */
  function Join(a: Result<string, Error>, b: Result<string, Error>): Result<string, Error> {
    match a
    case Err(e) => Err(e)
    case Ok(x) => match b case Err(e) => Err(e) case Ok(y) => Ok(x + y)
  }

  /** The reference definition: every node rendered on its own, concatenated in order. */
  function SynthNodes(nodes: seq<Pattern>): Result<string, Error>
    decreases |nodes|
  {
    if nodes == [] then Ok("") else Join(DoEvaluateSelf(nodes[0]), SynthNodes(nodes[1..]))
  }

  /** A node renders itself without looking at its successor. */
  lemma OwnRenderingIgnoresSuccessor(p: Pattern)
    ensures DoEvaluateSelf(p.(next := None)) == DoEvaluateSelf(p)
  {
    assert PayloadRegex(p.(next := None)) == PayloadRegex(p);
  }

  /** The empty rendering is a unit of `Join`. */
  lemma JoinEmpty(a: Result<string, Error>)
    ensures Join(a, Ok("")) == a
  {
    if a.Ok? {
      assert a.value + "" == a.value;
    }
  }

  /** One node of the chain: its own rendering joined with the successor's. */
  lemma SynthStep(p: Pattern)
    ensures p.next.None? ==> Synth(p) == Join(DoEvaluateSelf(p), Ok(""))
    ensures p.next.Some? ==> Synth(p) == Join(DoEvaluateSelf(p), Synth(p.next.value))
  {
    JoinEmpty(DoEvaluateSelf(p));
  }

  /** Synthesizing a chain is rendering each of its nodes and concatenating the results. */
  lemma {:induction false} SynthIsConcatenation(p: Pattern)
    ensures Synth(p) == SynthNodes(ChainNodes(p))
    decreases p
  {
    var nodes := ChainNodes(p);
    OwnRenderingIgnoresSuccessor(p);
    SynthStep(p);
    assert nodes[0] == p.(next := None);
    assert SynthNodes(nodes) == Join(DoEvaluateSelf(nodes[0]), SynthNodes(nodes[1..]));
    match p.next {
      case None =>
        assert nodes[1..] == [];
      case Some(n) =>
        SynthIsConcatenation(n);
        assert nodes[1..] == ChainNodes(n);
    }
  }

  lemma {:induction false} SynthNodesConcat(xs: seq<Pattern>, ys: seq<Pattern>)
    ensures SynthNodes(xs + ys) == Join(SynthNodes(xs), SynthNodes(ys))
    decreases |xs|
  {
    if xs == [] {
      assert xs + ys == ys;
      var r := SynthNodes(ys);
      if r.Ok? {
        assert "" + r.value == r.value;
      }
    } else {
      assert (xs + ys)[0] == xs[0];
      assert (xs + ys)[1..] == xs[1..] + ys;
      SynthNodesConcat(xs[1..], ys);
      var h := DoEvaluateSelf(xs[0]);
      var t := SynthNodes(xs[1..]);
      var u := SynthNodes(ys);
      if h.Ok? && t.Ok? && u.Ok? {
        assert h.value + (t.value + u.value) == (h.value + t.value) + u.value;
      }
    }
  }

  /** `insert!` then synthesis: the appended chain's regex follows the receiver's. */
  lemma SynthAppend(a: Pattern, b: Pattern)
    ensures Synth(Append(a, b)) == Join(Synth(a), Synth(b))
  {
    SynthIsConcatenation(Append(a, b));
    SynthIsConcatenation(a);
    SynthIsConcatenation(b);
    SynthNodesConcat(ChainNodes(a), ChainNodes(b));
  }

  // ---------------------------------------------------------------------
  // What evaluation produces
  // ---------------------------------------------------------------------

  /** A single node with a source payload, no bounds and no possessive flag renders its source, captured if needed. */
  lemma UnquantifiedSourceSynth(p: Pattern)
    requires p.payload.Source? && p.next.None?
    requires p.atLeast.None? && p.atMost.None? && !p.arguments.dontBackTrack
    ensures Synth(p) == Ok(AddCaptureGroupIfNeeded(p.arguments, p.payload.regex))
  {
    var m := p.payload.regex;
    assert PayloadRegex(p) == Ok(m);
    assert SimpleQuantifier(None, None, false) == "";
    assert Quantify(m, "", false) == m;
    assert AddQuantifierOptionsTo(p) == Ok(m);
    assert DoEvaluateSelf(p) == Ok(AddCaptureGroupIfNeeded(p.arguments, m));
    assert Synth(p) == DoEvaluateSelf(p);
  }

  /**
   * A capturing node without successor evaluates to parentheses around its
   * quantified payload with placeholders resolved; `to_tag` strips exactly these.
   */
  lemma OuterGroupEvaluation(p: Pattern)
    requires OptimizeOuterGroup(p)
    ensures AddQuantifierOptionsTo(p).Err? ==> Evaluate(p) == Err(AddQuantifierOptionsTo(p).error)
    ensures AddQuantifierOptionsTo(p).Ok? ==>
      Evaluate(p) == Parenthesize(Fixup(TopLevelGroups(p), AddQuantifierOptionsTo(p).value))
  {
    var q := AddQuantifierOptionsTo(p);
    if q.Ok? {
      assert DoEvaluateSelf(p) == Ok("(" + q.value + ")");
      assert Synth(p) == DoEvaluateSelf(p);
      FixupInParens(TopLevelGroups(p), q.value);
    } else {
      assert DoEvaluateSelf(p) == Err(q.error);
      assert Synth(p) == DoEvaluateSelf(p);
    }
  }

  /**
   * A node built from a String evaluates to the escaped text, in parentheses
   * when it captures: literal text is matched literally and is never taken
   * for a placeholder.
   */
  lemma LiteralEvaluation(t: string, a: Attributes)
    requires !a.dontBackTrack
    ensures Evaluate(New(Text(t), a).value)
         == Ok(if NeedsToCapture(a) then "(" + Escape(t) + ")" else Escape(t))
  {
    var p := New(Text(t), a).value;
    var groups := TopLevelGroups(p);
    assert SimpleQuantifier(None, None, false) == "";
    assert AddQuantifierOptionsTo(p) == Ok(Escape(t));
    assert Synth(p) == DoEvaluateSelf(p);
    EscapeNoCloser(t);
    FixupWithoutCloser(groups, Escape(t));
    if NeedsToCapture(a) {
      FixupInParens(groups, Escape(t));
    }
  }

  /** Text free of metacharacters comes out of `Pattern.new(text).evaluate` as itself. */
  lemma PlainLiteralEvaluation(t: string)
    requires forall i :: 0 <= i < |t| ==> !IsMetaChar(t[i])
    ensures Evaluate(New(Text(t), NoAttributes).value) == Ok(t)
  {
    LiteralEvaluation(t, NoAttributes);
    EscapePlain(t);
  }

  /** A well-formed placeholder name: non-empty, without backslash, `[` or `:]`. */
  predicate PlainName(name: string) {
    |name| > 0 && NoBackslashBefore(name, |name|) && NoCloser(name) && NoOpenBracket(name)
  }

  /** The source text of a placeholder, as the `backreference` and `recursivelyMatch` helpers write it. */
  function PlaceholderText(kind: Placeholder, name: string): string {
    Opener(kind) + name + ":]"
  }

  /**
   * A placeholder in a later node resolves against the number its reference
   * got at the top level: a node captured as group 1 with reference `name`,
   * then a node whose source is the placeholder, evaluates to the node's
   * regex in parentheses followed by `\1` (or `\g<1>`). The placeholder
   * survives synthesis and is resolved only by the top-level pass.
   */
  lemma PlaceholderResolvesAtTopLevel(kind: Placeholder, m: string, name: string)
    requires NoOpenBracket(m) && PlainName(name)
    ensures var a := Pattern(Source(m), NoAttributes.(reference := Some(name)), None, None, None);
            var b := Pattern(Source(PlaceholderText(kind, name)), NoAttributes, None, None, None);
            Synth(Append(a, b)) == Ok("(" + m + ")" + PlaceholderText(kind, name))
            && Evaluate(Append(a, b)) == Ok("(" + m + ")" + Render(kind, 1))
  {
    var a := Pattern(Source(m), NoAttributes.(reference := Some(name)), None, None, None);
    var b := Pattern(Source(PlaceholderText(kind, name)), NoAttributes, None, None, None);
    CaptureThenPlaceholderSynth(a, b, "(" + m + ")", PlaceholderText(kind, name));
    CapturingThenPlainGroups(a, b);
    SingleReference(a.arguments, name);
    PlaceholderPasses(kind, "(" + m + ")", name, map[name := 1]);
  }

  lemma CaptureThenPlaceholderSynth(a: Pattern, b: Pattern, x: string, text: string)
    requires a.payload.Source? && a.next.None? && a.atLeast.None? && a.atMost.None? && !a.arguments.dontBackTrack
    requires NeedsToCapture(a.arguments) && x == "(" + a.payload.regex + ")"
    requires b == Pattern(Source(text), NoAttributes, None, None, None)
    ensures Synth(Append(a, b)) == Ok(x + text)
  {
    UnquantifiedSourceSynth(a);
    UnquantifiedSourceSynth(b);
    SynthAppend(a, b);
  }

  /** Both passes over bracket-free text followed by one placeholder whose name is registered as group 1. */
  lemma PlaceholderPasses(kind: Placeholder, x: string, name: string, refs: map<string, nat>)
    requires NoOpenBracket(x) && PlainName(name) && refs == map[name := 1]
    ensures var text := PlaceholderText(kind, name);
      ReplaceAll(x + text, kind, refs) == Ok(x + Render(kind, 1))
      && ReplaceAll(x + text, Backreference, refs)
         == (if kind == Backreference then Ok(x + Render(kind, 1)) else Ok(x + text))
      && ReplaceAll(x + Render(kind, 1), Subroutine, refs) == Ok(x + Render(kind, 1))
  {
    var text := PlaceholderText(kind, name);
    CopiesBracketFreeText(x, text, kind, refs);
    assert text == Opener(kind) + name + ":]" + "";
    ResolvePlaceholder(kind, name, "", refs);
    assert ReplaceAll(text, kind, refs) == Ok(Render(kind, 1) + "");
    assert Render(kind, 1) + "" == Render(kind, 1);
    RenderBracketFree(kind, 1);
    BracketFreeUnchanged(x + Render(kind, 1), Subroutine, refs);
    if kind == Subroutine {
      SubroutineSurvivesBackreferencePass(name, refs);
      CopiesBracketFreeText(x, text, Backreference, refs);
    }
  }

  lemma SubroutineSurvivesBackreferencePass(name: string, refs: map<string, nat>)
    requires NoOpenBracket(name)
    ensures ReplaceAll(PlaceholderText(Subroutine, name), Backreference, refs) == Ok(PlaceholderText(Subroutine, name))
  {
    var o := Opener(Subroutine);
    var text := PlaceholderText(Subroutine, name);
    var tail := o[1..] + name + ":]";
    assert text == ['['] + tail;
    assert text[2] == 's';
    NotBackreferenceOpener(text);
    assert NoOpenBracket(o[1..]);
    NoOpenBracketConcat(o[1..], name);
    NoOpenBracketConcat(o[1..] + name, ":]");
    assert text[1..] == tail;
    assert ReplaceAll(text, Backreference, refs) == Prepend(['['], ReplaceAll(tail, Backreference, refs));
    BracketFreeUnchanged(tail, Backreference, refs);
  }

  /** A capturing node followed by a non-capturing one: a single group, numbered 1. */
  lemma CapturingThenPlainGroups(a: Pattern, b: Pattern)
    requires NeedsToCapture(a.arguments) && a.payload.Source? && a.next.None?
    requires !NeedsToCapture(b.arguments) && b.payload.Source? && b.next.None?
    ensures TopLevelGroups(Append(a, b)) == [Group(1, a.arguments)]
  {
    var p := Append(a, b);
    assert p == a.(next := Some(b));
    assert CollectGroups(b, 2) == [] by {
      assert OwnGroup(b, 2) == [] && InnerGroups(b, 2) == [] && RestGroups(b, 2) == [];
    }
    assert DefaultStart(p) == 1;
    assert CollectGroups(p, 1) == OwnGroup(p, 1) + InnerGroups(p, 2) + RestGroups(p, 2);
    assert RestGroups(p, 2) == CollectGroups(b, 2);
  }

  lemma SingleReference(attributes: Attributes, name: string)
    requires attributes.reference == Some(name)
    ensures ReferenceMap([Group(1, attributes)]) == map[name := 1]
  {
    var groups := [Group(1, attributes)];
    assert groups[..|groups| - 1] == [];
  }

  /**
   * A nested pattern is evaluated as a top-level pattern of its own: the same
   * placeholder, placed inside a nested node instead of after the capturing
   * node, cannot see the reference registered by the enclosing chain and raises.
   */
  lemma NestedPatternIsTopLevel(kind: Placeholder, m: string, name: string)
    requires PlainName(name)
    ensures var inner := Pattern(Source(PlaceholderText(kind, name)), NoAttributes, None, None, None);
            var a := Pattern(Source(m), NoAttributes.(reference := Some(name)), None, None, None);
            Evaluate(Append(a, Pattern(Nested(inner), NoAttributes, None, None, None)))
              == Err(Unknown(kind, name))
  {
    var inner := Pattern(Source(PlaceholderText(kind, name)), NoAttributes, None, None, None);
    var a := Pattern(Source(m), NoAttributes.(reference := Some(name)), None, None, None);
    var outer := Pattern(Nested(inner), NoAttributes, None, None, None);
    LonePlaceholderRaises(kind, name, inner);
    assert PayloadRegex(outer) == Err(Unknown(kind, name));
    assert DoEvaluateSelf(outer) == Err(Unknown(kind, name));
    assert Synth(outer) == Err(Unknown(kind, name));
    UnquantifiedSourceSynth(a);
    SynthAppend(a, outer);
  }

  /** A placeholder evaluated on its own has no group to refer to and raises. */
  lemma LonePlaceholderRaises(kind: Placeholder, name: string, inner: Pattern)
    requires PlainName(name)
    requires inner == Pattern(Source(PlaceholderText(kind, name)), NoAttributes, None, None, None)
    ensures Evaluate(inner) == Err(Unknown(kind, name))
  {
    assert TopLevelGroups(inner) == [] by {
      assert CollectGroups(inner, 1) == OwnGroup(inner, 1) + InnerGroups(inner, 1) + RestGroups(inner, 1);
    }
    assert ReferenceMap([]) == map[];
    var text := PlaceholderText(kind, name);
    UnquantifiedSourceSynth(inner);
    assert text == Opener(kind) + name + ":]" + "";
    ResolvePlaceholder(kind, name, "", map[]);
    if kind == Subroutine {
      SubroutineSurvivesBackreferencePass(name, map[]);
    }
  }

  /**
   * `__deep_clone__` does not carry `@at_least`/`@at_most` over, so the clone
   * that `insert` and `then` extend renders without the quantifier.
   */
  lemma CloneDropsQuantifier()
    ensures var p := ProcessQuantifiersFromArguments(
              Pattern(Source("a"), NoAttributes.(atLeast := Some(0)), None, None, None));
            Evaluate(p) == Ok("a*") && Evaluate(Clone(p)) == Ok("a")
  {
    var p := ProcessQuantifiersFromArguments(
      Pattern(Source("a"), NoAttributes.(atLeast := Some(0)), None, None, None));
    assert IsSingleEntity("a") by { SingleCharacter('a'); }
    assert SimpleQuantifier(Some(0), None, false) == "*";
    assert Quantify("a", "*", false) == "a*";
    assert AddQuantifierOptionsTo(p) == Ok("a*");
    assert Synth(p) == Ok("a*");
    assert SimpleQuantifier(None, None, false) == "";
    assert AddQuantifierOptionsTo(Clone(p)) == Ok("a");
    assert Synth(Clone(p)) == Ok("a");
    assert NoCloser("a*") && NoCloser("a");
    FixupWithoutCloser(TopLevelGroups(p), "a*");
    FixupWithoutCloser(TopLevelGroups(Clone(p)), "a");
  }
}
