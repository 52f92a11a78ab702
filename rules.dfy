/**
 * `to_tag`: the TextMate-style rule a pattern compiles to, a regex with its
 * `captures` and, when the outer group is elided, the rule's own scope name.
 */
module Rules {
  import opened Wrappers
  import opened RegexText
  import opened Patterns
  import opened Groups
  import opened References
  import opened Synthesis
  import opened CaptureConversion

  /** The hash `{match:, captures:, name:}`; `name` is present only when the outer group is elided. */
  datatype Rule = Rule(regex: string, captures: map<string, Capture>, name: Option<string>)

  /** A pattern whose outer group is elided gets group 0, for itself. */
  lemma ElidedGroupIsZero(p: Pattern)
    requires OptimizeOuterGroup(p)
    ensures |TopLevelGroups(p)| > 0 && TopLevelGroups(p)[0] == Group(0, p.arguments)
  {
    assert TopLevelGroups(p) == OwnGroup(p, 0) + InnerGroups(p, 1) + RestGroups(p, 1 + |InnerGroups(p, 1)|);
  }

  /**
   * `to_tag`: evaluate, strip the outer parentheses when the outer group is
   * elided, then convert the collected groups to `captures`. The rule's name
   * is the node's `tag_as` string, which the capture conversion rewrites in
   * place as the name of group 0.
   */
  function ToTag(p: Pattern): Result<Rule, Error> {
    var regex :- Evaluate(p);
    var groups := TopLevelGroups(p);
    var captures :- Captures(groups, groups);
    if OptimizeOuterGroup(p) then
      OuterGroupEvaluation(p);
      ElidedGroupIsZero(p);
      CapturesKeys(groups, groups);
      assert Key(groups[0]) == "0";
      Ok(Rule(regex[1..|regex| - 1], captures, Some(captures["0"].name)))
    else
      Ok(Rule(regex, captures, None))
  }

  /** `to_tag` raises exactly when evaluation or the capture conversion raises, evaluation first. */
  lemma ToTagFails(p: Pattern)
    ensures ToTag(p).Err? <==> Evaluate(p).Err? || Captures(TopLevelGroups(p), TopLevelGroups(p)).Err?
    ensures Evaluate(p).Err? ==> ToTag(p) == Err(Evaluate(p).error)
  {
  }

  /**
   * With the outer group elided, the rule's regex is the evaluated string
   * without the parentheses `add_capture_group_if_needed` put around the
   * node, and its name is the node's tag with its tokens replaced.
   */
  lemma ElidedRule(p: Pattern)
    requires OptimizeOuterGroup(p) && ToTag(p).Ok?
    ensures Evaluate(p).Ok? && AddQuantifierOptionsTo(p).Ok?
    ensures var groups := TopLevelGroups(p);
      Fixup(groups, AddQuantifierOptionsTo(p).value) == Ok(ToTag(p).value.regex)
      && Evaluate(p).value == "(" + ToTag(p).value.regex + ")"
    ensures p.arguments.tagAs.Some? && RewriteName(p.arguments.tagAs.value, "0", TopLevelGroups(p)).Ok?
    ensures ToTag(p).value.name
         == Some(RewriteName(p.arguments.tagAs.value, "0", TopLevelGroups(p)).value)
  {
    var groups := TopLevelGroups(p);
    OuterGroupEvaluation(p);
    ElidedGroupIsZero(p);
    TopLevelGroupsDistinct(p);
    CapturesValues(groups, groups);
    assert Key(groups[0]) == "0";
    var inner := Fixup(groups, AddQuantifierOptionsTo(p).value).value;
    assert Evaluate(p).value == "(" + inner + ")";
    assert ToTag(p).value.regex == inner;
  }

  /** Without elision the rule's regex is the evaluated string and the rule has no name of its own. */
  lemma CapturedRule(p: Pattern)
    requires !OptimizeOuterGroup(p) && ToTag(p).Ok?
    ensures Evaluate(p).Ok? && ToTag(p).value.regex == Evaluate(p).value && ToTag(p).value.name.None?
  {
  }

  /**
   * `captures` has one key per collected group, its number. Group 0, the
   * number of an elided outer node, stays: the `reject` block never matches
   * and its result is discarded.
   */
  lemma RuleCaptureKeys(p: Pattern)
    requires ToTag(p).Ok?
    ensures forall k :: k in ToTag(p).value.captures <==>
      exists i :: 0 <= i < |TopLevelGroups(p)| && Key(TopLevelGroups(p)[i]) == k
    ensures "0" in ToTag(p).value.captures <==> OptimizeOuterGroup(p)
  {
    var groups := TopLevelGroups(p);
    CapturesKeys(groups, groups);
    if OptimizeOuterGroup(p) {
      ElidedGroupIsZero(p);
      assert Key(groups[0]) == "0";
    } else {
      var start := DefaultStart(p);
      CollectGroupsNumbered(p, start);
      assert groups == CollectGroups(p, start) && start == 1;
      assert forall i :: 0 <= i < |CollectGroups(p, start)| ==> CollectGroups(p, start)[i].number == start + i;
      assert forall i :: 0 <= i < |groups| ==> groups[i].number == start + i;
      forall i | 0 <= i < |groups| ensures Key(groups[i]) != "0" {
        assert groups[i].number == start + i;
        if Key(groups[i]) == "0" {
          assert NatToString(0) == "0";
          NatToStringInjective(groups[i].number, 0);
        }
      }
    }
  }

  /**
   * A String pattern tagged with a scope name that has no `$` compiles to the
   * escaped text, with no parentheses, the name as the rule's name and as
   * capture 0.
   */
  lemma TaggedLiteralRule(t: string, tag: string)
    requires forall i :: 0 <= i < |tag| ==> tag[i] != '$'
    ensures var p := New(Text(t), NoAttributes.(tagAs := Some(tag))).value;
      ToTag(p) == Ok(Rule(Escape(t), map["0" := Capture(tag)], Some(tag)))
  {
    var a := NoAttributes.(tagAs := Some(tag));
    var p := New(Text(t), a).value;
    LiteralEvaluation(t, a);
    var groups := TopLevelGroups(p);
    ElidedGroupIsZero(p);
    assert groups == [Group(0, a)] by {
      assert groups == OwnGroup(p, 0) + InnerGroups(p, 1) + RestGroups(p, 1);
    }
    NameWithoutDollar(tag, "0", groups);
    assert NatToString(0) == "0";
    assert groups[..0] == [];
    assert Captures(groups, groups) == Ok(map["0" := Capture(tag)]);
    var regex := "(" + Escape(t) + ")";
    assert regex[1..|regex| - 1] == Escape(t);
  }
}
