/**
 * The chain as the source holds it: `Pattern` objects linked through their
 * `@next_pattern` field, with `insert!` and `groupless!` updating them in
 * place. A nested payload is held as a value.
 */
module Chains {
  import opened Wrappers
  import opened Patterns
  import Strip

  class PatternNode {
    var payload: Payload
    var arguments: Attributes
    var atLeast: Option<nat>
    var atMost: Option<nat>
    var nextPattern: PatternNode?

    /** `initialize` once the payload has been dispatched: no successor, no bounds. */
    constructor (payload: Payload, arguments: Attributes)
      ensures this.payload == payload && this.arguments == arguments
      ensures atLeast.None? && atMost.None? && nextPattern == null
    {
      this.payload := payload;
      this.arguments := arguments;
      atLeast := None;
      atMost := None;
      nextPattern := null;
    }

    /**
     * `insert!`: walk to the node without successor and link `pattern` there.
     * `nodes` is the receiver's chain and `others` the chain starting at `pattern`.
     */
    method Insert(pattern: PatternNode, ghost nodes: seq<PatternNode>, ghost others: seq<PatternNode>)
      returns (r: PatternNode)
      requires IsChain(nodes) && nodes[0] == this
      requires IsChain(others) && others[0] == pattern
      requires forall i, j :: 0 <= i < |nodes| && 0 <= j < |others| ==> nodes[i] != others[j]
      modifies (nodes[|nodes| - 1] as PatternNode)`nextPattern
      ensures r == this
      ensures IsChain(nodes + others)
      ensures ChainValue(nodes + others) == Append(old(ChainValue(nodes)), old(ChainValue(others)))
    {
      var last := this;
      ghost var k := 0;
      while last.nextPattern != null
        invariant 0 <= k < |nodes| && last == nodes[k]
        invariant last.nextPattern == if k < |nodes| - 1 then nodes[k + 1] else null
        decreases |nodes| - k
      {
        last := last.nextPattern;
        k := k + 1;
      }
      last.nextPattern := pattern;
      ChainValueKeepsFields(nodes);
      ChainValueKeepsFields(others);
      ChainValueConcat(nodes, others);
      return this;
    }

    /**
     * `groupless!`: delete the capturing keys of this node, then strip the
     * nested payload and, behind the same test, the successor chain.
     */
    method GrouplessBang(ghost nodes: seq<PatternNode>) returns (r: Result<PatternNode, Error>)
      requires IsChain(nodes) && nodes[0] == this
      modifies set i | 0 <= i < |nodes| :: nodes[i]
      ensures IsChain(nodes)
      ensures r.Ok? <==> Strip.GrouplessBang(old(ChainValue(nodes))).Ok?
      ensures r.Ok? ==> r.value == this && ChainValue(nodes) == Strip.GrouplessBang(old(ChainValue(nodes))).value
      decreases |nodes|
    {
      ghost var before := ChainValue(nodes);
      arguments := Strip.StripCaptureAttributes(arguments);
      match payload {
        case Source(_) =>
          ChainValueOfFirst(nodes);
          return Ok(this);
        case Nested(q) =>
          var stripped := Strip.GrouplessBang(q);
          if stripped.Err? {
            return Err(stripped.error);
          }
          payload := Nested(stripped.value);
          if nextPattern == null {
            return Err(NilSuccessor);
          }
          ghost var rest := nodes[1..];
          assert IsChain(rest) && rest[0] == nextPattern;
          var strippedNext := nextPattern.GrouplessBang(rest);
          if strippedNext.Err? {
            return Err(strippedNext.error);
          }
          assert IsChain(nodes);
          ChainValueOfFirst(nodes);
          return Ok(this);
      }
    }
  }

  /** `nodes` are linked in order through `nextPattern`, all distinct, the last one without successor. */
  ghost predicate IsChain(nodes: seq<PatternNode>)
    reads set i | 0 <= i < |nodes| :: nodes[i]
  {
    |nodes| > 0
    && (forall i, j :: 0 <= i < j < |nodes| ==> nodes[i] != nodes[j])
    && (forall i :: 0 <= i < |nodes| - 1 ==> nodes[i].nextPattern == nodes[i + 1])
    && nodes[|nodes| - 1].nextPattern == null
  }

  /** The value a chain of objects stands for. */
  ghost function ChainValue(nodes: seq<PatternNode>): Pattern
    requires |nodes| > 0
    reads set i | 0 <= i < |nodes| :: nodes[i]
    decreases |nodes|
  {
    var n := nodes[0];
    Pattern(n.payload, n.arguments, n.atLeast, n.atMost,
            if |nodes| == 1 then None else Some(ChainValue(nodes[1..])))
  }

  /** The value of a chain does not depend on the `nextPattern` fields, only on the order of `nodes`. */
  twostate lemma ChainValueKeepsFields(nodes: seq<PatternNode>)
    requires |nodes| > 0
    requires forall i :: 0 <= i < |nodes| ==>
      nodes[i].payload == old(nodes[i].payload) && nodes[i].arguments == old(nodes[i].arguments)
      && nodes[i].atLeast == old(nodes[i].atLeast) && nodes[i].atMost == old(nodes[i].atMost)
    ensures ChainValue(nodes) == old(ChainValue(nodes))
    decreases |nodes|
  {
    if |nodes| > 1 {
      ChainValueKeepsFields(nodes[1..]);
    }
  }

  /** Linking two chains appends their values. */
  lemma {:induction false} ChainValueConcat(nodes: seq<PatternNode>, others: seq<PatternNode>)
    requires |nodes| > 0 && |others| > 0
    ensures ChainValue(nodes + others) == Append(ChainValue(nodes), ChainValue(others))
    decreases |nodes|
  {
    var all := nodes + others;
    assert all[0] == nodes[0];
    if |nodes| == 1 {
      assert all[1..] == others;
    } else {
      assert all[1..] == nodes[1..] + others;
      ChainValueConcat(nodes[1..], others);
    }
  }

  lemma ChainValueOfFirst(nodes: seq<PatternNode>)
    requires |nodes| > 0
    ensures ChainValue(nodes).payload == nodes[0].payload
    ensures ChainValue(nodes).arguments == nodes[0].arguments
    ensures ChainValue(nodes).atLeast == nodes[0].atLeast && ChainValue(nodes).atMost == nodes[0].atMost
    ensures ChainValue(nodes).next == if |nodes| == 1 then None else Some(ChainValue(nodes[1..]))
  {
  }
}
