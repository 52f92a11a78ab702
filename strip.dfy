/**
 * `groupless?`, `groupless!` and `groupless`: removing the capturing keys
 * from a pattern so that it contributes no groups.
 */
module Strip {
  import opened Wrappers
  import opened Patterns
  import opened Groups

  /** The three `@arguments.delete` calls: only `tag_as`, `reference` and `includes` go. */
  function StripCaptureAttributes(a: Attributes): (r: Attributes)
    ensures !NeedsToCapture(r)
    ensures r.(tagAs := a.tagAs, reference := a.reference, includes := a.includes) == a
  {
    a.(tagAs := None, reference := None, includes := None)
  }

  /**
   * `groupless!` as written: strip this node, then the nested payload, then
   * the successor; both recursions sit behind the test whether the payload is
   * a Pattern, and a nested node without successor raises on the nil receiver.
   */
  function GrouplessBang(p: Pattern): Result<Pattern, Error>
    decreases p
  {
    var arguments := StripCaptureAttributes(p.arguments);
    match p.payload
    case Source(_) => Ok(p.(arguments := arguments))
    case Nested(q) =>
      var strippedPayload :- GrouplessBang(q);
      if p.next.None? then Err(NilSuccessor)
      else
        var strippedNext :- GrouplessBang(p.next.value);
        Ok(Pattern(Nested(strippedPayload), arguments, p.atLeast, p.atMost, Some(strippedNext)))
  }

  /** `groupless`: `groupless!` on a deep clone. */
  function Groupless(p: Pattern): Result<Pattern, Error> {
    GrouplessBang(Clone(p))
  }

  /** The nodes `groupless!` reaches: every nested node has a successor to continue with. */
  predicate Strippable(p: Pattern)
    decreases p
  {
    match p.payload
    case Source(_) => true
    case Nested(q) => Strippable(q) && p.next.Some? && Strippable(p.next.value)
  }

  /** Every source node ends its chain, so `groupless!` reaches every node. */
  predicate SourcesEndChains(p: Pattern)
    decreases p
  {
    match p.payload
    case Source(_) => p.next.None?
    case Nested(q) => SourcesEndChains(q) && (p.next.Some? ==> SourcesEndChains(p.next.value))
  }

  /** No node of the tree captures. */
  predicate NoneCapture(p: Pattern)
    decreases p
  {
    !NeedsToCapture(p.arguments)
    && (match p.payload case Nested(q) => NoneCapture(q) case Source(_) => true)
    && (match p.next case Some(n) => NoneCapture(n) case None => true)
  }

  lemma {:induction false} NoneCaptureHasNoGroups(p: Pattern, start: nat)
    requires NoneCapture(p)
    ensures CollectGroups(p, start) == []
    decreases p
  {
    match p.payload {
      case Nested(q) => NoneCaptureHasNoGroups(q, start);
      case Source(_) =>
    }
    match p.next {
      case Some(n) => NoneCaptureHasNoGroups(n, start);
      case None =>
    }
  }

  /** `groupless!` succeeds exactly on the trees in which it never reaches a nil successor. */
  lemma {:induction false} GrouplessBangSucceeds(p: Pattern)
    ensures GrouplessBang(p).Ok? <==> Strippable(p)
    ensures GrouplessBang(p).Err? ==> GrouplessBang(p).error == NilSuccessor
    decreases p
  {
    match p.payload {
      case Source(_) =>
      case Nested(q) =>
        GrouplessBangSucceeds(q);
        if p.next.Some? {
          GrouplessBangSucceeds(p.next.value);
        }
    }
  }

  /**
   * When every node is reached, the result is groupless; the bounds, the
   * source payloads and the shape of the tree are kept.
   */
  lemma {:induction false} GrouplessBangClearsGroups(p: Pattern)
    requires SourcesEndChains(p) && GrouplessBang(p).Ok?
    ensures NoneCapture(GrouplessBang(p).value)
    ensures IsGroupless(GrouplessBang(p).value)
    decreases p
  {
    var r := GrouplessBang(p).value;
    match p.payload {
      case Source(_) =>
      case Nested(q) =>
        GrouplessBangClearsGroups(q);
        GrouplessBangClearsGroups(p.next.value);
    }
    NoneCaptureHasNoGroups(r, DefaultStart(r));
  }

  /** A node whose payload is text is stripped itself; its successor is left as it was. */
  lemma SourceNodeKeepsSuccessor(p: Pattern)
    requires p.payload.Source?
    ensures GrouplessBang(p).Ok?
    ensures !NeedsToCapture(GrouplessBang(p).value.arguments)
    ensures GrouplessBang(p).value.next == p.next
    ensures GrouplessBang(p).value.payload == p.payload
  {
  }

  /** So a capturing successor of a text node keeps its group: the result is not groupless. */
  lemma CapturingSuccessorSurvives(a: Pattern, b: Pattern)
    requires a.payload.Source? && a.next.None?
    requires NeedsToCapture(b.arguments)
    ensures GrouplessBang(Append(a, b)).Ok?
    ensures !IsGroupless(GrouplessBang(Append(a, b)).value)
  {
    var ab := Append(a, b);
    assert ab == a.(next := Some(b));
    SourceNodeKeepsSuccessor(ab);
    var r := GrouplessBang(ab).value;
    assert DefaultStart(r) == 1;
    assert OwnGroup(r, 1) == [] && InnerGroups(r, 1) == [];
    assert RestGroups(r, 1) == CollectGroups(b, 1);
    assert OwnGroup(b, 1) == [Group(1, b.arguments)];
    assert |CollectGroups(b, 1)| > 0;
  }

  /** A nested node at the end of a chain makes `groupless!` raise after stripping its payload. */
  lemma NestedLastNodeRaises(q: Pattern, a: Attributes)
    requires Strippable(q)
    ensures GrouplessBang(Pattern(Nested(q), a, None, None, None)) == Err(NilSuccessor)
  {
    GrouplessBangSucceeds(q);
  }

  lemma {:induction false} GrouplessBangKeepsNoBounds(p: Pattern)
    requires NoBounds(p) && GrouplessBang(p).Ok?
    ensures NoBounds(GrouplessBang(p).value)
    decreases p
  {
    match p.payload {
      case Source(_) =>
      case Nested(q) =>
        GrouplessBangKeepsNoBounds(q);
        GrouplessBangKeepsNoBounds(p.next.value);
    }
  }

  /** `groupless` works on a clone, so its result carries no quantity bounds at all. */
  lemma GrouplessDropsBounds(p: Pattern)
    requires Groupless(p).Ok?
    ensures NoBounds(Groupless(p).value)
  {
    GrouplessBangKeepsNoBounds(Clone(p));
  }
}
