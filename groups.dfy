/**
 * `collect_group_attributes`: the numbering of capture groups, in pre-order
 * over a node, its nested payload and its successor, and `groupless?`.
 */
module Groups {
  import opened Wrappers
  import opened Patterns

  /** One entry of the registry: `{group: n}` merged with the node's arguments. */
  datatype Group = Group(number: nat, attributes: Attributes)

  /** The default first number: 0 when the outer group is elided, 1 otherwise. */
  function DefaultStart(p: Pattern): (n: nat)
    ensures n == 0 <==> OptimizeOuterGroup(p)
    ensures n <= 1
  {
    if OptimizeOuterGroup(p) then 0 else 1
  }

  /** `collect_group_attributes(next_group)`. */
  function CollectGroups(p: Pattern, start: nat): (r: seq<Group>)
    decreases p
  {
    var own := OwnGroup(p, start);
    var inner := InnerGroups(p, start + |own|);
    own + inner + RestGroups(p, start + |own| + |inner|)
  }

  /** The entry of the node itself, if it captures. */
  function OwnGroup(p: Pattern, start: nat): seq<Group> {
    if NeedsToCapture(p.arguments) then [Group(start, p.arguments)] else []
  }

  /** The entries of the nested payload, numbered from `start`. */
  function InnerGroups(p: Pattern, start: nat): (r: seq<Group>)
    decreases p, 0
  {
    match p.payload
    case Nested(q) => CollectGroups(q, start)
    case Source(_) => []
  }

  /** The entries of the successor chain, numbered from `start`. */
  function RestGroups(p: Pattern, start: nat): (r: seq<Group>)
    decreases p, 0
  {
    match p.next
    case Some(n) => CollectGroups(n, start)
    case None => []
  }

  /** The entries are numbered consecutively from `start`, and every entry captures. */
  predicate NumberedFrom(r: seq<Group>, start: nat) {
    forall i :: 0 <= i < |r| ==> r[i].number == start + i && NeedsToCapture(r[i].attributes)
  }

  lemma NumberedConcat(xs: seq<Group>, ys: seq<Group>, start: nat)
    requires NumberedFrom(xs, start) && NumberedFrom(ys, start + |xs|)
    ensures NumberedFrom(xs + ys, start)
  {
    forall i | |xs| <= i < |xs + ys| ensures (xs + ys)[i] == ys[i - |xs|] {
    }
  }

  lemma {:induction false} CollectGroupsNumbered(p: Pattern, start: nat)
    ensures NumberedFrom(CollectGroups(p, start), start)
    decreases p, 1
  {
    var own := OwnGroup(p, start);
    var inner := InnerGroups(p, start + |own|);
    var rest := RestGroups(p, start + |own| + |inner|);
    if NeedsToCapture(p.arguments) {
      assert own == [Group(start, p.arguments)];
    }
    InnerGroupsNumbered(p, start + |own|);
    RestGroupsNumbered(p, start + |own| + |inner|);
    NumberedConcat(own, inner, start);
    NumberedConcat(own + inner, rest, start);
  }

  lemma {:induction false} InnerGroupsNumbered(p: Pattern, start: nat)
    ensures NumberedFrom(InnerGroups(p, start), start)
    decreases p, 0
  {
    if p.payload.Nested? {
      CollectGroupsNumbered(p.payload.pattern, start);
    }
  }

  lemma {:induction false} RestGroupsNumbered(p: Pattern, start: nat)
    ensures NumberedFrom(RestGroups(p, start), start)
    decreases p, 0
  {
    if p.next.Some? {
      CollectGroupsNumbered(p.next.value, start);
    }
  }

  /** The registry of a top-level call, which starts from the default number. */
  function TopLevelGroups(p: Pattern): seq<Group> {
    CollectGroups(p, DefaultStart(p))
  }

  /**
   * The same pass as the source writes it: an accumulating array and a
   * running `next_group` counter.
   */
  method CollectGroupAttributes(p: Pattern, nextGroup: nat) returns (groups: seq<Group>)
    ensures groups == CollectGroups(p, nextGroup)
    decreases p
  {
    var counter := nextGroup;
    var own: seq<Group> := [];
    if NeedsToCapture(p.arguments) {
      own := [Group(counter, p.arguments)];
      counter := counter + 1;
    }
    assert own == OwnGroup(p, nextGroup);
    var inner: seq<Group> := [];
    if p.payload.Nested? {
      inner := CollectGroupAttributes(p.payload.pattern, counter);
      counter := counter + |inner|;
    }
    assert inner == InnerGroups(p, nextGroup + |own|);
    var rest: seq<Group> := [];
    if p.next.Some? {
      rest := CollectGroupAttributes(p.next.value, counter);
    }
    assert rest == RestGroups(p, nextGroup + |own| + |inner|);
    groups := own + inner + rest;
  }

  // ---------------------------------------------------------------------
  // An independent description: the capturing nodes in pre-order
  // ---------------------------------------------------------------------

  /** The arguments of every node of the tree: self, then the nested payload, then the successor. */
  function PreOrder(p: Pattern): seq<Attributes>
    decreases p, 1
  {
    [p.arguments] + InnerPreOrder(p) + RestPreOrder(p)
  }

  function InnerPreOrder(p: Pattern): seq<Attributes>
    decreases p, 0
  {
    match p.payload case Nested(q) => PreOrder(q) case Source(_) => []
  }

  function RestPreOrder(p: Pattern): seq<Attributes>
    decreases p, 0
  {
    match p.next case Some(n) => PreOrder(n) case None => []
  }

  /** The capturing entries of a list of arguments, in order. */
  function Capturing(s: seq<Attributes>): seq<Attributes>
    decreases |s|
  {
    if s == [] then []
    else (if NeedsToCapture(s[0]) then [s[0]] else []) + Capturing(s[1..])
  }

  lemma {:induction false} CapturingConcat(a: seq<Attributes>, b: seq<Attributes>)
    ensures Capturing(a + b) == Capturing(a) + Capturing(b)
    decreases |a|
  {
    if a != [] {
      assert (a + b)[0] == a[0] && (a + b)[1..] == a[1..] + b;
      CapturingConcat(a[1..], b);
    } else {
      assert a + b == b;
    }
  }

  function Attrs(gs: seq<Group>): seq<Attributes>
    decreases |gs|
  {
    if gs == [] then [] else [gs[0].attributes] + Attrs(gs[1..])
  }

  lemma {:induction false} AttrsConcat(a: seq<Group>, b: seq<Group>)
    ensures Attrs(a + b) == Attrs(a) + Attrs(b)
    decreases |a|
  {
    if a != [] {
      assert (a + b)[0] == a[0] && (a + b)[1..] == a[1..] + b;
      AttrsConcat(a[1..], b);
    } else {
      assert a + b == b;
    }
  }

  lemma {:induction false} AttrsLength(gs: seq<Group>)
    ensures |Attrs(gs)| == |gs|
    decreases |gs|
  {
    if gs != [] {
      AttrsLength(gs[1..]);
    }
  }

  /**
   * The registry lists exactly the capturing nodes of the tree, in
   * pre-order (the numbers are consecutive from the start value by the
   * contract of CollectGroups).
   */
  lemma {:induction false} CollectGroupsIsPreOrder(p: Pattern, start: nat)
    ensures Attrs(CollectGroups(p, start)) == Capturing(PreOrder(p))
    decreases p, 1
  {
    var own := OwnGroup(p, start);
    var inner := InnerGroups(p, start + |own|);
    var rest := RestGroups(p, start + |own| + |inner|);
    assert CollectGroups(p, start) == own + inner + rest;
    assert PreOrder(p) == [p.arguments] + InnerPreOrder(p) + RestPreOrder(p);
    OwnIsCapturing(p, start);
    InnerIsPreOrder(p, start + |own|);
    RestIsPreOrder(p, start + |own| + |inner|);
    CombinePieces(own, inner, rest, [p.arguments], InnerPreOrder(p), RestPreOrder(p));
  }

  lemma OwnIsCapturing(p: Pattern, start: nat)
    ensures Attrs(OwnGroup(p, start)) == Capturing([p.arguments])
  {
    assert Capturing([p.arguments]) == (if NeedsToCapture(p.arguments) then [p.arguments] else []) + Capturing([]);
  }

  lemma CombinePieces(own: seq<Group>, inner: seq<Group>, rest: seq<Group>,
                      a: seq<Attributes>, b: seq<Attributes>, c: seq<Attributes>)
    requires Attrs(own) == Capturing(a) && Attrs(inner) == Capturing(b) && Attrs(rest) == Capturing(c)
    ensures Attrs(own + inner + rest) == Capturing(a + b + c)
  {
    AttrsConcat(own + inner, rest);
    AttrsConcat(own, inner);
    CapturingConcat(a + b, c);
    CapturingConcat(a, b);
  }

  lemma {:induction false} InnerIsPreOrder(p: Pattern, start: nat)
    ensures Attrs(InnerGroups(p, start)) == Capturing(InnerPreOrder(p))
    decreases p, 0
  {
    match p.payload {
      case Nested(q) => CollectGroupsIsPreOrder(q, start);
      case Source(_) =>
    }
  }

  lemma {:induction false} RestIsPreOrder(p: Pattern, start: nat)
    ensures Attrs(RestGroups(p, start)) == Capturing(RestPreOrder(p))
    decreases p, 0
  {
    match p.next {
      case Some(n) => CollectGroupsIsPreOrder(n, start);
      case None =>
    }
  }

  /** There is one entry per capturing node, whatever the start value. */
  lemma CollectGroupsCount(p: Pattern, start: nat)
    ensures |CollectGroups(p, start)| == |Capturing(PreOrder(p))|
  {
    CollectGroupsIsPreOrder(p, start);
    AttrsLength(CollectGroups(p, start));
  }

  /** The registry does not depend on the start value except through the numbers. */
  lemma {:induction false} CollectGroupsShift(p: Pattern, a: nat, b: nat)
    ensures |CollectGroups(p, a)| == |CollectGroups(p, b)|
    ensures Attrs(CollectGroups(p, a)) == Attrs(CollectGroups(p, b))
  {
    CollectGroupsCount(p, a);
    CollectGroupsCount(p, b);
    CollectGroupsIsPreOrder(p, a);
    CollectGroupsIsPreOrder(p, b);
  }

  /** `groupless?`: the top-level registry is empty. */
  predicate IsGroupless(p: Pattern) {
    TopLevelGroups(p) == []
  }

  /** `groupless?` holds exactly when no node of the tree needs to capture. */
  lemma {:induction false} GrouplessIff(p: Pattern)
    ensures IsGroupless(p) <==> forall i :: 0 <= i < |PreOrder(p)| ==> !NeedsToCapture(PreOrder(p)[i])
  {
    CollectGroupsCount(p, DefaultStart(p));
    NoCapturingIff(PreOrder(p));
  }

  lemma {:induction false} NoCapturingIff(s: seq<Attributes>)
    ensures Capturing(s) == [] <==> forall i :: 0 <= i < |s| ==> !NeedsToCapture(s[i])
    decreases |s|
  {
    if s != [] {
      NoCapturingIff(s[1..]);
      assert forall i :: 1 <= i < |s| ==> s[i] == s[1..][i - 1];
    }
  }

  /** Appending a chain appends its capturing nodes after the receiver's. */
  lemma {:induction false} PreOrderAppend(a: Pattern, b: Pattern)
    ensures PreOrder(Append(a, b)) == PreOrder(a) + PreOrder(b)
    decreases a
  {
    var inner := InnerPreOrder(a);
    assert InnerPreOrder(Append(a, b)) == inner;
    match a.next {
      case None =>
        assert PreOrder(Append(a, b)) == [a.arguments] + inner + PreOrder(b);
      case Some(n) =>
        PreOrderAppend(n, b);
        assert PreOrder(Append(a, b)) == [a.arguments] + inner + PreOrder(Append(n, b));
    }
  }

  /** Cloning keeps every node's arguments, so the registry of a clone is the same. */
  lemma {:induction false} PreOrderClone(p: Pattern)
    ensures PreOrder(Clone(p)) == PreOrder(p)
    decreases p
  {
    match p.payload {
      case Nested(q) => PreOrderClone(q);
      case Source(_) =>
    }
    match p.next {
      case Some(n) => PreOrderClone(n);
      case None =>
    }
    assert InnerPreOrder(Clone(p)) == InnerPreOrder(p);
    assert RestPreOrder(Clone(p)) == RestPreOrder(p);
  }

  /** Three capturing nodes chained with `then` are numbered 1, 2, 3. */
  lemma ThreeCapturingNodes(a: Pattern, b: Pattern, c: Pattern)
    requires NeedsToCapture(a.arguments) && NeedsToCapture(b.arguments) && NeedsToCapture(c.arguments)
    requires a.payload.Source? && b.payload.Source? && c.payload.Source?
    requires a.next.None? && b.next.None? && c.next.None?
    ensures var chain := Insert(Insert(a, b), c);
      TopLevelGroups(chain) == [Group(1, a.arguments), Group(2, b.arguments), Group(3, c.arguments)]
  {
    var a' := a.(atLeast := None, atMost := None);
    var b' := b.(atLeast := None, atMost := None);
    var ab := Insert(a, b);
    var chain := Insert(ab, c);
    assert ab == a'.(next := Some(b));
    assert Clone(ab) == a'.(next := Some(b'));
    assert Append(b', c) == b'.(next := Some(c));
    assert chain == a'.(next := Some(b'.(next := Some(c))));
    assert !OptimizeOuterGroup(chain);
    assert CollectGroups(c, 3) == [Group(3, c.arguments)];
    assert CollectGroups(b'.(next := Some(c)), 2) == [Group(2, b.arguments)] + CollectGroups(c, 3);
    assert CollectGroups(chain, 1) == [Group(1, a.arguments)] + CollectGroups(b'.(next := Some(c)), 2);
  }

  /** A single capturing node without successor is numbered from 0. */
  lemma SoleCapturingNode(a: Pattern)
    requires NeedsToCapture(a.arguments) && a.payload.Source? && a.next.None?
    ensures TopLevelGroups(a) == [Group(0, a.arguments)]
  {
    assert CollectGroups(a, 0) == OwnGroup(a, 0) + InnerGroups(a, 1) + RestGroups(a, 1);
  }
}
