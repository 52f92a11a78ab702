/**
 * The Pattern node: its payload (`@match`), its attribute hash (`@arguments`),
 * the quantity bounds `@at_least`/`@at_most`, and its successor
 * (`@next_pattern`). Construction, chaining and cloning on values.
 */
module Patterns {
  import opened Wrappers
  import opened RegexText
  import opened RegexScan

  /**
   * The recognised keys of `@arguments`. `Some` means the key is present.
   * `dontBackTrack` is true exactly when `:dont_back_track?` maps to `true`.
   */
  datatype Attributes = Attributes(
    tagAs: Option<string>,
    reference: Option<string>,
    includes: Option<seq<string>>,
    atLeast: Option<nat>,
    atMost: Option<nat>,
    howManyTimes: Option<nat>,
    dontBackTrack: bool)

  const NoAttributes := Attributes(None, None, None, None, None, None, false)

  /** What `@match` holds after construction: regex source text, or a nested pattern. */
  datatype Payload = Source(regex: string) | Nested(pattern: Pattern)

  /** A node of a chain; `next` is `@next_pattern`. */
  datatype Pattern = Pattern(
    payload: Payload,
    arguments: Attributes,
    atLeast: Option<nat>,
    atMost: Option<nat>,
    next: Option<Pattern>)

  /** The value given as `:match` (or alone) to `Pattern.new`. */
  datatype Argument =
    | Text(text: string)          // a Ruby String: escaped
    | Fragment(source: string)    // a Ruby Regexp, as its source text
    | Node(pattern: Pattern)      // a Pattern: nested
    | Unsupported                 // anything else

  /** The argument of `then`: an existing Pattern, or what `Pattern.new` is called with. */
  datatype Operand = Existing(pattern: Pattern) | Build(argument: Argument, attributes: Attributes)

  /** The errors the engine raises. */
  datatype Error =
    | InvalidMatchPayload                 // Pattern.new with neither String, Regexp nor Pattern
    | CapturingFragment(source: string)   // a Regexp payload with a capturing group; the source
                                          // raises while building its message, as @arguments is unset
    | UnknownBackreference(name: string)  // [:backreference:name:] with no such reference
    | UnknownSubroutine(name: string)     // [:subroutine:name:] with no such reference
    | MissingCaptureName(group: nat)      // a captured group without tag_as reaches gsub!
    | UnknownNameReference(name: string)  // $reference(name) in a tag with no such reference
    | NilSuccessor                        // groupless! on a nested node without successor

  // ---------------------------------------------------------------------
  // Helpers of the source
  // ---------------------------------------------------------------------

  /** `needs_to_capture?`: one of the capturing keys is present. */
  predicate NeedsToCapture(a: Attributes) {
    a.tagAs.Some? || a.reference.Some? || a.includes.Some?
  }

  /** `optimize_outer_group?`: a capturing node with no successor. */
  predicate OptimizeOuterGroup(p: Pattern) {
    NeedsToCapture(p.arguments) && p.next.None?
  }

  /** `initialize`: dispatch on the payload; the bounds start unset. */
  function New(arg: Argument, attributes: Attributes): (r: Result<Pattern, Error>)
    ensures r.Err? <==> arg.Unsupported? || (arg.Fragment? && HasCapturingGroup(arg.source))
    ensures arg.Unsupported? ==> r == Err(InvalidMatchPayload)
    ensures r.Ok? ==> r.value.arguments == attributes && r.value.next.None?
                      && r.value.atLeast.None? && r.value.atMost.None?
    ensures r.Ok? && arg.Text? ==> r.value.payload == Source(Escape(arg.text))
    ensures r.Ok? && arg.Fragment? ==> r.value.payload == Source(arg.source)
    ensures r.Ok? && arg.Node? ==> r.value.payload == Nested(arg.pattern)
  {
    match arg
    case Text(t) => Ok(Pattern(Source(Escape(t)), attributes, None, None, None))
    case Fragment(src) =>
      if HasCapturingGroup(src) then Err(CapturingFragment(src))
      else Ok(Pattern(Source(src), attributes, None, None, None))
    case Node(q) => Ok(Pattern(Nested(q), attributes, None, None, None))
    case Unsupported => Err(InvalidMatchPayload)
  }

  /** The bounds `process_quantifiers_from_arguments` derives from the arguments. */
  function QuantityBounds(a: Attributes): (bounds: (Option<nat>, Option<nat>))
    ensures a.howManyTimes.Some? ==> bounds.0 == bounds.1 == a.howManyTimes
    ensures a.howManyTimes.None? ==> bounds == (a.atLeast, a.atMost)
  {
    if a.howManyTimes.Some? then (a.howManyTimes, a.howManyTimes) else (a.atLeast, a.atMost)
  }

  /**
   * `process_quantifiers_from_arguments` on a plain Pattern, for which
   * quantifying is always allowed: it sets `@at_least` and `@at_most`.
   */
  function ProcessQuantifiersFromArguments(p: Pattern): (r: Pattern)
    ensures (r.atLeast, r.atMost) == QuantityBounds(p.arguments)
    ensures r.(atLeast := p.atLeast, atMost := p.atMost) == p
  {
    var bounds := QuantityBounds(p.arguments);
    p.(atLeast := bounds.0, atMost := bounds.1)
  }

  // ---------------------------------------------------------------------
  // Chains
  // ---------------------------------------------------------------------

  /** The nodes of a chain in order, each cut off from its successor. */
  function ChainNodes(p: Pattern): (r: seq<Pattern>)
    ensures |r| > 0 && r[0] == p.(next := None)
    decreases p
  {
    [p.(next := None)] + (match p.next case None => [] case Some(n) => ChainNodes(n))
  }

  /** The node `insert!` walks to: the one without successor. */
  function Last(p: Pattern): (r: Pattern)
    ensures r.next.None?
    ensures r == ChainNodes(p)[|ChainNodes(p)| - 1]
    decreases p
  {
    match p.next
    case None => p
    case Some(n) => Last(n)
  }

  /** `insert!` on values: `b` becomes the successor of the last node of `a`. */
  function Append(a: Pattern, b: Pattern): (r: Pattern)
    ensures ChainNodes(r) == ChainNodes(a) + ChainNodes(b)
    decreases a
  {
    match a.next
    case None => a.(next := Some(b))
    case Some(n) => a.(next := Some(Append(n, b)))
  }

  /** No node of the tree has `@at_least` or `@at_most` set. */
  predicate NoBounds(p: Pattern)
    decreases p
  {
    p.atLeast.None? && p.atMost.None?
    && (match p.payload case Nested(q) => NoBounds(q) case Source(_) => true)
    && (match p.next case Some(n) => NoBounds(n) case None => true)
  }

  /**
   * `__deep_clone__`: rebuilds every node through `initialize`, which copies
   * the payload and the arguments but leaves `@at_least`/`@at_most` unset.
   */
  function Clone(p: Pattern): (r: Pattern)
    ensures NoBounds(r)
    ensures r.arguments == p.arguments
    ensures r.payload.Source? <==> p.payload.Source?
    ensures p.payload.Source? ==> r.payload == p.payload
    ensures r.next.Some? <==> p.next.Some?
    decreases p
  {
    Pattern(
      match p.payload case Source(s) => Source(s) case Nested(q) => Nested(Clone(q)),
      p.arguments, None, None,
      match p.next case None => None case Some(n) => Some(Clone(n)))
  }

  /** On a tree whose bounds are unset, as every tree `Pattern.new` builds, cloning changes nothing. */
  lemma {:induction false} CloneWithoutBounds(p: Pattern)
    requires NoBounds(p)
    ensures Clone(p) == p
    decreases p
  {
    match p.payload {
      case Nested(q) => CloneWithoutBounds(q);
      case Source(_) =>
    }
    match p.next {
      case Some(n) => CloneWithoutBounds(n);
      case None =>
    }
  }

  /** Cloning a clone gives the same clone. */
  lemma CloneIdempotent(p: Pattern)
    ensures Clone(Clone(p)) == Clone(p)
  {
    CloneWithoutBounds(Clone(p));
  }

  /** Cloning forgets bounds that `process_quantifiers_from_arguments` has set. */
  lemma CloneForgetsBounds()
    ensures var p := ProcessQuantifiersFromArguments(
              Pattern(Source("a"), NoAttributes.(atLeast := Some(0)), None, None, None));
            p.atLeast == Some(0) && Clone(p).atLeast.None?
  {
  }

  /** `insert`: a clone of the receiver with `q` appended; the receiver is a value and stays as it is. */
  function Insert(p: Pattern, q: Pattern): (r: Pattern)
    ensures ChainNodes(r) == ChainNodes(Clone(p)) + ChainNodes(q)
  {
    Append(Clone(p), q)
  }

  /** `then`: like `insert`, coercing anything but a Pattern with `Pattern.new`. */
  function Then(p: Pattern, operand: Operand): (r: Result<Pattern, Error>)
    ensures operand.Existing? ==> r == Ok(Insert(p, operand.pattern))
    ensures operand.Build? ==>
      (r.Ok? <==> New(operand.argument, operand.attributes).Ok?)
    ensures operand.Build? && r.Ok? ==>
      ChainNodes(r.value) == ChainNodes(Clone(p)) + [New(operand.argument, operand.attributes).value]
  {
    match operand
    case Existing(q) => Ok(Insert(p, q))
    case Build(arg, attributes) =>
      var q :- New(arg, attributes);
      Ok(Insert(p, q))
  }

  /** A chain built by `then` is as long as the receiver's chain plus the appended chain. */
  lemma {:induction false} ThenLength(p: Pattern, q: Pattern)
    ensures |ChainNodes(Insert(p, q))| == |ChainNodes(p)| + |ChainNodes(q)|
  {
    CloneChainLength(p);
  }

  lemma {:induction false} CloneChainLength(p: Pattern)
    ensures |ChainNodes(Clone(p))| == |ChainNodes(p)|
    decreases p
  {
    if p.next.Some? {
      CloneChainLength(p.next.value);
    }
  }
}
