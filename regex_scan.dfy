/**
 * The single-entity classifier `is_string_single_entity?` and the static
 * capture-group probe used when a Regexp payload is accepted.
 *
 * Both read a regex source left to right, tracking nesting depth, a pending
 * backslash escape and whether a `[...]` class is open.
 */
module RegexScan {
  import opened RegexText

  datatype ScanState = ScanState(depth: int, escaped: bool, inSet: bool)

  /** The state before the first character: depth 0, nothing pending. */
  const Start := ScanState(0, false, false)

  /** One iteration of the scanning loop on character `c`. */
  function Step(st: ScanState, c: char): ScanState {
    if st.escaped then st.(escaped := false)
    else if c == '\\' then st.(escaped := true)
    else if st.inSet then (if c == ']' then st.(inSet := false, depth := st.depth - 1) else st)
    else if c == '(' then st.(depth := st.depth + 1)
    else if c == ')' then st.(depth := st.depth - 1)
    else if c == '[' then st.(depth := st.depth + 1, inSet := true)
    else st
  }

  /** The state after scanning all of `s` from `st`. */
  function Run(st: ScanState, s: string): ScanState
    decreases |s|
  {
    if s == [] then st else Step(Run(st, s[..|s| - 1]), s[|s| - 1])
  }

  /** The shortcut taken before the scan: a backslash and one more character. */
  predicate TwoCharEscape(s: string) {
    |s| == 2 && s[0] == '\\'
  }

  /** The scan never returns to depth 0 before the last character. */
  predicate StaysNested(s: string) {
    forall i :: 0 < i < |s| ==> Run(Start, s[..i]).depth != 0
  }

  /**
   * Whether a regex is one entity: a two-character escape, or a scan that
   * stays nested until the last character and ends at depth 0 with no
   * pending escape and no open class. An unsettled end counts as "not one
   * entity"; this is the answer the rest of the model uses.
   */
  predicate IsSingleEntity(s: string) {
    TwoCharEscape(s) || (StaysNested(s) && Run(Start, s) == Start)
  }

  /** What a call of `is_string_single_entity?` does: answer, or raise from the diagnostic. */
  datatype ScanOutcome = Decided(single: bool) | DiagnosticRaises

  /**
   * `is_string_single_entity?` as written: an unsettled end reaches the
   * diagnostic, whose interpolation of the undefined `escaped?` raises
   * NoMethodError before `return false` is reached.
   */
  function ScanAsWritten(s: string): (r: ScanOutcome)
    ensures r.Decided? ==> r.single == IsSingleEntity(s)
    ensures r == DiagnosticRaises ==> !IsSingleEntity(s)
  {
    if TwoCharEscape(s) then Decided(true)
    else if !StaysNested(s) then Decided(false)
    else if Run(Start, s) != Start then DiagnosticRaises
    else Decided(true)
  }

  /** The scanning loop of `is_string_single_entity?`. */
  method IsStringSingleEntity(regexString: string) returns (r: ScanOutcome)
    ensures r == ScanAsWritten(regexString)
    ensures r != DiagnosticRaises ==> r == Decided(IsSingleEntity(regexString))
  {
    if |regexString| == 2 && regexString[0] == '\\' {
      return Decided(true);
    }
    var escaped := false;
    var inSet := false;
    var depth := 0;
    var index := 0;
    while index < |regexString|
      invariant 0 <= index <= |regexString|
      invariant ScanState(depth, escaped, inSet) == Run(Start, regexString[..index])
      invariant forall i :: 0 < i < index ==> Run(Start, regexString[..i]).depth != 0
    {
      var c := regexString[index];
      // the depth is 0 between characters only once a first top-level entity is complete
      if depth == 0 && index != 0 {
        return Decided(false);
      }
      if escaped {
        escaped := false;
      } else if c == '\\' {
        escaped := true;
      } else if inSet {
        if c == ']' {
          inSet := false;
          depth := depth - 1;
        }
      } else if c == '(' {
        depth := depth + 1;
      } else if c == ')' {
        depth := depth - 1;
      } else if c == '[' {
        depth := depth + 1;
        inSet := true;
      }
      assert regexString[..index + 1][..index] == regexString[..index];
      index := index + 1;
    }
    assert regexString[..index] == regexString;
    // the sanity check: its diagnostic raises before `return false`
    if depth != 0 || escaped || inSet {
      return DiagnosticRaises;
    }
    return Decided(true);
  }

  // ---------------------------------------------------------------------
  // Facts about the scan
  // ---------------------------------------------------------------------

  lemma {:induction false} RunConcat(st: ScanState, a: string, b: string)
    ensures Run(st, a + b) == Run(Run(st, a), b)
    decreases |b|
  {
    if b == [] {
      assert a + b == a;
    } else {
      assert (a + b)[..|a + b| - 1] == a + b[..|b| - 1];
      RunConcat(st, a, b[..|b| - 1]);
    }
  }

  function Shift(st: ScanState, d: int): ScanState {
    st.(depth := st.depth + d)
  }

  /** Depth only ever moves by one, so a scan started deeper stays exactly as much deeper. */
  lemma {:induction false} RunShift(st: ScanState, d: int, s: string)
    ensures Run(Shift(st, d), s) == Shift(Run(st, s), d)
    decreases |s|
  {
    if s != [] {
      RunShift(st, d, s[..|s| - 1]);
    }
  }

  /** A two-character backslash escape is one entity. */
  lemma EscapePairIsSingleEntity(c: char)
    ensures IsSingleEntity(['\\', c])
  {
  }

  /** A single character is one entity unless it opens a group, a class or an escape, or closes a group. */
  lemma SingleCharacter(c: char)
    ensures IsSingleEntity([c]) <==> c != '\\' && c != '(' && c != ')' && c != '['
  {
    assert [c][..0] == [];
    assert Run(Start, [c]) == Step(Run(Start, []), c);
  }

  /** The scan fails when it ends unbalanced, escaped or inside a class (the sanity check). */
  lemma UnsettledEndIsNotSingleEntity(s: string)
    requires !(|s| == 2 && s[0] == '\\')
    requires Run(Start, s) != Start
    ensures !IsSingleEntity(s)
  {
  }

  /**
   * A Ruby regex comment holding a `[` is valid regex source without a
   * capturing group, so `Pattern.new` accepts it as a Regexp payload; the
   * scan then ends inside a class, where the source raises instead of
   * answering false.
   */
  lemma CommentWithBracketRaises()
    ensures !HasCapturingGroup("(?#[)")
    ensures ScanAsWritten("(?#[)") == DiagnosticRaises
    ensures !IsSingleEntity("(?#[)")
  {
    var s := "(?#[)";
    assert s[..1] == "(" && s[..2] == "(?" && s[..3] == "(?#" && s[..4] == "(?#[" && s[..5] == s;
    assert s[..2][..1] == s[..1] && s[..3][..2] == s[..2] && s[..4][..3] == s[..3] && s[..5][..4] == s[..4];
    assert Run(Start, s[..1]) == Step(Run(Start, []), '(');
    assert Run(Start, s[..2]) == Step(Run(Start, s[..1]), '?');
    assert Run(Start, s[..3]) == Step(Run(Start, s[..2]), '#');
    assert Run(Start, s[..4]) == Step(Run(Start, s[..3]), '[');
    assert Run(Start, s) == Step(Run(Start, s[..4]), ')');
    assert StaysNested(s);
    forall i | 0 <= i < |s| ensures !CapturingParenAt(s, i) {
      if i == 0 {
        assert s[1] == '?';
      } else {
        assert s[i] != '(';
      }
    }
  }

  /**
   * Two non-empty pieces side by side at the top level are not one entity:
   * after a settled prefix the scan is back at depth 0 before the next character.
   */
  lemma TopLevelSequenceIsNotSingleEntity(a: string, b: string)
    requires |a| > 0 && |b| > 0
    requires Run(Start, a) == Start
    ensures !IsSingleEntity(a + b)
  {
    var s := a + b;
    assert s[..|a|] == a;
  }

  lemma TwoLettersAreNotSingleEntity()
    ensures !IsSingleEntity("ab")
  {
    assert "ab" == "a" + "b";
    assert Run(Start, "a") == Step(Run(Start, []), 'a');
    TopLevelSequenceIsNotSingleEntity("a", "b");
  }

  lemma TwoGroupsAreNotSingleEntity()
    ensures !IsSingleEntity("(a)(b)")
  {
    var g := "(a)";
    assert g[..2][..1] == "(" && g[..2] == "(a" && g[..1][..0] == [] && g[..1] == "(";
    assert Run(Start, "(") == Step(Run(Start, []), '(');
    assert Run(Start, "(a") == Step(Run(Start, "("), 'a');
    assert Run(Start, g) == Step(Run(Start, "(a"), ')');
    assert "(a)(b)" == g + "(b)";
    TopLevelSequenceIsNotSingleEntity(g, "(b)");
  }

  // ---------------------------------------------------------------------
  // Balanced fragments and the non-capturing wrapper
  // ---------------------------------------------------------------------

  /**
   * A fragment whose scan never goes below depth 0 and ends settled.
   * Wrapping such a fragment in a group yields one entity.
   */
  predicate Balanced(m: string) {
    (forall k :: 0 <= k <= |m| ==> Run(Start, m[..k]).depth >= 0) && Run(Start, m) == Start
  }

  /** The three group openers the engine emits: capturing, non-capturing and atomic. */
  predicate IsGroupOpener(open: string) {
    open == "(" || open == "(?:" || open == "(?>"
  }

  lemma OpenerScan(open: string)
    requires IsGroupOpener(open)
    ensures forall k :: 0 < k <= |open| ==> Run(Start, open[..k]) == ScanState(1, false, false)
  {
    assert Run(Start, "(") == Step(Run(Start, []), '(');
    if open != "(" {
      assert open[..1] == "(" && open[..2][..1] == "(" && open[..3][..2] == open[..2];
      assert Run(Start, open[..2]) == Step(Run(Start, "("), open[1]);
      assert Run(Start, open[..3]) == Step(Run(Start, open[..2]), open[2]);
    }
  }

  /** A balanced fragment inside any group opener and `)` is a single entity. */
  lemma WrappedBalancedIsSingleEntity(open: string, m: string)
    requires IsGroupOpener(open) && Balanced(m)
    ensures IsSingleEntity(open + m + ")")
  {
    var w := open + m + ")";
    var inner := ScanState(1, false, false);
    OpenerScan(open);
    assert open[..|open|] == open;
    assert Shift(Start, 1) == inner;
    forall i | 0 < i < |w|
      ensures Run(Start, w[..i]).depth != 0
    {
      if i <= |open| {
        assert w[..i] == open[..i];
      } else {
        var k := i - |open|;
        assert w[..i] == open + m[..k];
        RunConcat(Start, open, m[..k]);
        RunShift(Start, 1, m[..k]);
      }
    }
    assert w == (open + m) + ")";
    RunConcat(Start, open, m);
    RunShift(Start, 1, m);
    assert m[..|m|] == m;
    assert Run(Start, open + m) == inner;
    assert w[..|w| - 1] == open + m;
  }

  lemma {:induction false} BalancedConcat(a: string, b: string)
    requires Balanced(a) && Balanced(b)
    ensures Balanced(a + b)
  {
    var s := a + b;
    forall k | 0 <= k <= |s|
      ensures Run(Start, s[..k]).depth >= 0
    {
      if k <= |a| {
        assert s[..k] == a[..k];
      } else {
        assert s[..k] == a + b[..k - |a|];
        assert a[..|a|] == a;
        RunConcat(Start, a, b[..k - |a|]);
      }
    }
    assert s[..|s|] == s && b[..|b|] == b;
    RunConcat(Start, a, b);
  }

  /** `Regexp.escape` of one character is balanced. */
  lemma EscapeCharBalanced(c: char)
    ensures Balanced(EscapeChar(c))
  {
    var e := EscapeChar(c);
    assert e[..0] == [];
    if IsMetaChar(c) {
      assert e[..1] == ['\\'] && e[..2] == e && e[..2][..1] == ['\\'];
      assert Run(Start, e[..1]) == Step(Run(Start, []), '\\');
    } else {
      assert e[..1] == e == [c];
      assert Run(Start, e) == Step(Run(Start, []), c);
    }
  }

  /** Escaped literal text is balanced: every metacharacter in it is neutralised by a backslash. */
  lemma {:induction false} EscapeBalanced(s: string)
    ensures Balanced(Escape(s))
    decreases |s|
  {
    if s == [] {
      assert Escape(s) == [] && Escape(s)[..0] == [];
    } else {
      EscapeCharBalanced(s[0]);
      EscapeBalanced(s[1..]);
      BalancedConcat(EscapeChar(s[0]), Escape(s[1..]));
    }
  }

  // ---------------------------------------------------------------------
  // The capture-group probe
  // ---------------------------------------------------------------------

  /** Position `i` opens a capturing group: an unescaped `(` outside a class that is not `(?`. */
  predicate CapturingParenAt(s: string, i: nat)
    requires i < |s|
  {
    var st := Run(Start, s[..i]);
    s[i] == '(' && !st.escaped && !st.inSet && !(i + 1 < |s| && s[i + 1] == '?')
  }

  /**
   * Whether a regex fragment contains a capturing group. The source probes
   * this by compiling the fragment followed by `\1`; the model reads the
   * fragment's text instead.
   */
  predicate HasCapturingGroup(s: string) {
    exists i :: 0 <= i < |s| && CapturingParenAt(s, i)
  }

  /**
   * The probe also misses groups: a `[` inside a comment leaves the scan in a
   * class, so the capturing `(` after the comment is not seen.
   */
  lemma BracketInCommentHidesGroup()
    ensures !HasCapturingGroup("(?#[)(a)")
  {
    var s := "(?#[)(a)";
    assert s[..1] == "(" && s[..2] == "(?" && s[..3] == "(?#" && s[..4] == "(?#[" && s[..5] == "(?#[)";
    assert s[..2][..1] == s[..1] && s[..3][..2] == s[..2] && s[..4][..3] == s[..3] && s[..5][..4] == s[..4];
    assert Run(Start, s[..1]) == Step(Run(Start, []), '(');
    assert Run(Start, s[..2]) == Step(Run(Start, s[..1]), '?');
    assert Run(Start, s[..3]) == Step(Run(Start, s[..2]), '#');
    assert Run(Start, s[..4]) == Step(Run(Start, s[..3]), '[');
    assert Run(Start, s[..5]) == Step(Run(Start, s[..4]), ')');
    assert Run(Start, s[..5]).inSet;
    forall i | 0 <= i < |s| ensures !CapturingParenAt(s, i) {
      if i == 0 {
        assert s[1] == '?';
      } else if i != 5 {
        assert s[i] != '(';
      }
    }
  }

  lemma CapturingGroupExample()
    ensures HasCapturingGroup("(a)")
    ensures !HasCapturingGroup("(?:a)")
  {
    assert CapturingParenAt("(a)", 0);
    var s := "(?:a)";
    forall i | 0 <= i < |s| ensures !CapturingParenAt(s, i) {
      if i == 0 {
        assert s[1] == '?';
      } else {
        assert s[i] != '(';
      }
    }
  }
}
