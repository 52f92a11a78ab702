/**
 * `convert_group_attributes_to_captures`: the `captures` hash of a rule, one
 * entry per collected group keyed by its number, whose scope name has
 * `$match` and `$reference(name)` replaced by capture numbers.
 */
module CaptureConversion {
  import opened Wrappers
  import opened RegexText
  import opened Patterns
  import opened Groups
  import opened References

  /** One value of `captures`: the hash `{name: ...}`. */
  datatype Capture = Capture(name: string)

  const MatchToken := "$match"
  const ReferenceOpener := "$reference("
  const MatchTokenLength: nat := 6
  const ReferenceOpenerLength: nat := 11

  /** The key of a group's entry: its number as a decimal string. */
  function Key(g: Group): string {
    NatToString(g.number)
  }

  predicate StartsWith(s: string, prefix: string) {
    |prefix| <= |s| && s[..|prefix|] == prefix
  }

  predicate NoNewline(s: string, lo: int, hi: int) {
    forall j :: lo <= j < hi && 0 <= j < |s| ==> s[j] != '\n'
  }

  /** The end of the line that starts at or before `k`: `.` never matches a newline. */
  function LineEnd(s: string, k: nat): (e: nat)
    requires k <= |s|
    ensures k <= e <= |s| && NoNewline(s, k, e)
    ensures e < |s| ==> s[e] == '\n'
    ensures forall j :: e < j <= |s| ==> !NoNewline(s, k, j)
    decreases |s| - k
  {
    if k == |s| || s[k] == '\n' then k else LineEnd(s, k + 1)
  }

  /** The last `)` in `s[lo..hi]`. */
  function LastClose(s: string, lo: nat, hi: nat): (r: Option<nat>)
    requires hi <= |s|
    ensures r.Some? ==> lo <= r.value < hi && s[r.value] == ')'
                        && forall j :: r.value < j < hi ==> s[j] != ')'
    ensures r.None? ==> forall j :: lo <= j < hi ==> s[j] != ')'
    decreases hi
  {
    if hi <= lo then None
    else if s[hi - 1] == ')' then Some(hi - 1)
    else LastClose(s, lo, hi - 1)
  }

  /**
   * Where `\$reference\((.+)\)` ends when it matches at the start of `s`: the
   * greedy `.+` runs to the end of the line and backs off to the last `)`
   * that leaves it at least one character.
   */
  function ReferenceClose(s: string): (r: Option<nat>)
    ensures r.Some? ==> ReferenceOpenerLength < r.value < |s|
  {
    if StartsWith(s, ReferenceOpener) then
      var e := LineEnd(s, ReferenceOpenerLength);
      LastClose(s, ReferenceOpenerLength + 1, e)
    else None
  }

  /** The match found is the last `)` on the line, after at least one character of name. */
  lemma ReferenceCloseIsLastOnLine(s: string)
    ensures ReferenceClose(s).Some? ==>
      var c := ReferenceClose(s).value;
      StartsWith(s, ReferenceOpener) && s[c] == ')' && NoNewline(s, ReferenceOpenerLength, c)
      && forall j :: c < j < |s| && NoNewline(s, ReferenceOpenerLength, j) ==> s[j] != ')'
    ensures ReferenceClose(s).None? && StartsWith(s, ReferenceOpener) ==>
      forall j :: ReferenceOpenerLength < j < |s| && NoNewline(s, ReferenceOpenerLength, j) ==> s[j] != ')'
  {
    if StartsWith(s, ReferenceOpener) {
      var e := LineEnd(s, ReferenceOpenerLength);
    }
  }

  /** What the pattern `\$(?:match|reference\((.+)\))` finds at the start of a string. */
  datatype Token = MatchRef | NameRef(name: string, end: nat) | Other

  function TokenAt(s: string): (t: Token)
    ensures t.NameRef? ==> 0 < t.end <= |s|
  {
    if StartsWith(s, MatchToken) then MatchRef
    else match ReferenceClose(s)
      case Some(c) => NameRef(s[ReferenceOpenerLength..c], c + 1)
      case None => Other
  }

  /** `groups.detect { |group| group[:reference] == name }[:group]`: the FIRST entry wins. */
  function FirstReference(groups: seq<Group>, name: string): Option<nat>
    decreases |groups|
  {
    if groups == [] then None
    else if RefersTo(groups[0], name) then Some(groups[0].number)
    else FirstReference(groups[1..], name)
  }

  lemma {:induction false} FirstReferenceLookup(groups: seq<Group>, name: string)
    ensures FirstReference(groups, name).Some? <==> exists i :: 0 <= i < |groups| && RefersTo(groups[i], name)
    ensures FirstReference(groups, name).Some? ==>
      exists i :: 0 <= i < |groups| && RefersTo(groups[i], name)
        && FirstReference(groups, name).value == groups[i].number
        && forall j :: 0 <= j < i ==> !RefersTo(groups[j], name)
    decreases |groups|
  {
    if groups != [] && !RefersTo(groups[0], name) {
      var tail := groups[1..];
      FirstReferenceLookup(tail, name);
      assert forall i :: 0 <= i < |tail| ==> tail[i] == groups[i + 1];
      if FirstReference(tail, name).Some? {
        var i :| 0 <= i < |tail| && RefersTo(tail[i], name)
                 && FirstReference(tail, name).value == tail[i].number
                 && forall j :: 0 <= j < i ==> !RefersTo(tail[j], name);
        assert RefersTo(groups[i + 1], name);
      } else {
        forall i | 0 <= i < |groups| ensures !RefersTo(groups[i], name) {
          if i > 0 {
            assert groups[i] == tail[i - 1];
          }
        }
      }
    } else if groups != [] {
      assert RefersTo(groups[0], name);
    }
  }

  /**
   * `value[:name].gsub!(/\$(?:match|reference\((.+)\))/)`: `$match` becomes
   * `$` followed by the entry's key, `$reference(name)` becomes `$` followed
   * by the number of the first group with that reference; an unknown name
   * raises. Scanning resumes after each replacement.
   */
  function RewriteName(s: string, key: string, groups: seq<Group>): Result<string, Error>
    decreases |s|
  {
    if s == [] then Ok([])
    else match TokenAt(s)
      case MatchRef => Prepend("$" + key, RewriteName(s[MatchTokenLength..], key, groups))
      case NameRef(name, end) =>
        (match FirstReference(groups, name)
         case None => Err(UnknownNameReference(name))
         case Some(n) => Prepend("$" + NatToString(n), RewriteName(s[end..], key, groups)))
      case Other => Prepend([s[0]], RewriteName(s[1..], key, groups))
  }

  /** The hash built by the first loop: key -> tag (absent tag kept as nil). */
  function NameTable(gs: seq<Group>): map<string, Option<string>>
    decreases |gs|
  {
    if gs == [] then map[]
    else NameTable(gs[..|gs| - 1])[Key(gs[|gs| - 1]) := gs[|gs| - 1].attributes.tagAs]
  }

  /**
   * The value of `convert_group_attributes_to_captures(all)` after its
   * entries `gs` (a prefix of `all`) have been processed in order.
   */
  function Captures(gs: seq<Group>, all: seq<Group>): Result<map<string, Capture>, Error>
    decreases |gs|
  {
    if gs == [] then Ok(map[])
    else
      var init :- Captures(gs[..|gs| - 1], all);
      var g := gs[|gs| - 1];
      if g.attributes.tagAs.None? then Err(MissingCaptureName(g.number))
      else
        var name :- RewriteName(g.attributes.tagAs.value, Key(g), all);
        Ok(init[Key(g) := Capture(name)])
  }

  /** Distinct group numbers, as `collect_group_attributes` hands out. */
  predicate DistinctNumbers(gs: seq<Group>) {
    forall i, j :: 0 <= i < j < |gs| ==> gs[i].number != gs[j].number
  }

  lemma TopLevelGroupsDistinct(p: Pattern)
    ensures DistinctNumbers(TopLevelGroups(p))
  {
    var gs := TopLevelGroups(p);
    var start := DefaultStart(p);
    CollectGroupsNumbered(p, start);
    assert gs == CollectGroups(p, start);
    assert forall i :: 0 <= i < |gs| ==> gs[i].number == start + i;
  }

  // ---------------------------------------------------------------------
  // The source's loops
  // ---------------------------------------------------------------------

  /** One `gsub!` over a scope name, as a scanning loop. */
  method GsubName(s: string, key: string, groups: seq<Group>) returns (r: Result<string, Error>)
    ensures r == RewriteName(s, key, groups)
  {
    var out := "";
    var rest := s;
    PrependNothing(RewriteName(s, key, groups));
    while rest != []
      invariant RewriteName(s, key, groups) == Prepend(out, RewriteName(rest, key, groups))
      decreases |rest|
    {
      var token := TokenAt(rest);
      match token {
        case MatchRef =>
          StepMatchToken(rest, out, key, groups);
          out := out + ("$" + key);
          rest := rest[MatchTokenLength..];
        case NameRef(name, end) =>
          var found := FirstReference(groups, name);
          if found.None? {
            return Err(UnknownNameReference(name));
          }
          StepReference(rest, out, key, groups);
          out := out + ("$" + NatToString(found.value));
          rest := rest[end..];
        case Other =>
          StepOther(rest, out, key, groups);
          out := out + [rest[0]];
          rest := rest[1..];
      }
    }
    assert out + [] == out;
    return Ok(out);
  }

  lemma StepMatchToken(t: string, out: string, key: string, groups: seq<Group>)
    requires t != [] && TokenAt(t) == MatchRef
    ensures Prepend(out, RewriteName(t, key, groups))
         == Prepend(out + ("$" + key), RewriteName(t[MatchTokenLength..], key, groups))
  {
    PrependPrepend(out, "$" + key, RewriteName(t[MatchTokenLength..], key, groups));
  }

  lemma StepReference(t: string, out: string, key: string, groups: seq<Group>)
    requires t != [] && TokenAt(t).NameRef?
    requires FirstReference(groups, TokenAt(t).name).Some?
    ensures var n := FirstReference(groups, TokenAt(t).name).value;
      Prepend(out, RewriteName(t, key, groups))
        == Prepend(out + ("$" + NatToString(n)), RewriteName(t[TokenAt(t).end..], key, groups))
  {
    var n := FirstReference(groups, TokenAt(t).name).value;
    PrependPrepend(out, "$" + NatToString(n), RewriteName(t[TokenAt(t).end..], key, groups));
  }

  lemma StepOther(t: string, out: string, key: string, groups: seq<Group>)
    requires t != [] && TokenAt(t) == Other
    ensures Prepend(out, RewriteName(t, key, groups)) == Prepend(out + [t[0]], RewriteName(t[1..], key, groups))
  {
    PrependPrepend(out, [t[0]], RewriteName(t[1..], key, groups));
  }

  /**
   * The source's two loops: the first fills `captures` with each group's tag
   * under its number, the second rewrites every name in insertion order.
   */
  method ConvertGroupAttributesToCaptures(groups: seq<Group>) returns (r: Result<map<string, Capture>, Error>)
    requires DistinctNumbers(groups)
    ensures r == Captures(groups, groups)
  {
    var table: map<string, Option<string>> := map[];
    var i := 0;
    while i < |groups|
      invariant 0 <= i <= |groups|
      invariant table == NameTable(groups[..i])
    {
      table := table[Key(groups[i]) := groups[i].attributes.tagAs];
      assert groups[..i + 1][..i] == groups[..i];
      i := i + 1;
    }
    assert groups[..i] == groups;
    var captures: map<string, Capture> := map[];
    i := 0;
    while i < |groups|
      invariant 0 <= i <= |groups|
      invariant Captures(groups[..i], groups) == Ok(captures)
    {
      NameTableLookup(groups, i);
      CapturesStep(groups, i, groups);
      var key := Key(groups[i]);
      var tag := table[key];
      if tag.None? {
        CapturesStopAtError(groups, i + 1, groups);
        return Err(MissingCaptureName(groups[i].number));
      }
      var name := GsubName(tag.value, key, groups);
      if name.Err? {
        CapturesStopAtError(groups, i + 1, groups);
        return Err(name.error);
      }
      captures := captures[key := Capture(name.value)];
      i := i + 1;
    }
    assert groups[..i] == groups;
    return Ok(captures);
  }

  /** Processing one more entry, as `Captures` defines it on the longer prefix. */
  lemma CapturesStep(gs: seq<Group>, i: nat, all: seq<Group>)
    requires i < |gs|
    ensures Captures(gs[..i + 1], all)
      == match Captures(gs[..i], all)
         case Err(e) => Err(e)
         case Ok(init) =>
           if gs[i].attributes.tagAs.None? then Err(MissingCaptureName(gs[i].number))
           else match RewriteName(gs[i].attributes.tagAs.value, Key(gs[i]), all)
             case Err(e) => Err(e)
             case Ok(name) => Ok(init[Key(gs[i]) := Capture(name)])
  {
    assert gs[..i + 1][..i] == gs[..i];
    assert gs[..i + 1][i] == gs[i];
  }

  lemma {:induction false} NameTableLookup(gs: seq<Group>, i: nat)
    requires DistinctNumbers(gs) && i < |gs|
    ensures Key(gs[i]) in NameTable(gs) && NameTable(gs)[Key(gs[i])] == gs[i].attributes.tagAs
    decreases |gs|
  {
    var n := |gs| - 1;
    if i < n {
      var init := gs[..n];
      assert init[i] == gs[i];
      NameTableLookup(init, i);
      if Key(gs[n]) == Key(gs[i]) {
        NatToStringInjective(gs[n].number, gs[i].number);
      }
    }
  }

  /** Once an entry raises, later entries are not looked at. */
  lemma {:induction false} CapturesStopAtError(gs: seq<Group>, k: nat, all: seq<Group>)
    requires k <= |gs| && Captures(gs[..k], all).Err?
    ensures Captures(gs, all) == Captures(gs[..k], all)
    decreases |gs| - k
  {
    if k < |gs| {
      assert gs[..k + 1][..k] == gs[..k];
      CapturesStopAtError(gs, k + 1, all);
    } else {
      assert gs[..k] == gs;
    }
  }

  // ---------------------------------------------------------------------
  // What `captures` holds
  // ---------------------------------------------------------------------

  /** Converting succeeds exactly when every group has a tag and every tag rewrites. */
  lemma {:induction false} CapturesSucceed(gs: seq<Group>, all: seq<Group>)
    ensures Captures(gs, all).Ok? <==>
      forall i :: 0 <= i < |gs| ==>
        gs[i].attributes.tagAs.Some? && RewriteName(gs[i].attributes.tagAs.value, Key(gs[i]), all).Ok?
    decreases |gs|
  {
    if gs != [] {
      var init := gs[..|gs| - 1];
      CapturesSucceed(init, all);
      assert forall i :: 0 <= i < |init| ==> init[i] == gs[i];
    }
  }

  /** On success there is one key per group: the group's number. */
  lemma {:induction false} CapturesKeys(gs: seq<Group>, all: seq<Group>)
    requires Captures(gs, all).Ok?
    ensures forall k :: k in Captures(gs, all).value <==> exists i :: 0 <= i < |gs| && Key(gs[i]) == k
    decreases |gs|
  {
    if gs != [] {
      var n := |gs| - 1;
      var init := gs[..n];
      CapturesKeys(init, all);
      var m := Captures(init, all).value;
      CapturesLastKey(gs, all);
      forall k ensures k in Captures(gs, all).value <==> exists i :: 0 <= i < |gs| && Key(gs[i]) == k {
        if k in m {
          var i :| 0 <= i < |init| && Key(init[i]) == k;
          assert Key(gs[i]) == k;
        }
        if exists i :: 0 <= i < |gs| && Key(gs[i]) == k {
          var i :| 0 <= i < |gs| && Key(gs[i]) == k;
          if i < n {
            assert Key(init[i]) == k;
          }
        }
      }
    }
  }

  /** On success the last entry adds its own key to those of the entries before it. */
  lemma CapturesLastKey(gs: seq<Group>, all: seq<Group>)
    requires gs != [] && Captures(gs, all).Ok?
    ensures Captures(gs[..|gs| - 1], all).Ok?
    ensures Captures(gs, all).value.Keys == Captures(gs[..|gs| - 1], all).value.Keys + {Key(gs[|gs| - 1])}
  {
  }

  /** On success each group's entry holds its tag with the tokens replaced. */
  lemma {:induction false} CapturesValues(gs: seq<Group>, all: seq<Group>)
    requires DistinctNumbers(gs) && Captures(gs, all).Ok?
    ensures forall i :: 0 <= i < |gs| ==>
      gs[i].attributes.tagAs.Some?
      && RewriteName(gs[i].attributes.tagAs.value, Key(gs[i]), all).Ok?
      && Key(gs[i]) in Captures(gs, all).value
      && Captures(gs, all).value[Key(gs[i])]
         == Capture(RewriteName(gs[i].attributes.tagAs.value, Key(gs[i]), all).value)
    decreases |gs|
  {
    if gs != [] {
      var n := |gs| - 1;
      var init := gs[..n];
      CapturesValues(init, all);
      forall i | 0 <= i < n
        ensures Key(gs[i]) != Key(gs[n])
        ensures gs[i] == init[i]
      {
        if Key(gs[i]) == Key(gs[n]) {
          NatToStringInjective(gs[i].number, gs[n].number);
        }
      }
    }
  }

  /** A name with no `$` is kept as it is. */
  lemma {:induction false} NameWithoutDollar(s: string, key: string, groups: seq<Group>)
    requires forall i :: 0 <= i < |s| ==> s[i] != '$'
    ensures RewriteName(s, key, groups) == Ok(s)
    decreases |s|
  {
    if s != [] {
      TokenOfPlainCharacter(s);
      NameWithoutDollar(s[1..], key, groups);
      assert [s[0]] + s[1..] == s;
    }
  }

  lemma TokenOfPlainCharacter(s: string)
    requires s != [] && s[0] != '$'
    ensures TokenAt(s) == Other
  {
    assert !StartsWith(s, MatchToken) by {
      if MatchTokenLength <= |s| {
        assert s[..MatchTokenLength][0] == s[0];
      }
    }
    assert !StartsWith(s, ReferenceOpener) by {
      if ReferenceOpenerLength <= |s| {
        assert s[..ReferenceOpenerLength][0] == s[0];
      }
    }
  }

  /** `$match` becomes `$` followed by the entry's own key. */
  lemma MatchTokenRewrite(rest: string, key: string, groups: seq<Group>)
    ensures RewriteName(MatchToken + rest, key, groups) == Prepend("$" + key, RewriteName(rest, key, groups))
  {
    var s := MatchToken + rest;
    assert s[..MatchTokenLength] == MatchToken;
    assert TokenAt(s) == MatchRef;
    assert s[MatchTokenLength..] == rest;
  }

  /**
   * `$reference(name)` with no `)` after it on the same line is replaced by
   * the number of the first group carrying that reference, or raises.
   * The name itself may contain `)`: the match runs to the last one.
   */
  lemma ReferenceRewrite(name: string, rest: string, key: string, groups: seq<Group>)
    requires |name| > 0 && NoNewline(name, 0, |name|)
    requires forall j :: 0 <= j < |rest| && NoNewline(rest, 0, j) ==> rest[j] != ')'
    ensures var s := ReferenceOpener + name + ")" + rest;
      RewriteName(s, key, groups)
        == match FirstReference(groups, name)
           case None => Err(UnknownNameReference(name))
           case Some(n) => Prepend("$" + NatToString(n), RewriteName(rest, key, groups))
  {
    var s := ReferenceOpener + name + ")" + rest;
    var o := ReferenceOpenerLength;
    var c := o + |name|;
    assert s[..o] == ReferenceOpener;
    assert !StartsWith(s, MatchToken) by {
      assert s[1] == 'r';
    }
    assert NoNewline(s, o, c) by {
      forall j | o <= j < c ensures s[j] != '\n' {
        assert s[j] == name[j - o];
      }
    }
    var close := ReferenceClose(s);
    ReferenceCloseIsLastOnLine(s);
    assert s[c] == ')';
    if close.None? {
      assert false;
    }
    forall j | c < j < |s| && NoNewline(s, o, j) ensures s[j] != ')' {
      assert s[j] == rest[j - c - 1];
      forall j' | 0 <= j' < j - c - 1 ensures rest[j'] != '\n' {
        assert rest[j'] == s[j' + c + 1];
      }
    }
    assert close.value == c;
    assert s[o..c] == name;
    assert TokenAt(s) == NameRef(name, c + 1);
    assert s[c + 1..] == rest;
  }

  /**
   * Two references on one line are not rewritten separately: the greedy
   * `.+` runs to the second `)`, and the text in between is looked up as a
   * single name, which raises unless some group carries that exact reference.
   */
  lemma TwoReferencesOnOneLine(a: string, b: string, key: string, groups: seq<Group>)
    requires |a| > 0 && NoNewline(a, 0, |a|) && NoNewline(b, 0, |b|)
    requires forall i :: 0 <= i < |groups| ==> !RefersTo(groups[i], a + ")" + ReferenceOpener + b)
    ensures RewriteName(ReferenceOpener + a + ")" + ReferenceOpener + b + ")", key, groups)
         == Err(UnknownNameReference(a + ")" + ReferenceOpener + b))
  {
    var name := a + ")" + ReferenceOpener + b;
    assert NoNewline(ReferenceOpener, 0, ReferenceOpenerLength);
    NoNewlineJoin(a, ")");
    NoNewlineJoin(a + ")", ReferenceOpener);
    NoNewlineJoin(a + ")" + ReferenceOpener, b);
    var s := ReferenceOpener + a + ")" + ReferenceOpener + b + ")";
    assert s == ReferenceOpener + name + ")" + "";
    ReferenceRewrite(name, "", key, groups);
    FirstReferenceLookup(groups, name);
  }

  lemma NoNewlineJoin(x: string, y: string)
    requires NoNewline(x, 0, |x|) && NoNewline(y, 0, |y|)
    ensures NoNewline(x + y, 0, |x + y|)
  {
    forall j | 0 <= j < |x + y| ensures (x + y)[j] != '\n' {
      if j >= |x| {
        assert (x + y)[j] == y[j - |x|];
      }
    }
  }

  /**
   * The capture names resolve a repeated reference to its FIRST group, while
   * the placeholder pass resolves it to the LAST one.
   */
  lemma RepeatedReferenceResolvesDifferently(x: string, first: Attributes, second: Attributes)
    requires first.reference == Some(x) && second.reference == Some(x)
    ensures var groups := [Group(1, first), Group(2, second)];
      FirstReference(groups, x) == Some(1) && ReferenceMap(groups)[x] == 2
  {
    var groups := [Group(1, first), Group(2, second)];
    assert groups[..1] == [Group(1, first)];
    assert groups[..1][..0] == [];
  }
}
