/**
 * `fixupRegexReferences`: the top-level pass that turns the placeholders
 * `[:backreference:name:]` and `[:subroutine:name:]` into `\N` and `\g<N>`,
 * where N is the group number registered for the reference `name`.
 */
module References {
  import opened Wrappers
  import opened RegexText
  import opened Patterns
  import opened Groups

  // ---------------------------------------------------------------------
  // The name -> number table
  // ---------------------------------------------------------------------

  predicate RefersTo(g: Group, name: string) {
    g.attributes.reference == Some(name)
  }

  /** `references`: every entry with a reference, later entries overwriting earlier ones. */
  function ReferenceMap(groups: seq<Group>): map<string, nat>
    decreases |groups|
  {
    if groups == [] then map[]
    else
      var m := ReferenceMap(groups[..|groups| - 1]);
      var last := groups[|groups| - 1];
      if last.attributes.reference.Some? then m[last.attributes.reference.value := last.number] else m
  }

  /**
   * A name is in the table exactly when some entry carries it as its
   * reference, and then it maps to the number of the LAST such entry.
   */
  lemma ReferenceMapLookup(groups: seq<Group>, name: string)
    ensures name in ReferenceMap(groups) <==> exists i :: 0 <= i < |groups| && RefersTo(groups[i], name)
    ensures name in ReferenceMap(groups) ==>
      exists i :: 0 <= i < |groups| && RefersTo(groups[i], name)
        && ReferenceMap(groups)[name] == groups[i].number
        && forall j :: i < j < |groups| ==> !RefersTo(groups[j], name)
  {
    ReferenceMapDomain(groups, name);
    ReferenceMapLastWins(groups, name);
  }

  lemma {:induction false} ReferenceMapDomain(groups: seq<Group>, name: string)
    ensures name in ReferenceMap(groups) <==> exists i :: 0 <= i < |groups| && RefersTo(groups[i], name)
    decreases |groups|
  {
    if groups != [] {
      var n := |groups| - 1;
      var init := groups[..n];
      ReferenceMapDomain(init, name);
      if !RefersTo(groups[n], name) {
        assert name in ReferenceMap(groups) <==> name in ReferenceMap(init);
        if exists i :: 0 <= i < |groups| && RefersTo(groups[i], name) {
          var i :| 0 <= i < |groups| && RefersTo(groups[i], name);
          assert init[i] == groups[i];
        }
        if name in ReferenceMap(init) {
          var i :| 0 <= i < n && RefersTo(init[i], name);
          assert groups[i] == init[i];
        }
      }
    }
  }

  lemma {:induction false} ReferenceMapLastWins(groups: seq<Group>, name: string)
    ensures name in ReferenceMap(groups) ==>
      exists i :: 0 <= i < |groups| && RefersTo(groups[i], name)
        && ReferenceMap(groups)[name] == groups[i].number
        && forall j :: i < j < |groups| ==> !RefersTo(groups[j], name)
    decreases |groups|
  {
    if groups != [] {
      var n := |groups| - 1;
      var init := groups[..n];
      if RefersTo(groups[n], name) {
        assert ReferenceMap(groups)[name] == groups[n].number;
      } else if name in ReferenceMap(init) {
        ReferenceMapLastWins(init, name);
        assert ReferenceMap(groups)[name] == ReferenceMap(init)[name];
        var i :| 0 <= i < n && RefersTo(init[i], name) && ReferenceMap(init)[name] == init[i].number
                 && forall j :: i < j < n ==> !RefersTo(init[j], name);
        assert groups[i] == init[i];
        forall j | i < j < |groups| ensures !RefersTo(groups[j], name) {
          if j < n {
            assert groups[j] == init[j];
          }
        }
      } else {
        assert name !in ReferenceMap(groups);
      }
    }
  }

  /** The table loop of the source, filling the hash entry by entry. */
  method BuildReferences(groups: seq<Group>) returns (references: map<string, nat>)
    ensures references == ReferenceMap(groups)
  {
    references := map[];
    var i := 0;
    while i < |groups|
      invariant 0 <= i <= |groups|
      invariant references == ReferenceMap(groups[..i])
    {
      var each := groups[i];
      if each.attributes.reference.Some? {
        references := references[each.attributes.reference.value := each.number];
      }
      assert groups[..i + 1][..i] == groups[..i];
      i := i + 1;
    }
    assert groups[..i] == groups;
  }

  // ---------------------------------------------------------------------
  // Matching a placeholder
  // ---------------------------------------------------------------------

  datatype Placeholder = Backreference | Subroutine

  function Opener(kind: Placeholder): (o: string)
    ensures |o| > 0 && o[0] == '['
  {
    match kind
    case Backreference => "[:backreference:"
    case Subroutine => "[:subroutine:"
  }

  function OpenerLength(kind: Placeholder): (n: nat)
    ensures n == |Opener(kind)|
  {
    match kind
    case Backreference => 16
    case Subroutine => 13
  }

  /** The numeric syntax a resolved placeholder becomes. */
  function Render(kind: Placeholder, n: nat): string {
    match kind
    case Backreference => "\\" + NatToString(n)
    case Subroutine => "\\g<" + NatToString(n) + ">"
  }

  function Unknown(kind: Placeholder, name: string): Error {
    match kind
    case Backreference => UnknownBackreference(name)
    case Subroutine => UnknownSubroutine(name)
  }

  /** `:]` starts at index `e` of `t`. */
  predicate ClosesAt(t: string, e: int) {
    0 <= e && e + 2 <= |t| && t[e] == ':' && t[e + 1] == ']'
  }

  predicate NoBackslashBefore(t: string, e: int) {
    forall j :: 0 <= j < e && j < |t| ==> t[j] != '\\'
  }

  /**
   * What the lazy group `([^\\]+?):\]` matches at the start of `t`: the
   * shortest non-empty name free of backslashes that is followed by `:]`.
   */
  predicate LazyEnd(t: string, e: int) {
    1 <= e && ClosesAt(t, e) && NoBackslashBefore(t, e) && forall j :: 1 <= j < e ==> !ClosesAt(t, j)
  }

  lemma LazyEndUnique(t: string, e1: int, e2: int)
    requires LazyEnd(t, e1) && LazyEnd(t, e2)
    ensures e1 == e2
  {
  }

  /** The search for the end of a placeholder name, extending the name one character at a time. */
  function NameEnd(t: string, k: nat): (r: Option<nat>)
    requires 1 <= k
    ensures r.Some? ==> k <= r.value && r.value + 2 <= |t|
    decreases |t| - k
  {
    if k + 2 > |t| then None
    else if t[k - 1] == '\\' then None
    else if ClosesAt(t, k) then Some(k)
    else NameEnd(t, k + 1)
  }

  /** The search finds the lazy end, and finds nothing only when there is none. */
  lemma {:induction false} NameEndSpec(t: string, k: nat)
    requires 1 <= k
    requires NoBackslashBefore(t, k - 1)
    requires forall j :: 1 <= j < k ==> !ClosesAt(t, j)
    ensures NameEnd(t, k).Some? ==> LazyEnd(t, NameEnd(t, k).value)
    ensures NameEnd(t, k).None? ==> forall e :: 1 <= e ==> !(ClosesAt(t, e) && NoBackslashBefore(t, e))
    decreases |t| - k
  {
    if k + 2 <= |t| && t[k - 1] != '\\' && !ClosesAt(t, k) {
      NameEndSpec(t, k + 1);
    }
  }

  /** The placeholder of the given kind at the start of `s`, as the length of its name. */
  function PlaceholderAt(s: string, kind: Placeholder): (r: Option<nat>)
    ensures r.Some? ==> OpenerLength(kind) + r.value + 2 <= |s|
  {
    var o := Opener(kind);
    if |o| <= |s| && HasPrefix(s, o) then NameEnd(s[|o|..], 1) else None
  }

  /** A placeholder found is the opener followed by the shortest name that `:]` closes. */
  lemma PlaceholderAtMatches(s: string, kind: Placeholder)
    ensures var r := PlaceholderAt(s, kind); var o := Opener(kind);
      r.Some? ==> s[..|o|] == o && LazyEnd(s[|o|..], r.value)
  {
    var o := Opener(kind);
    HasPrefixIff(s, o);
    if |o| <= |s| && s[..|o|] == o {
      NameEndSpec(s[|o|..], 1);
    }
  }

  function Prepend(a: string, r: Result<string, Error>): Result<string, Error> {
    match r
    case Ok(v) => Ok(a + v)
    case Err(e) => Err(e)
  }

  lemma PrependNothing(r: Result<string, Error>)
    ensures Prepend([], r) == r
  {
    if r.Ok? {
      assert [] + r.value == r.value;
    }
  }

  lemma PrependPrepend(a: string, b: string, r: Result<string, Error>)
    ensures Prepend(a, Prepend(b, r)) == Prepend(a + b, r)
  {
    if r.Ok? {
      assert a + (b + r.value) == (a + b) + r.value;
    }
  }

  function AppendChar(r: Result<string, Error>, c: char): Result<string, Error> {
    match r
    case Ok(v) => Ok(v + [c])
    case Err(e) => Err(e)
  }

  /**
   * One `gsub!` pass: every placeholder of the kind, leftmost first and
   * without rescanning replacements, becomes its numeric form; an
   * unregistered name raises.
   */
  function ReplaceAll(s: string, kind: Placeholder, refs: map<string, nat>): Result<string, Error>
    decreases |s|
  {
    if s == [] then Ok([])
    else match PlaceholderAt(s, kind)
      case Some(e) =>
        var o := OpenerLength(kind);
        var name := s[o..o + e];
        if name in refs then Prepend(Render(kind, refs[name]), ReplaceAll(s[o + e + 2..], kind, refs))
        else Err(Unknown(kind, name))
      case None => Prepend([s[0]], ReplaceAll(s[1..], kind, refs))
  }

  /** `fixupRegexReferences(groups, self_regex)`: back-references first, then subroutine calls. */
  function Fixup(groups: seq<Group>, s: string): Result<string, Error> {
    var refs := ReferenceMap(groups);
    var withBackreferences :- ReplaceAll(s, Backreference, refs);
    ReplaceAll(withBackreferences, Subroutine, refs)
  }

  /** One `gsub!` as a scanning loop that copies text and replacements into an output buffer. */
  method Gsub(s: string, kind: Placeholder, refs: map<string, nat>) returns (r: Result<string, Error>)
    ensures r == ReplaceAll(s, kind, refs)
  {
    var out := "";
    var rest := s;
    PrependNothing(ReplaceAll(s, kind, refs));
    while rest != []
      invariant ReplaceAll(s, kind, refs) == Prepend(out, ReplaceAll(rest, kind, refs))
      decreases |rest|
    {
      var found := PlaceholderAt(rest, kind);
      if found.Some? {
        var o := OpenerLength(kind);
        var e := found.value;
        var name := rest[o..o + e];
        if name !in refs {
          UnfoldPlaceholder(rest, kind, refs, e);
          return Err(Unknown(kind, name));
        }
        StepResolved(rest, out, kind, refs, e);
        out := out + Render(kind, refs[name]);
        rest := rest[o + e + 2..];
      } else {
        StepPlain(rest, out, kind, refs);
        out := out + [rest[0]];
        rest := rest[1..];
      }
    }
    assert out + [] == out;
    return Ok(out);
  }

  /** The body of `ReplaceAll` when a placeholder stands at the front. */
  lemma UnfoldPlaceholder(t: string, kind: Placeholder, refs: map<string, nat>, e: nat)
    requires t != [] && PlaceholderAt(t, kind) == Some(e)
    ensures var o := OpenerLength(kind);
      ReplaceAll(t, kind, refs)
        == if t[o..o + e] in refs then Prepend(Render(kind, refs[t[o..o + e]]), ReplaceAll(t[o + e + 2..], kind, refs))
           else Err(Unknown(kind, t[o..o + e]))
  {
  }

  /** `UnfoldPlaceholder` with the name and the text after the placeholder given by name. */
  lemma UnfoldNamedPlaceholder(t: string, kind: Placeholder, refs: map<string, nat>, e: nat, name: string, after: string)
    requires t != [] && PlaceholderAt(t, kind) == Some(e)
    requires name == t[OpenerLength(kind)..OpenerLength(kind) + e] && after == t[OpenerLength(kind) + e + 2..]
    ensures ReplaceAll(t, kind, refs)
      == if name in refs then Prepend(Render(kind, refs[name]), ReplaceAll(after, kind, refs)) else Err(Unknown(kind, name))
  {
    UnfoldPlaceholder(t, kind, refs, e);
  }

  /** A resolved placeholder moves its rendering from the pending text into the output. */
  lemma StepResolved(t: string, out: string, kind: Placeholder, refs: map<string, nat>, e: nat)
    requires t != [] && PlaceholderAt(t, kind) == Some(e)
    requires t[OpenerLength(kind)..OpenerLength(kind) + e] in refs
    ensures var o := OpenerLength(kind);
      Prepend(out, ReplaceAll(t, kind, refs))
        == Prepend(out + Render(kind, refs[t[o..o + e]]), ReplaceAll(t[o + e + 2..], kind, refs))
  {
    var o := OpenerLength(kind);
    UnfoldPlaceholder(t, kind, refs, e);
    PrependPrepend(out, Render(kind, refs[t[o..o + e]]), ReplaceAll(t[o + e + 2..], kind, refs));
  }

  /** A character that starts no placeholder moves from the pending text into the output. */
  lemma StepPlain(t: string, out: string, kind: Placeholder, refs: map<string, nat>)
    requires t != [] && PlaceholderAt(t, kind).None?
    ensures Prepend(out, ReplaceAll(t, kind, refs)) == Prepend(out + [t[0]], ReplaceAll(t[1..], kind, refs))
  {
    PrependPrepend(out, [t[0]], ReplaceAll(t[1..], kind, refs));
  }

  /** The source's method: build the table, then run the two passes. */
  method FixupRegexReferences(groups: seq<Group>, selfRegex: string) returns (r: Result<string, Error>)
    ensures r == Fixup(groups, selfRegex)
  {
    var references := BuildReferences(groups);
    var withBackreferences := Gsub(selfRegex, Backreference, references);
    if withBackreferences.Err? {
      return withBackreferences;
    }
    r := Gsub(withBackreferences.value, Subroutine, references);
  }

  // ---------------------------------------------------------------------
  // What the pass does
  // ---------------------------------------------------------------------

  /** No placeholder anywhere: the pass returns its input unchanged. */
  lemma {:induction false} ReplaceAllWithoutPlaceholders(s: string, kind: Placeholder, refs: map<string, nat>)
    requires forall i :: 0 <= i < |s| ==> PlaceholderAt(s[i..], kind).None?
    ensures ReplaceAll(s, kind, refs) == Ok(s)
    decreases |s|
  {
    if s != [] {
      assert s[0..] == s;
      forall i | 0 <= i < |s[1..]| ensures PlaceholderAt(s[1..][i..], kind).None? {
        assert s[1..][i..] == s[i + 1..];
      }
      ReplaceAllWithoutPlaceholders(s[1..], kind, refs);
      assert ReplaceAll(s, kind, refs) == Prepend([s[0]], ReplaceAll(s[1..], kind, refs));
      assert [s[0]] + s[1..] == s;
    }
  }

  /** `:]` never occurs in the text. */
  predicate NoCloser(s: string) {
    forall i :: 0 <= i < |s| ==> !ClosesAt(s, i)
  }

  lemma NoCloserNoPlaceholder(s: string, kind: Placeholder)
    requires NoCloser(s)
    ensures forall i :: 0 <= i < |s| ==> PlaceholderAt(s[i..], kind).None?
  {
    forall i | 0 <= i < |s| ensures PlaceholderAt(s[i..], kind).None? {
      var o := OpenerLength(kind);
      if PlaceholderAt(s[i..], kind).Some? {
        var e := PlaceholderAt(s[i..], kind).value;
        PlaceholderAtMatches(s[i..], kind);
        assert ClosesAt(s[i..][o..], e);
        assert ClosesAt(s, i + o + e);
      }
    }
  }

  /** A string in which `:]` never occurs comes out of the fixup pass unchanged, whatever the registry. */
  lemma FixupWithoutCloser(groups: seq<Group>, s: string)
    requires NoCloser(s)
    ensures Fixup(groups, s) == Ok(s)
  {
    NoCloserNoPlaceholder(s, Backreference);
    NoCloserNoPlaceholder(s, Subroutine);
    ReplaceAllWithoutPlaceholders(s, Backreference, ReferenceMap(groups));
    ReplaceAllWithoutPlaceholders(s, Subroutine, ReferenceMap(groups));
  }

  /** A string without any placeholder of either kind comes out unchanged. */
  lemma FixupWithoutPlaceholders(groups: seq<Group>, s: string)
    requires forall i :: 0 <= i < |s| ==> PlaceholderAt(s[i..], Backreference).None?
    requires forall i :: 0 <= i < |s| ==> PlaceholderAt(s[i..], Subroutine).None?
    ensures Fixup(groups, s) == Ok(s)
  {
    ReplaceAllWithoutPlaceholders(s, Backreference, ReferenceMap(groups));
    ReplaceAllWithoutPlaceholders(s, Subroutine, ReferenceMap(groups));
  }

  /** Escaped literal text never contains `:]`, since every `]` in it follows a backslash. */
  lemma {:induction false} EscapeNoCloser(t: string)
    ensures NoCloser(Escape(t))
    ensures |Escape(t)| > 0 ==> Escape(t)[0] != ']'
    decreases |t|
  {
    if t != [] {
      EscapeNoCloser(t[1..]);
      var head := EscapeChar(t[0]);
      var tail := Escape(t[1..]);
      assert Escape(t) == head + tail;
      forall i | 0 <= i < |head + tail| ensures !ClosesAt(head + tail, i) {
        if i + 1 < |head| {
          assert head[i + 1] != ']' || head[i] == '\\';
        } else if i + 1 == |head| {
          assert i + 1 < |head + tail| ==> (head + tail)[i + 1] == tail[0];
        } else {
          assert !ClosesAt(tail, i - |head|);
        }
      }
    }
  }

  /** A well-formed name after the opener is what the search finds. */
  lemma WellFormedPlaceholder(kind: Placeholder, name: string, rest: string)
    requires |name| > 0 && NoBackslashBefore(name, |name|) && NoCloser(name)
    ensures PlaceholderAt(Opener(kind) + name + ":]" + rest, kind) == Some(|name|)
  {
    var o := Opener(kind);
    var s := o + name + ":]" + rest;
    var t := name + ":]" + rest;
    assert s[..|o|] == o && s[|o|..] == t;
    forall j | 1 <= j < |name| ensures !ClosesAt(t, j) {
      if j + 1 < |name| {
        assert !ClosesAt(name, j);
      } else {
        assert t[j + 1] == ':';
      }
    }
    assert LazyEnd(t, |name|);
    HasPrefixIff(s, o);
    NameEndSpec(t, 1);
    PlaceholderAtMatches(s, kind);
    var found := PlaceholderAt(s, kind);
    assert found.Some?;
    LazyEndUnique(t, found.value, |name|);
  }

  /** A placeholder with a well-formed name at the front of the text is resolved, or raises. */
  lemma ResolvePlaceholder(kind: Placeholder, name: string, rest: string, refs: map<string, nat>)
    requires |name| > 0 && NoBackslashBefore(name, |name|) && NoCloser(name)
    ensures ReplaceAll(Opener(kind) + name + ":]" + rest, kind, refs)
         == if name in refs then Prepend(Render(kind, refs[name]), ReplaceAll(rest, kind, refs))
            else Err(Unknown(kind, name))
  {
    var o := Opener(kind);
    var s := o + name + ":]" + rest;
    WellFormedPlaceholder(kind, name, rest);
    assert s[|o|..|o| + |name|] == name;
    assert s[|o| + |name| + 2..] == rest;
    UnfoldNamedPlaceholder(s, kind, refs, |name|, name, rest);
  }

  /** A character that cannot open a placeholder is copied as it is. */
  lemma CopiesPlainCharacter(c: char, rest: string, kind: Placeholder, refs: map<string, nat>)
    requires c != '['
    ensures ReplaceAll([c] + rest, kind, refs) == Prepend([c], ReplaceAll(rest, kind, refs))
  {
    assert ([c] + rest)[1..] == rest;
  }

  lemma {:induction false} NameEndAppend(t: string, c: char, k: nat)
    requires c != ']'
    requires 1 <= k <= |t| + 1
    ensures NameEnd(t + [c], k) == NameEnd(t, k)
    decreases |t| - k
  {
    var t' := t + [c];
    assert forall j :: 0 <= j < |t| ==> t'[j] == t[j];
    if k + 2 <= |t| && t[k - 1] != '\\' && !ClosesAt(t, k) {
      assert !ClosesAt(t', k);
      NameEndAppend(t, c, k + 1);
    } else if k + 2 == |t| + 1 && t[k - 1] != '\\' {
      assert !ClosesAt(t', k);
      assert NameEnd(t', k) == NameEnd(t', k + 1);
    }
  }

  /** Appending a character other than `]` does not change which placeholder starts the text. */
  lemma PlaceholderAtAppend(x: string, c: char, kind: Placeholder)
    requires c != ']'
    ensures PlaceholderAt(x + [c], kind) == PlaceholderAt(x, kind)
  {
    var s := x + [c];
    var o := Opener(kind);
    HasPrefixIff(x, o);
    HasPrefixIff(s, o);
    if |o| <= |x| && x[..|o|] == o {
      assert s[..|o|] == o && s[|o|..] == x[|o|..] + [c];
      NameEndAppend(x[|o|..], c, 1);
    } else if |o| <= |x| {
      assert s[..|o|] == x[..|o|];
    } else if |o| <= |s| && s[..|o|] == o {
      assert |s[|o|..]| == 0;
    }
  }

  /** The placeholder step of `ReplaceAllAppendChar`, given the claim for the text after the placeholder. */
  lemma AppendCharAfterPlaceholder(x: string, c: char, kind: Placeholder, refs: map<string, nat>, e: nat)
    requires c != ']' && x != [] && PlaceholderAt(x, kind) == Some(e)
    requires var k := OpenerLength(kind) + e + 2;
      ReplaceAll(x[k..] + [c], kind, refs) == AppendChar(ReplaceAll(x[k..], kind, refs), c)
    ensures ReplaceAll(x + [c], kind, refs) == AppendChar(ReplaceAll(x, kind, refs), c)
  {
    var s := x + [c];
    var o := OpenerLength(kind);
    PlaceholderAtAppend(x, c, kind);
    var name := x[o..o + e];
    var after := x[o + e + 2..];
    assert s[o..o + e] == name;
    assert s[o + e + 2..] == after + [c];
    UnfoldNamedPlaceholder(x, kind, refs, e, name, after);
    UnfoldNamedPlaceholder(s, kind, refs, e, name, after + [c]);
    if name in refs {
      PrependAppendChar(Render(kind, refs[name]), ReplaceAll(after, kind, refs), c);
    }
  }

  /** The plain-character step of `ReplaceAllAppendChar`, given the claim for the rest of the text. */
  lemma AppendCharAfterPlain(x: string, c: char, kind: Placeholder, refs: map<string, nat>)
    requires c != ']' && x != [] && PlaceholderAt(x, kind).None?
    requires ReplaceAll(x[1..] + [c], kind, refs) == AppendChar(ReplaceAll(x[1..], kind, refs), c)
    ensures ReplaceAll(x + [c], kind, refs) == AppendChar(ReplaceAll(x, kind, refs), c)
  {
    var s := x + [c];
    PlaceholderAtAppend(x, c, kind);
    assert s[0] == x[0] && s[1..] == x[1..] + [c];
    assert ReplaceAll(s, kind, refs) == Prepend([x[0]], ReplaceAll(x[1..] + [c], kind, refs));
    PrependAppendChar([x[0]], ReplaceAll(x[1..], kind, refs), c);
  }

  /** A character that cannot close a placeholder can be appended after the pass instead of before. */
  lemma {:induction false} ReplaceAllAppendChar(x: string, c: char, kind: Placeholder, refs: map<string, nat>)
    requires c != ']'
    ensures ReplaceAll(x + [c], kind, refs) == AppendChar(ReplaceAll(x, kind, refs), c)
    decreases |x|
  {
    if x == [] {
      var s := x + [c];
      PlaceholderAtAppend(x, c, kind);
      assert s[1..] == [];
      assert ReplaceAll(s, kind, refs) == Prepend([c], ReplaceAll([], kind, refs));
      assert [c] + [] == [] + [c];
    } else {
      match PlaceholderAt(x, kind)
      case Some(e) =>
        ReplaceAllAppendChar(x[OpenerLength(kind) + e + 2..], c, kind, refs);
        AppendCharAfterPlaceholder(x, c, kind, refs, e);
      case None =>
        ReplaceAllAppendChar(x[1..], c, kind, refs);
        AppendCharAfterPlain(x, c, kind, refs);
    }
  }

  lemma PrependAppendChar(a: string, r: Result<string, Error>, c: char)
    ensures AppendChar(Prepend(a, r), c) == Prepend(a, AppendChar(r, c))
  {
    if r.Ok? {
      assert (a + r.value) + [c] == a + (r.value + [c]);
    }
  }

  function Parenthesize(r: Result<string, Error>): Result<string, Error> {
    match r
    case Ok(v) => Ok("(" + v + ")")
    case Err(e) => Err(e)
  }

  /** The pass leaves an enclosing pair of parentheses where it is. */
  lemma ReplaceAllInParens(x: string, kind: Placeholder, refs: map<string, nat>)
    ensures ReplaceAll("(" + x + ")", kind, refs) == Parenthesize(ReplaceAll(x, kind, refs))
  {
    assert "(" + x + ")" == ['('] + (x + [')']);
    CopiesPlainCharacter('(', x + [')'], kind, refs);
    ReplaceAllAppendChar(x, ')', kind, refs);
    var r := ReplaceAll(x, kind, refs);
    if r.Ok? {
      assert "(" + (r.value + [')']) == "(" + r.value + ")";
    }
  }

  /** The fixup pass leaves an enclosing pair of parentheses where it is. */
  lemma FixupInParens(groups: seq<Group>, x: string)
    ensures Fixup(groups, "(" + x + ")") == Parenthesize(Fixup(groups, x))
  {
    var refs := ReferenceMap(groups);
    ReplaceAllInParens(x, Backreference, refs);
    var first := ReplaceAll(x, Backreference, refs);
    if first.Ok? {
      ReplaceAllInParens(first.value, Subroutine, refs);
    }
  }

  /** `[` never occurs in the text, so no placeholder can start in it. */
  predicate NoOpenBracket(s: string) {
    forall i :: 0 <= i < |s| ==> s[i] != '['
  }

  lemma NoOpenBracketConcat(x: string, y: string)
    requires NoOpenBracket(x) && NoOpenBracket(y)
    ensures NoOpenBracket(x + y)
  {
    forall i | |x| <= i < |x + y| ensures (x + y)[i] == y[i - |x|] {
    }
  }

  /** Text whose third character is not the `b` of `[:backreference:` starts no back-reference placeholder. */
  lemma NotBackreferenceOpener(s: string)
    requires |s| >= 3 && s[2] != 'b'
    ensures PlaceholderAt(s, Backreference).None?
  {
    var o := Opener(Backreference);
    HasPrefixIff(s, o);
    if |o| <= |s| {
      assert s[..|o|][2] == s[2];
      assert o[2] == 'b';
    }
  }

  /** Text without `[` is copied as it is, whatever follows it. */
  lemma {:induction false} CopiesBracketFreeText(x: string, rest: string, kind: Placeholder, refs: map<string, nat>)
    requires NoOpenBracket(x)
    ensures ReplaceAll(x + rest, kind, refs) == Prepend(x, ReplaceAll(rest, kind, refs))
    decreases |x|
  {
    if x == [] {
      assert x + rest == rest;
      PrependNothing(ReplaceAll(rest, kind, refs));
    } else {
      assert x + rest == [x[0]] + (x[1..] + rest);
      CopiesPlainCharacter(x[0], x[1..] + rest, kind, refs);
      CopiesBracketFreeText(x[1..], rest, kind, refs);
      PrependPrepend([x[0]], x[1..], ReplaceAll(rest, kind, refs));
      assert [x[0]] + x[1..] == x;
    }
  }

  /** Text without `[` comes out of a pass unchanged. */
  lemma BracketFreeUnchanged(s: string, kind: Placeholder, refs: map<string, nat>)
    requires NoOpenBracket(s)
    ensures ReplaceAll(s, kind, refs) == Ok(s)
  {
    CopiesBracketFreeText(s, [], kind, refs);
    assert s + [] == s;
  }

  /** The numeric forms contain no `[`, so a resolved placeholder is never resolved again. */
  lemma RenderBracketFree(kind: Placeholder, n: nat)
    ensures NoOpenBracket(Render(kind, n))
  {
  }
}
