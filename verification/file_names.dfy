/**
  The filename helpers: `get_timestamp_filename`, with the formatted timestamp
  passed in rather than read from the clock, and `safe_filename`, which removes
  the characters filesystems reject, collapses runs of whitespace and
  underscores to one underscore, and strips underscores and dots from both ends.
 */
module FileNames {

  import opened Options
  import opened Chars
  import opened Seqs
  import opened Strings

  // ------------------------------------------------------------ timestamps

  /** `get_timestamp_filename(base, extension)` at the moment whose formatted
      timestamp is `ts`: an extension is appended after a dot unless it already
      starts with one, and a missing or empty extension adds nothing. */
  function TimestampFilename(base: string, extension: Option<string>, ts: string): (r: string)
    ensures StartsWith(r, base + "_" + ts)
    ensures extension.None? || extension.value == [] ==> r == base + "_" + ts
    ensures extension.Some? && StartsWith(extension.value, ".") ==> r == base + "_" + ts + extension.value
    ensures extension.Some? && extension.value != [] && !StartsWith(extension.value, ".") ==>
      r == base + "_" + ts + "." + extension.value
  {
    var stem := base + "_" + ts;
    match extension
    case None => stem
    case Some(ext) =>
      if ext == [] then stem
      else if StartsWith(ext, ".") then stem + ext
      else stem + "." + ext
  }

  /** An extension given with or without its leading dot names the same file. */
  lemma DotOptional(base: string, ext: string, ts: string)
    requires ext != [] && !StartsWith(ext, ".")
    ensures TimestampFilename(base, Some(ext), ts) == TimestampFilename(base, Some("." + ext), ts)
  {
    assert StartsWith("." + ext, ".");
    assert base + "_" + ts + "." + ext == base + "_" + ts + ("." + ext);
  }

  // --------------------------------------------------------- safe filenames

  /** One of the nine characters the first substitution deletes: backslash, slash,
      star, question mark, colon, double quote, both angle brackets and bar. */
  predicate IsForbidden(c: char) {
    c == '\\' || c == '/' || c == '*' || c == '?' || c == ':' || c == '"' || c == '<' || c == '>' || c == '|'
  }

  predicate Allowed(c: char) {
    !IsForbidden(c)
  }

  /** A character of the class `[\s_]`. */
  predicate IsSeparator(c: char) {
    IsSpace(c) || c == '_'
  }

  /** A character `strip("_.")` removes. */
  predicate IsEdge(c: char) {
    c == '_' || c == '.'
  }

  /** A character `safe_filename` never removes or replaces, except a dot at either end. */
  predicate IsCore(c: char) {
    Allowed(c) && !IsSeparator(c)
  }

  /** The characters of `s` that `safe_filename` keeps in their order. */
  function Core(s: string): string {
    Filter(IsCore, s)
  }

  predicate NoDoubleUnderscore(s: string) {
    forall i :: 0 <= i < |s| - 1 ==> s[i] != '_' || s[i + 1] != '_'
  }

  /** `re.sub(r'[\s_]+', '_', s)`: every maximal run of whitespace and
      underscores becomes one underscore. */
  function CollapseSeparators(s: string): (r: string)
    ensures SpaceFree(r) && NoDoubleUnderscore(r)
    ensures r == [] <==> s == []
    ensures s != [] && !IsSeparator(s[0]) ==> r[0] == s[0]
    decreases |s|
  {
    if s == [] then []
    else if IsSeparator(s[0]) then "_" + CollapseSeparators(DropWhile(IsSeparator, s))
    else [s[0]] + CollapseSeparators(s[1..])
  }

  /** Collapsing works piecewise when no separator run straddles the cut. */
  lemma {:induction false} CollapseAppend(a: string, x: string)
    requires a == [] || x == [] || !IsSeparator(a[|a| - 1]) || !IsSeparator(x[0])
    ensures CollapseSeparators(a + x) == CollapseSeparators(a) + CollapseSeparators(x)
    decreases |a|
  {
    if a == [] {
      assert a + x == x;
    } else if !IsSeparator(a[0]) {
      assert (a + x)[0] == a[0] && (a + x)[1..] == a[1..] + x;
      CollapseAppend(a[1..], x);
      AppendAssoc([a[0]], CollapseSeparators(a[1..]), CollapseSeparators(x));
    } else {
      var d := DropWhile(IsSeparator, a);
      assert (a + x)[0] == a[0];
      if d != [] {
        DropWhileAppend(IsSeparator, a, x);
        assert d[|d| - 1] == a[|a| - 1];
        CollapseAppend(d, x);
        AppendAssoc("_", CollapseSeparators(d), CollapseSeparators(x));
      } else {
        assert TakeWhile(IsSeparator, a) == a;
        DropWhileAfter(IsSeparator, a, x);
      }
    }
  }

  /** Every maximal run of separators becomes exactly one '_', in place. */
  lemma CollapseRunBetween(a: string, run: string, b: string)
    requires run != [] && forall i :: 0 <= i < |run| ==> IsSeparator(run[i])
    requires a == [] || !IsSeparator(a[|a| - 1])
    requires b == [] || !IsSeparator(b[0])
    ensures CollapseSeparators(a + run + b) == CollapseSeparators(a) + "_" + CollapseSeparators(b)
  {
    DropWhileAfter(IsSeparator, run, b);
    assert (run + b)[0] == run[0];
    CollapseAppend(a, run + b);
    AppendAssoc(a, run, b);
    AppendAssoc(CollapseSeparators(a), "_", CollapseSeparators(b));
  }

  /** Collapsing keeps every core character in order. */
  lemma {:induction false} CollapseCore(s: string)
    ensures Core(CollapseSeparators(s)) == Core(s)
    decreases |s|
  {
    if s != [] {
      if IsSeparator(s[0]) {
        var rest := DropWhile(IsSeparator, s);
        RunHasNoCore(s);
        CollapseCore(rest);
        FilterAppend(IsCore, "_", CollapseSeparators(rest));
      } else {
        assert s == [s[0]] + s[1..];
        FilterAppend(IsCore, [s[0]], s[1..]);
        CollapseCore(s[1..]);
        FilterAppend(IsCore, [s[0]], CollapseSeparators(s[1..]));
      }
    }
  }

  /** Collapsing introduces no forbidden character. */
  lemma {:induction false} CollapseAllowed(s: string)
    requires forall i :: 0 <= i < |s| ==> Allowed(s[i])
    ensures forall i :: 0 <= i < |CollapseSeparators(s)| ==> Allowed(CollapseSeparators(s)[i])
    decreases |s|
  {
    if s != [] {
      if IsSeparator(s[0]) {
        var rest := DropWhile(IsSeparator, s);
        assert rest == s[|TakeWhile(IsSeparator, s)|..];
        CollapseAllowed(rest);
      } else {
        CollapseAllowed(s[1..]);
      }
    }
  }

  /** A leading run of separators contributes nothing to the core. */
  lemma RunHasNoCore(s: string)
    ensures Core(s) == Core(DropWhile(IsSeparator, s))
  {
    var run := TakeWhile(IsSeparator, s);
    TakeDropParts(IsSeparator, s);
    FilterAppend(IsCore, run, DropWhile(IsSeparator, s));
    FilterNone(IsCore, run);
  }

  /** `s.strip("_.")` */
  function StripEdges(s: string): (r: string)
    ensures r == [] || (!IsEdge(r[0]) && !IsEdge(r[|r| - 1]))
  {
    DropLastWhile(IsEdge, DropWhile(IsEdge, s))
  }

  /** `safe_filename(name)` */
  function SafeFilename(name: string): (r: string)
    ensures forall i :: 0 <= i < |r| ==> !IsForbidden(r[i])
    ensures SpaceFree(r) && NoDoubleUnderscore(r)
    ensures r == [] || (!IsEdge(r[0]) && !IsEdge(r[|r| - 1]))
  {
    var u := CollapseSeparators(Filter(Allowed, name));
    CollapseAllowed(Filter(Allowed, name));
    StrippedShape(u);
    StripEdges(u)
  }

  /** Stripping keeps a string free of forbidden characters, whitespace and
      doubled underscores. */
  lemma StrippedShape(u: string)
    requires forall i :: 0 <= i < |u| ==> Allowed(u[i])
    requires SpaceFree(u) && NoDoubleUnderscore(u)
    ensures var r := StripEdges(u);
      (forall i :: 0 <= i < |r| ==> Allowed(r[i])) && SpaceFree(r) && NoDoubleUnderscore(r)
  {
    StripEdgesSlice(u);
    var i, j :| 0 <= i <= j <= |u| && StripEdges(u) == u[i..j];
    SliceAll(Allowed, u, i, j);
    SliceAll(NotSpace, u, i, j);
    NoDoubleSlice(u, i, j);
  }

  lemma NoDoubleSlice(u: string, i: nat, j: nat)
    requires i <= j <= |u| && NoDoubleUnderscore(u)
    ensures NoDoubleUnderscore(u[i..j])
  {
    var r := u[i..j];
    forall k | 0 <= k < |r| - 1 ensures r[k] != '_' || r[k + 1] != '_' {
      assert r[k] == u[i + k] && r[k + 1] == u[i + k + 1];
    }
  }

  /** Stripping keeps a contiguous slice. */
  lemma StripEdgesSlice(u: string)
    ensures exists i, j :: 0 <= i <= j <= |u| && StripEdges(u) == u[i..j]
  {
    var m := DropWhile(IsEdge, u);
    var k := |TakeWhile(IsEdge, u)|;
    assert m == u[k..];
    var r := StripEdges(u);
    assert r == m[..|r|] == u[k..k + |r|];
  }

  /** Collapsing leaves alone a string with no whitespace and no two adjacent underscores. */
  lemma {:induction false} CollapseFixed(s: string)
    requires SpaceFree(s) && NoDoubleUnderscore(s)
    ensures CollapseSeparators(s) == s
  {
    if s != [] {
      if s[0] == '_' {
        DropWhileAfter(IsSeparator, [s[0]], s[1..]);
        assert [s[0]] + s[1..] == s;
        CollapseFixed(s[1..]);
      } else {
        CollapseFixed(s[1..]);
      }
    }
  }

  /** `safe_filename` is idempotent. */
  lemma SafeFilenameIdempotent(name: string)
    ensures SafeFilename(SafeFilename(name)) == SafeFilename(name)
  {
    var r := SafeFilename(name);
    FilterAll(Allowed, r);
    CollapseFixed(r);
  }

  /** Two names of core characters, neither with a dot at its outer end, are
      joined by a single '_' whatever run of whitespace and underscores separates them. */
  lemma SafeFilenameJoinsWords(a: string, run: string, b: string)
    requires a != [] && b != []
    requires forall i :: 0 <= i < |a| ==> IsCore(a[i])
    requires forall i :: 0 <= i < |b| ==> IsCore(b[i])
    requires run != [] && forall i :: 0 <= i < |run| ==> IsSeparator(run[i])
    requires a[0] != '.' && b[|b| - 1] != '.'
    ensures SafeFilename(a + run + b) == a + "_" + b
  {
    var s := a + run + b;
    var u := a + "_" + b;
    AllowedAround(a, run, b);
    FilterAll(Allowed, s);
    CollapseRunBetween(a, run, b);
    CoreFixed(a);
    CoreFixed(b);
    assert CollapseSeparators(s) == u;
    JoinedEnds(a, b);
    StripEdgesFixed(u);
    SafeFilenameUnfold(s);
  }

  lemma SafeFilenameUnfold(name: string)
    ensures SafeFilename(name) == StripEdges(CollapseSeparators(Filter(Allowed, name)))
  {
  }

  /** The ends of `a + "_" + b` are the outer ends of `a` and `b`. */
  lemma JoinedEnds(a: string, b: string)
    requires a != [] && b != [] && IsCore(a[0]) && a[0] != '.' && b[|b| - 1] != '.'
    requires IsCore(b[|b| - 1])
    ensures var u := a + "_" + b; !IsEdge(u[0]) && !IsEdge(u[|u| - 1])
  {
    var u := a + "_" + b;
    assert u[0] == a[0] && u[|u| - 1] == b[|b| - 1];
  }

  /** "a b" becomes "a_b". */
  lemma SpaceBecomesUnderscore()
    ensures SafeFilename("a b") == "a_b"
  {
    assert "a b" == "a" + " " + "b";
    SafeFilenameJoinsWords("a", " ", "b");
    assert "a" + "_" + "b" == "a_b";
  }

  lemma AllowedAround(a: string, run: string, b: string)
    requires forall i :: 0 <= i < |a| ==> IsCore(a[i])
    requires forall i :: 0 <= i < |b| ==> IsCore(b[i])
    requires forall i :: 0 <= i < |run| ==> IsSeparator(run[i])
    ensures forall i :: 0 <= i < |a + run + b| ==> Allowed((a + run + b)[i])
  {
    var s := a + run + b;
    forall i | 0 <= i < |s| ensures Allowed(s[i]) {
      if i < |a| { assert s[i] == a[i]; }
      else if i < |a| + |run| { assert s[i] == run[i - |a|]; }
      else { assert s[i] == b[i - |a| - |run|]; }
    }
  }

  /** A string of core characters is left alone by the collapse. */
  lemma CoreFixed(a: string)
    requires forall i :: 0 <= i < |a| ==> IsCore(a[i])
    ensures CollapseSeparators(a) == a
  {
    assert SpaceFree(a) && NoDoubleUnderscore(a);
    CollapseFixed(a);
  }

  /** Stripping leaves alone a string that neither starts nor ends with '_' or '.'. */
  lemma StripEdgesFixed(u: string)
    requires u == [] || (!IsEdge(u[0]) && !IsEdge(u[|u| - 1]))
    ensures StripEdges(u) == u
  {
    assert DropWhile(IsEdge, u) == u;
  }

  predicate IsDot(c: char) {
    c == '.'
  }

  /** `t` without dots at either end. */
  function StripDots(t: string): string {
    DropLastWhile(IsDot, DropWhile(IsDot, t))
  }

  /** Dots around a core that starts and ends with another character are exactly what StripDots removes. */
  lemma StripDotsAround(d1: string, x: string, d2: string)
    requires forall i :: 0 <= i < |d1| ==> IsDot(d1[i])
    requires forall i :: 0 <= i < |d2| ==> IsDot(d2[i])
    requires x == [] || (!IsDot(x[0]) && !IsDot(x[|x| - 1]))
    ensures StripDots(d1 + x + d2) == x
  {
    if x == [] {
      assert d1 + x + d2 == d1 + d2;
      DropWhileAfter(IsDot, d1 + d2, []);
      assert d1 + d2 + [] == d1 + d2;
    } else {
      assert d1 + x + d2 == d1 + (x + d2);
      DropWhileAfter(IsDot, d1, x + d2);
      DropLastWhileBefore(IsDot, x, d2);
    }
  }

  /** The core of the edge characters `strip("_.")` removes is all dots. */
  lemma EdgeCoreIsDots(e: string)
    requires forall i :: 0 <= i < |e| ==> IsEdge(e[i])
    ensures forall i :: 0 <= i < |Core(e)| ==> IsDot(Core(e)[i])
  {
    forall i | 0 <= i < |Core(e)| ensures IsDot(Core(e)[i]) {
      assert Core(e)[i] in e;
    }
  }

  function LeadingEdges(u: string): string {
    TakeWhile(IsEdge, u)
  }

  function TrailingEdges(u: string): string {
    DropWhile(IsEdge, u)[|StripEdges(u)|..]
  }

  /** A string is its leading edge characters, the stripped string and its trailing edge characters. */
  lemma StripEdgesParts(u: string)
    ensures u == LeadingEdges(u) + StripEdges(u) + TrailingEdges(u)
    ensures forall i :: 0 <= i < |LeadingEdges(u)| ==> IsEdge(LeadingEdges(u)[i])
    ensures forall i :: 0 <= i < |TrailingEdges(u)| ==> IsEdge(TrailingEdges(u)[i])
  {
    TakeDropParts(IsEdge, u);
    DropLastParts(IsEdge, DropWhile(IsEdge, u));
    AppendAssoc(LeadingEdges(u), StripEdges(u), TrailingEdges(u));
  }

  /** Stripping edges keeps the core apart from its leading and trailing dots. */
  lemma StripEdgesCore(u: string)
    requires SpaceFree(u) && forall i :: 0 <= i < |u| ==> Allowed(u[i])
    ensures Core(StripEdges(u)) == StripDots(Core(u))
  {
    var a, r, b := LeadingEdges(u), StripEdges(u), TrailingEdges(u);
    StripEdgesParts(u);
    FilterThree(IsCore, a, r, b);
    EdgeCoreIsDots(a);
    EdgeCoreIsDots(b);
    StrippedEnds(u);
    CoreEnds(r);
    StripDotsAround(Core(a), Core(r), Core(b));
  }

  /** On a string of allowed characters without whitespace, the stripped
      string starts and ends with core characters other than '.'. */
  lemma StrippedEnds(u: string)
    requires SpaceFree(u) && forall i :: 0 <= i < |u| ==> Allowed(u[i])
    ensures var r := StripEdges(u);
      r == [] || (IsCore(r[0]) && !IsDot(r[0]) && IsCore(r[|r| - 1]) && !IsDot(r[|r| - 1]))
  {
    var a, r := LeadingEdges(u), StripEdges(u);
    StripEdgesParts(u);
    if r != [] {
      assert r[0] == u[|a|];
      assert r[|r| - 1] == u[|a| + |r| - 1];
    }
  }

  /** The core of a string that starts and ends with non-dot core characters starts and ends with them too. */
  lemma CoreEnds(r: string)
    requires r == [] || (IsCore(r[0]) && !IsDot(r[0]) && IsCore(r[|r| - 1]) && !IsDot(r[|r| - 1]))
    ensures Core(r) == [] || (!IsDot(Core(r)[0]) && !IsDot(Core(r)[|Core(r)| - 1]))
  {
    if r != [] {
      FilterEnds(IsCore, r);
    }
  }

  /** Every character other than the forbidden ones, whitespace and '_' survives
      in order; only dots at either end of that sequence are dropped. */
  lemma SafeFilenameKeepsCore(name: string)
    ensures Core(SafeFilename(name)) == StripDots(Core(name))
  {
    var v := Filter(Allowed, name);
    FilterFilter(IsCore, Allowed, name);
    var u := CollapseSeparators(v);
    CollapseCore(v);
    CollapseAllowed(v);
    StripEdgesCore(u);
  }

}
