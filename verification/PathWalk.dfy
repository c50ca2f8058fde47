/** Walking a path through the flat table, component by component, against one search for the whole path. */
module PathWalk {
  import opened Bytes
  import opened Names
  import opened InitramfsTable

  /** Where a walk has arrived. */
  datatype Place = Missing | Root | In(k: nat)

  predicate Component(t: Str) { t != [] && SLASH !in t && |t| < 128 }

  predicate Components(toks: seq<Str>) { forall k :: 0 <= k < |toks| ==> Component(toks[k]) }

  function Found(r: Option<nat>): Place { if r.Some? then In(r.value) else Missing }

  /** One step of the walk: only a directory is looked into. */
  function Step(table: seq<Node>, here: Place, token: Str): Place
    requires here.In? ==> here.k < |table|
  {
    match here
    case Missing => Missing
    case Root => Found(Find(table, Joined([], token), 0))
    case In(k) => if table[k].isDir then Found(Find(table, Joined(table[k].name, token), 0)) else Missing
  }

  /** Where the first `n` components lead. */
  function Walk(table: seq<Node>, toks: seq<Str>, n: nat): (place: Place)
    requires n <= |toks|
    ensures place.In? ==> place.k < |table|
  {
    if n == 0 then Root else Step(table, Walk(table, toks, n - 1), toks[n - 1])
  }

  /** The first `n` components with a slash between them. */
  function Path(toks: seq<Str>, n: nat): Str
    requires n <= |toks|
  {
    if n == 0 then [] else if n == 1 then toks[0] else Path(toks, n - 1) + [SLASH] + toks[n - 1]
  }

  // ----- each step of the walk is a search for the path so far

  lemma {:induction false} SanitizedSkip(s: Str, t: Str)
    requires Sanitized(s) == []
    ensures Sanitized(s + t) == Sanitized(t)
  {
    if s == [] {
      assert s + t == t;
    } else {
      assert (s + t)[1..] == s[1..] + t;
      SanitizedSkip(s[1..], t);
    }
  }

  /** The sanitized path gains a slash and the component, unless nothing was left of it. */
  lemma SanitizedPath(toks: seq<Str>, n: nat)
    requires 0 < n < |toks| && Components(toks)
    ensures var y := Sanitized(Path(toks, n));
      Sanitized(Path(toks, n + 1)) == if y == [] then Sanitized(toks[n]) else y + [SLASH] + toks[n]
  {
    hide Sanitized;
    var p, t := Path(toks, n), toks[n];
    assert Path(toks, n + 1) == p + ([SLASH] + t);
    if Sanitized(p) == [] {
      SanitizedSkip(p, [SLASH] + t);
      SanitizedSlash(t);
    } else {
      SanitizedJoin(p, [SLASH] + t);
      assert Sanitized(p) + ([SLASH] + t) == Sanitized(p) + [SLASH] + t;
    }
  }

  lemma SanitizedSlash(t: Str)
    ensures Sanitized([SLASH] + t) == Sanitized(t)
  {
    assert ([SLASH] + t)[1..] == t;
  }

  lemma LastOfPath(toks: seq<Str>, n: nat)
    requires 0 < n <= |toks| && Components(toks)
    ensures Path(toks, n) != [] && Path(toks, n)[|Path(toks, n)| - 1] != SLASH
  {
    assert Component(toks[n - 1]);
    assert toks[n - 1][|toks[n - 1]| - 1] in toks[n - 1];
  }

  lemma LastOfSanitized(toks: seq<Str>, n: nat)
    requires 0 < n <= |toks| && Components(toks)
    ensures var y := Sanitized(Path(toks, n)); y == [] || y[|y| - 1] != SLASH
  {
    hide Sanitized, Path;
    LastOfPath(toks, n);
    SanitizedSuffix(Path(toks, n));
  }

  /** The name of a node that matches a path: the sanitized path, perhaps with a slash behind it. */
  lemma MatchedName(x: Str, toks: seq<Str>, n: nat)
    requires 0 < n <= |toks| && Components(toks) && CleanName(x) && Same(x, Path(toks, n))
    ensures var y := Sanitized(Path(toks, n)); x == y || (x == y + [SLASH] && y != [])
  {
    hide Path, Sanitized;
    LastOfSanitized(toks, n);
    SanitizedFixed(x);
    var y := Sanitized(Path(toks, n));
    assert (x + [SLASH])[|x|] == SLASH && ([] + [SLASH])[0] == SLASH;
  }

  /** Looking a component up in a directory that matches the path so far searches for the longer path. */
  lemma StepSearches(table: seq<Node>, x: Str, toks: seq<Str>, n: nat)
    requires 0 < n < |toks| && Components(toks) && CleanName(x) && Same(x, Path(toks, n))
    ensures Find(table, Joined(x, toks[n]), 0) == Find(table, Path(toks, n + 1), 0)
  {
    hide Path, Sanitized, Same, Find, Joined;
    var y, t := Sanitized(Path(toks, n)), toks[n];
    MatchedName(x, toks, n);
    LastOfSanitized(toks, n);
    SanitizedPath(toks, n);
    JoinedIs(x, y, t);
    SanitizedOn(Path(toks, n), t);
    FindSanitized(table, Joined(x, t), Path(toks, n + 1));
  }

  lemma JoinedIs(x: Str, y: Str, t: Str)
    requires |t| < 128 && |x| < 100 && (y == [] || y[|y| - 1] != SLASH)
    requires x == y || (x == y + [SLASH] && y != [])
    ensures Joined(x, t) == if y == [] then t else y + [SLASH] + t
  {
  }

  lemma SanitizedOn(p: Str, t: Str)
    ensures var y := Sanitized(p); y != [] ==> Sanitized(y + [SLASH] + t) == y + [SLASH] + t
  {
    hide Sanitized;
    var y := Sanitized(p);
    if y != [] {
      SanitizedFixed(y + [SLASH] + t);
      assert (y + [SLASH] + t)[0] == y[0];
    }
  }

  // ----- what a walk finds

  /** The first match of every proper prefix of the path is a directory. */
  predicate PrefixesAreDirs(table: seq<Node>, toks: seq<Str>, n: nat)
    requires n <= |toks|
  {
    forall i :: 0 < i < n ==> DirAt(table, toks, i)
  }

  predicate DirAt(table: seq<Node>, toks: seq<Str>, i: nat)
    requires i <= |toks|
  {
    var r := Find(table, Path(toks, i), 0);
    r.Some? && table[r.value].isDir
  }

  /** A walk finds a node exactly when a search for the whole path does and every proper prefix of the path
      matches a directory first; then both find the same node. */
  lemma {:induction false} WalkFinds(table: seq<Node>, toks: seq<Str>, n: nat)
    requires 0 < n <= |toks| && Components(toks) && CleanTable(table)
    ensures Walk(table, toks, n) == if PrefixesAreDirs(table, toks, n) then Found(Find(table, Path(toks, n), 0)) else Missing
  {
    hide Find, Joined, Component;
    if n == 1 {
      assert Component(toks[0]);
      FirstStep(table, toks);
    } else {
      WalkFinds(table, toks, n - 1);
      NextStep(table, toks, n - 1);
    }
  }

  lemma FirstStep(table: seq<Node>, toks: seq<Str>)
    requires |toks| > 0 && Component(toks[0])
    ensures Walk(table, toks, 1) == Found(Find(table, Path(toks, 1), 0))
  {
    hide Find;
    assert Walk(table, toks, 0) == Root;
    assert Joined([], toks[0]) == toks[0];
  }

  lemma NextStep(table: seq<Node>, toks: seq<Str>, n: nat)
    requires 0 < n < |toks| && Components(toks) && CleanTable(table)
    requires Walk(table, toks, n) == if PrefixesAreDirs(table, toks, n) then Found(Find(table, Path(toks, n), 0)) else Missing
    ensures Walk(table, toks, n + 1) == if PrefixesAreDirs(table, toks, n + 1) then Found(Find(table, Path(toks, n + 1), 0)) else Missing
  {
    hide Find, Joined, Same, CleanName, Path, Components;
    OneMorePrefix(table, toks, n);
    var here := Walk(table, toks, n);
    if here.In? {
      StepSearches(table, table[here.k].name, toks, n);
    }
  }

  lemma OneMorePrefix(table: seq<Node>, toks: seq<Str>, n: nat)
    requires 0 < n < |toks|
    ensures PrefixesAreDirs(table, toks, n + 1) <==> PrefixesAreDirs(table, toks, n) && DirAt(table, toks, n)
  {
    hide DirAt;
  }

  // ----- tables an archive makes

  /** No file is named like a proper directory prefix of a name in the table. */
  ghost predicate NoFileIsPrefix(table: seq<Node>) {
    forall f, k :: 0 <= f < |table| && 0 <= k < |table| && !table[f].isDir ==> !IsPrefix(table[f].name, table[k].name)
  }

  ghost predicate IsPrefix(name: Str, long: Str) {
    exists i: nat :: EndsDir(long, i) && Same(name, long[..i])
  }

  /** In a closed table whose files are no prefixes, a walk returns the first node a flat search for the
      whole path returns; the path must not start with a component of dots only. */
  lemma WalkIsSearch(table: seq<Node>, toks: seq<Str>)
    requires toks != [] && Components(toks) && Sanitized(toks[0]) != []
    requires CleanTable(table) && DirClosed(table) && NoFileIsPrefix(table)
    ensures Walk(table, toks, |toks|) == Found(Find(table, Path(toks, |toks|), 0))
  {
    hide Find, DirClosed, NoFileIsPrefix, CleanTable, Path, Sanitized, Component, DirAt;
    var n := |toks|;
    WalkFinds(table, toks, n);
    if Find(table, Path(toks, n), 0).Some? {
      forall i | 0 < i < n
        ensures DirAt(table, toks, i)
      {
        PrefixIsDir(table, toks, i);
      }
    }
  }

  /** `z` continues `y` behind a slash. */
  predicate Continues(y: Str, z: Str) { 0 < |y| < |z| && z[..|y|] == y && z[|y|] == SLASH }

  function CleanPathOf(toks: seq<Str>, n: nat): Str
    requires n <= |toks|
  {
    Sanitized(Path(toks, n))
  }

  /** A longer sanitized path continues a shorter one behind a slash. */
  lemma {:induction false} PathGrows(toks: seq<Str>, i: nat, n: nat)
    requires 0 < i < n <= |toks| && Components(toks) && Sanitized(toks[0]) != []
    ensures Continues(CleanPathOf(toks, i), CleanPathOf(toks, n))
  {
    hide CleanPathOf, Components, Continues;
    OneComponentMore(toks, n - 1);
    var y, x, t := CleanPathOf(toks, i), CleanPathOf(toks, n - 1), toks[n - 1];
    if i < n - 1 {
      PathGrows(toks, i, n - 1);
      ContinuesOn(y, x, t);
    } else {
      ContinuesOnce(x, t);
    }
  }

  lemma OneComponentMore(toks: seq<Str>, n: nat)
    requires 0 < n < |toks| && Components(toks) && Sanitized(toks[0]) != []
    ensures var x := CleanPathOf(toks, n); x != [] && toks[n] != [] && CleanPathOf(toks, n + 1) == x + [SLASH] + toks[n]
  {
    hide Sanitized, Path;
    FirstPath(toks, n);
    SanitizedPath(toks, n);
    assert Component(toks[n]);
  }

  lemma ContinuesOnce(x: Str, t: Str)
    requires x != [] && t != []
    ensures Continues(x, x + [SLASH] + t)
  {
  }

  lemma ContinuesOn(y: Str, x: Str, t: Str)
    requires Continues(y, x)
    ensures Continues(y, x + [SLASH] + t)
  {
    assert (x + [SLASH] + t)[..|y|] == x[..|y|];
  }

  lemma {:induction false} FirstPath(toks: seq<Str>, n: nat)
    requires 0 < n <= |toks| && Components(toks) && Sanitized(toks[0]) != []
    ensures Sanitized(Path(toks, n)) != []
  {
    hide Sanitized;
    if n > 1 {
      FirstPath(toks, n - 1);
      SanitizedPath(toks, n - 1);
    }
  }

  lemma PrefixIsDir(table: seq<Node>, toks: seq<Str>, i: nat)
    requires 0 < i < |toks| && Components(toks) && Sanitized(toks[0]) != []
    requires CleanTable(table) && DirClosed(table) && NoFileIsPrefix(table)
    requires Find(table, Path(toks, |toks|), 0).Some?
    ensures DirAt(table, toks, i)
  {
    hide Find, Path, Sanitized, Component, NoNul;
    var k := Find(table, Path(toks, |toks|), 0).value;
    var x, y, z := table[k].name, Sanitized(Path(toks, i)), Sanitized(Path(toks, |toks|));
    assert CleanName(x);
    MatchedName(x, toks, |toks|);
    PathGrows(toks, i, |toks|);
    assert EndsDir(x, |y|) && x[..|y|] == y;
    assert HasParents(table, x, |x|);
    SanitizedTwice(Path(toks, i));
    FindSanitized(table, y, Path(toks, i));
    var r := Find(table, y, 0);
    assert Same(table[r.value].name, x[..|y|]);
  }

  /** Below a first component of dots only, a walk fails unless the archive has a node for its root. */
  lemma DotsMiss(table: seq<Node>, toks: seq<Str>)
    requires |toks| > 1 && Components(toks) && CleanTable(table) && Sanitized(toks[0]) == []
    requires Find(table, [], 0).None?
    ensures Walk(table, toks, |toks|) == Missing
  {
    hide Find, Sanitized, CleanTable, Component;
    WalkFinds(table, toks, |toks|);
    assert Sanitized([]) == [] by { SanitizedFixed([]); }
    FindSanitized(table, toks[0], []);
    assert !DirAt(table, toks, 1);
  }

  const DOTS: Str := [DOT, DOT]

  /** A flat search can succeed there: in a table of one file `a`, `../a` finds it and the walk does not. */
  lemma DotsStray(a: Str)
    requires Component(a) && CleanName(a)
    ensures var table := [Node(a, false, 0, 0)];
      && CleanTable(table) && DirClosed(table) && NoFileIsPrefix(table) && Components([DOTS, a])
      && Find(table, Path([DOTS, a], 2), 0) == Some(0) && Walk(table, [DOTS, a], 2) == Missing
  {
    hide *;
    var table, toks := [Node(a, false, 0, 0)], [DOTS, a];
    OneFile(a);
    DotsPath(a);
    SearchOne(table[0], Path(toks, 2));
    SearchOne(table[0], []);
    SanitizedDots();
    DotsMiss(table, toks);
  }

  lemma OneFile(a: Str)
    requires Component(a) && CleanName(a)
    ensures var table := [Node(a, false, 0, 0)]; CleanTable(table) && DirClosed(table) && NoFileIsPrefix(table)
  {
    hide CleanName, Find, Same;
    assert forall i: nat :: !EndsDir(a, i);
  }

  lemma DotsPath(a: Str)
    requires Component(a) && CleanName(a)
    ensures Components([DOTS, a]) && Same(a, Path([DOTS, a], 2)) && !Same(a, [])
  {
    hide Sanitized, Path, NoNul, Component;
    TwoComponents(a);
    AfterDots([DOTS, a]);
    SanitizedFixed(a);
    NotEmpty(a);
  }

  lemma NotEmpty(a: Str)
    requires Component(a) && CleanName(a)
    ensures !Same(a, [])
  {
    hide Sanitized, NoNul;
    SanitizedFixed([]);
    var slash: Str := [] + [SLASH];
    assert |slash| == 1 && slash[0] == SLASH;
    assert a[0] in a;
  }

  lemma AfterDots(toks: seq<Str>)
    requires |toks| == 2 && Components(toks) && toks[0] == DOTS
    ensures Sanitized(Path(toks, 2)) == Sanitized(toks[1])
  {
    hide Sanitized, Component;
    SanitizedDots();
    assert Path(toks, 1) == DOTS;
    SanitizedPath(toks, 1);
  }

  lemma TwoComponents(a: Str)
    requires Component(a)
    ensures Components([DOTS, a])
  {
  }

  lemma SearchOne(node: Node, p: Str)
    ensures Find([node], p, 0) == if Same(node.name, p) then Some(0) else None
  {
  }

  lemma SanitizedDots()
    ensures Sanitized(DOTS) == []
  {
    assert DOTS[1..] == [DOT] && [DOT][1..] == [];
  }
}
