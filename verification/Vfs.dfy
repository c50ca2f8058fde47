/** Opening a node by its path: tokens of the path, and the lookup loop over them. */
module Vfs {
  import opened Bytes
  import opened Names
  import opened Ustar
  import opened InitramfsTable
  import opened Initramfs
  import opened PathWalk

  // ----- tokens

  function Skip(s: Str): (r: Str)
    ensures |r| <= |s| && (r != [] ==> r[0] != SLASH)
  {
    if s != [] && s[0] == SLASH then Skip(s[1..]) else s
  }

  /** The characters before the first slash. */
  function Head(s: Str): (r: Str)
    ensures |r| <= |s| && SLASH !in r && (s != [] && s[0] != SLASH ==> r != [])
  {
    if s == [] || s[0] == SLASH then [] else [s[0]] + Head(s[1..])
  }

  /** The components of a path: any number of slashes separates them. */
  function Tokens(s: Str): seq<Str>
    decreases |s|
  {
    var u := Skip(s);
    if u == [] then [] else [Head(u)] + Tokens(u[|Head(u)|..])
  }

  lemma {:induction false} SkipAppend(s: Str, x: Str)
    ensures Skip(s + x) == if Skip(s) == [] then Skip(x) else Skip(s) + x
  {
    if s == [] {
      assert s + x == x;
    } else {
      assert (s + x)[1..] == s[1..] + x;
      SkipAppend(s[1..], x);
    }
  }

  lemma {:induction false} HeadAppend(s: Str, t: Str)
    ensures Head(s + ([SLASH] + t)) == Head(s)
  {
    var x := [SLASH] + t;
    if s == [] {
      assert s + x == x;
    } else {
      assert (s + x)[1..] == s[1..] + x;
      HeadAppend(s[1..], t);
    }
  }

  lemma {:induction false} HeadAll(t: Str)
    requires SLASH !in t
    ensures Head(t) == t
  {
    if t != [] {
      HeadAll(t[1..]);
    }
  }

  /** A slash and a component behind a path add that component to its tokens. */
  lemma {:induction false} TokensAppend(s: Str, t: Str)
    requires Component(t)
    ensures Tokens(s + ([SLASH] + t)) == Tokens(s) + [t]
    decreases |s|
  {
    hide Skip, Head;
    var x, u := [SLASH] + t, Skip(s);
    SkipAppend(s, x);
    if u == [] {
      OneToken(t);
    } else {
      HeadAppend(u, t);
      var h := |Head(u)|;
      assert (u + x)[h..] == u[h..] + x;
      TokensAppend(u[h..], t);
    }
  }

  lemma OneToken(t: Str)
    requires Component(t)
    ensures Skip([SLASH] + t) == t && Head(t) == t && t[|t|..] == [] && Tokens([]) == []
  {
    assert ([SLASH] + t)[1..] == t;
    assert t[0] in t;
    HeadAll(t);
  }

  /** Taking a path apart undoes putting it together. */
  lemma {:induction false} TokensOfPath(toks: seq<Str>, n: nat)
    requires n <= |toks| && Components(toks)
    ensures Tokens([SLASH] + Path(toks, n)) == toks[..n]
  {
    hide Tokens, Component;
    if n == 0 {
      NoTokens();
      assert [SLASH] + Path(toks, 0) == [SLASH];
    } else {
      var t := toks[n - 1];
      TokensOfPath(toks, n - 1);
      assert toks[..n] == toks[..n - 1] + [t];
      if n == 1 {
        TokensAppend([], t);
        NoTokens();
        assert [] + ([SLASH] + t) == [SLASH] + Path(toks, 1);
      } else {
        TokensAppend([SLASH] + Path(toks, n - 1), t);
        assert [SLASH] + Path(toks, n) == [SLASH] + Path(toks, n - 1) + ([SLASH] + t);
      }
    }
  }

  /** Components are not empty and hold no '/'. */
  lemma {:induction false} TokensAre(s: Str)
    ensures forall t :: t in Tokens(s) ==> t != [] && 0x2F !in t
    decreases |s|
  {
    hide Skip, Head;
    var u := Skip(s);
    if u != [] { TokensAre(u[|Head(u)|..]); }
  }

  /** A '/' more at the start or at the end of a path changes nothing. */
  lemma SlashesIgnored(s: Str)
    ensures Tokens([0x2F] + s) == Tokens(s)
  {
    assert ([SLASH] + s)[1..] == s;
  }

  lemma {:induction false} LastSlashIgnored(s: Str)
    ensures Tokens(s + [0x2F]) == Tokens(s)
    decreases |s|
  {
    var u := Skip(s);
    SkipAppend(s, [SLASH]);
    assert [SLASH][1..] == [] && Skip([SLASH]) == [];
    if u != [] {
      HeadAppend(u, []);
      assert [SLASH] + [] == [SLASH];
      var h := |Head(u)|;
      assert (u + [SLASH])[h..] == u[h..] + [SLASH];
      LastSlashIgnored(u[h..]);
    }
  }

  lemma NoTokens()
    ensures Tokens([]) == [] && Tokens([SLASH]) == []
  {
    assert [SLASH][1..] == [];
  }

  // ----- the lookup

  /** What the tokenizer returns for the text `rest` of a path: the next token and where it ends. */
  ghost predicate Next(path: Str, rest: Str, next: Option<nat>, token: Str) {
    var u := Skip(rest);
    if u == [] then next.None? else
      && next.Some? && next.value <= |path| && NoNul(token)
      && token == Head(u) && path[next.value..] == u[|token|..]
  }

  lemma NextTokens(path: Str, rest: Str, next: Option<nat>, token: Str)
    requires Next(path, rest, next, token)
    ensures next.None? ==> Tokens(rest) == []
    ensures next.Some? ==> next.value <= |path| && NoNul(token) && Tokens(rest) == [token] + Tokens(path[next.value..])
  {
    hide Skip, Head;
  }

  /** `get_next_token`: none at the end of the path. */
  method GetNextToken(path: Str, offset: nat) returns (next: Option<nat>, token: Str)
    requires offset <= |path| && NoNul(path)
    ensures Next(path, path[offset..], next, token)
  {
    hide Skip, Head, NoNul;
    if offset == |path| {
      assert Skip(path[offset..]) == [];
      return None, [];
    }
    var off := SkipSlashes(path, offset);
    if off == |path| { return None, []; }
    token := ReadToken(path, off);
    next := Some(off + |token|);
    assert path[off..][|token|..] == path[off + |token|..];
  }

  method SkipSlashes(path: Str, offset: nat) returns (off: nat)
    requires offset <= |path| && NoNul(path)
    ensures offset <= off <= |path| && path[off..] == Skip(path[offset..])
  {
    off := offset;
    while At(path, off) == SLASH
      invariant offset <= off <= |path| && Skip(path[offset..]) == Skip(path[off..])
      decreases |path| - off
    {
      assert path[off..][1..] == path[off + 1..];
      off := off + 1;
    }
  }

  method ReadToken(path: Str, offset: nat) returns (token: Str)
    requires offset <= |path| && NoNul(path)
    ensures token == Head(path[offset..]) && NoNul(token)
  {
    token := [];
    var off := offset;
    while At(path, off) != 0 && At(path, off) != SLASH
      invariant off <= |path| && NoNul(token)
      invariant Head(path[offset..]) == token + Head(path[off..])
      decreases |path| - off
    {
      assert path[off..][1..] == path[off + 1..];
      token := token + [path[off]];
      off := off + 1;
    }
  }

  /** The body of the lookup loop. */
  method LookUp(fs: Initramfs, here: Place, token: Str) returns (place: Place)
    requires fs.Valid() && NoNul(token) && here != Missing && (here.In? ==> here.k < fs.count)
    ensures place == Step(fs.Contents(), here, token)
  {
    hide Find, Joined, CleanTable;
    if here.In? && !fs.nodes[here.k].isDir { return Missing; }
    var k := fs.FindDir(if here.Root? then None else Some(here.k), token);
    place := if k.None? then Missing else In(k.value);
  }

  /** `vfs_get_node_by_path`, with nothing mounted. */
  method GetNodeByPath(fs: Initramfs, path: Str) returns (place: Place)
    requires fs.Valid() && NoNul(path) && Components(Tokens(path))
    ensures place == if path == [] || path[0] != SLASH then Missing else Walk(fs.Contents(), Tokens(path), |Tokens(path)|)
  {
    hide Find, CleanTable, Step, Next, Tokens, NoNul, Component;
    if At(path, 0) != SLASH { return Missing; }
    ghost var toks, table, n := Tokens(path), fs.Contents(), 0;
    place := Root;
    var offset, token := GetNextToken(path, 0);
    ghost var rest := path;
    assert path[0..] == path;
    while offset.Some?
      invariant n <= |toks| && toks[n..] == Tokens(rest)
      invariant Next(path, rest, offset, token)
      invariant place != Missing && place == Walk(table, toks, n)
      decreases |toks| - n
    {
      NextTokens(path, rest, offset, token);
      assert token == toks[n..][0] && toks[n..][1..] == toks[n + 1..];
      place := LookUp(fs, place, token);
      if place == Missing {
        MissingStays(table, toks, n + 1, |toks|);
        return;
      }
      rest := path[offset.value..];
      offset, token := GetNextToken(path, offset.value);
      n := n + 1;
    }
    NextTokens(path, rest, offset, token);
  }

  lemma {:induction false} MissingStays(table: seq<Node>, toks: seq<Str>, a: nat, b: nat)
    requires a <= b <= |toks| && Walk(table, toks, a) == Missing
    ensures Walk(table, toks, b) == Missing
    decreases b
  {
    hide Step, Find;
    if a < b {
      MissingStays(table, toks, a, b - 1);
      assert Step(table, Missing, toks[b - 1]) == Missing by { MissingStep(table, toks[b - 1]); }
    }
  }

  lemma MissingStep(table: seq<Node>, token: Str)
    ensures Step(table, Missing, token) == Missing
  {
  }

  // ----- from the archive to the opened file

  lemma {:induction false} PathStarts(toks: seq<Str>, n: nat)
    requires 0 < n <= |toks| && Components(toks)
    ensures Path(toks, n) != [] && Path(toks, n)[0] == toks[0][0]
  {
    if n == 1 {
      assert Component(toks[0]);
    } else {
      PathStarts(toks, n - 1);
    }
  }

  /** A stored path does not start with a component of dots only. */
  lemma StoredPath(toks: seq<Str>, name: Str)
    requires toks != [] && Components(toks) && Path(toks, |toks|) == Sanitized(name)
    ensures Sanitized(toks[0]) == toks[0] && toks[0] != [] && Sanitized(Path(toks, |toks|)) == Path(toks, |toks|)
  {
    hide Path, Sanitized;
    PathStarts(toks, |toks|);
    SanitizedTwice(name);
    SanitizedFixed(toks[0]);
    assert Component(toks[0]);
  }

  /** A file of the archive, when the array has room for it, no earlier node matches its name and no file
      is a directory prefix of a name, is opened by its absolute path; reading it in any adjoining pieces
      returns its archived bytes. */
  lemma ArchivedFileOpens(archive: Str, ms: seq<Member>, tail: Str, k: nat, toks: seq<Str>, sizes: seq<nat>)
    requires Holds(archive, ms, tail) && k < |ms| && ms[k].kind !in {0x78, 0x67, 0x4B, 0x4C, 0x35}
    requires toks != [] && Components(toks) && Path(toks, |toks|) == Sanitized(ms[k].name)
    requires NoFileIsPrefix(Cut(Table(ms, |ms|))) && Position(ms, k) < MAX_NODES && Sum(sizes) >= |ms[k].data|
    requires forall j :: 0 <= j < Position(ms, k) && j < |Table(ms, |ms|)| ==> !Same(Table(ms, |ms|)[j].name, ms[k].name)
    ensures var table, path := Cut(Table(ms, |ms|)), [SLASH] + Path(toks, |toks|);
      && Walk(table, Tokens(path), |Tokens(path)|) == In(Position(ms, k)) && 0 <= Position(ms, k) < |table|
      && ReadsAs(archive, table[Position(ms, k)], sizes, ms[k].data)
  {
    hide Sanitized, Table, NoFileIsPrefix, ReadsAs, Archive, Start, Components, Path, Same, Walk, Tokens, Cut, AllOk, CleanTable, DirClosed;
    FileReadsBack(archive, ms, tail, k, sizes);
    CutClosed(ms);
    CutNodes(Table(ms, |ms|));
    StoredFileFound(Cut(Table(ms, |ms|)), toks, ms[k].name, Position(ms, k));
  }

  /** The absolute path of the first node with a name leads to that node. */
  lemma StoredFileFound(table: seq<Node>, toks: seq<Str>, name: Str, i: nat)
    requires CleanTable(table) && DirClosed(table) && NoFileIsPrefix(table)
    requires toks != [] && Components(toks) && Path(toks, |toks|) == Sanitized(name)
    requires i < |table| && table[i].name == Sanitized(name) && forall j :: 0 <= j < i ==> !Same(table[j].name, name)
    ensures var path := [SLASH] + Path(toks, |toks|); Walk(table, Tokens(path), |Tokens(path)|) == In(i)
  {
    hide *;
    StoredPath(toks, name);
    TokensOfPath(toks, |toks|);
    assert toks[..|toks|] == toks;
    WalkIsSearch(table, toks);
    SanitizedTwice(name);
    FindSanitized(table, Path(toks, |toks|), name);
    FirstMatch(table, name, i);
    assert Found(Some(i)) == In(i) by { FoundSome(i); }
  }

  lemma FoundSome(i: nat)
    ensures Found(Some(i)) == In(i)
  {
  }

  lemma FirstMatch(table: seq<Node>, name: Str, i: nat)
    requires i < |table| && table[i].name == Sanitized(name)
    requires forall j :: 0 <= j < i ==> !Same(table[j].name, name)
    ensures Find(table, name, 0) == Some(i)
  {
    hide Find, Sanitized, Same;
    assert Same(table[i].name, name) by { SameAsSanitized(name); }
  }

  lemma SameAsSanitized(name: Str)
    ensures Same(Sanitized(name), name)
  {
    hide Sanitized;
    SanitizedTwice(name);
  }
}
