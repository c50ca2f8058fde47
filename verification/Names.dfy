/** Names of archive members: how the initramfs compares them, its flat table of nodes, and the
    directories it adds for the members it stores. */
module Names {
  import opened Bytes

  /** A C string without its terminator. */
  type Str = seq<byte>

  const SLASH: byte := 0x2F
  const DOT: byte := 0x2E

  predicate NoNul(s: Str) { forall i :: 0 <= i < |s| ==> s[i] != 0 }

  /** What a C program reads at index `i` of a string. */
  function At(s: Str, i: nat): byte {
    if i < |s| then s[i] else 0
  }

  /** The name without leading dots and slashes. */
  function Sanitized(s: Str): (r: Str)
    ensures |r| <= |s|
    ensures r != [] ==> r[0] != DOT && r[0] != SLASH
  {
    if s != [] && (s[0] == DOT || s[0] == SLASH) then Sanitized(s[1..]) else s
  }

  /** Two names match: equal after sanitizing, but for one trailing slash. */
  predicate Same(a: Str, b: Str) {
    var x, y := Sanitized(a), Sanitized(b);
    x == y || x == y + [SLASH] || y == x + [SLASH]
  }

  /** `sanitize_path`: where the sanitized name starts. */
  method Sanitize(path: Str) returns (start: nat)
    ensures start <= |path| && path[start..] == Sanitized(path)
  {
    start := 0;
    while At(path, start) == DOT || At(path, start) == SLASH
      invariant start <= |path| && Sanitized(path[start..]) == Sanitized(path)
      decreases |path| - start
    {
      assert path[start..][1..] == path[start + 1..];
      start := start + 1;
    }
  }

  /** `tar_match_name` */
  method TarMatchName(tarName: Str, searchName: Str) returns (r: bool)
    requires NoNul(tarName) && NoNul(searchName)
    ensures r == Same(tarName, searchName)
  {
    hide Sanitized;
    var a := Sanitize(tarName);
    var b := Sanitize(searchName);
    var x, y := tarName[a..], searchName[b..];
    r := MatchClean(x, y);
  }

  /** The comparison loop and the three end conditions. */
  method MatchClean(x: Str, y: Str) returns (r: bool)
    requires NoNul(x) && NoNul(y)
    ensures r <==> x == y || x == y + [SLASH] || y == x + [SLASH]
  {
    var i := 0;
    while At(x, i) != 0 && At(y, i) != 0
      invariant i <= |x| && i <= |y| && x[..i] == y[..i]
      decreases |x| - i
    {
      if At(x, i) != At(y, i) {
        Differ(x, y, i);
        return false;
      }
      i := i + 1;
    }
    if At(x, i) == 0 && At(y, i) == 0 { return true; }
    if At(x, i) == SLASH && At(x, i + 1) == 0 && At(y, i) == 0 {
      assert x == y + [SLASH];
      return true;
    }
    if At(y, i) == SLASH && At(y, i + 1) == 0 && At(x, i) == 0 {
      assert y == x + [SLASH];
      return true;
    }
    r := false;
  }

  lemma Differ(x: Str, y: Str, i: nat)
    requires i < |x| && i < |y| && x[i] != y[i]
    ensures x != y && x != y + [SLASH] && y != x + [SLASH]
  {
    assert (y + [SLASH])[i] == y[i] && (x + [SLASH])[i] == x[i];
  }

  lemma {:induction false} SanitizedSuffix(s: Str)
    ensures Sanitized(s) == s[|s| - |Sanitized(s)|..]
  {
    if s != [] && (s[0] == DOT || s[0] == SLASH) { SanitizedSuffix(s[1..]); }
  }

  /** What is left begins at the first character that is neither '.' nor '/'. */
  lemma {:induction false} SanitizedBegins(s: Str) returns (i: nat)
    ensures i <= |s| && Sanitized(s) == s[i..]
    ensures forall j :: 0 <= j < i ==> s[j] == 0x2E || s[j] == 0x2F
    ensures i < |s| ==> s[i] != 0x2E && s[i] != 0x2F
  {
    i := 0;
    if s != [] && (s[0] == DOT || s[0] == SLASH) {
      var k := SanitizedBegins(s[1..]);
      i := k + 1;
      assert s[1..][k..] == s[i..];
    }
  }

  /** Two names match exactly if what is left of them is equal, or one has a '/' more at its end. */
  lemma SameMeans(a: Str, b: Str)
    ensures Same(a, b) <==>
      Sanitized(a) == Sanitized(b) || Sanitized(a) == Sanitized(b) + [0x2F] || Sanitized(b) == Sanitized(a) + [0x2F]
  {
  }

  /** Sanitizing twice is sanitizing once. */
  lemma SanitizedTwice(s: Str)
    ensures Sanitized(Sanitized(s)) == Sanitized(s)
  {
  }

  lemma SanitizedFixed(s: Str)
    ensures Sanitized(s) == s <==> s == [] || (s[0] != DOT && s[0] != SLASH)
  {
  }

  /** What follows a name that does not sanitize to nothing is kept. */
  lemma {:induction false} SanitizedJoin(s: Str, t: Str)
    requires Sanitized(s) != []
    ensures Sanitized(s + t) == Sanitized(s) + t
  {
    if s[0] == DOT || s[0] == SLASH {
      assert (s + t)[1..] == s[1..] + t;
      SanitizedJoin(s[1..], t);
    }
  }

  // ----- the table of nodes

  /** A node of the table: `ptr` and `length` say where the bytes of a file lie in the archive. */
  datatype Node = Node(name: Str, isDir: bool, length: nat, ptr: nat)

  /** No node from index `i` up to `j` matches. */
  predicate NoneMatch(table: seq<Node>, p: Str, i: nat, j: nat)
    requires j <= |table|
  {
    forall k :: i <= k < j ==> !Same(table[k].name, p)
  }

  /** The first node from index `i` on whose name matches. */
  function Find(table: seq<Node>, p: Str, i: nat): (r: Option<nat>)
    requires i <= |table|
    ensures match r
      case Some(k) => i <= k < |table| && Same(table[k].name, p) && NoneMatch(table, p, i, k)
      case None => NoneMatch(table, p, i, |table|)
    decreases |table| - i
  {
    if i == |table| then None
    else if Same(table[i].name, p) then Some(i)
    else Find(table, p, i + 1)
  }

  /** A longer table finds what a shorter one found. */
  lemma FindExtends(table: seq<Node>, more: seq<Node>, p: Str)
    ensures Find(table, p, 0).Some? ==> Find(table + more, p, 0) == Find(table, p, 0)
  {
    hide Same, Find;
    var r, r' := Find(table, p, 0), Find(table + more, p, 0);
    if r.Some? {
      assert forall i :: 0 <= i <= r.value ==> (table + more)[i] == table[i];
    }
  }

  /** Only the sanitized name matters to a search. */
  lemma FindSanitized(table: seq<Node>, p: Str, q: Str)
    requires Sanitized(p) == Sanitized(q)
    ensures Find(table, p, 0) == Find(table, q, 0)
  {
    hide Find, Sanitized;
    assert forall k :: 0 <= k < |table| ==> (Same(table[k].name, p) <==> Same(table[k].name, q));
  }

  // ----- parent directories

  /** The table with a node for directory `dir`. */
  function WithParent(table: seq<Node>, dir: Str): seq<Node> {
    if dir != [] && Find(table, dir, 0).None? then table + [Node(dir, true, 0, 0)] else table
  }

  /** The table after the first `n` characters of a sanitized path have been scanned for parents. */
  function WithParents(table: seq<Node>, path: Str, n: nat): seq<Node>
    requires n <= |path|
  {
    if n == 0 then table
    else
      var t := WithParents(table, path, n - 1);
      if path[n - 1] == SLASH then WithParent(t, path[..n - 1]) else t
  }

  /** Position `i` of a name ends a proper directory prefix. */
  predicate EndsDir(name: Str, i: nat) { 0 < i < |name| && name[i] == SLASH }

  ghost predicate HasParents(table: seq<Node>, name: Str, n: nat)
    requires n <= |name|
  {
    forall i :: 0 <= i < n && EndsDir(name, i) ==> Find(table, name[..i], 0).Some?
  }

  /** Every proper directory prefix of every name in the table has a matching node. */
  ghost predicate DirClosed(table: seq<Node>) {
    forall k :: 0 <= k < |table| ==> HasParents(table, table[k].name, |table[k].name|)
  }

  /** The same, with the matching node earlier in the table. */
  ghost predicate ParentsFirst(table: seq<Node>) {
    forall k :: 0 <= k < |table| ==> HasParents(table[..k], table[k].name, |table[k].name|)
  }

  /** Then every front part of the table is closed. */
  lemma FrontClosed(table: seq<Node>, n: nat)
    requires ParentsFirst(table) && n <= |table|
    ensures DirClosed(table[..n])
  {
    hide HasParents;
    forall k | 0 <= k < n
      ensures HasParents(table[..n], table[..n][k].name, |table[..n][k].name|)
    {
      ParentsExtend(table[..k], table[k..n], table[k].name, |table[k].name|);
      assert table[..n] == table[..k] + table[k..n];
    }
  }

  lemma ParentsExtend(table: seq<Node>, more: seq<Node>, name: Str, n: nat)
    requires n <= |name| && HasParents(table, name, n)
    ensures HasParents(table + more, name, n)
  {
    forall i | 0 <= i < n && EndsDir(name, i)
      ensures Find(table + more, name[..i], 0).Some?
    {
      FindExtends(table, more, name[..i]);
    }
  }

  lemma ParentsFirstExtends(table: seq<Node>, node: Node)
    requires ParentsFirst(table) && HasParents(table, node.name, |node.name|)
    ensures ParentsFirst(table + [node])
  {
    hide HasParents;
    var t := table + [node];
    forall k | 0 <= k < |t|
      ensures HasParents(t[..k], t[k].name, |t[k].name|)
    {
      assert t[..k] == table[..k];
      if k == |table| { assert t[..k] == table; }
    }
  }

  /** A directory node named after a proper directory prefix of the path. */
  ghost predicate IsParent(node: Node, path: Str) {
    node.isDir && exists i: nat :: EndsDir(path, i) && node.name == path[..i]
  }

  ghost predicate Scanned(table: seq<Node>, t: seq<Node>, path: Str, n: nat)
    requires n <= |path|
  {
    && |t| >= |table| && t[..|table|] == table && ParentsFirst(t) && HasParents(t, path, n)
    && forall k :: |table| <= k < |t| ==> IsParent(t[k], path)
  }

  /** Scanning a path gives all its parents nodes and keeps parents first; it only adds directories
      named after prefixes of the path. */
  lemma {:induction false} ParentsAdded(table: seq<Node>, path: Str, n: nat)
    requires n <= |path| && ParentsFirst(table)
    ensures Scanned(table, WithParents(table, path, n), path, n)
  {
    hide Find, ParentsFirst, IsParent, HasParents, WithParents;
    if n == 0 {
      NothingScanned(table, path);
    } else {
      ParentsAdded(table, path, n - 1);
      var t := WithParents(table, path, n - 1);
      NextParent(table, path, n);
      if EndsDir(path, n - 1) && Find(t, path[..n - 1], 0).None? {
        OneParent(table, t, path, n - 1);
      } else {
        OneMore(t, path, n - 1);
      }
    }
  }

  lemma NothingScanned(table: seq<Node>, path: Str)
    requires ParentsFirst(table)
    ensures Scanned(table, WithParents(table, path, 0), path, 0)
  {
  }

  lemma NextParent(table: seq<Node>, path: Str, n: nat)
    requires 0 < n <= |path|
    ensures var t := WithParents(table, path, n - 1);
      WithParents(table, path, n) ==
      if EndsDir(path, n - 1) && Find(t, path[..n - 1], 0).None? then t + [Node(path[..n - 1], true, 0, 0)] else t
  {
  }

  lemma OneParent(table: seq<Node>, t: seq<Node>, path: Str, i: nat)
    requires EndsDir(path, i) && Scanned(table, t, path, i)
    ensures Scanned(table, t + [Node(path[..i], true, 0, 0)], path, i + 1)
  {
    hide Find, ParentsFirst, HasParents;
    var node := Node(path[..i], true, 0, 0);
    var t' := t + [node];
    PrefixParents(t, path, i);
    ParentsFirstExtends(t, node);
    ParentsExtend(t, [node], path, i);
    FindAppended(t, node);
    OneMore(t', path, i);
    assert IsParent(node, path);
    assert t'[..|table|] == table;
  }

  lemma OneMore(t: seq<Node>, path: Str, i: nat)
    requires i < |path| && HasParents(t, path, i) && (EndsDir(path, i) ==> Find(t, path[..i], 0).Some?)
    ensures HasParents(t, path, i + 1)
  {
  }

  lemma PrefixParents(table: seq<Node>, path: Str, n: nat)
    requires n <= |path| && HasParents(table, path, n)
    ensures HasParents(table, path[..n], n)
  {
    forall i | 0 <= i < n && EndsDir(path[..n], i)
      ensures Find(table, path[..n][..i], 0).Some?
    {
      assert EndsDir(path, i) && path[..n][..i] == path[..i];
    }
  }

  lemma FindAppended(table: seq<Node>, node: Node)
    ensures Find(table + [node], node.name, 0).Some?
  {
    assert (table + [node])[|table|] == node;
  }
}
