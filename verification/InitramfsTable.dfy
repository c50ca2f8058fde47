/** The flat table of nodes an archive stands for: which members it records and which directories it adds. */
module InitramfsTable {
  import opened Bytes
  import opened Names
  import opened Ustar

  const MAX_NODES := 128

  // ----- the table an archive stands for

  /** The node of a member that starts at offset `at` of the archive. */
  function NodeOf(m: Member, at: nat): Node {
    if m.kind == DIRTYPE then Node(Sanitized(m.name), true, 0, 0)
    else Node(Sanitized(m.name), false, |m.data|, at + BLOCK)
  }

  function Stored(table: seq<Node>, m: Member, at: nat): seq<Node> {
    if m.IsMeta() then table
    else WithParents(table, Sanitized(m.name), |Sanitized(m.name)|) + [NodeOf(m, at)]
  }

  /** The table of the first `n` members. */
  function Table(ms: seq<Member>, n: nat): seq<Node>
    requires AllOk(ms) && n <= |ms|
  {
    if n == 0 then [] else Stored(Table(ms, n - 1), ms[n - 1], Start(ms, n - 1))
  }

  /** Every proper directory prefix of every name has a matching node earlier in the table. */
  lemma {:induction false} TableClosed(ms: seq<Member>, n: nat)
    requires AllOk(ms) && n <= |ms|
    ensures ParentsFirst(Table(ms, n))
  {
    hide ParentsFirst, WithParents;
    if n == 0 {
      EmptyTable(ms);
    } else {
      TableClosed(ms, n - 1);
      var m, path := ms[n - 1], Sanitized(ms[n - 1].name);
      if !m.IsMeta() {
        ParentsAdded(Table(ms, n - 1), path, |path|);
        ParentsFirstExtends(WithParents(Table(ms, n - 1), path, |path|), NodeOf(m, Start(ms, n - 1)));
      }
    }
  }

  /** `t'` starts with the nodes of `t`. */
  predicate Extends(t: seq<Node>, t': seq<Node>) { |t| <= |t'| && t'[..|t|] == t }

  lemma ExtendsAt(t: seq<Node>, t': seq<Node>, i: nat)
    requires Extends(t, t') && i < |t|
    ensures t'[i] == t[i]
  {
    assert t'[i] == t'[..|t|][i];
  }

  lemma ExtendsTwice(t: seq<Node>, u: seq<Node>, v: seq<Node>)
    requires Extends(t, u) && Extends(u, v)
    ensures Extends(t, v)
  {
    assert v[..|t|] == v[..|u|][..|t|];
  }

  /** What one member adds to a table: nothing for metadata, else its missing parents and its own node. */
  ghost predicate Adds(t: seq<Node>, t': seq<Node>, m: Member, at: nat) {
    && Extends(t, t')
    && if m.IsMeta() then t' == t
       else |t| < |t'| && t'[|t'| - 1] == NodeOf(m, at) && forall k :: |t| <= k < |t'| - 1 ==> IsParent(t'[k], Sanitized(m.name))
  }

  lemma StoredAdds(t: seq<Node>, m: Member, at: nat)
    requires ParentsFirst(t)
    ensures Adds(t, Stored(t, m, at), m, at)
  {
    hide WithParents, IsParent, ParentsFirst, HasParents;
    var path := Sanitized(m.name);
    ParentsAdded(t, path, |path|);
    var w := WithParents(t, path, |path|);
    assert (w + [NodeOf(m, at)])[..|t|] == w[..|t|];
  }

  lemma TableNext(ms: seq<Member>, n: nat)
    requires AllOk(ms) && n < |ms|
    ensures Adds(Table(ms, n), Table(ms, n + 1), ms[n], Start(ms, n))
  {
    hide Stored, ParentsFirst, Adds;
    TableClosed(ms, n);
    StoredAdds(Table(ms, n), ms[n], Start(ms, n));
  }

  lemma {:induction false} TablePrefix(ms: seq<Member>, a: nat, b: nat)
    requires AllOk(ms) && a <= b <= |ms|
    ensures Extends(Table(ms, a), Table(ms, b))
  {
    hide Table, NodeOf, IsParent;
    if a < b {
      TablePrefix(ms, a, b - 1);
      TableNext(ms, b - 1);
      ExtendsTwice(Table(ms, a), Table(ms, b - 1), Table(ms, b));
    } else {
      assert Table(ms, a)[..|Table(ms, a)|] == Table(ms, a);
    }
  }

  /** Where in the table the node of member `k` is. */
  function Position(ms: seq<Member>, k: nat): int
    requires AllOk(ms) && k < |ms|
  {
    |Table(ms, k + 1)| - 1
  }

  /** Extended headers ('x', 'g') and long names ('K', 'L') leave the table as it was. */
  lemma MetaSkipped(ms: seq<Member>, k: nat)
    requires AllOk(ms) && k < |ms| && ms[k].kind in {0x78, 0x67, 0x4B, 0x4C}
    ensures Table(ms, k + 1) == Table(ms, k)
  {
    hide NodeOf;
    TableNext(ms, k);
  }

  /** Every member of another type is recorded under its sanitized name: as a directory if its type is '5', and
      otherwise as a file of the length of its data, which begin one block behind the start of its header.
      Members are recorded in archive order. */
  lemma Recorded(ms: seq<Member>, k: nat)
    requires AllOk(ms) && k < |ms| && ms[k].kind !in {0x78, 0x67, 0x4B, 0x4C}
    ensures 0 <= Position(ms, k) < |Table(ms, |ms|)|
    ensures var node := Table(ms, |ms|)[Position(ms, k)];
      && node.name == Sanitized(ms[k].name) && (node.isDir <==> ms[k].kind == 0x35)
      && (ms[k].kind != 0x35 ==> node.length == |ms[k].data| && node.ptr == Start(ms, k) + 512)
    ensures forall j :: 0 <= j < k && ms[j].kind !in {0x78, 0x67, 0x4B, 0x4C} ==> Position(ms, j) < Position(ms, k)
  {
    NodeRecorded(ms, k);
  }

  lemma NodeRecorded(ms: seq<Member>, k: nat)
    requires AllOk(ms) && k < |ms| && ms[k].kind !in {0x78, 0x67, 0x4B, 0x4C}
    ensures 0 <= Position(ms, k) < |Table(ms, |ms|)| && Table(ms, |ms|)[Position(ms, k)] == NodeOf(ms[k], Start(ms, k))
    ensures forall j :: 0 <= j < k && ms[j].kind !in {0x78, 0x67, 0x4B, 0x4C} ==> Position(ms, j) < Position(ms, k)
  {
    hide Table, NodeOf, IsParent;
    TableNext(ms, k);
    TablePrefix(ms, k + 1, |ms|);
    ExtendsAt(Table(ms, k + 1), Table(ms, |ms|), Position(ms, k));
    forall j | 0 <= j < k && ms[j].kind !in {0x78, 0x67, 0x4B, 0x4C}
      ensures Position(ms, j) < Position(ms, k)
    {
      TableNext(ms, j);
      TablePrefix(ms, j + 1, k);
    }
  }

  /** Every other node is a directory added for a proper directory prefix of some member's name. */
  lemma {:induction false} OnlyParentsAdded(ms: seq<Member>, n: nat, i: nat)
    requires AllOk(ms) && n <= |ms| && i < |Table(ms, n)|
    ensures exists k :: 0 <= k < n && ms[k].kind !in {0x78, 0x67, 0x4B, 0x4C} && (i == Position(ms, k) || IsParent(Table(ms, n)[i], Sanitized(ms[k].name)))
  {
    hide IsParent, Table, NodeOf;
    if n == 0 {
      EmptyTable(ms);
    } else {
      TableNext(ms, n - 1);
      var t, t' := Table(ms, n - 1), Table(ms, n);
      if i < |t| {
        OnlyParentsAdded(ms, n - 1, i);
        ExtendsAt(t, t', i);
      } else {
        assert i == Position(ms, n - 1) || IsParent(t'[i], Sanitized(ms[n - 1].name));
      }
    }
  }

  lemma EmptyTable(ms: seq<Member>)
    requires AllOk(ms)
    ensures Table(ms, 0) == [] && Start(ms, 0) == 0 && ParentsFirst([]) && CleanTable([])
  {
  }

  /** The bytes of a file node are the data of its member. */
  lemma FileBytes(ms: seq<Member>, tail: Str, k: nat)
    requires AllOk(ms) && k < |ms| && ms[k].kind !in {0x78, 0x67, 0x4B, 0x4C, 0x35}
    ensures var node := NodeOf(ms[k], Start(ms, k)); var archive := Archive(ms) + tail;
      node.ptr + node.length <= |archive| && archive[node.ptr..node.ptr + node.length] == ms[k].data
  {
    hide Written, Archive, Start;
    ArchiveParts(ms, k);
    WrittenFields(ms[k]);
    var at, w := Start(ms, k), Written(ms[k]);
    var archive := Archive(ms) + tail;
    assert archive[at..at + |w|] == w;
    SliceOfSlice(archive, at, |w|, BLOCK, |ms[k].data|);
  }

  lemma SliceOfSlice(s: Str, at: nat, n: nat, from: nat, len: nat)
    requires at + n <= |s| && from + len <= n
    ensures s[at + from..at + from + len] == s[at..at + n][from..from + len]
  {
    var a, b := s[at + from..at + from + len], s[at..at + n][from..from + len];
    assert forall k :: 0 <= k < len ==> a[k] == s[at + from + k] && b[k] == s[at + from + k];
  }

  /** The names in the table are sanitized, and fit the name field of a node. */
  predicate CleanName(name: Str) { Sanitized(name) == name && |name| < 100 && NoNul(name) }

  ghost predicate CleanTable(table: seq<Node>) {
    forall k :: 0 <= k < |table| ==> CleanName(table[k].name)
  }

  lemma {:induction false} TableClean(ms: seq<Member>, n: nat)
    requires AllOk(ms) && n <= |ms|
    ensures CleanTable(Table(ms, n))
  {
    hide Table, Adds, CleanTable;
    EmptyTable(ms);
    if n > 0 {
      TableClean(ms, n - 1);
      TableNext(ms, n - 1);
      AddsClean(Table(ms, n - 1), Table(ms, n), ms[n - 1], Start(ms, n - 1));
    }
  }

  lemma AddsClean(t: seq<Node>, t': seq<Node>, m: Member, at: nat)
    requires m.Ok() && CleanTable(t) && Adds(t, t', m, at)
    ensures CleanTable(t')
  {
    hide Sanitized, CleanName, IsParent;
    CleanPath(m);
    forall k | 0 <= k < |t'|
      ensures CleanName(t'[k].name)
    {
      if k < |t| {
        ExtendsAt(t, t', k);
      } else if k < |t'| - 1 {
        CleanParent(t'[k], Sanitized(m.name));
      }
    }
  }

  lemma CleanPath(m: Member)
    requires m.Ok()
    ensures CleanName(Sanitized(m.name))
  {
    SanitizedTwice(m.name);
    SanitizedSuffix(m.name);
  }

  lemma CleanParent(node: Node, path: Str)
    requires IsParent(node, path) && CleanName(path)
    ensures CleanName(node.name)
  {
    hide CleanName;
    var i: nat :| EndsDir(path, i) && node.name == path[..i];
    CleanPrefix(path, i);
  }

  lemma CleanPrefix(path: Str, i: nat)
    requires CleanName(path) && i <= |path|
    ensures CleanName(path[..i])
  {
    SanitizedFixed(path);
  }

  // ----- lookup in a directory

  function DirName(table: seq<Node>, loc: Option<nat>): Str
    requires loc.Some? ==> loc.value < |table|
  {
    if loc.None? then [] else table[loc.value].name
  }

  /** A directory's name as the start of a path: empty, or ending in a slash. */
  function Prefix(dir: Str): Str {
    if dir != [] && dir[|dir| - 1] != SLASH then dir + [SLASH] else dir
  }

  /** The path a lookup compares names with: at most 255 characters. */
  function Joined(dir: Str, name: Str): Str {
    var full := Prefix(dir) + name;
    if |full| <= 255 then full else full[..255]
  }

  /** Below the root the component itself; below a directory its name, one '/' and the component; in either case
      the first 255 characters. */
  lemma JoinedMeans(dir: Str, name: Str)
    ensures var full := if dir == [] then name else if dir[|dir| - 1] == 0x2F then dir + name else dir + [0x2F] + name;
      Joined(dir, name) == full[..if |full| <= 255 then |full| else 255]
  {
  }

  lemma DirNoNul(table: seq<Node>, loc: Option<nat>)
    requires CleanTable(table) && (loc.Some? ==> loc.value < |table|)
    ensures NoNul(DirName(table, loc)) && |DirName(table, loc)| < 100
  {
    hide Sanitized;
    if loc.Some? {
      assert CleanName(table[loc.value].name);
    }
  }

  lemma JoinedNoNul(dir: Str, name: Str)
    requires NoNul(dir) && NoNul(name)
    ensures NoNul(Joined(dir, name))
  {
  }

  // ----- an array of 128 nodes

  /** What is left of a table in an array of 128 nodes. */
  function Cut(table: seq<Node>): seq<Node> {
    if |table| <= MAX_NODES then table else table[..MAX_NODES]
  }

  lemma CutMeans(table: seq<Node>)
    ensures Cut(table) == if |table| <= 128 then table else table[..128]
  {
  }

  lemma CutWhole(table: seq<Node>)
    requires |table| <= MAX_NODES
    ensures Cut(table) == table
  {
  }

  lemma CutNodes(table: seq<Node>)
    ensures |Cut(table)| <= |table| && (|Cut(table)| == |table| || |Cut(table)| == MAX_NODES)
    ensures forall j :: 0 <= j < |Cut(table)| ==> Cut(table)[j] == table[j]
  {
  }

  /** Once the array is full, later nodes change nothing. */
  lemma CutFull(t: seq<Node>, t': seq<Node>)
    requires Extends(t, t') && |t| >= MAX_NODES
    ensures Cut(t') == Cut(t)
  {
    assert t'[..MAX_NODES] == t'[..|t|][..MAX_NODES];
  }

  lemma {:induction false} ParentsExtendTable(table: seq<Node>, path: Str, a: nat, b: nat)
    requires a <= b <= |path|
    ensures Extends(WithParents(table, path, a), WithParents(table, path, b))
    decreases b
  {
    var t := WithParents(table, path, b);
    if a < b {
      ParentsExtendTable(table, path, a, b - 1);
      ExtendsTwice(WithParents(table, path, a), WithParents(table, path, b - 1), t);
    } else {
      assert t[..|t|] == t;
    }
  }

  /** When a parent does not fit any more, the array holds what is left of the table. */
  lemma ParentsFull(table: seq<Node>, path: Str, i: nat)
    requires i < |path| && path[i] == SLASH
    requires |WithParents(table, path, i)| <= MAX_NODES < |WithParent(WithParents(table, path, i), path[..i])|
    ensures Cut(WithParents(table, path, |path|)) == WithParents(table, path, i)
  {
    hide WithParents;
    ParentsExtendTable(table, path, i, |path|);
    CutFull(WithParents(table, path, i), WithParents(table, path, |path|));
  }

  /** A table whose parents overflow the array is cut as the whole archive is. */
  lemma CutEarly(ms: seq<Member>, k: nat)
    requires AllOk(ms) && k < |ms| && !ms[k].IsMeta()
    requires |WithParents(Table(ms, k), Sanitized(ms[k].name), |Sanitized(ms[k].name)|)| >= MAX_NODES
    ensures Cut(Table(ms, |ms|)) == Cut(WithParents(Table(ms, k), Sanitized(ms[k].name), |Sanitized(ms[k].name)|))
  {
    hide WithParents, Cut, Sanitized;
    var w := WithParents(Table(ms, k), Sanitized(ms[k].name), |Sanitized(ms[k].name)|);
    assert Table(ms, k + 1) == w + [NodeOf(ms[k], Start(ms, k))];
    assert Extends(w, Table(ms, k + 1));
    TablePrefix(ms, k + 1, |ms|);
    ExtendsTwice(w, Table(ms, k + 1), Table(ms, |ms|));
    CutFull(w, Table(ms, |ms|));
  }

  /** Also in what the array keeps of it, every proper directory prefix of every name has a matching node. */
  lemma CutClosed(ms: seq<Member>)
    requires AllOk(ms)
    ensures DirClosed(Cut(Table(ms, |ms|))) && CleanTable(Cut(Table(ms, |ms|)))
  {
    hide Table, ParentsFirst, DirClosed, CleanName;
    var t := Table(ms, |ms|);
    TableClosed(ms, |ms|);
    TableClean(ms, |ms|);
    assert t[..|t|] == t;
    FrontClosed(t, if |t| <= MAX_NODES then |t| else MAX_NODES);
  }
}
