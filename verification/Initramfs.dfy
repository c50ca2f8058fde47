/** The initramfs: an archive in memory read into an array of 128 nodes, with lookup and file reads. */
module Initramfs {
  import opened Bytes
  import opened Names
  import opened Ustar
  import opened InitramfsTable

  /** Memory at the archive's address: the members, then a block that starts with zero. */
  ghost predicate Holds(archive: Str, ms: seq<Member>, tail: Str) {
    AllOk(ms) && archive == Archive(ms) + tail && tail != [] && tail[0] == 0
  }

  /** The fields of a member's header that the reader looks at. */
  ghost predicate HeaderAt(archive: Str, at: nat, m: Member) {
    && |m.name| < 100 && at + BLOCK <= |archive|
    && archive[at..at + |m.name|] == m.name && archive[at + |m.name|] == 0
    && archive[at + 124..at + 135] == Octal(|m.data|, 11) && archive[at + 156] == m.kind
  }

  /** What the reader sees at the start of member `k`, and at the end of the archive. */
  lemma AtMember(archive: Str, ms: seq<Member>, tail: Str, k: nat)
    requires Holds(archive, ms, tail) && k <= |ms|
    ensures Start(ms, k) < |archive| && (archive[Start(ms, k)] == 0 <==> k == |ms|)
    ensures k < |ms| ==>
      HeaderAt(archive, Start(ms, k), ms[k]) && Start(ms, k + 1) == Start(ms, k) + BLOCK + Blocks(|ms[k].data|) * 512
  {
    hide Archive, Written, Octal, Blocks;
    if k == |ms| {
      assert ms[..k] == ms;
    } else {
      ArchiveParts(ms, k);
      WrittenFields(ms[k]);
      var at, w, m := Start(ms, k), Written(ms[k]), ms[k];
      assert archive[at..at + |w|] == w;
      SliceOfSlice(archive, at, |w|, 0, |m.name|);
      SliceOfSlice(archive, at, |w|, 124, 11);
      assert archive[at] == w[0] && w[0] == m.name[0];
      assert archive[at + |m.name|] == w[|m.name|] && archive[at + 156] == w[156];
    }
  }

  /** The C string at offset `at`. */
  method ReadString(archive: Str, at: nat, ghost name: Str) returns (s: Str)
    requires at + |name| < |archive| && archive[at..at + |name|] == name && NoNul(name) && archive[at + |name|] == 0
    ensures s == name
  {
    s := [];
    while archive[at + |s|] != 0
      invariant |s| <= |name| && s == archive[at..at + |s|]
      decreases |name| - |s|
    {
      assert |s| < |name|;
      s := s + [archive[at + |s|]];
    }
    NameEnds(archive, at, name, |s|);
  }

  lemma NameEnds(archive: Str, at: nat, name: Str, n: nat)
    requires at + |name| < |archive| && archive[at..at + |name|] == name && NoNul(name)
    requires n <= |name| && archive[at + n] == 0
    ensures n == |name|
  {
    ghost var part := archive[at..at + |name|];
    assert forall i :: 0 <= i < |part| ==> part[i] == archive[at + i] && part[i] == name[i];
  }

  // ----- file reads

  /** A read returns as many bytes as were asked for, or what is left of the file: those from the offset on. */
  lemma ReadLength(data: Str, size: nat, offset: nat)
    ensures var r := ReadPart(data, size, offset);
      && |r| == (if offset >= |data| then 0 else if size <= |data| - offset then size else |data| - offset)
      && forall k :: 0 <= k < |r| ==> offset + k < |data| && r[k] == data[offset + k]
  {
  }

  /** The bytes one read returns. */
  function ReadPart(data: Str, size: nat, offset: nat): Str {
    if offset >= |data| then [] else if offset + size > |data| then data[offset..] else data[offset..offset + size]
  }

  /** `ramfs_read`: `offset + size` must not wrap, and the buffer must have room for what is read. */
  method Read(archive: Str, node: Node, buffer: array<byte>, size: nat, offset: nat) returns (n: nat)
    requires node.ptr + node.length <= |archive| && offset + size < TWO64
    requires |ReadPart(archive[node.ptr..node.ptr + node.length], size, offset)| <= buffer.Length
    modifies buffer
    ensures n <= buffer.Length && buffer[..n] == ReadPart(archive[node.ptr..node.ptr + node.length], size, offset)
    ensures buffer[n..] == old(buffer[n..])
  {
    ghost var data := archive[node.ptr..node.ptr + node.length];
    if offset >= node.length { return 0; }
    n := size;
    if offset + size > node.length { n := node.length - offset; }
    for i := 0 to n
      invariant buffer[..i] == data[offset..offset + i]
      invariant buffer[n..] == old(buffer[n..])
    {
      buffer[i] := archive[node.ptr + (offset + i)];
      assert buffer[i] == data[offset + i];
    }
  }

  function Sum(sizes: seq<nat>): nat {
    if sizes == [] then 0 else sizes[0] + Sum(sizes[1..])
  }

  /** What a run of reads returns when each starts where the one before it stopped. */
  function Reads(data: Str, sizes: seq<nat>, offset: nat): Str {
    if sizes == [] then []
    else var part := ReadPart(data, sizes[0], offset); part + Reads(data, sizes[1..], offset + |part|)
  }

  /** Adjoining reads return what one read of their total size returns, however it is split. */
  lemma {:induction false} AdjoiningReads(data: Str, sizes: seq<nat>, offset: nat)
    ensures Reads(data, sizes, offset) == ReadPart(data, Sum(sizes), offset)
    decreases |sizes|
  {
    hide ReadPart;
    ReadNothing(data, offset);
    if sizes != [] {
      var part := ReadPart(data, sizes[0], offset);
      AdjoiningReads(data, sizes[1..], offset + |part|);
      ReadTwice(data, sizes[0], Sum(sizes[1..]), offset);
    }
  }

  lemma ReadNothing(data: Str, offset: nat)
    ensures ReadPart(data, 0, offset) == []
  {
  }

  lemma ReadTwice(data: Str, a: nat, b: nat, offset: nat)
    ensures var part := ReadPart(data, a, offset); part + ReadPart(data, b, offset + |part|) == ReadPart(data, a + b, offset)
  {
  }

  /** Adjoining reads of these sizes from the start of a node return `data`. */
  ghost predicate ReadsAs(archive: Str, node: Node, sizes: seq<nat>, data: Str) {
    node.ptr + node.length <= |archive| && Reads(archive[node.ptr..node.ptr + node.length], sizes, 0) == data
  }

  /** Reading a file of the archive from its start, in any adjoining pieces that reach its end, returns the
      bytes that were archived. */
  lemma FileReadsBack(archive: Str, ms: seq<Member>, tail: Str, k: nat, sizes: seq<nat>)
    requires Holds(archive, ms, tail) && k < |ms| && ms[k].kind !in {0x78, 0x67, 0x4B, 0x4C, 0x35}
    requires Sum(sizes) >= |ms[k].data|
    ensures 0 <= Position(ms, k) < |Table(ms, |ms|)|
    ensures Table(ms, |ms|)[Position(ms, k)].name == Sanitized(ms[k].name)
    ensures ReadsAs(archive, Table(ms, |ms|)[Position(ms, k)], sizes, ms[k].data)
  {
    hide Table, Archive, Start, Reads, Sum, Sanitized, AllOk;
    NodeRecorded(ms, k);
    FileBytes(ms, tail, k);
    WholeRead(ms[k].data, sizes);
  }

  lemma WholeRead(data: Str, sizes: seq<nat>)
    requires Sum(sizes) >= |data|
    ensures Reads(data, sizes, 0) == data
  {
    hide Reads, Sum;
    AdjoiningReads(data, sizes, 0);
  }

  class Initramfs {
    /** `ramfs_nodes` and `ramfs_node_count` */
    const nodes: array<Node>
    var count: nat

    ghost predicate Valid()
      reads this, nodes
    {
      nodes.Length == MAX_NODES && count <= MAX_NODES && CleanTable(nodes[..count])
    }

    ghost function Contents(): seq<Node>
      requires Valid()
      reads this, nodes
    {
      nodes[..count]
    }

    constructor ()
      ensures Valid() && Contents() == [] && fresh(nodes)
    {
      nodes := new Node[MAX_NODES];
      count := 0;
    }

    /** The search loop over the table. */
    method FindNode(path: Str) returns (k: Option<nat>)
      requires Valid() && NoNul(path)
      ensures k == Find(Contents(), path, 0)
    {
      for i := 0 to count
        invariant Find(Contents(), path, 0) == Find(Contents(), path, i)
      {
        var match_ := TarMatchName(nodes[i].name, path);
        if match_ { return Some(i); }
      }
      k := None;
    }

    method Append(node: Node)
      requires Valid() && count < MAX_NODES && CleanTable([node])
      modifies this`count, nodes
      ensures Valid() && Contents() == old(Contents()) + [node]
    {
      assert [node][0] == node;
      ghost var was := nodes[..count];
      nodes[count] := node;
      count := count + 1;
      assert nodes[..count] == was + [node];
    }

    /** The node for a parent directory, unless there is one; false when the array is full. */
    method EnsureParent(dirPath: Str) returns (room: bool)
      requires Valid() && CleanName(dirPath)
      modifies this`count, nodes
      ensures Valid()
      ensures var w := WithParent(old(Contents()), dirPath);
        room == (|w| <= MAX_NODES) && Contents() == if room then w else old(Contents())
    {
      room := true;
      var found := FindNode(dirPath);
      if found.None? && |dirPath| > 0 {
        if count >= MAX_NODES { return false; }
        Append(Node(dirPath, true, 0, 0));
      }
    }

    /** `ensure_parent_dirs_exist` */
    method EnsureParents(rawPath: Str)
      requires Valid() && CleanName(Sanitized(rawPath))
      modifies this`count, nodes
      ensures Valid() && Contents() == Cut(WithParents(old(Contents()), Sanitized(rawPath), |Sanitized(rawPath)|))
    {
      hide Sanitized, WithParent, CleanName, CleanTable, Cut;
      var start := Sanitize(rawPath);
      var path := rawPath[start..];
      ghost var was := Contents();
      var dirPath: Str := [];
      var i := 0;
      while i < |path|
        invariant i <= |path| && dirPath == path[..i]
        invariant Valid() && Contents() == WithParents(was, path, i)
      {
        if path[i] == SLASH {
          CleanPrefix(path, i);
          var room := EnsureParent(dirPath);
          if !room {
            ParentsFull(was, path, i);
            return;
          }
        }
        dirPath := dirPath + [path[i]];
        i := i + 1;
      }
      CutWhole(Contents());
    }

    /** The node made for one member: a copy of at most 99 characters of its name. */
    method MakeNode(clean: Str, kind: byte, size: nat, at: nat) returns (node: Node)
      requires |clean| < 100
      ensures node == if kind == DIRTYPE then Node(clean, true, 0, 0) else Node(clean, false, size, at + BLOCK)
    {
      var name: Str := [];
      while |name| < |clean| && |name| < 99
        invariant |name| <= |clean| && name == clean[..|name|]
        decreases |clean| - |name|
      {
        name := name + [clean[|name|]];
      }
      assert name == clean;
      if kind == DIRTYPE {
        node := Node(name, true, 0, 0);
      } else {
        node := Node(name, false, size, at + BLOCK);
      }
    }

    /** The reader's work on one member that is not metadata; false when the array is full. */
    method StoreMember(clean: Str, kind: byte, size: nat, at: nat, ghost m: Member) returns (room: bool)
      requires Valid() && m.Ok() && clean == Sanitized(m.name) && kind == m.kind && size == |m.data|
      modifies this`count, nodes
      ensures Valid()
      ensures var w := WithParents(old(Contents()), clean, |clean|);
        room == (|w| < MAX_NODES) && Contents() == if room then w + [NodeOf(m, at)] else Cut(w)
    {
      hide WithParents;
      CleanPath(m);
      EnsureParents(clean);
      if count >= MAX_NODES { return false; }
      var node := MakeNode(clean, kind, size, at);
      Append(node);
      room := true;
    }

    /** The reader's work on one header. */
    method ParseHeader(archive: Str, at: nat, ghost m: Member) returns (clean: Str, kind: byte, size: nat)
      requires m.Ok() && HeaderAt(archive, at, m)
      ensures clean == Sanitized(m.name) && kind == m.kind && size == |m.data|
    {
      hide Sanitized, NoNul, Octal, OctalValue;
      var name := ReadString(archive, at, m.name);
      var start := Sanitize(name);
      clean := name[start..];
      SizeReadsBack(|m.data|);
      size := Oct2Bin(archive[at + 124..at + 135]);
      kind := archive[at + 156];
    }

    /** `init_initramfs`: the table of the whole archive, as far as the array has room. */
    method Init(archive: Str, ghost ms: seq<Member>, ghost tail: Str)
      requires Valid() && Contents() == [] && Holds(archive, ms, tail)
      modifies this`count, nodes
      ensures Valid() && Contents() == Cut(Table(ms, |ms|))
      ensures Contents() == if |Table(ms, |ms|)| <= 128 then Table(ms, |ms|) else Table(ms, |ms|)[..128]
    {
      hide Sanitized, CleanTable, Archive, Start, WithParents, NodeOf, HeaderAt, Cut, CleanName, NoNul, Octal, AllOk, Member.Ok;
      assert forall i :: 0 <= i < |ms| ==> ms[i].Ok() by { AllOkAt(ms); }
      CutMeans(Table(ms, |ms|));
      EmptyTable(ms);

      var header := 0;
      ghost var k := 0;
      AtMember(archive, ms, tail, 0);
      while archive[header] != 0
        invariant k <= |ms| && header == Start(ms, k) && header < |archive| && (archive[header] == 0 <==> k == |ms|)
        invariant Valid() && Contents() == Table(ms, k)
        decreases |ms| - k
      {
        ghost var m := ms[k];
        AtMember(archive, ms, tail, k);
        var clean, kind, size := ParseHeader(archive, header, m);
        if !(kind == 0x78 || kind == 0x67 || kind == 0x4B || kind == 0x4C) {
          var room := StoreMember(clean, kind, size, header, m);
          if !room {
            CutEarly(ms, k);
            return;
          }
        }
        var blocks := size / 512 + if size % 512 != 0 then 1 else 0;
        header := header + 512 + blocks * 512;
        k := k + 1;
        AtMember(archive, ms, tail, k);
      }
      CutWhole(Contents());
    }

    /** `ramfs_finddir`: `loc` is the directory's place in the table, or none for the root. */
    method FindDir(loc: Option<nat>, name: Str) returns (k: Option<nat>)
      requires Valid() && NoNul(name) && (loc.Some? ==> loc.value < count)
      ensures k == Find(Contents(), Joined(DirName(Contents(), loc), name), 0)
    {
      hide Find, Sanitized, NoNul, Joined;
      var dir := [];
      if loc.Some? {
        dir := nodes[loc.value].name;
        assert dir == Contents()[loc.value].name && CleanName(dir);
      }
      DirNoNul(Contents(), loc);
      hide CleanName;
      var expected := BuildPath(dir, name);
      JoinedNoNul(dir, name);
      k := FindNode(expected);
    }

    /** The path it looks for, in a buffer of 256 characters. */
    method BuildPath(dir: Str, name: Str) returns (expected: Str)
      requires |dir| < 100
      ensures expected == Joined(dir, name)
    {
      expected := [];
      while |expected| < |dir| && |expected| < 255
        invariant |expected| <= |dir| && expected == dir[..|expected|]
        decreases |dir| - |expected|
      {
        expected := expected + [dir[|expected|]];
      }
      assert expected == dir;
      if |expected| > 0 && expected[|expected| - 1] != SLASH {
        expected := expected + [SLASH];
      }
      assert expected == Prefix(dir);
      var j := 0;
      while j < |name| && |expected| < 255
        invariant j <= |name| && |expected| == |Prefix(dir)| + j && |expected| <= 255
        invariant expected == Prefix(dir) + name[..j]
        decreases |name| - j
      {
        expected := expected + [name[j]];
        j := j + 1;
      }
      if j == |name| {
        assert name[..j] == name;
      } else {
        assert (Prefix(dir) + name)[..255] == Prefix(dir) + name[..j];
      }
    }
  }
}
