/** The in-memory filesystem as a value: a graph of inodes, and what each call makes of it. */
module TmpFsSpec {
  import opened Wrappers

  datatype ErrorCode = ENOENT | ENOTDIR | EINVAL | EEXIST | ENOTEMPTY | EISDIR

  type Name = string

  datatype Node = File(data: seq<bv8>) | Directory(entries: map<Name, nat>)

  type Nodes = map<nat, Node>

  const ROOT: nat := 1

  datatype Fs = Fs(nextInode: nat, nodes: Nodes)

  function NewFs(): Fs {
    Fs(ROOT + 1, map[ROOT := Directory(map[])])
  }

  predicate BadName(name: Name) {
    name == "" || '/' in name
  }

  /** The entries of a directory, or why there are none. */
  function Entries(nodes: Nodes, inode: nat): Result<map<Name, nat>, ErrorCode> {
    if inode !in nodes then Err(ENOENT)
    else if nodes[inode].File? then Err(ENOTDIR)
    else Ok(nodes[inode].entries)
  }

  /** Follows the names of a path from a base inode. */
  function Resolve(nodes: Nodes, base: nat, path: seq<Name>): Result<nat, ErrorCode>
    decreases |path|
  {
    if path == [] then Ok(base)
    else
      match Entries(nodes, base)
      case Err(e) => Err(e)
      case Ok(entries) => if path[0] in entries then Resolve(nodes, entries[path[0]], path[1..]) else Err(ENOENT)
  }

  function Create(fs: Fs, parent: nat, name: Name, isDir: bool): (Fs, Result<nat, ErrorCode>) {
    if BadName(name) then (fs, Err(EINVAL))
    else
      match Entries(fs.nodes, parent)
      case Err(e) => (fs, Err(e))
      case Ok(entries) =>
        if name in entries then (fs, Err(EEXIST))
        else
          (Fs(fs.nextInode + 1, Created(fs.nodes, parent, name, fs.nextInode, isDir)), Ok(fs.nextInode))
  }

  /** A new empty node, then its entry in the parent. */
  function Created(nodes: Nodes, parent: nat, name: Name, inode: nat, isDir: bool): Nodes
    requires Entries(nodes, parent).Ok?
  {
    nodes[inode := if isDir then Directory(map[]) else File([])]
         [parent := Directory(nodes[parent].entries[name := inode])]
  }

  function Unlink(fs: Fs, parent: nat, name: Name): (Fs, Result<(), ErrorCode>) {
    if BadName(name) then (fs, Err(EINVAL))
    else
      match Entries(fs.nodes, parent)
      case Err(e) => (fs, Err(e))
      case Ok(entries) =>
        if name !in entries then (fs, Err(ENOENT))
        else
          var inode := entries[name];
          if inode !in fs.nodes then (fs, Err(ENOENT))
          else if fs.nodes[inode].Directory? && fs.nodes[inode].entries != map[] then (fs, Err(ENOTEMPTY))
          else (fs.(nodes := Unlinked(fs.nodes, parent, name)), Ok(()))
  }

  /** An entry taken out of its directory, then its node. */
  function Unlinked(nodes: Nodes, parent: nat, name: Name): Nodes
    requires Entries(nodes, parent).Ok? && name in Entries(nodes, parent).value
  {
    nodes[parent := Directory(nodes[parent].entries - {name})] - {Target(nodes, parent, name)}
  }

  /** The inode an entry leads to. */
  function Target(nodes: Nodes, d: nat, n: Name): nat
    requires Entries(nodes, d).Ok? && n in Entries(nodes, d).value
  {
    nodes[d].entries[n]
  }

  function Rename(fs: Fs, oldParent: nat, oldName: Name, newParent: nat, newName: Name): (Fs, Result<(), ErrorCode>) {
    if BadName(oldName) || BadName(newName) then (fs, Err(EINVAL))
    else
      match Entries(fs.nodes, oldParent)
      case Err(e) => (fs, Err(e))
      case Ok(from) =>
        if oldName !in from then (fs, Err(ENOENT))
        else
          match Entries(fs.nodes, newParent)
          case Err(e) => (fs, Err(e))
          case Ok(to) =>
            if newName in to then (fs, Err(EEXIST))
            else (fs.(nodes := Moved(fs.nodes, oldParent, oldName, newParent, newName)), Ok(()))
  }

  /** One entry taken out of its directory and put in another, in that order. */
  function Moved(nodes: Nodes, oldParent: nat, oldName: Name, newParent: nat, newName: Name): Nodes
    requires Entries(nodes, oldParent).Ok? && oldName in Entries(nodes, oldParent).value
    requires Entries(nodes, newParent).Ok?
  {
    var inode := Target(nodes, oldParent, oldName);
    var taken := nodes[oldParent := Directory(nodes[oldParent].entries - {oldName})];
    taken[newParent := Directory(taken[newParent].entries[newName := inode])]
  }

  /** What a read of `len` bytes at an offset finds. */
  function ReadBytes(bytes: seq<bv8>, offset: nat, len: nat): seq<bv8> {
    if offset >= |bytes| then [] else if offset + len <= |bytes| then bytes[offset..offset + len] else bytes[offset..]
  }

  function Read(fs: Fs, inode: nat, offset: nat, len: nat): Result<seq<bv8>, ErrorCode> {
    if inode !in fs.nodes then Err(ENOENT)
    else if fs.nodes[inode].Directory? then Err(EISDIR)
    else Ok(ReadBytes(fs.nodes[inode].data, offset, len))
  }

  /** The bytes of a file after a write: the data in place, zeros in any gap, the rest as it was. */
  function WrittenBytes(bytes: seq<bv8>, offset: nat, data: seq<bv8>): seq<bv8> {
    var n := if offset + |data| > |bytes| then offset + |data| else |bytes|;
    seq(n, k requires 0 <= k < n =>
      if offset <= k < offset + |data| then data[k - offset] else if k < |bytes| then bytes[k] else 0)
  }

  function Write(fs: Fs, inode: nat, offset: nat, data: seq<bv8>): (Fs, Result<nat, ErrorCode>) {
    if inode !in fs.nodes then (fs, Err(ENOENT))
    else if fs.nodes[inode].Directory? then (fs, Err(EISDIR))
    else (fs.(nodes := fs.nodes[inode := File(WrittenBytes(fs.nodes[inode].data, offset, data))]), Ok(|data|))
  }

  function Truncate(fs: Fs, inode: nat): (Fs, Result<(), ErrorCode>) {
    if inode !in fs.nodes then (fs, Err(ENOENT))
    else if fs.nodes[inode].Directory? then (fs, Err(EISDIR))
    else (fs.(nodes := fs.nodes[inode := File([])]), Ok(()))
  }

  /** Following a path is following its parts. */
  lemma {:induction false} ResolveJoin(nodes: Nodes, base: nat, p: seq<Name>, q: seq<Name>)
    ensures Resolve(nodes, base, p + q) ==
            match Resolve(nodes, base, p) case Err(e) => Err(e) case Ok(i) => Resolve(nodes, i, q)
    decreases |p|
  {
    if p == [] {
      assert p + q == q;
    } else {
      assert (p + q)[1..] == p[1..] + q;
      if Entries(nodes, base).Ok? && p[0] in Entries(nodes, base).value {
        ResolveJoin(nodes, Entries(nodes, base).value[p[0]], p[1..], q);
      }
    }
  }

  // ---------- Ownership ----------

  /** The entry (d, n) of the graph leads to inode i. */
  ghost predicate Edge(nodes: Nodes, d: nat, n: Name, i: nat) {
    d in nodes && nodes[d].Directory? && n in nodes[d].entries && nodes[d].entries[n] == i
  }

  ghost predicate Named(nodes: Nodes, i: nat) {
    exists d, n :: Edge(nodes, d, n, i)
  }

  /** Every entry leads to a node, every node but the root is named by exactly one entry, and the root by none. */
  ghost predicate Owned(nodes: Nodes) {
    && ROOT in nodes && nodes[ROOT].Directory?
    && (forall d, n, i :: Edge(nodes, d, n, i) ==> i in nodes && i != ROOT)
    && (forall i :: i in nodes && i != ROOT ==> Named(nodes, i))
    && (forall d, n, d', n', i :: Edge(nodes, d, n, i) && Edge(nodes, d', n', i) ==> d == d' && n == n')
  }

  ghost predicate Inv(fs: Fs) {
    Owned(fs.nodes) && ROOT < fs.nextInode && forall i :: i in fs.nodes ==> i < fs.nextInode
  }

  lemma InodesBelow(fs: Fs)
    requires Inv(fs)
    ensures fs.nextInode !in fs.nodes
  {
  }

  /** The calls on which create goes through. */
  ghost predicate CanCreate(nodes: Nodes, parent: nat, name: Name, inode: nat) {
    Entries(nodes, parent).Ok? && name !in Entries(nodes, parent).value && inode !in nodes
  }

  lemma CreatedEdge(nodes: Nodes, parent: nat, name: Name, inode: nat, isDir: bool, d: nat, n: Name, i: nat)
    requires CanCreate(nodes, parent, name, inode)
    ensures Edge(Created(nodes, parent, name, inode, isDir), d, n, i) <==>
            if (d, n) == (parent, name) then i == inode else Edge(nodes, d, n, i)
  {
  }

  lemma CreatedOwned(nodes: Nodes, parent: nat, name: Name, inode: nat, isDir: bool)
    requires Owned(nodes) && CanCreate(nodes, parent, name, inode)
    ensures Owned(Created(nodes, parent, name, inode, isDir))
  {
    var after := Created(nodes, parent, name, inode, isDir);
    forall d: nat, n: Name, i: nat | Edge(after, d, n, i)
      ensures i in after && i != ROOT
      ensures i == inode ==> (d, n) == (parent, name)
      ensures i != inode ==> Edge(nodes, d, n, i)
    {
      CreatedEdge(nodes, parent, name, inode, isDir, d, n, i);
    }
    forall i | i in after && i != ROOT
      ensures Named(after, i)
    {
      if i == inode {
        assert Edge(after, parent, name, i);
      } else {
        var d, n :| Edge(nodes, d, n, i);
        CreatedEdge(nodes, parent, name, inode, isDir, d, n, i);
      }
    }
  }

  lemma CreateKeepsInv(fs: Fs, parent: nat, name: Name, isDir: bool)
    requires Inv(fs)
    ensures Inv(Create(fs, parent, name, isDir).0)
  {
    hide Owned;
    if Create(fs, parent, name, isDir).1.Ok? {
      CreatedOwned(fs.nodes, parent, name, fs.nextInode, isDir);
    }
  }

  /** The calls on which unlink goes through: the entry is there and its node holds no entries. */
  ghost predicate CanUnlink(nodes: Nodes, parent: nat, name: Name) {
    && Entries(nodes, parent).Ok? && name in Entries(nodes, parent).value
    && var i := Target(nodes, parent, name); i in nodes && (nodes[i].Directory? ==> nodes[i].entries == map[])
  }

  lemma UnlinkedEdge(nodes: Nodes, parent: nat, name: Name, d: nat, n: Name, i: nat)
    requires Owned(nodes) && CanUnlink(nodes, parent, name)
    ensures Edge(Unlinked(nodes, parent, name), d, n, i) <==> Edge(nodes, d, n, i) && (d, n) != (parent, name)
  {
  }

  lemma UnlinkedOwned(nodes: Nodes, parent: nat, name: Name)
    requires Owned(nodes) && CanUnlink(nodes, parent, name)
    ensures Owned(Unlinked(nodes, parent, name))
  {
    var after := Unlinked(nodes, parent, name);
    assert Edge(nodes, parent, name, Target(nodes, parent, name));
    forall d: nat, n: Name, i: nat | Edge(after, d, n, i)
      ensures i in after && i != ROOT && Edge(nodes, d, n, i)
    {
      UnlinkedEdge(nodes, parent, name, d, n, i);
    }
    forall i | i in after && i != ROOT
      ensures Named(after, i)
    {
      var d, n :| Edge(nodes, d, n, i);
      UnlinkedEdge(nodes, parent, name, d, n, i);
    }
  }

  lemma UnlinkKeepsInv(fs: Fs, parent: nat, name: Name)
    requires Inv(fs)
    ensures Inv(Unlink(fs, parent, name).0)
  {
    hide Owned;
    if Unlink(fs, parent, name).1.Ok? {
      UnlinkedOwned(fs.nodes, parent, name);
    }
  }

  /** Changing the bytes of a file leaves the graph alone. */
  lemma BytesKeepOwned(nodes: Nodes, inode: nat, data: seq<bv8>)
    requires Owned(nodes) && inode in nodes && nodes[inode].File?
    ensures Owned(nodes[inode := File(data)])
  {
    var after := nodes[inode := File(data)];
    assert forall d, n, i :: Edge(after, d, n, i) <==> Edge(nodes, d, n, i);
    forall i | i in after && i != ROOT
      ensures Named(after, i)
    {
      var d, n :| Edge(nodes, d, n, i);
      assert Edge(after, d, n, i);
    }
  }

  // ---------- Rename ----------

  /** The calls on which rename goes through. */
  ghost predicate CanRename(nodes: Nodes, oldParent: nat, oldName: Name, newParent: nat, newName: Name) {
    && Entries(nodes, oldParent).Ok? && oldName in Entries(nodes, oldParent).value
    && Entries(nodes, newParent).Ok? && newName !in Entries(nodes, newParent).value
  }

  lemma MovedEdge(nodes: Nodes, op: nat, on: Name, np: nat, nn: Name, d: nat, n: Name, i: nat)
    requires CanRename(nodes, op, on, np, nn)
    ensures Edge(Moved(nodes, op, on, np, nn), d, n, i) <==>
            if (d, n) == (np, nn) then i == Target(nodes, op, on) else Edge(nodes, d, n, i) && (d, n) != (op, on)
  {
  }

  lemma MovedKinds(nodes: Nodes, op: nat, on: Name, np: nat, nn: Name)
    requires CanRename(nodes, op, on, np, nn)
    ensures var after := Moved(nodes, op, on, np, nn);
            after.Keys == nodes.Keys && forall i :: i in nodes ==> nodes[i].Directory? == after[i].Directory?
  {
  }

  lemma MovedOwned(nodes: Nodes, op: nat, on: Name, np: nat, nn: Name)
    requires Owned(nodes) && CanRename(nodes, op, on, np, nn)
    ensures Owned(Moved(nodes, op, on, np, nn))
  {
    hide Moved, Edge;
    var after := Moved(nodes, op, on, np, nn);
    var inode := Target(nodes, op, on);
    RenameEdges(nodes, op, on, np, nn);
    MovedKinds(nodes, op, on, np, nn);
    forall d: nat, n: Name, i: nat | Edge(after, d, n, i)
      ensures i in after && i != ROOT
      ensures i == inode ==> (d, n) == (np, nn)
      ensures i != inode ==> Edge(nodes, d, n, i)
    {
      MovedEdge(nodes, op, on, np, nn, d, n, i);
    }
    forall i | i in after && i != ROOT
      ensures Named(after, i)
    {
      if i == inode {
        MovedEdge(nodes, op, on, np, nn, np, nn, i);
        assert Edge(after, np, nn, i);
      } else {
        var d, n :| Edge(nodes, d, n, i);
        EdgesApart(nodes, d, n, i, op, on, inode);
        MovedEdge(nodes, op, on, np, nn, d, n, i);
        assert Edge(after, d, n, i);
      }
    }
  }

  lemma RenameEdges(nodes: Nodes, op: nat, on: Name, np: nat, nn: Name)
    requires CanRename(nodes, op, on, np, nn)
    ensures Edge(nodes, op, on, Target(nodes, op, on)) && forall i :: !Edge(nodes, np, nn, i)
  {
  }

  /** An entry leads to one inode. */
  lemma EdgesApart(nodes: Nodes, d: nat, n: Name, i: nat, d': nat, n': Name, i': nat)
    requires Edge(nodes, d, n, i) && Edge(nodes, d', n', i') && i != i'
    ensures (d, n) != (d', n')
  {
  }

  lemma RenameKeepsInv(fs: Fs, op: nat, on: Name, np: nat, nn: Name)
    requires Inv(fs)
    ensures Inv(Rename(fs, op, on, np, nn).0)
  {
    hide Owned;
    if Rename(fs, op, on, np, nn).1.Ok? {
      MovedOwned(fs.nodes, op, on, np, nn);
    }
  }

  /** Some path leads from one inode to the other. */
  ghost predicate Inside(nodes: Nodes, from: nat, i: nat) {
    exists path :: Resolve(nodes, from, path) == Ok(i)
  }

  /** One tree: every inode is on some path from the root. */
  ghost predicate TreeShaped(nodes: Nodes) {
    Owned(nodes) && forall i :: i in nodes ==> Inside(nodes, ROOT, i)
  }

  /** A path that resolves ends with one entry. */
  lemma LastStep(nodes: Nodes, base: nat, path: seq<Name>, i: nat)
    requires path != [] && Resolve(nodes, base, path) == Ok(i)
    ensures var n := |path| - 1;
            Resolve(nodes, base, path[..n]).Ok? && Edge(nodes, Resolve(nodes, base, path[..n]).value, path[n], i)
  {
    var n := |path| - 1;
    ResolveJoin(nodes, base, path[..n], [path[n]]);
    assert path == path[..n] + [path[n]];
    var d := Resolve(nodes, base, path[..n]).value;
    assert Resolve(nodes, d, [path[n]]) == Ok(i);
    assert [path[n]][1..] == [];
  }

  /** Resolving is walking along entries: a path is there exactly when its last entry starts where the rest leads. */
  lemma ResolveWalks(nodes: Nodes, base: nat, path: seq<Name>, n: Name, i: nat)
    ensures Resolve(nodes, base, []) == Ok(base)
    ensures Resolve(nodes, base, path + [n]) == Ok(i) <==>
            exists d :: Resolve(nodes, base, path) == Ok(d) && Edge(nodes, d, n, i)
  {
    ResolveJoin(nodes, base, path, [n]);
    assert [n][1..] == [];
  }

  /** With every inode named once, two paths from the root to one inode are the same path. */
  lemma {:induction false} UniquePath(nodes: Nodes, p: seq<Name>, q: seq<Name>, i: nat)
    requires Owned(nodes) && Resolve(nodes, ROOT, p) == Ok(i) && Resolve(nodes, ROOT, q) == Ok(i)
    ensures p == q
    decreases |p|
  {
    if p != [] {
      LastStep(nodes, ROOT, p, i);
    }
    if q != [] {
      LastStep(nodes, ROOT, q, i);
    }
    if p != [] && q != [] {
      UniquePath(nodes, p[..|p| - 1], q[..|q| - 1], Resolve(nodes, ROOT, p[..|p| - 1]).value);
    }
  }

  /** In a tree no directory contains itself. */
  lemma NoCycle(nodes: Nodes, i: nat, path: seq<Name>)
    requires TreeShaped(nodes) && i in nodes && Resolve(nodes, i, path) == Ok(i)
    ensures path == []
  {
    assert Inside(nodes, ROOT, i);
    var p :| Resolve(nodes, ROOT, p) == Ok(i);
    ResolveJoin(nodes, ROOT, p, path);
    UniquePath(nodes, p, p + path, i);
  }

  /** Below an inode that contains neither directory a rename touches, nothing changes. */
  lemma {:induction false} ApartSame(nodes: Nodes, op: nat, on: Name, np: nat, nn: Name, base: nat, path: seq<Name>)
    requires CanRename(nodes, op, on, np, nn)
    requires !Inside(nodes, base, op) && !Inside(nodes, base, np)
    ensures Resolve(Moved(nodes, op, on, np, nn), base, path) == Resolve(nodes, base, path)
    decreases |path|
  {
    assert Resolve(nodes, base, []) == Ok(base);
    if path != [] && Entries(nodes, base).Ok? && path[0] in Entries(nodes, base).value {
      var next := Entries(nodes, base).value[path[0]];
      BelowInside(nodes, base, path[0], op);
      BelowInside(nodes, base, path[0], np);
      ApartSame(nodes, op, on, np, nn, next, path[1..]);
    }
  }

  lemma BelowInside(nodes: Nodes, base: nat, n: Name, i: nat)
    requires Entries(nodes, base).Ok? && n in Entries(nodes, base).value
    ensures Inside(nodes, Entries(nodes, base).value[n], i) ==> Inside(nodes, base, i)
  {
    var next := Entries(nodes, base).value[n];
    if Inside(nodes, next, i) {
      var path :| Resolve(nodes, next, path) == Ok(i);
      assert ([n] + path)[1..] == path;
      assert Resolve(nodes, base, [n] + path) == Ok(i);
    }
  }

  /** In a tree an entry's own directory is not below the entry. */
  lemma ParentOutside(nodes: Nodes, d: nat, n: Name)
    requires TreeShaped(nodes) && Entries(nodes, d).Ok? && n in Entries(nodes, d).value
    ensures !Inside(nodes, Target(nodes, d, n), d)
  {
    var inode := Target(nodes, d, n);
    assert Edge(nodes, d, n, inode);
    forall path
      ensures Resolve(nodes, inode, path) != Ok(d)
    {
      if Resolve(nodes, inode, path) == Ok(d) {
        ResolveJoin(nodes, inode, path, [n]);
        assert [n][1..] == [];
        NoCycle(nodes, inode, path + [n]);
      }
    }
  }

  /** Rename moves the whole subtree: what was below the old name is below the new one, and the old name is gone. */
  lemma RenameMovesSubtree(nodes: Nodes, op: nat, on: Name, np: nat, nn: Name, rest: seq<Name>)
    requires TreeShaped(nodes) && CanRename(nodes, op, on, np, nn)
    requires !Inside(nodes, Target(nodes, op, on), np)
    ensures Resolve(Moved(nodes, op, on, np, nn), np, [nn] + rest) == Resolve(nodes, op, [on] + rest)
    ensures Resolve(Moved(nodes, op, on, np, nn), op, [on] + rest) == Err(ENOENT)
  {
    var after := Moved(nodes, op, on, np, nn);
    var inode := Target(nodes, op, on);
    ParentOutside(nodes, op, on);
    ApartSame(nodes, op, on, np, nn, inode, rest);
    assert ([nn] + rest)[1..] == rest && ([on] + rest)[1..] == rest;
  }

  /** The path goes to its end without using the entry. */
  ghost predicate Avoids(nodes: Nodes, base: nat, path: seq<Name>, d: nat, n: Name)
    decreases |path|
  {
    path != [] ==>
      && !(base == d && path[0] == n)
      && (Entries(nodes, base).Ok? && path[0] in Entries(nodes, base).value ==>
            Avoids(nodes, Entries(nodes, base).value[path[0]], path[1..], d, n))
  }

  /**
    * A path that resolves without the old entry, or fails without it and
    * without the new name, gives the same result.
    */
  lemma {:induction false} RenameKeepsOthers(nodes: Nodes, op: nat, on: Name, np: nat, nn: Name, base: nat,
                                             path: seq<Name>)
    requires CanRename(nodes, op, on, np, nn)
    requires Avoids(nodes, base, path, op, on) && (Resolve(nodes, base, path).Ok? || Avoids(nodes, base, path, np, nn))
    ensures Resolve(Moved(nodes, op, on, np, nn), base, path) == Resolve(nodes, base, path)
    decreases |path|
  {
    if path != [] && Entries(nodes, base).Ok? && path[0] in Entries(nodes, base).value {
      RenameKeepsOthers(nodes, op, on, np, nn, Entries(nodes, base).value[path[0]], path[1..]);
    }
  }

  /** A path either avoids an entry or ends with a part that starts at the entry's inode and avoids it. */
  lemma {:induction false} LastUse(nodes: Nodes, base: nat, path: seq<Name>, d: nat, n: Name) returns (rest: seq<Name>)
    requires Resolve(nodes, base, path).Ok?
    ensures Avoids(nodes, base, path, d, n) ||
            (Entries(nodes, d).Ok? && n in Entries(nodes, d).value
             && Avoids(nodes, Target(nodes, d, n), rest, d, n)
             && Resolve(nodes, Target(nodes, d, n), rest) == Resolve(nodes, base, path))
    decreases |path|
  {
    rest := [];
    if path != [] {
      var next := Entries(nodes, base).value[path[0]];
      rest := LastUse(nodes, next, path[1..], d, n);
      if Avoids(nodes, next, path[1..], d, n) && base == d && path[0] == n {
        rest := path[1..];
      }
    }
  }

  /** A path to a directory that is not below an entry does not use the entry. */
  lemma PathAvoids(nodes: Nodes, path: seq<Name>, i: nat, d: nat, n: Name)
    requires Resolve(nodes, ROOT, path) == Ok(i) && Entries(nodes, d).Ok? && n in Entries(nodes, d).value
    requires !Inside(nodes, Target(nodes, d, n), i)
    ensures Avoids(nodes, ROOT, path, d, n)
  {
    var rest := LastUse(nodes, ROOT, path, d, n);
  }

  /** The same from the root: old path and new path, for everything below. */
  lemma RenameMovesRootPaths(nodes: Nodes, op: nat, on: Name, np: nat, nn: Name,
                             toOld: seq<Name>, toNew: seq<Name>, rest: seq<Name>)
    requires TreeShaped(nodes) && CanRename(nodes, op, on, np, nn)
    requires !Inside(nodes, Target(nodes, op, on), np)
    requires Resolve(nodes, ROOT, toOld) == Ok(op) && Resolve(nodes, ROOT, toNew) == Ok(np)
    ensures var after := Moved(nodes, op, on, np, nn);
            && Resolve(after, ROOT, toNew + ([nn] + rest)) == Resolve(nodes, ROOT, toOld + ([on] + rest))
            && Resolve(after, ROOT, toOld + ([on] + rest)) == Err(ENOENT)
  {
    hide Moved, Owned, Avoids, Resolve;
    var after := Moved(nodes, op, on, np, nn);
    ParentOutside(nodes, op, on);
    PathAvoids(nodes, toOld, op, op, on);
    PathAvoids(nodes, toNew, np, op, on);
    RenameKeepsOthers(nodes, op, on, np, nn, ROOT, toOld);
    RenameKeepsOthers(nodes, op, on, np, nn, ROOT, toNew);
    RenameMovesSubtree(nodes, op, on, np, nn, rest);
    ResolveJoin(nodes, ROOT, toOld, [on] + rest);
    ResolveJoin(after, ROOT, toOld, [on] + rest);
    ResolveJoin(after, ROOT, toNew, [nn] + rest);
  }

  /** The new name leads to what moved. */
  lemma NewNamePath(nodes: Nodes, op: nat, on: Name, np: nat, nn: Name, rest: seq<Name>)
    requires CanRename(nodes, op, on, np, nn)
    ensures Resolve(Moved(nodes, op, on, np, nn), np, [nn] + rest) ==
            Resolve(Moved(nodes, op, on, np, nn), Target(nodes, op, on), rest)
  {
    assert ([nn] + rest)[1..] == rest;
  }

  /** A rename whose new directory is not inside what moves leaves one tree. */
  lemma RenameKeepsTree(nodes: Nodes, op: nat, on: Name, np: nat, nn: Name)
    requires TreeShaped(nodes) && CanRename(nodes, op, on, np, nn)
    requires !Inside(nodes, Target(nodes, op, on), np)
    ensures TreeShaped(Moved(nodes, op, on, np, nn))
  {
    hide Moved, Owned, Avoids, Resolve;
    var after := Moved(nodes, op, on, np, nn);
    var inode := Target(nodes, op, on);
    MovedOwned(nodes, op, on, np, nn);
    MovedKinds(nodes, op, on, np, nn);
    assert np in nodes && Inside(nodes, ROOT, np);
    var toNew :| Resolve(nodes, ROOT, toNew) == Ok(np);
    var below := LastUse(nodes, ROOT, toNew, op, on);
    assert Avoids(nodes, ROOT, toNew, op, on);
    RenameKeepsOthers(nodes, op, on, np, nn, ROOT, toNew);
    forall i | i in after
      ensures Inside(after, ROOT, i)
    {
      assert Inside(nodes, ROOT, i);
      var path :| Resolve(nodes, ROOT, path) == Ok(i);
      var rest := LastUse(nodes, ROOT, path, op, on);
      if Avoids(nodes, ROOT, path, op, on) {
        RenameKeepsOthers(nodes, op, on, np, nn, ROOT, path);
      } else {
        RenameKeepsOthers(nodes, op, on, np, nn, inode, rest);
        NewNamePath(nodes, op, on, np, nn, rest);
        ResolveJoin(after, ROOT, toNew, [nn] + rest);
      }
    }
  }

  /** After a rename into its own subtree, an entry that leads into the subtree is itself inside it. */
  lemma EnteredFromInside(nodes: Nodes, op: nat, on: Name, np: nat, nn: Name, d: nat, n: Name, i: nat)
    requires Owned(nodes) && CanRename(nodes, op, on, np, nn)
    requires Inside(nodes, Target(nodes, op, on), np)
    requires Edge(Moved(nodes, op, on, np, nn), d, n, i)
    ensures Inside(nodes, Target(nodes, op, on), i) ==> Inside(nodes, Target(nodes, op, on), d)
  {
    var inode := Target(nodes, op, on);
    MovedEdge(nodes, op, on, np, nn, d, n, i);
    assert Edge(nodes, op, on, inode);
    if Inside(nodes, inode, i) && (d, n) != (np, nn) {
      var down :| Resolve(nodes, inode, down) == Ok(i);
      if down != [] {
        LastStep(nodes, inode, down, i);
        assert Resolve(nodes, inode, down[..|down| - 1]) == Ok(d);
      }
    }
  }

  lemma RootOutside(nodes: Nodes, i: nat)
    requires Owned(nodes) && i != ROOT
    ensures !Inside(nodes, i, ROOT)
  {
    forall down
      ensures Resolve(nodes, i, down) != Ok(ROOT)
    {
      if down != [] && Resolve(nodes, i, down) == Ok(ROOT) {
        LastStep(nodes, i, down, ROOT);
      }
    }
  }

  /** A rename into its own subtree cuts that subtree off: no path from the root enters it any more. */
  lemma {:induction false} CutOff(nodes: Nodes, op: nat, on: Name, np: nat, nn: Name, path: seq<Name>, i: nat)
    requires Owned(nodes) && CanRename(nodes, op, on, np, nn)
    requires Inside(nodes, Target(nodes, op, on), np)
    requires Resolve(Moved(nodes, op, on, np, nn), ROOT, path) == Ok(i)
    ensures !Inside(nodes, Target(nodes, op, on), i)
    decreases |path|
  {
    var after := Moved(nodes, op, on, np, nn);
    if path == [] {
      assert Edge(nodes, op, on, Target(nodes, op, on));
      RootOutside(nodes, Target(nodes, op, on));
    } else {
      LastStep(after, ROOT, path, i);
      var d := Resolve(after, ROOT, path[..|path| - 1]).value;
      CutOff(nodes, op, on, np, nn, path[..|path| - 1], d);
      EnteredFromInside(nodes, op, on, np, nn, d, path[|path| - 1], i);
    }
  }

  /** In a tree, rename keeps the tree if and only if the new directory is not inside what moves. */
  lemma RenameTreeIff(nodes: Nodes, op: nat, on: Name, np: nat, nn: Name)
    requires TreeShaped(nodes) && CanRename(nodes, op, on, np, nn)
    ensures TreeShaped(Moved(nodes, op, on, np, nn)) <==> !Inside(nodes, Target(nodes, op, on), np)
  {
    var after := Moved(nodes, op, on, np, nn);
    var inode := Target(nodes, op, on);
    assert Edge(nodes, op, on, inode);
    if Inside(nodes, inode, np) {
      assert Resolve(nodes, inode, []) == Ok(inode);
      forall path
        ensures Resolve(after, ROOT, path) != Ok(inode)
      {
        if Resolve(after, ROOT, path) == Ok(inode) {
          CutOff(nodes, op, on, np, nn, path, inode);
        }
      }
      assert inode in after && !Inside(after, ROOT, inode);
    } else {
      RenameKeepsTree(nodes, op, on, np, nn);
    }
  }

  // ---------- What each call leaves behind ----------

  /** Why a call on the entry (d, n) is refused. */
  ghost predicate Explains(nodes: Nodes, d: nat, n: Name, e: ErrorCode) {
    match e
    case EINVAL => n == "" || '/' in n
    case ENOENT => d !in nodes || (nodes[d].Directory? && n !in nodes[d].entries)
    case ENOTDIR => d in nodes && nodes[d].File?
    case EEXIST => exists i :: Edge(nodes, d, n, i)
    case ENOTEMPTY => exists i, n', j :: Edge(nodes, d, n, i) && Edge(nodes, i, n', j)
    case EISDIR => false
  }

  /** The name is one a directory may hold. */
  ghost predicate GoodName(n: Name) {
    n != "" && forall k :: 0 <= k < |n| ==> n[k] != '/'
  }

  ghost predicate IsDirectory(nodes: Nodes, d: nat) {
    d in nodes && nodes[d].Directory?
  }

  /** Every file but one inode's is there with the bytes it had, and there is no other. */
  ghost predicate SameFiles(before: Nodes, after: Nodes, except: nat) {
    forall i, bytes: seq<bv8> :: i != except ==> (HasBytes(before, i, bytes) <==> HasBytes(after, i, bytes))
  }

  ghost predicate HasBytes(nodes: Nodes, i: nat, bytes: seq<bv8>) {
    i in nodes && nodes[i] == File(bytes)
  }

  /** One new inode, empty, under one new entry; every other entry and file as before. */
  ghost predicate Linked(before: Nodes, after: Nodes, d: nat, n: Name, i: nat, isDir: bool) {
    && i !in before && after.Keys == before.Keys + {i}
    && (isDir ==> IsDirectory(after, i)) && (!isDir ==> HasBytes(after, i, []))
    && (forall d', n', j :: Edge(after, d', n', j) <==> Edge(before, d', n', j) || (d' == d && n' == n && j == i))
    && SameFiles(before, after, i)
  }

  /** One entry and the inode it led to are gone; every other entry and file as before. */
  ghost predicate Cut(before: Nodes, after: Nodes, d: nat, n: Name, i: nat) {
    && Edge(before, d, n, i) && (forall n', j :: !Edge(before, i, n', j))
    && after.Keys == before.Keys - {i}
    && (forall d', n', j :: Edge(after, d', n', j) <==> Edge(before, d', n', j) && !(d' == d && n' == n))
    && SameFiles(before, after, i)
  }

  /** One entry is gone and another leads to its inode; every other entry, every inode and every file as before. */
  ghost predicate Relinked(before: Nodes, after: Nodes, op: nat, on: Name, np: nat, nn: Name, i: nat) {
    && Edge(before, op, on, i) && (forall j :: !Edge(before, np, nn, j))
    && after.Keys == before.Keys
    && (forall d, n, j :: Edge(after, d, n, j) <==>
          (Edge(before, d, n, j) && !(d == op && n == on)) || (d == np && n == nn && j == i))
    && (forall j, bytes: seq<bv8> :: HasBytes(before, j, bytes) <==> HasBytes(after, j, bytes))
  }

  /** The data in place, the other bytes of the file as they were, and zeros in the gap. */
  ghost predicate Spliced(before: seq<bv8>, after: seq<bv8>, offset: nat, data: seq<bv8>) {
    && |after| == (if offset + |data| > |before| then offset + |data| else |before|)
    && (forall k :: 0 <= k < |data| ==> after[offset + k] == data[k])
    && (forall k :: 0 <= k < |before| && !(offset <= k < offset + |data|) ==> after[k] == before[k])
    && (forall k :: |before| <= k < |after| && k < offset ==> after[k] == 0)
  }

  lemma CreatedLinked(nodes: Nodes, parent: nat, name: Name, inode: nat, isDir: bool)
    requires CanCreate(nodes, parent, name, inode)
    ensures Linked(nodes, Created(nodes, parent, name, inode, isDir), parent, name, inode, isDir)
  {
    var after := Created(nodes, parent, name, inode, isDir);
    forall d, n, i
      ensures Edge(after, d, n, i) <==> Edge(nodes, d, n, i) || (d == parent && n == name && i == inode)
    {
      CreatedEdge(nodes, parent, name, inode, isDir, d, n, i);
    }
  }

  lemma UnlinkedCut(nodes: Nodes, parent: nat, name: Name)
    requires Owned(nodes) && CanUnlink(nodes, parent, name)
    ensures Cut(nodes, Unlinked(nodes, parent, name), parent, name, Target(nodes, parent, name))
  {
    hide Owned;
    var after := Unlinked(nodes, parent, name);
    forall d, n, i
      ensures Edge(after, d, n, i) <==> Edge(nodes, d, n, i) && !(d == parent && n == name)
    {
      UnlinkedEdge(nodes, parent, name, d, n, i);
    }
  }

  lemma MovedRelinked(nodes: Nodes, op: nat, on: Name, np: nat, nn: Name)
    requires CanRename(nodes, op, on, np, nn)
    ensures Relinked(nodes, Moved(nodes, op, on, np, nn), op, on, np, nn, Target(nodes, op, on))
  {
    var after, inode := Moved(nodes, op, on, np, nn), Target(nodes, op, on);
    forall d, n, i
      ensures Edge(after, d, n, i) <==>
              (Edge(nodes, d, n, i) && !(d == op && n == on)) || (d == np && n == nn && i == inode)
    {
      MovedEdge(nodes, op, on, np, nn, d, n, i);
    }
  }

  /** An entry of a directory is an edge. */
  lemma EntryEdge(nodes: Nodes, d: nat, n: Name)
    ensures (exists i :: Edge(nodes, d, n, i)) <==> IsDirectory(nodes, d) && n in nodes[d].entries
  {
    if IsDirectory(nodes, d) && n in nodes[d].entries {
      assert Edge(nodes, d, n, nodes[d].entries[n]);
    }
  }

  /** A node without edges is a file or an empty directory. */
  lemma NoEdges(nodes: Nodes, i: nat)
    ensures (forall n, j :: !Edge(nodes, i, n, j)) <==> (IsDirectory(nodes, i) ==> nodes[i].entries == map[])
  {
    if IsDirectory(nodes, i) && nodes[i].entries != map[] {
      var n :| n in nodes[i].entries;
      assert Edge(nodes, i, n, nodes[i].entries[n]);
    }
  }

  /** Create goes through exactly for a fresh good name in a directory, and makes one empty node. */
  lemma CreateExact(fs: Fs, parent: nat, name: Name, isDir: bool)
    requires Inv(fs)
    ensures var (fs', r) := Create(fs, parent, name, isDir);
            && (r.Ok? <==>
                  GoodName(name) && IsDirectory(fs.nodes, parent) && !exists i :: Edge(fs.nodes, parent, name, i))
            && (r.Ok? ==> Linked(fs.nodes, fs'.nodes, parent, name, r.value, isDir))
            && (r.Err? ==> fs' == fs && Explains(fs.nodes, parent, name, r.error))
  {
    hide Owned, Linked, Edge;
    EntryEdge(fs.nodes, parent, name);
    if Create(fs, parent, name, isDir).1.Ok? {
      CreatedLinked(fs.nodes, parent, name, fs.nextInode, isDir);
    }
  }

  /** An entry that leads to a file or to a directory without entries. */
  ghost predicate Leaf(nodes: Nodes, d: nat, n: Name, i: nat) {
    Edge(nodes, d, n, i) && forall n', j :: !Edge(nodes, i, n', j)
  }

  lemma EdgeIsNode(nodes: Nodes, d: nat, n: Name, i: nat)
    requires Owned(nodes) && Edge(nodes, d, n, i)
    ensures i in nodes
  {
  }

  /** Unlink goes through exactly for a good name of a node without entries, and takes the name and the node. */
  lemma UnlinkExact(fs: Fs, parent: nat, name: Name)
    requires Inv(fs)
    ensures var (fs', r) := Unlink(fs, parent, name);
            && (r.Ok? <==> GoodName(name) && exists i :: Leaf(fs.nodes, parent, name, i))
            && (r.Ok? ==> exists i :: Cut(fs.nodes, fs'.nodes, parent, name, i))
            && (r.Err? ==> fs' == fs && Explains(fs.nodes, parent, name, r.error))
  {
    hide Owned, Cut;
    EntryEdge(fs.nodes, parent, name);
    if IsDirectory(fs.nodes, parent) && name in fs.nodes[parent].entries {
      var i := Target(fs.nodes, parent, name);
      EdgeIsNode(fs.nodes, parent, name, i);
      NoEdges(fs.nodes, i);
      assert Leaf(fs.nodes, parent, name, i) || !exists j :: Leaf(fs.nodes, parent, name, j);
      if CanUnlink(fs.nodes, parent, name) {
        UnlinkedCut(fs.nodes, parent, name);
      }
    }
  }

  /** Rename goes through exactly for an entry and a fresh good name in a directory, and moves the entry. */
  lemma RenameExact(fs: Fs, op: nat, on: Name, np: nat, nn: Name)
    ensures var (fs', r) := Rename(fs, op, on, np, nn);
            && (r.Ok? <==> && GoodName(on) && GoodName(nn) && (exists i :: Edge(fs.nodes, op, on, i))
                           && IsDirectory(fs.nodes, np) && !exists i :: Edge(fs.nodes, np, nn, i))
            && (r.Ok? ==> exists i :: Relinked(fs.nodes, fs'.nodes, op, on, np, nn, i))
            && (r.Err? ==> fs' == fs && (Explains(fs.nodes, op, on, r.error) || Explains(fs.nodes, np, nn, r.error)))
  {
    hide Relinked, Edge;
    EntryEdge(fs.nodes, op, on);
    EntryEdge(fs.nodes, np, nn);
    if Rename(fs, op, on, np, nn).1.Ok? {
      MovedRelinked(fs.nodes, op, on, np, nn);
    }
  }

  /** Why a call on the bytes of an inode is refused. */
  ghost predicate NoFile(nodes: Nodes, i: nat, e: ErrorCode) {
    (e == ENOENT && i !in nodes) || (e == EISDIR && IsDirectory(nodes, i))
  }

  /** A write goes through exactly on a file, and splices the data into its bytes and no other's. */
  lemma WriteExact(fs: Fs, i: nat, offset: nat, data: seq<bv8>)
    ensures var (fs', r) := Write(fs, i, offset, data);
            && (r.Ok? <==> i in fs.nodes && !IsDirectory(fs.nodes, i))
            && (r.Ok? ==> r.value == |data| && Rewritten(fs.nodes, fs'.nodes, i)
                          && Spliced(fs.nodes[i].data, fs'.nodes[i].data, offset, data))
            && (r.Err? ==> fs' == fs && NoFile(fs.nodes, i, r.error))
  {
    if Write(fs, i, offset, data).1.Ok? {
      SplicedBytes(fs.nodes[i].data, offset, data);
    }
  }

  lemma SplicedBytes(before: seq<bv8>, offset: nat, data: seq<bv8>)
    ensures Spliced(before, WrittenBytes(before, offset, data), offset, data)
  {
  }

  /** Both nodes are files, and every other node is as it was. */
  ghost predicate Rewritten(before: Nodes, after: Nodes, i: nat) {
    && i in before && before[i].File? && i in after && after[i].File?
    && before - {i} == after - {i}
  }

  /** A path through the graph after a rename: below the new name what was below the old, and elsewhere as before. */
  lemma RenamedPaths(fs: Fs, op: nat, on: Name, np: nat, nn: Name, toOld: seq<Name>, toNew: seq<Name>, rest: seq<Name>)
    requires TreeShaped(fs.nodes) && Rename(fs, op, on, np, nn).1.Ok?
    requires Resolve(fs.nodes, ROOT, toOld) == Ok(op) && Resolve(fs.nodes, ROOT, toNew) == Ok(np)
    requires forall below :: Resolve(fs.nodes, ROOT, toOld + [on] + below) != Ok(np)
    ensures var after := Rename(fs, op, on, np, nn).0.nodes;
            && Resolve(after, ROOT, toNew + ([nn] + rest)) == Resolve(fs.nodes, ROOT, toOld + ([on] + rest))
            && Resolve(after, ROOT, toOld + ([on] + rest)) == Err(ENOENT)
  {
    var inode := Target(fs.nodes, op, on);
    forall below
      ensures Resolve(fs.nodes, inode, below) != Ok(np)
    {
      ResolveJoin(fs.nodes, ROOT, toOld + [on], below);
      ResolveJoin(fs.nodes, ROOT, toOld, [on]);
      assert [on][1..] == [];
      assert Resolve(fs.nodes, op, [on]) == Ok(inode);
    }
    RenameMovesRootPaths(fs.nodes, op, on, np, nn, toOld, toNew, rest);
  }

  // ---------- Create and unlink on paths ----------

  /** Create adds one path and changes no path that resolves. */
  lemma {:induction false} CreateKeepsPaths(nodes: Nodes, parent: nat, name: Name, inode: nat, isDir: bool, base: nat,
                                            path: seq<Name>)
    requires CanCreate(nodes, parent, name, inode) && Resolve(nodes, base, path).Ok?
    ensures Resolve(Created(nodes, parent, name, inode, isDir), base, path) == Resolve(nodes, base, path)
    decreases |path|
  {
    if path != [] {
      CreateKeepsPaths(nodes, parent, name, inode, isDir, Entries(nodes, base).value[path[0]], path[1..]);
    }
  }

  lemma CreateKeepsTree(nodes: Nodes, parent: nat, name: Name, inode: nat, isDir: bool)
    requires TreeShaped(nodes) && CanCreate(nodes, parent, name, inode)
    ensures TreeShaped(Created(nodes, parent, name, inode, isDir))
    ensures Resolve(Created(nodes, parent, name, inode, isDir), parent, [name]) == Ok(inode)
  {
    var after := Created(nodes, parent, name, inode, isDir);
    CreatedOwned(nodes, parent, name, inode, isDir);
    assert [name][1..] == [];
    assert Resolve(after, parent, [name]) == Ok(inode);
    forall i | i in after
      ensures Inside(after, ROOT, i)
    {
      var j := if i == inode then parent else i;
      assert Inside(nodes, ROOT, j);
      var path :| Resolve(nodes, ROOT, path) == Ok(j);
      CreateKeepsPaths(nodes, parent, name, inode, isDir, ROOT, path);
      if i == inode {
        ResolveJoin(after, ROOT, path, [name]);
      }
    }
  }

  /** Unlink changes no path that resolves without the entry it takes. */
  lemma {:induction false} UnlinkKeepsPaths(nodes: Nodes, parent: nat, name: Name, base: nat, path: seq<Name>)
    requires CanUnlink(nodes, parent, name)
    requires Avoids(nodes, base, path, parent, name) && Resolve(nodes, base, path).Ok?
    ensures Resolve(Unlinked(nodes, parent, name), base, path) == Resolve(nodes, base, path)
    decreases |path|
  {
    if path != [] {
      UnlinkKeepsPaths(nodes, parent, name, Entries(nodes, base).value[path[0]], path[1..]);
    }
  }

  lemma UnlinkKeepsTree(nodes: Nodes, parent: nat, name: Name)
    requires TreeShaped(nodes) && CanUnlink(nodes, parent, name)
    ensures TreeShaped(Unlinked(nodes, parent, name))
  {
    var after := Unlinked(nodes, parent, name);
    UnlinkedOwned(nodes, parent, name);
    forall i | i in after
      ensures Inside(after, ROOT, i)
    {
      assert Inside(nodes, ROOT, i);
      var path :| Resolve(nodes, ROOT, path) == Ok(i);
      var rest := LastUse(nodes, ROOT, path, parent, name);
      UnlinkKeepsPaths(nodes, parent, name, ROOT, path);
    }
  }

  lemma {:induction false} BytesKeepPaths(nodes: Nodes, inode: nat, data: seq<bv8>, base: nat, path: seq<Name>)
    requires inode in nodes && nodes[inode].File?
    ensures Resolve(nodes[inode := File(data)], base, path) == Resolve(nodes, base, path)
    decreases |path|
  {
    if path != [] && Entries(nodes, base).Ok? && path[0] in Entries(nodes, base).value {
      BytesKeepPaths(nodes, inode, data, Entries(nodes, base).value[path[0]], path[1..]);
    }
  }

  lemma BytesKeepTree(nodes: Nodes, inode: nat, data: seq<bv8>)
    requires TreeShaped(nodes) && inode in nodes && nodes[inode].File?
    ensures TreeShaped(nodes[inode := File(data)])
  {
    BytesKeepOwned(nodes, inode, data);
    forall i | i in nodes
      ensures Inside(nodes[inode := File(data)], ROOT, i)
    {
      assert Inside(nodes, ROOT, i);
      var path :| Resolve(nodes, ROOT, path) == Ok(i);
      BytesKeepPaths(nodes, inode, data, ROOT, path);
    }
  }

  // ---------- Runs ----------

  datatype Step =
    | CreateStep(parent: nat, name: Name, isDir: bool)
    | UnlinkStep(parent: nat, name: Name)
    | RenameStep(oldParent: nat, oldName: Name, newParent: nat, newName: Name)
    | WriteStep(inode: nat, offset: nat, data: seq<bv8>)
    | TruncateStep(inode: nat)

  function Apply(fs: Fs, step: Step): Fs {
    match step
    case CreateStep(p, n, d) => Create(fs, p, n, d).0
    case UnlinkStep(p, n) => Unlink(fs, p, n).0
    case RenameStep(op, on, np, nn) => Rename(fs, op, on, np, nn).0
    case WriteStep(i, o, d) => Write(fs, i, o, d).0
    case TruncateStep(i) => Truncate(fs, i).0
  }

  predicate Fails(fs: Fs, step: Step) {
    match step
    case CreateStep(p, n, d) => Create(fs, p, n, d).1.Err?
    case UnlinkStep(p, n) => Unlink(fs, p, n).1.Err?
    case RenameStep(op, on, np, nn) => Rename(fs, op, on, np, nn).1.Err?
    case WriteStep(i, o, d) => Write(fs, i, o, d).1.Err?
    case TruncateStep(i) => Truncate(fs, i).1.Err?
  }

  function Run(fs: Fs, steps: seq<Step>): Fs
    decreases |steps|
  {
    if steps == [] then fs else Run(Apply(fs, steps[0]), steps[1..])
  }

  /** No step renames a directory into its own subtree. */
  ghost predicate Proper(fs: Fs, steps: seq<Step>)
    decreases |steps|
  {
    steps != [] ==> ProperStep(fs, steps[0]) && Proper(Apply(fs, steps[0]), steps[1..])
  }

  ghost predicate ProperStep(fs: Fs, step: Step) {
    step.RenameStep? && !Fails(fs, step) ==>
      !Inside(fs.nodes, Target(fs.nodes, step.oldParent, step.oldName), step.newParent)
  }

  lemma StepKeepsInv(fs: Fs, step: Step)
    requires Inv(fs)
    ensures Inv(Apply(fs, step))
    ensures Fails(fs, step) ==> Apply(fs, step) == fs
  {
    hide Owned;
    match step
    case CreateStep(p, n, d) => CreateKeepsInv(fs, p, n, d);
    case UnlinkStep(p, n) => UnlinkKeepsInv(fs, p, n);
    case RenameStep(op, on, np, nn) => RenameKeepsInv(fs, op, on, np, nn);
    case WriteStep(i, o, d) =>
      if !Fails(fs, step) {
        BytesKeepOwned(fs.nodes, i, WrittenBytes(fs.nodes[i].data, o, d));
      }
    case TruncateStep(i) =>
      if !Fails(fs, step) {
        BytesKeepOwned(fs.nodes, i, []);
      }
  }

  lemma StepKeepsTree(fs: Fs, step: Step)
    requires Inv(fs) && TreeShaped(fs.nodes) && ProperStep(fs, step)
    ensures TreeShaped(Apply(fs, step).nodes)
  {
    hide TreeShaped, Owned, Inside;
    if !Fails(fs, step) {
      match step
      case CreateStep(p, n, d) => CreateKeepsTree(fs.nodes, p, n, fs.nextInode, d);
      case UnlinkStep(p, n) => UnlinkKeepsTree(fs.nodes, p, n);
      case RenameStep(op, on, np, nn) => RenameTreeIff(fs.nodes, op, on, np, nn);
      case WriteStep(i, o, d) => BytesKeepTree(fs.nodes, i, WrittenBytes(fs.nodes[i].data, o, d));
      case TruncateStep(i) => BytesKeepTree(fs.nodes, i, []);
    }
  }

  /** Every run keeps ownership, renames of any kind included. */
  lemma {:induction false} RunKeepsInv(fs: Fs, steps: seq<Step>)
    requires Inv(fs)
    ensures Inv(Run(fs, steps))
    decreases |steps|
  {
    if steps != [] {
      StepKeepsInv(fs, steps[0]);
      RunKeepsInv(Apply(fs, steps[0]), steps[1..]);
    }
  }

  /** Every run without a rename into its own subtree leaves one tree. */
  lemma {:induction false} RunKeepsTree(fs: Fs, steps: seq<Step>)
    requires Inv(fs) && TreeShaped(fs.nodes) && Proper(fs, steps)
    ensures TreeShaped(Run(fs, steps).nodes)
    decreases |steps|
  {
    hide TreeShaped, Inv;
    if steps != [] {
      StepKeepsInv(fs, steps[0]);
      StepKeepsTree(fs, steps[0]);
      RunKeepsTree(Apply(fs, steps[0]), steps[1..]);
    }
  }

  lemma NewFsIsTree()
    ensures Inv(NewFs()) && TreeShaped(NewFs().nodes)
  {
    assert Resolve(NewFs().nodes, ROOT, []) == Ok(ROOT);
  }

  /** One directory, renamed into itself: the call succeeds and the directory is cut off. */
  lemma RenameIntoItselfExample()
    ensures var fs := Run(NewFs(), [CreateStep(ROOT, "a", true)]);
            var step := RenameStep(ROOT, "a", ROOT + 1, "b");
            && TreeShaped(fs.nodes) && !Fails(fs, step) && !TreeShaped(Apply(fs, step).nodes)
  {
    hide TreeShaped, Owned;
    NewFsIsTree();
    var create := CreateStep(ROOT, "a", true);
    var fs := Apply(NewFs(), create);
    assert [create][1..] == [];
    assert Run(NewFs(), [create]) == fs;
    StepKeepsInv(NewFs(), create);
    StepKeepsTree(NewFs(), create);
    assert fs.nodes == map[ROOT := Directory(map["a" := ROOT + 1]), ROOT + 1 := Directory(map[])];
    assert Resolve(fs.nodes, ROOT + 1, []) == Ok(ROOT + 1);
    RenameTreeIff(fs.nodes, ROOT, "a", ROOT + 1, "b");
  }

  /** Only a write, a truncation or an unlink that names it touches the bytes of a file. */
  lemma FileKept(fs: Fs, step: Step, i: nat)
    requires Inv(fs) && i in fs.nodes && fs.nodes[i].File?
    ensures (i in Apply(fs, step).nodes && Apply(fs, step).nodes[i] == fs.nodes[i])
            || (step.WriteStep? && step.inode == i) || (step.TruncateStep? && step.inode == i)
            || (step.UnlinkStep? && Edge(fs.nodes, step.parent, step.name, i))
  {
    hide Owned;
  }

  /** A read of what was just written gives it back, and a read that ends before it or starts after it is unchanged. */
  lemma ReadAfterWrite(fs: Fs, inode: nat, offset: nat, data: seq<bv8>, at: nat, len: nat)
    requires Write(fs, inode, offset, data).1.Ok?
    ensures var fs' := Write(fs, inode, offset, data).0;
            && Read(fs', inode, offset, |data|) == Ok(data)
            && (at + len <= offset && at + len <= |fs.nodes[inode].data| ==>
                  Read(fs', inode, at, len) == Read(fs, inode, at, len))
            && (offset + |data| <= at ==> Read(fs', inode, at, len) == Read(fs, inode, at, len))
  {
    var before, after := fs.nodes[inode].data, WrittenBytes(fs.nodes[inode].data, offset, data);
    assert ReadBytes(after, offset, |data|) == data;
    if at + len <= offset && at + len <= |before| {
      assert ReadBytes(after, at, len) == ReadBytes(before, at, len);
    }
    if offset + |data| <= at {
      assert ReadBytes(after, at, len) == ReadBytes(before, at, len);
    }
  }

  // ---------- Path strings ----------

  /** The non-empty pieces between slashes; `part` is the piece read so far. */
  function Pieces(part: Name, path: string): seq<Name>
    decreases |path|
  {
    var done := if part == "" then [] else [part];
    if path == "" then done
    else if path[0] == '/' then done + Pieces("", path[1..])
    else Pieces(part + [path[0]], path[1..])
  }

  function Components(path: string): seq<Name> {
    Pieces("", path)
  }

  /** A path string written out from names. */
  function Join(names: seq<Name>): string {
    if names == [] then "" else "/" + names[0] + Join(names[1..])
  }

  /** The pieces of a path are names that create accepts. */
  lemma {:induction false} PiecesAreNames(part: Name, path: string)
    requires '/' !in part
    ensures forall n :: n in Pieces(part, path) ==> !BadName(n)
    decreases |path|
  {
    if path != "" {
      if path[0] == '/' {
        PiecesAreNames("", path[1..]);
      } else {
        PiecesAreNames(part + [path[0]], path[1..]);
      }
    }
  }

  lemma {:induction false} PiecesOfName(part: Name, name: Name, rest: string)
    requires '/' !in name && (rest == "" || rest[0] == '/')
    ensures Pieces(part, name + rest) == (if part + name == "" then [] else [part + name]) + Pieces("", rest)
    decreases |name|
  {
    if name == "" {
      assert name + rest == rest && part + name == part;
    } else {
      assert (name + rest)[1..] == name[1..] + rest;
      assert part + name == part + [name[0]] + name[1..];
      PiecesOfName(part + [name[0]], name[1..], rest);
    }
  }

  lemma PiecesOfStep(name: Name, rest: string)
    requires !BadName(name) && (rest == "" || rest[0] == '/')
    ensures Pieces("", "/" + name + rest) == [name] + Pieces("", rest)
  {
    var path := "/" + name + rest;
    assert path[1..] == name + rest;
    assert "" + name == name;
    PiecesOfName("", name, rest);
  }

  /** Splitting undoes joining. */
  lemma {:induction false} ComponentsOfJoin(names: seq<Name>)
    requires forall n :: n in names ==> !BadName(n)
    ensures Components(Join(names)) == names
    decreases |names|
  {
    hide Pieces, BadName;
    if names == [] {
      NoPieces();
    } else {
      assert names[0] in names && forall n :: n in names[1..] ==> n in names;
      PiecesOfStep(names[0], Join(names[1..]));
      ComponentsOfJoin(names[1..]);
    }
  }

  lemma NoPieces()
    ensures Pieces("", "") == []
  {
  }
}
