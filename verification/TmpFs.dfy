/** The in-memory filesystem as it runs: maps updated in place, each call proved against TmpFsSpec. */
module TmpFilesystem {
  import opened Wrappers
  import opened TmpFsSpec

  class TmpFs {
    var nextInode: nat
    var nodes: Nodes

    ghost function Abs(): Fs
      reads this
    {
      Fs(nextInode, nodes)
    }

    ghost predicate Valid()
      reads this
    {
      Inv(Abs())
    }

    constructor ()
      ensures Valid() && Abs() == NewFs() && TreeShaped(nodes)
    {
      nextInode, nodes := ROOT + 1, map[ROOT := Directory(map[])];
      new;
      NewFsIsTree();
    }

    /** Walks a path one component at a time. */
    method Lookup(base: nat, path: string) returns (r: Result<nat, ErrorCode>)
      ensures r == Resolve(nodes, base, Components(path))
    {
      if path == "" || path == "/" {
        assert Pieces("", "") == [] && "/"[1..] == "";
        assert Pieces("", "/") == [];
        return Ok(base);
      }
      var components := Components(path);
      var current := base;
      for k := 0 to |components|
        invariant Resolve(nodes, base, components) == Resolve(nodes, current, components[k..])
      {
        assert components[k..][1..] == components[k + 1..];
        if current !in nodes {
          return Err(ENOENT);
        }
        match nodes[current]
        case Directory(entries) =>
          if components[k] !in entries {
            return Err(ENOENT);
          }
          current := entries[components[k]];
        case File(_) =>
          return Err(ENOTDIR);
      }
      return Ok(current);
    }

    method Create(parent: nat, name: Name, isDir: bool) returns (r: Result<nat, ErrorCode>)
      requires Valid()
      modifies this
      ensures Valid()
      ensures (Abs(), r) == TmpFsSpec.Create(old(Abs()), parent, name, isDir)
      ensures r.Ok? ==> Linked(old(nodes), nodes, parent, name, r.value, isDir)
      ensures r.Ok? ==> Resolve(nodes, parent, [name]) == Ok(r.value)
      ensures old(TreeShaped(nodes)) ==> TreeShaped(nodes)
    {
      hide Inv, TreeShaped, Linked;
      CreateExact(Abs(), parent, name, isDir);
      StepKeepsInv(Abs(), CreateStep(parent, name, isDir));
      InodesBelow(Abs());
      if TreeShaped(nodes) {
        StepKeepsTree(Abs(), CreateStep(parent, name, isDir));
      }
      if name == "" || '/' in name {
        return Err(EINVAL);
      }
      if parent !in nodes {
        return Err(ENOENT);
      }
      match nodes[parent] {
        case Directory(entries) =>
          if name in entries {
            return Err(EEXIST);
          }
        case File(_) =>
          return Err(ENOTDIR);
      }
      var inode := nextInode;
      nextInode := nextInode + 1;
      nodes := nodes[inode := if isDir then Directory(map[]) else File([])];
      nodes := nodes[parent := Directory(nodes[parent].entries[name := inode])];
      assert [name][1..] == [];
      return Ok(inode);
    }

    method Unlink(parent: nat, name: Name) returns (r: Result<(), ErrorCode>)
      requires Valid()
      modifies this
      ensures Valid()
      ensures (Abs(), r) == TmpFsSpec.Unlink(old(Abs()), parent, name)
      ensures r.Ok? ==> exists i :: Cut(old(nodes), nodes, parent, name, i)
      ensures old(TreeShaped(nodes)) ==> TreeShaped(nodes)
    {
      hide Inv, TreeShaped, Cut;
      UnlinkExact(Abs(), parent, name);
      StepKeepsInv(Abs(), UnlinkStep(parent, name));
      if TreeShaped(nodes) {
        StepKeepsTree(Abs(), UnlinkStep(parent, name));
      }
      if name == "" || '/' in name {
        return Err(EINVAL);
      }
      if parent !in nodes {
        return Err(ENOENT);
      }
      if nodes[parent].File? {
        return Err(ENOTDIR);
      }
      if name !in nodes[parent].entries {
        return Err(ENOENT);
      }
      var inode := nodes[parent].entries[name];
      if inode !in nodes {
        return Err(ENOENT);
      }
      match nodes[inode] {
        case Directory(entries) =>
          if entries != map[] {
            return Err(ENOTEMPTY);
          }
        case File(_) =>
      }
      nodes := nodes[parent := Directory(nodes[parent].entries - {name})];
      nodes := nodes - {inode};
      return Ok(());
    }

    /** Fills the front of the buffer. */
    method Read(inode: nat, offset: nat, buffer: array<bv8>) returns (r: Result<nat, ErrorCode>)
      modifies buffer
      ensures match TmpFsSpec.Read(Abs(), inode, offset, buffer.Length)
              case Err(e) => r == Err(e) && buffer[..] == old(buffer[..])
              case Ok(bytes) => r == Ok(|bytes|) && buffer[..] == bytes + old(buffer[..])[|bytes|..]
      ensures r.Ok? <==> inode in nodes && nodes[inode].File?
      ensures r.Ok? ==> r.value <= buffer.Length
      ensures r.Ok? && r.value < buffer.Length ==> offset + r.value >= |nodes[inode].data|
      ensures r.Ok? ==> forall k :: 0 <= k < r.value ==>
                offset + k < |nodes[inode].data| && buffer[k] == nodes[inode].data[offset + k]
      ensures r.Err? ==> NoFile(nodes, inode, r.error)
    {
      if inode !in nodes {
        return Err(ENOENT);
      }
      if nodes[inode].Directory? {
        return Err(EISDIR);
      }
      var data := nodes[inode].data;
      if offset >= |data| {
        return Ok(0);
      }
      var available := |data| - offset;
      var count := if available < buffer.Length then available else buffer.Length;
      for k := 0 to count
        invariant forall m :: 0 <= m < k ==> buffer[m] == data[offset + m]
        invariant forall m :: k <= m < buffer.Length ==> buffer[m] == old(buffer[m])
      {
        buffer[k] := data[offset + k];
      }
      return Ok(count);
    }

    /** Pads a byte vector with zeros up to a length. */
    static method Resize(data: seq<bv8>, len: nat) returns (r: seq<bv8>)
      requires |data| <= len
      ensures |r| == len && r[..|data|] == data && forall k :: |data| <= k < len ==> r[k] == 0
    {
      r := data + seq(len - |data|, _ => 0);
    }

    /** Extends the vector if needed, then appends or overwrites. */
    static method Overwrite(before: seq<bv8>, offset: nat, data: seq<bv8>) returns (bytes: seq<bv8>)
      ensures bytes == WrittenBytes(before, offset, data)
      ensures Spliced(before, bytes, offset, data)
    {
      bytes := before;
      if offset > |bytes| {
        bytes := Resize(bytes, offset);
      }
      if offset == |bytes| {
        bytes := bytes + data;
      } else {
        var end := offset + |data|;
        if end > |bytes| {
          bytes := Resize(bytes, end);
        }
        bytes := bytes[..offset] + data + bytes[end..];
      }
    }

    method Write(inode: nat, offset: nat, data: seq<bv8>) returns (r: Result<nat, ErrorCode>)
      requires Valid()
      modifies this`nodes
      ensures Valid()
      ensures (Abs(), r) == TmpFsSpec.Write(old(Abs()), inode, offset, data)
      ensures r.Ok? ==> Rewritten(old(nodes), nodes, inode)
      ensures r.Ok? ==> Spliced(old(nodes)[inode].data, nodes[inode].data, offset, data) && r.value == |data|
      ensures old(TreeShaped(nodes)) ==> TreeShaped(nodes)
    {
      hide Inv, TreeShaped, WrittenBytes, Spliced;
      WriteExact(Abs(), inode, offset, data);
      StepKeepsInv(Abs(), WriteStep(inode, offset, data));
      if TreeShaped(nodes) {
        StepKeepsTree(Abs(), WriteStep(inode, offset, data));
      }
      if inode !in nodes {
        return Err(ENOENT);
      }
      if nodes[inode].Directory? {
        return Err(EISDIR);
      }
      var bytes := Overwrite(nodes[inode].data, offset, data);
      nodes := nodes[inode := File(bytes)];
      return Ok(|data|);
    }

    method Truncate(inode: nat) returns (r: Result<(), ErrorCode>)
      requires Valid()
      modifies this`nodes
      ensures Valid()
      ensures (Abs(), r) == TmpFsSpec.Truncate(old(Abs()), inode)
      ensures r.Ok? <==> inode in old(nodes) && old(nodes)[inode].File?
      ensures r.Ok? ==> Rewritten(old(nodes), nodes, inode) && nodes[inode].data == []
      ensures r.Err? ==> nodes == old(nodes) && NoFile(nodes, inode, r.error)
      ensures old(TreeShaped(nodes)) ==> TreeShaped(nodes)
    {
      hide Inv, TreeShaped;
      StepKeepsInv(Abs(), TruncateStep(inode));
      if TreeShaped(nodes) {
        StepKeepsTree(Abs(), TruncateStep(inode));
      }
      if inode !in nodes {
        return Err(ENOENT);
      }
      if nodes[inode].Directory? {
        return Err(EISDIR);
      }
      nodes := nodes[inode := File([])];
      return Ok(());
    }

    /** Moves an entry; one tree stays one tree exactly when the new directory is not inside what moves. */
    method Rename(oldParent: nat, oldName: Name, newParent: nat, newName: Name) returns (r: Result<(), ErrorCode>)
      requires Valid()
      modifies this`nodes
      ensures Valid()
      ensures (Abs(), r) == TmpFsSpec.Rename(old(Abs()), oldParent, oldName, newParent, newName)
      ensures r.Ok? ==> exists i :: Relinked(old(nodes), nodes, oldParent, oldName, newParent, newName, i)
      ensures old(TreeShaped(nodes)) && r.Ok? ==>
                (TreeShaped(nodes) <==> !Inside(old(nodes), Target(old(nodes), oldParent, oldName), newParent))
    {
      hide Inv, TreeShaped, Inside, Relinked;
      RenameExact(Abs(), oldParent, oldName, newParent, newName);
      StepKeepsInv(Abs(), RenameStep(oldParent, oldName, newParent, newName));
      if TreeShaped(nodes) && TmpFsSpec.Rename(Abs(), oldParent, oldName, newParent, newName).1.Ok? {
        RenameTreeIff(nodes, oldParent, oldName, newParent, newName);
      }
      if oldName == "" || '/' in oldName || newName == "" || '/' in newName {
        return Err(EINVAL);
      }
      if oldParent !in nodes {
        return Err(ENOENT);
      }
      if nodes[oldParent].File? {
        return Err(ENOTDIR);
      }
      if oldName !in nodes[oldParent].entries {
        return Err(ENOENT);
      }
      var inode := nodes[oldParent].entries[oldName];
      if newParent !in nodes {
        return Err(ENOENT);
      }
      match nodes[newParent] {
        case Directory(entries) =>
          if newName in entries {
            return Err(EEXIST);
          }
        case File(_) =>
          return Err(ENOTDIR);
      }
      nodes := nodes[oldParent := Directory(nodes[oldParent].entries - {oldName})];
      nodes := nodes[newParent := Directory(nodes[newParent].entries[newName := inode])];
      return Ok(());
    }
  }
}
