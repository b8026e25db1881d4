/**
  The helpers of kernel/fs/vfs/common.c: allocating and freeing tnodes and inodes, mapping
  a handle to its node descriptor, and the vector generation of path_to_node, which appends
  new nodes at the end of the parent's child vector.
*/
module VfsCommon {
  import opened Optional
  import opened VfsTypes
  import opened VfsPath

  /** 0777: the permissions of a node that path_to_node creates. */
  const DEFAULT_PERMS := 0x1FF

  /** A fresh tnode record added to the tree, and its id. */
  function NewTnode(t: Tree, tn: TNode): (r: (Tree, TNodeId))
    ensures Closed(t) ==> r.1 !in t.tnodes
    ensures r.0.tnodes == t.tnodes[r.1 := tn]
    ensures r.0.inodes == t.inodes && r.0.root == t.root
    ensures r.0.freedTnodes == t.freedTnodes && r.0.freedInodes == t.freedInodes
    ensures Closed(t) && (tn.inode.Some? ==> tn.inode.value in t.inodes) && (tn.parent.Some? ==> tn.parent.value in t.inodes)
            ==> Closed(r.0)
  {
    var n := t.nextId;
    (t.(tnodes := t.tnodes[n := tn], nextId := n + 1), n)
  }

  /** A fresh inode record added to the tree, and its id. */
  function NewInode(t: Tree, ino: Inode): (r: (Tree, InodeId))
    ensures Closed(t) ==> r.1 !in t.inodes
    ensures r.0.inodes == t.inodes[r.1 := ino]
    ensures r.0.tnodes == t.tnodes && r.0.root == t.root
    ensures r.0.freedTnodes == t.freedTnodes && r.0.freedInodes == t.freedInodes
    ensures Closed(t) && (forall c :: c in ino.children ==> c in t.tnodes) ==> Closed(r.0)
  {
    var i := t.nextId;
    (t.(inodes := t.inodes[i := ino], nextId := i + 1), i)
  }

  /** vfs_alloc_tnode: a fresh zeroed tnode with the given inode and parent. The arguments of
      the name copy are swapped in the source, so the tnode's name stays zeroed (empty) and the
      zeroed name is copied over the caller's buffer instead, which then reads as empty: the
      result carries that buffer. */
  function AllocTnode(t: Tree, name: string, inode: Option<InodeId>, parent: Option<InodeId>): (r: (Tree, TNodeId, string))
    ensures Closed(t) ==> r.1 !in t.tnodes
    ensures r.0.tnodes == t.tnodes[r.1 := TNode("", inode, parent)]
    ensures r.0.inodes == t.inodes && r.0.root == t.root
    ensures r.0.freedTnodes == t.freedTnodes && r.0.freedInodes == t.freedInodes
    ensures r.2 == ""
    ensures Closed(t) && (inode.Some? ==> inode.value in t.inodes) && (parent.Some? ==> parent.value in t.inodes)
            ==> Closed(r.0)
  {
    var (t1, n) := NewTnode(t, TNode("", inode, parent));
    (t1, n, "")
  }

  /** vfs_alloc_inode: a fresh inode with the given type, permissions, owner, file system and
      mount point, size 0, no children, no backend identity and one reference. */
  function AllocInode(t: Tree, kind: NodeType, perms: int, uid: int, fs: FsInfo, mountpoint: Option<TNodeId>): (r: (Tree, InodeId))
    ensures Closed(t) ==> r.1 !in t.inodes
    ensures r.1 in r.0.inodes
    ensures r.0.inodes[r.1] == Inode(kind, perms, uid, 0, 1, fs, None, mountpoint, [])
    ensures Closed(t) ==> forall i :: i in t.inodes ==> i in r.0.inodes && r.0.inodes[i] == t.inodes[i]
    ensures r.0.tnodes == t.tnodes && r.0.root == t.root
    ensures r.0.freedTnodes == t.freedTnodes && r.0.freedInodes == t.freedInodes
    ensures Closed(t) ==> Closed(r.0)
  {
    NewInode(t, Inode(kind, perms, uid, 0, 1, fs, None, mountpoint, []))
  }

  /** vfs_free_nodes: the tnode is always released, its inode only when no reference is left. */
  function FreeNodes(t: Tree, n: TNodeId): (r: Tree)
    requires InodeOf(t, n).Some?
    ensures r.freedTnodes == t.freedTnodes + {n}
    ensures t.tnodes[n].inode.value in r.freedInodes <==>
              t.tnodes[n].inode.value in t.freedInodes || t.inodes[t.tnodes[n].inode.value].refcount <= 0
    ensures forall i :: i != t.tnodes[n].inode.value ==> (i in r.freedInodes <==> i in t.freedInodes)
    ensures r.tnodes == t.tnodes && r.inodes == t.inodes && r.root == t.root && r.nextId == t.nextId
  {
    var i := t.tnodes[n].inode.value;
    var t1 := if t.inodes[i].refcount <= 0 then t.(freedInodes := t.freedInodes + {i}) else t;
    t1.(freedTnodes := t1.freedTnodes + {n})
  }

  /** handle_to_fd: the descriptor in the handle's slot; none when the handle, read as an
      unsigned number, is past the end of the table or the slot has been cleared. */
  function HandleToFd(files: seq<Option<NodeDesc>>, h: int): (r: Option<NodeDesc>)
    ensures r.None? <==> h < 0 || h >= |files| || files[h].None?
    ensures r.Some? ==> 0 <= h < |files| && files[h] == r
  {
    if h < 0 || h >= |files| then None else files[h]
  }

  /** Every descriptor in the table refers to records of the tree. */
  predicate DescsIn(t: Tree, files: seq<Option<NodeDesc>>)
  {
    forall k :: 0 <= k < |files| && files[k].Some? ==>
      files[k].value.tnode in t.tnodes && files[k].value.inode in t.inodes
  }

  /** The inode pi with a new child list. */
  function SetChildren(t: Tree, pi: InodeId, kids: seq<TNodeId>): (r: Tree)
    requires pi in t.inodes
  {
    t.(inodes := t.inodes[pi := t.inodes[pi].(children := kids)])
  }

  /** A new child list made of tnodes of the tree keeps the tree closed. */
  lemma ClosedSetChildren(t: Tree, pi: InodeId, kids: seq<TNodeId>)
    requires Closed(t) && pi in t.inodes && forall c :: c in kids ==> c in t.tnodes
    ensures Closed(SetChildren(t, pi, kids))
  {
    var r := SetChildren(t, pi, kids);
    forall j, c | j in r.inodes && c in r.inodes[j].children ensures c in r.tnodes {
      if j != pi {
        assert c in t.inodes[j].children;
      }
    }
  }

  /** A tree after common.c's create step under the tnode `parent`: a new inode (the given
      type, 0777, owner 0, the parent's file system and mount point), a new tnode for it whose
      name the swapped copy left empty, appended to the parent's child vector. Also the new
      tnode. */
  function CreateV2(t: Tree, parent: TNodeId, kind: NodeType): (r: (Tree, TNodeId))
    requires Closed(t) && InodeOf(t, parent).Some?
    ensures var pi := t.tnodes[parent].inode.value;
            var p := t.inodes[pi];
            && pi in r.0.inodes
            && r.0.inodes[pi] == p.(children := p.children + [r.1])
            && r.1 in r.0.tnodes && r.0.tnodes[r.1].name == "" && r.0.tnodes[r.1].parent == Some(pi)
            && r.0.tnodes[r.1].inode.Some?
            && r.0.tnodes[r.1].inode.value in r.0.inodes
            && r.0.inodes[r.0.tnodes[r.1].inode.value]
                 == Inode(kind, DEFAULT_PERMS, 0, 0, 1, p.fs, None, p.mountpoint, [])
    ensures r.1 !in t.tnodes && Closed(r.0)
  {
    var pi := t.tnodes[parent].inode.value;
    var p := t.inodes[pi];
    var (t1, ni) := AllocInode(t, kind, DEFAULT_PERMS, 0, p.fs, p.mountpoint);
    var (t2, nt, _) := AllocTnode(t1, "", Some(ni), Some(pi));
    ClosedSetChildren(t2, pi, p.children + [nt]);
    (SetChildren(t2, pi, p.children + [nt]), nt)
  }

  /** The create step changes nothing but the parent's child list: every other record stays,
      and so do the root and the released sets. */
  lemma CreateV2Frame(t: Tree, parent: TNodeId, kind: NodeType)
    requires Closed(t) && InodeOf(t, parent).Some?
    ensures var r := CreateV2(t, parent, kind);
            && (forall n :: n in t.tnodes ==> n in r.0.tnodes && r.0.tnodes[n] == t.tnodes[n])
            && (forall i :: i in t.inodes && i != t.tnodes[parent].inode.value ==>
                  i in r.0.inodes && r.0.inodes[i] == t.inodes[i])
            && r.0.root == t.root && r.0.freedTnodes == t.freedTnodes && r.0.freedInodes == t.freedInodes
  {
    var pi := t.tnodes[parent].inode.value;
    var p := t.inodes[pi];
    var (t1, ni) := AllocInode(t, kind, DEFAULT_PERMS, 0, p.fs, p.mountpoint);
    var (t2, nt, _) := AllocTnode(t1, "", Some(ni), Some(pi));
    var kids := p.children + [nt];
    var r := SetChildren(t2, pi, kids);
    assert CreateV2(t, parent, kind).0 == r;
    forall n | n in t.tnodes ensures n in r.tnodes && r.tnodes[n] == t.tnodes[n] {
      assert n != nt;
    }
    forall i | i in t.inodes && i != pi ensures i in r.inodes && r.inodes[i] == t.inodes[i] {
      assert i in t1.inodes && t1.inodes[i] == t.inodes[i];
    }
  }

  /** The token loop of both path_to_node generations: the characters from idx up to the
      next '/' or the end, and the index one past that end. */
  method NextToken(s: string, idx: nat) returns (tok: string, next: nat)
    requires idx < |s|
    ensures tok == s[idx..TokenEnd(s, idx)] && next == TokenEnd(s, idx) + 1
    ensures '/' !in tok && idx < next <= |s| + 1
  {
    var i := 0;
    tok := "";
    while idx + i < |s|
      invariant idx + i <= |s|
      invariant tok == s[idx..idx + i]
      invariant forall j :: idx <= j < idx + i ==> s[j] != '/'
    {
      if s[idx + i] == '/' {
        break;
      }
      tok := tok + [s[idx + i]];
      i := i + 1;
    }
    TokenEndAt(s, idx, idx + i);
    next := idx + i + 1;
  }

  /** The child scan of both generations: the index of the first child with the name. */
  method ScanChildren(t: Tree, kids: seq<TNodeId>, name: string) returns (r: Option<nat>)
    ensures r == FirstMatch(t, kids, name)
    ensures r.Some? ==> r.value < |kids| && Named(t, kids[r.value], name)
  {
    var k := 0;
    while k < |kids|
      invariant k <= |kids|
      invariant forall j :: 0 <= j < k ==> !Named(t, kids[j], name)
    {
      if Named(t, kids[k], name) {
        FirstMatchAt(t, kids, name, k);
        return Some(k);
      }
      k := k + 1;
    }
    return None;
  }

  /** The token loop of common.c's path_to_node over the path s after its leading '/': the
      node reached, whether the last token was found, the index and the last token read. */
  method TokenLoopV2(t: Tree, s: string) returns (curr: TNodeId, found: bool, idx: nat, tmp: string)
    requires WalkV2(t, s, 0, t.root, true, "") != NullDeref
    ensures WalkV2(t, s, 0, t.root, true, "") == Reached(curr, found, idx, tmp)
  {
    ghost var w := WalkV2(t, s, 0, t.root, true, "");
    curr := t.root;
    idx := 0;
    found := true;
    tmp := "";
    while idx < |s|
      invariant WalkV2(t, s, idx, curr, found, tmp) == w
    {
      var next;
      tmp, next := NextToken(s, idx);
      idx := next;
      found := false;
      var ino := InodeOf(t, curr).value;
      if !Traversable(ino.kind) {
        return;
      }
      var m := ScanChildren(t, ino.children, tmp);
      if m.Some? {
        found := true;
        curr := ino.children[m.value];
      }
    }
  }

  /** The create step of common.c's path_to_node: a new inode and tnode, the tnode appended
      to the parent's child vector, then the backend's mknode. */
  method InsertV2(st: VfsState, parent: TNodeId, createType: NodeType) returns (n: TNodeId)
    requires st.Valid() && InodeOf(st.tree, parent).Some?
    modifies st
    ensures st.Valid()
    ensures st.fslist == old(st.fslist) && st.fsTail == old(st.fsTail)
    ensures st.tree == CreateV2(old(st.tree), parent, createType).0
    ensures n == CreateV2(old(st.tree), parent, createType).1 && n in st.tree.tnodes
    ensures st.calls == old(st.calls) + [MknodeNotify(n)]
  {
    var (t1, nt) := CreateV2(st.tree, parent, createType);
    st.tree := t1;
    st.calls := st.calls + [MknodeNotify(nt)];
    return nt;
  }

  /** path_to_node of common.c. A NULL result is None. The result and the new tree are those
      of ResolveV2 on the old tree: on a create, the new tnode is appended to the parent's
      child vector and the backend's mknode is told about it; every other outcome leaves the
      state as it was. */
  method PathToNodeV2(st: VfsState, path: string, mode: bv8, createType: NodeType) returns (r: Option<TNodeId>)
    requires st.Valid() && ResolveV2(st.tree, path, mode) != Crash
    modifies st
    ensures st.Valid()
    ensures st.fslist == old(st.fslist) && st.fsTail == old(st.fsTail)
    ensures r.Some? ==> r.value in st.tree.tnodes
    ensures var o := ResolveV2(old(st.tree), path, mode);
            match o
            case CreateUnder(p, _) =>
              && st.tree == CreateV2(old(st.tree), p, createType).0
              && r == Some(CreateV2(old(st.tree), p, createType).1)
              && st.calls == old(st.calls) + [MknodeNotify(r.value)]
            case Return(n) => r == Some(n) && st.tree == old(st.tree) && st.calls == old(st.calls)
            case _ => r == None && st.tree == old(st.tree) && st.calls == old(st.calls)
  {
    if |path| == 0 || path[0] != '/' {
      return None;
    }
    var t := st.tree;
    var s := path[1..];
    var curr, found, idx, tmp := TokenLoopV2(t, s);
    WalkV2InTree(t, s, 0, t.root, true, "");
    ghost var o := ResolveV2(t, path, mode);

    if !found {
      var ino := InodeOf(t, curr).value;
      if !Traversable(ino.kind) {
        assert o == Fail;
        return None;
      }
      if mode & CREATE != 0 && idx > |s| {
        assert o == CreateUnder(curr, tmp);
        var n := InsertV2(st, curr, createType);
        return Some(n);
      }
      assert o == Fail;
      return None;
    } else if mode & ERR_ON_EXIST != 0 {
      assert o == Fail;
      return None;
    }
    assert o == Return(curr);
    return Some(curr);
  }
}
