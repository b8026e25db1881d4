/**
  The file-system switch of kernel/fs/vfs.c: the registry of file systems, the sibling-list
  generation of path_to_node, the open-file table of the running task and the operations
  open, close, create, seek, chmod, mount, read, write, link and unlink.

  Each operation runs as one step under the VFS lock. The file-system backends are foreign
  code: what they return (the root inode of a mount, the status of a read, a write or a
  setlink) is a parameter, and every call into them is appended to the log `calls`.
*/
module Vfs {
  import opened Optional
  import opened VfsTypes
  import opened VfsPath
  import opened VfsCommon

  // ---------------------------------------------------------------------------------------
  // The registry of file systems

  /** The position get_fs stops at: the first file system with the name. */
  function FsIndex(list: seq<FsInfo>, name: string): (r: Option<nat>)
    ensures r.Some? ==> r.value < |list| && list[r.value].name == name
                        && forall j :: 0 <= j < r.value ==> list[j].name != name
    ensures r.None? ==> forall j :: 0 <= j < |list| ==> list[j].name != name
    decreases |list|
  {
    if |list| == 0 then None
    else if list[0].name == name then Some(0)
    else match FsIndex(list[1..], name)
      case None => None
      case Some(j) => Some(j + 1)
  }

  function FindFs(list: seq<FsInfo>, name: string): Option<FsInfo>
  {
    match FsIndex(list, name)
    case None => None
    case Some(k) => Some(list[k])
  }

  /** get_fs: the list is walked from the head; NULL when no file system has the name. */
  method GetFs(st: VfsState, name: string) returns (r: Option<FsInfo>)
    ensures r == FindFs(st.fslist, name)
    ensures r.Some? ==> r.value in st.fslist && r.value.name == name
    ensures r.None? <==> forall f :: f in st.fslist ==> f.name != name
  {
    var list := st.fslist;
    var k := 0;
    while k < |list|
      invariant k <= |list|
      invariant forall j :: 0 <= j < k ==> list[j].name != name
    {
      if list[k].name == name {
        assert FsIndex(list, name) == Some(k);
        return Some(list[k]);
      }
      k := k + 1;
    }
    return None;
  }

  /** The list after vfs_register_fs: the first file system becomes the head; every later
      one goes directly after the head. */
  function Registered(list: seq<FsInfo>, fs: FsInfo): (r: seq<FsInfo>)
    ensures |r| == |list| + 1 && fs in r
    ensures list != [] ==> r[0] == list[0] && r[1] == fs && r[2..] == list[1..]
    ensures forall f :: f in r ==> f == fs || f in list
  {
    if list == [] then [fs] else [list[0], fs] + list[1..]
  }

  method RegisterFs(st: VfsState, fs: FsInfo)
    requires st.Valid()
    requires forall f :: f in st.fslist ==> f.id != fs.id
    modifies st
    ensures st.Valid()
    ensures st.fslist == Registered(old(st.fslist), fs)
    ensures st.fsTail == (if old(st.fslist) == [] then Some(fs) else old(st.fsTail))
    ensures st.tree == old(st.tree) && st.calls == old(st.calls)
  {
    if st.fslist == [] {
      st.fslist := [fs];
      st.fsTail := Some(fs);
      return;
    }
    st.fslist := [st.fslist[0], fs] + st.fslist[1..];
  }

  /** The list after registering each of fss in turn, starting from an empty registry. */
  function RegisterEach(fss: seq<FsInfo>): seq<FsInfo>
    decreases |fss|
  {
    if fss == [] then [] else Registered(RegisterEach(fss[..|fss| - 1]), fss[|fss| - 1])
  }

  function Reverse<T>(s: seq<T>): (r: seq<T>)
    ensures |r| == |s|
    decreases |s|
  {
    if s == [] then [] else Reverse(s[1..]) + [s[0]]
  }

  /** Registering in turn keeps the first file system at the head and lists the others
      newest first. */
  lemma {:induction false} RegisterEachOrder(fss: seq<FsInfo>)
    requires fss != []
    ensures RegisterEach(fss) == [fss[0]] + Reverse(fss[1..])
    decreases |fss|
  {
    if |fss| > 1 {
      var init := fss[..|fss| - 1];
      RegisterEachOrder(init);
      assert init[0] == fss[0];
      assert fss[1..] == init[1..] + [fss[|fss| - 1]];
      ReverseSnoc(init[1..], fss[|fss| - 1]);
    }
  }

  lemma {:induction false} ReverseSnoc<T>(s: seq<T>, x: T)
    ensures Reverse(s + [x]) == [x] + Reverse(s)
    decreases |s|
  {
    if s != [] {
      assert (s + [x])[1..] == s[1..] + [x];
      ReverseSnoc(s[1..], x);
    }
  }

  /** A newly registered file system shadows every one with the same name except the head. */
  lemma RegisteredLookup(list: seq<FsInfo>, fs: FsInfo, name: string)
    requires fs.name == name
    ensures FindFs(Registered(list, fs), name)
              == if list != [] && list[0].name == name then Some(list[0]) else Some(fs)
  {
    var r := Registered(list, fs);
    if list != [] && list[0].name == name {
      assert FsIndex(r, name) == Some(0);
    } else if list != [] {
      assert FsIndex(r, name) == Some(1);
    } else {
      assert FsIndex(r, name) == Some(0);
    }
  }

  // ---------------------------------------------------------------------------------------
  // Child lists

  /** Where vfs.c puts a new child: the only child of an empty list, or right after the
      first child. */
  function AfterFirst(kids: seq<TNodeId>, x: TNodeId): (r: seq<TNodeId>)
    ensures |r| == |kids| + 1 && multiset(r) == multiset(kids) + multiset{x}
    ensures kids == [] ==> r == [x]
    ensures kids != [] ==> r[0] == kids[0] && r[1] == x
  {
    if kids == [] then [x]
    else
      assert kids == [kids[0]] + kids[1..];
      [kids[0], x] + kids[1..]
  }

  /** The child list after the first occurrence of x is taken out. */
  function RemoveFirst(kids: seq<TNodeId>, x: TNodeId): (r: seq<TNodeId>)
    ensures x !in kids ==> r == kids
    ensures x in kids ==> |r| == |kids| - 1
    ensures forall y :: y in r ==> y in kids
    decreases |kids|
  {
    if kids == [] then []
    else if kids[0] == x then kids[1..]
    else [kids[0]] + RemoveFirst(kids[1..], x)
  }

  /** Exactly one occurrence of x goes, and nothing else. */
  lemma {:induction false} RemoveFirstCount(kids: seq<TNodeId>, x: TNodeId)
    ensures multiset(RemoveFirst(kids, x)) == multiset(kids) - multiset{x}
    decreases |kids|
  {
    if kids != [] {
      assert kids == [kids[0]] + kids[1..];
      RemoveFirstCount(kids[1..], x);
    }
  }

  /** The position of the first occurrence of x splits the list: removing x joins the parts. */
  lemma {:induction false} RemoveFirstAt(kids: seq<TNodeId>, x: TNodeId, k: nat)
    requires k < |kids| && kids[k] == x && forall j :: 0 <= j < k ==> kids[j] != x
    ensures RemoveFirst(kids, x) == kids[..k] + kids[k + 1..]
    decreases k
  {
    if k == 0 {
      assert kids[..0] + kids[1..] == kids[1..];
    } else {
      var tail := kids[1..];
      assert forall j :: 0 <= j < k - 1 ==> tail[j] != x by {
        forall j | 0 <= j < k - 1 ensures tail[j] != x {
          assert tail[j] == kids[j + 1];
        }
      }
      RemoveFirstAt(tail, x, k - 1);
      calc {
        RemoveFirst(kids, x);
        [kids[0]] + RemoveFirst(tail, x);
        [kids[0]] + (tail[..k - 1] + tail[k..]);
        { assert kids[..k] == [kids[0]] + tail[..k - 1]; assert kids[k + 1..] == tail[k..]; }
        kids[..k] + kids[k + 1..];
      }
    }
  }

  /** Inserting a new child and then unlinking it gives the parent's list back: the insertion
      keeps every other child in its order. */
  lemma CreateThenRemove(kids: seq<TNodeId>, x: TNodeId)
    requires x !in kids
    ensures RemoveFirst(AfterFirst(kids, x), x) == kids
  {
    if kids != [] {
      RemoveFirstAt(AfterFirst(kids, x), x, 1);
      assert AfterFirst(kids, x)[..1] == [kids[0]];
      assert AfterFirst(kids, x)[2..] == kids[1..];
    }
  }

  /** The unlink loop: the sibling list is walked with a trailing pointer until the tnode. */
  method RemoveChild(kids: seq<TNodeId>, x: TNodeId) returns (r: seq<TNodeId>, found: bool)
    ensures r == RemoveFirst(kids, x) && found == (x in kids)
  {
    var k := 0;
    while k < |kids|
      invariant k <= |kids|
      invariant forall j :: 0 <= j < k ==> kids[j] != x
    {
      if kids[k] == x {
        RemoveFirstAt(kids, x, k);
        return kids[..k] + kids[k + 1..], true;
      }
      k := k + 1;
    }
    return kids, false;
  }

  // ---------------------------------------------------------------------------------------
  // Tree updates

  /** A tree after vfs.c's create step under the tnode `parent`: the new tnode that the
      backend's mknode returned, `made`, goes right after the parent's first child, with the
      inode record the backend made for it. Also the new tnode. */
  function CreateV1(t: Tree, parent: TNodeId, made: MadeNode): (r: (Tree, TNodeId))
    requires Closed(t) && InodeOf(t, parent).Some?
    requires forall c :: c in made.inode.children ==> c in t.tnodes
    ensures var pi := t.tnodes[parent].inode.value;
            var p := t.inodes[pi];
            && pi in r.0.inodes
            && r.0.inodes[pi] == p.(children := AfterFirst(p.children, r.1))
            && r.1 in r.0.tnodes && r.0.tnodes[r.1].name == made.name && r.0.tnodes[r.1].parent == Some(pi)
            && r.0.tnodes[r.1].inode.Some?
            && r.0.tnodes[r.1].inode.value in r.0.inodes
            && r.0.tnodes[r.1].inode.value !in t.inodes
            && r.0.inodes[r.0.tnodes[r.1].inode.value] == made.inode
    ensures r.1 !in t.tnodes && Closed(r.0)
  {
    var pi := t.tnodes[parent].inode.value;
    var p := t.inodes[pi];
    var (t1, ni) := NewInode(t, made.inode);
    var (t2, nt) := NewTnode(t1, TNode(made.name, Some(ni), Some(pi)));
    var kids := AfterFirst(p.children, nt);
    assert forall c :: c in kids ==> c in p.children || c == nt by {
      forall c | c in kids ensures c in p.children || c == nt {
        assert c in multiset(kids);
      }
    }
    ClosedSetChildren(t2, pi, kids);
    (SetChildren(t2, pi, kids), nt)
  }

  /** The create step changes nothing but the parent's child list: every other record stays,
      and so do the root and the released sets. */
  lemma CreateV1Frame(t: Tree, parent: TNodeId, made: MadeNode)
    requires Closed(t) && InodeOf(t, parent).Some?
    requires forall c :: c in made.inode.children ==> c in t.tnodes
    ensures var r := CreateV1(t, parent, made);
            && (forall n :: n in t.tnodes ==> n in r.0.tnodes && r.0.tnodes[n] == t.tnodes[n])
            && (forall i :: i in t.inodes && i != t.tnodes[parent].inode.value ==>
                  i in r.0.inodes && r.0.inodes[i] == t.inodes[i])
            && r.0.root == t.root && r.0.freedTnodes == t.freedTnodes && r.0.freedInodes == t.freedInodes
  {
    var pi := t.tnodes[parent].inode.value;
    var p := t.inodes[pi];
    var (t1, ni) := NewInode(t, made.inode);
    var (t2, nt) := NewTnode(t1, TNode(made.name, Some(ni), Some(pi)));
    var kids := AfterFirst(p.children, nt);
    var r := SetChildren(t2, pi, kids);
    assert CreateV1(t, parent, made).0 == r;
    forall n | n in t.tnodes ensures n in r.tnodes && r.tnodes[n] == t.tnodes[n] {
      assert n != nt;
    }
    forall i | i in t.inodes && i != pi ensures i in r.inodes && r.inodes[i] == t.inodes[i] {
      assert i in t1.inodes && t1.inodes[i] == t.inodes[i];
    }
  }

  /** The inode's reference count moved by d. */
  function AddRef(t: Tree, i: InodeId, d: int): (r: Tree)
    requires i in t.inodes
    ensures r.inodes == t.inodes[i := t.inodes[i].(refcount := t.inodes[i].refcount + d)]
    ensures r.tnodes == t.tnodes && r.root == t.root && r.nextId == t.nextId
    ensures r.freedTnodes == t.freedTnodes && r.freedInodes == t.freedInodes
  {
    t.(inodes := t.inodes[i := t.inodes[i].(refcount := t.inodes[i].refcount + d)])
  }

  /** Moving a reference count keeps the tree closed. */
  lemma ClosedAddRef(t: Tree, i: InodeId, d: int)
    requires Closed(t) && i in t.inodes
    ensures Closed(AddRef(t, i, d))
  {
    var r := AddRef(t, i, d);
    forall j, c | j in r.inodes && c in r.inodes[j].children ensures c in r.tnodes {
      assert c in t.inodes[j].children;
    }
  }

  /** Taking a reference and dropping it again restores the tree. */
  lemma AddRefUndo(t: Tree, i: InodeId, d: int)
    requires i in t.inodes
    ensures AddRef(AddRef(t, i, d), i, -d) == t
  {
    assert AddRef(AddRef(t, i, d), i, -d).inodes == t.inodes;
  }

  /** The backend's setlink(tnode, target): the tnode is bound to the target inode. */
  function SetLink(t: Tree, n: TNodeId, target: Option<InodeId>): (r: Tree)
    requires n in t.tnodes
    ensures r.tnodes == t.tnodes[n := t.tnodes[n].(inode := target)]
    ensures r.inodes == t.inodes && r.root == t.root && r.nextId == t.nextId
    ensures r.freedTnodes == t.freedTnodes && r.freedInodes == t.freedInodes
  {
    t.(tnodes := t.tnodes[n := t.tnodes[n].(inode := target)])
  }

  /** Binding a tnode to an inode of the tree, or to none, keeps the tree closed. */
  lemma ClosedSetLink(t: Tree, n: TNodeId, target: Option<InodeId>)
    requires Closed(t) && n in t.tnodes && (target.Some? ==> target.value in t.inodes)
    ensures Closed(SetLink(t, n, target))
  {
  }

  // ---------------------------------------------------------------------------------------
  // path_to_node, sibling-list generation

  /** The token loop of vfs.c's path_to_node over the path s after its leading '/': the node
      reached, whether every token was found, the index and the last token read. */
  method TokenLoopV1(t: Tree, s: string) returns (curr: TNodeId, found: bool, idx: nat, tmp: string)
    requires WalkV1(t, s, 0, t.root) != NullDeref
    ensures WalkV1(t, s, 0, t.root) == Reached(curr, found, idx, if found then "" else tmp)
  {
    ghost var w := WalkV1(t, s, 0, t.root);
    curr := t.root;
    idx := 0;
    found := true;
    tmp := "";
    while idx < |s|
      invariant WalkV1(t, s, idx, curr) == w
    {
      var next;
      tmp, next := NextToken(s, idx);
      idx := next;
      var ino := InodeOf(t, curr).value;
      var m := None;
      if Traversable(ino.kind) {
        m := ScanChildren(t, ino.children, tmp);
      }
      if m.None? {
        found := false;
        return;
      }
      curr := ino.children[m.value];
    }
  }

  /** The create step of vfs.c's path_to_node: the backend's mknode is called with the
      parent's inode, the token and the type, and the tnode it returns, `made`, goes right
      after the parent's first child. */
  method InsertV1(st: VfsState, parent: TNodeId, name: string, createType: NodeType, made: MadeNode) returns (n: TNodeId)
    requires st.Valid() && InodeOf(st.tree, parent).Some?
    requires forall c :: c in made.inode.children ==> c in st.tree.tnodes
    modifies st
    ensures st.Valid()
    ensures st.fslist == old(st.fslist) && st.fsTail == old(st.fsTail)
    ensures st.tree == CreateV1(old(st.tree), parent, made).0
    ensures n == CreateV1(old(st.tree), parent, made).1 && n in st.tree.tnodes
    ensures st.calls == old(st.calls) + [Mknode(old(st.tree).tnodes[parent].inode.value, name, createType)]
  {
    var pi := st.tree.tnodes[parent].inode.value;
    var (t1, nt) := CreateV1(st.tree, parent, made);
    st.tree := t1;
    st.calls := st.calls + [Mknode(pi, name, createType)];
    return nt;
  }

  /** path_to_node of vfs.c. A NULL result is None. The result and the new tree are those of
      ResolveV1 on the old tree: on a create, mknode is called and the tnode it returns, `made`,
      goes right after the parent's first child; every other outcome leaves the state as it was. */
  method PathToNode(st: VfsState, path: string, mode: bv8, createType: NodeType, made: MadeNode) returns (r: Option<TNodeId>)
    requires st.Valid() && ResolveV1(st.tree, path, mode) != Crash
    requires forall c :: c in made.inode.children ==> c in st.tree.tnodes
    modifies st
    ensures st.Valid()
    ensures st.fslist == old(st.fslist) && st.fsTail == old(st.fsTail)
    ensures r.Some? ==> r.value in st.tree.tnodes
    ensures var o := ResolveV1(old(st.tree), path, mode);
            match o
            case CreateUnder(p, name) =>
              && st.tree == CreateV1(old(st.tree), p, made).0
              && r == Some(CreateV1(old(st.tree), p, made).1)
              && st.calls == old(st.calls) + [Mknode(old(st.tree).tnodes[p].inode.value, name, createType)]
            case Return(n) => r == Some(n) && st.tree == old(st.tree) && st.calls == old(st.calls)
            case _ => r == None && st.tree == old(st.tree) && st.calls == old(st.calls)
  {
    if |path| == 0 || path[0] != '/' {
      return None;
    }
    var t := st.tree;
    var s := path[1..];
    var curr, found, idx, tmp := TokenLoopV1(t, s);
    WalkV1InTree(t, s, 0, t.root);
    ghost var o := ResolveV1(t, path, mode);

    if !found {
      if mode & CREATE != 0 && idx > |s| {
        assert o == CreateUnder(curr, tmp);
        var n := InsertV1(st, curr, tmp, createType, made);
        return Some(n);
      }
      assert o == Fail;
      return None;
    } else if mode & ERR_ON_EXIST != 0 {
      assert o == Fail;
      return None;
    }
    assert o == Return(curr);
    return Some(curr);
  }

  // ---------------------------------------------------------------------------------------
  // Operations

  /** vfs_open: the path must exist; its inode gains a reference and a descriptor at position
      0 in the given mode is appended to the task's table, never filling a cleared slot. The
      handle is the new descriptor's index. */
  method Open(st: VfsState, task: Task, path: string, mode: OpenMode) returns (h: int)
    requires st.Valid() && DescsIn(st.tree, task.openfiles)
    requires Lands(st.tree, ResolveV1(st.tree, path, NO_CREATE))
    modifies st, task
    ensures st.Valid() && DescsIn(st.tree, task.openfiles)
    ensures st.fslist == old(st.fslist) && st.calls == old(st.calls)
    ensures match ResolveV1(old(st.tree), path, NO_CREATE)
            case Return(n) =>
              var i := old(st.tree).tnodes[n].inode.value;
              && h == |old(task.openfiles)|
              && task.openfiles == old(task.openfiles) + [Some(NodeDesc(n, i, 0, mode))]
              && st.tree == AddRef(old(st.tree), i, 1)
            case _ => h == -1 && st.tree == old(st.tree) && task.openfiles == old(task.openfiles)
  {
    var req := PathToNode(st, path, NO_CREATE, File, NO_MKNODE);
    if req.None? {
      return -1;
    }
    var n := req.value;
    var i := st.tree.tnodes[n].inode.value;
    st.tree := AddRef(st.tree, i, 1);
    task.openfiles := task.openfiles + [Some(NodeDesc(n, i, 0, mode))];
    return |task.openfiles| - 1;
  }

  /** vfs_close: a valid handle drops its inode's reference and its slot is cleared; the
      table keeps its length and the inode is not freed even when no reference is left. */
  method Close(st: VfsState, task: Task, h: int) returns (r: int)
    requires st.Valid() && DescsIn(st.tree, task.openfiles)
    modifies st, task
    ensures st.Valid() && DescsIn(st.tree, task.openfiles)
    ensures st.fslist == old(st.fslist) && st.calls == old(st.calls)
    ensures match HandleToFd(old(task.openfiles), h)
            case None => r == -1 && st.tree == old(st.tree) && task.openfiles == old(task.openfiles)
            case Some(fd) =>
              && r == 0
              && task.openfiles == old(task.openfiles)[h := None]
              && st.tree == AddRef(old(st.tree), fd.inode, -1)
  {
    var fd := HandleToFd(task.openfiles, h);
    if fd.None? {
      return -1;
    }
    st.tree := AddRef(st.tree, fd.value.inode, -1);
    task.openfiles := task.openfiles[h := None];
    return 0;
  }

  /** vfs_create: succeeds exactly when path_to_node creates the node, that is, when the path
      did not exist and its last token is the only one missing; `made` is the tnode the
      backend's mknode returns. */
  method Create(st: VfsState, path: string, kind: NodeType, made: MadeNode) returns (r: int)
    requires st.Valid() && ResolveV1(st.tree, path, CREATE | ERR_ON_EXIST) != Crash
    requires forall c :: c in made.inode.children ==> c in st.tree.tnodes
    modifies st
    ensures st.Valid()
    ensures st.fslist == old(st.fslist)
    ensures var o := ResolveV1(old(st.tree), path, CREATE | ERR_ON_EXIST);
            && (r == 0 <==> o.CreateUnder?) && (r == 0 || r == -1)
            && (o.CreateUnder? ==>
                  && st.tree == CreateV1(old(st.tree), o.parent, made).0
                  && st.calls == old(st.calls) + [Mknode(old(st.tree).tnodes[o.parent].inode.value, o.name, kind)])
            && (!o.CreateUnder? ==> st.tree == old(st.tree) && st.calls == old(st.calls))
  {
    var node := PathToNode(st, path, CREATE | ERR_ON_EXIST, kind, made);
    r := if node.None? then -1 else 0;
  }

  /** vfs_seek: fails on an invalid handle, and on a read-only one when the position is at or
      past the end; otherwise the descriptor's position becomes pos. */
  method Seek(st: VfsState, task: Task, h: int, pos: nat) returns (r: int)
    requires DescsIn(st.tree, task.openfiles)
    modifies task
    ensures DescsIn(st.tree, task.openfiles)
    ensures match HandleToFd(old(task.openfiles), h)
            case None => r == -1 && task.openfiles == old(task.openfiles)
            case Some(fd) =>
              if pos >= st.tree.inodes[fd.inode].size && fd.mode == ModeRead
              then r == -1 && task.openfiles == old(task.openfiles)
              else r == 0 && task.openfiles == old(task.openfiles)[h := Some(fd.(filePos := pos))]
  {
    var fd := HandleToFd(task.openfiles, h);
    if fd.None? {
      return -1;
    }
    if pos >= st.tree.inodes[fd.value.inode].size && fd.value.mode == ModeRead {
      return -1;
    }
    task.openfiles := task.openfiles[h := Some(fd.value.(filePos := pos))];
    return 0;
  }

  /** vfs_chmod: fails on an invalid or read-only handle; otherwise the inode takes the new
      permissions and then the backend syncs it. */
  method Chmod(st: VfsState, task: Task, h: int, newperms: int) returns (r: int)
    requires st.Valid() && DescsIn(st.tree, task.openfiles)
    modifies st
    ensures st.Valid() && DescsIn(st.tree, task.openfiles)
    ensures st.fslist == old(st.fslist)
    ensures var fd := HandleToFd(task.openfiles, h);
            if fd.None? || fd.value.mode == ModeRead
            then r == -1 && st.tree == old(st.tree) && st.calls == old(st.calls)
            else
              var i := fd.value.inode;
              && r == 0
              && st.tree == old(st.tree).(inodes := old(st.tree).inodes[i := old(st.tree).inodes[i].(perms := newperms)])
              && st.calls == old(st.calls) + [Sync(i)]
  {
    var fd := HandleToFd(task.openfiles, h);
    if fd.None? || fd.value.mode == ModeRead {
      return -1;
    }
    var i := fd.value.inode;
    st.tree := st.tree.(inodes := st.tree.inodes[i := st.tree.inodes[i].(perms := newperms)]);
    st.calls := st.calls + [Sync(i)];
    return 0;
  }

  /** A mount target is an empty folder, or a tnode with no inode at all. */
  predicate MountTarget(t: Tree, n: TNodeId)
  {
    n in t.tnodes
    && (t.tnodes[n].inode.Some? ==>
          InodeOf(t, n).Some? && InodeOf(t, n).value.kind == Folder && InodeOf(t, n).value.children == [])
  }

  /** The resolved device, when it is a block device. */
  predicate IsBlockDevice(t: Tree, o: Outcome)
  {
    o.Return? && InodeOf(t, o.node).Some? && InodeOf(t, o.node).value.kind == BlockDevice
  }

  /** The tree after mounting at tnode `at` the root inode the backend returned: the target's
      old inode is released and the target holds the backend's inode, with one reference and
      the target as its mount point. */
  function Mounted(t: Tree, at: TNodeId, root: Inode): (r: Tree)
    requires at in t.tnodes
    ensures at in r.tnodes && r.tnodes[at].inode == Some(t.nextId) && t.nextId in r.inodes
    ensures r.inodes[t.nextId] == root.(refcount := 1, mountpoint := Some(at))
    ensures t.tnodes[at].inode.Some? ==> r.freedInodes == t.freedInodes + {t.tnodes[at].inode.value}
    ensures t.tnodes[at].inode.None? ==> r.freedInodes == t.freedInodes
    ensures Closed(t) && (forall c :: c in root.children ==> c in t.tnodes) ==> Closed(r)
  {
    var i := t.nextId;
    var freed := if t.tnodes[at].inode.Some? then t.freedInodes + {t.tnodes[at].inode.value} else t.freedInodes;
    t.(tnodes := t.tnodes[at := t.tnodes[at].(inode := Some(i))],
       inodes := t.inodes[i := root.(refcount := 1, mountpoint := Some(at))],
       nextId := i + 1,
       freedInodes := freed)
  }

  /** Whether vfs_mount goes through: the file system is registered; unless it needs no
      device, the device path names a block device; and the target path names a mount target. */
  predicate MountOk(st: VfsState, device: string, path: string, fsname: string)
    reads st
  {
    var fs := FindFs(st.fslist, fsname);
    && fs.Some?
    && (fs.value.istemp || IsBlockDevice(st.tree, ResolveV1(st.tree, device, NO_CREATE)))
    && ResolveV1(st.tree, path, NO_CREATE).Return?
    && MountTarget(st.tree, ResolveV1(st.tree, path, NO_CREATE).node)
  }

  /** vfs_mount: -1 and no change unless MountOk; otherwise the backend is asked to mount the
      device (none for a file system that needs none) and its root inode, `root`, replaces
      the target's inode. */
  method Mount(st: VfsState, device: string, path: string, fsname: string, root: Inode) returns (r: int)
    requires st.Valid()
    requires var fs := FindFs(st.fslist, fsname);
             && (fs.Some? && !fs.value.istemp ==> Lands(st.tree, ResolveV1(st.tree, device, NO_CREATE)))
             && (fs.Some? && (fs.value.istemp || IsBlockDevice(st.tree, ResolveV1(st.tree, device, NO_CREATE))) ==>
                   ResolveV1(st.tree, path, NO_CREATE) != Crash)
    requires forall c :: c in root.children ==> c in st.tree.tnodes
    modifies st
    ensures st.Valid()
    ensures st.fslist == old(st.fslist)
    ensures (r == 0 <==> old(MountOk(st, device, path, fsname))) && (r == 0 || r == -1)
    ensures r == -1 ==> st.tree == old(st.tree) && st.calls == old(st.calls)
    ensures r == 0 ==>
              var fs := FindFs(old(st.fslist), fsname).value;
              var at := ResolveV1(old(st.tree), path, NO_CREATE).node;
              var dev := if fs.istemp then None
                         else old(st.tree).tnodes[ResolveV1(old(st.tree), device, NO_CREATE).node].inode;
              && st.tree == Mounted(old(st.tree), at, root)
              && st.calls == old(st.calls) + [VfsTypes.Mount(fs, dev)]
  {
    var fs := GetFs(st, fsname);
    if fs.None? {
      return -1;
    }
    var dev: Option<InodeId> := None;
    if !fs.value.istemp {
      var d := PathToNode(st, device, NO_CREATE, File, NO_MKNODE);
      if d.None? {
        return -1;
      }
      if InodeOf(st.tree, d.value).value.kind != BlockDevice {
        return -1;
      }
      dev := st.tree.tnodes[d.value].inode;
    }
    var at := PathToNode(st, path, NO_CREATE, File, NO_MKNODE);
    if at.None? {
      return -1;
    }
    if st.tree.tnodes[at.value].inode.Some? {
      var ino := InodeOf(st.tree, at.value).value;
      if ino.kind != Folder || ino.children != [] {
        return -1;
      }
    }
    st.calls := st.calls + [VfsTypes.Mount(fs.value, dev)];
    st.tree := Mounted(st.tree, at.value, root);
    return 0;
  }

  /** vfs_read: on a valid handle the backend reads at the descriptor's position and its
      status is returned; the position does not move and the mode is not checked. */
  method Read(st: VfsState, task: Task, h: int, len: nat, status: int) returns (r: int)
    requires DescsIn(st.tree, task.openfiles)
    modifies st
    ensures st.tree == old(st.tree) && st.fslist == old(st.fslist) && st.fsTail == old(st.fsTail)
    ensures match HandleToFd(task.openfiles, h)
            case None => r == -1 && st.calls == old(st.calls)
            case Some(fd) => r == status && st.calls == old(st.calls) + [VfsTypes.Read(fd.inode, fd.filePos, len)]
  {
    var fd := HandleToFd(task.openfiles, h);
    if fd.None? {
      return -1;
    }
    st.calls := st.calls + [VfsTypes.Read(fd.value.inode, fd.value.filePos, len)];
    return status;
  }

  /** vfs_write: fails on an invalid or read-only handle. Otherwise a write reaching past the
      end grows the size to its end and syncs first; the backend then writes at the
      descriptor's position, which does not move, and its status is returned. */
  method Write(st: VfsState, task: Task, h: int, len: nat, status: int) returns (r: int)
    requires st.Valid() && DescsIn(st.tree, task.openfiles)
    modifies st
    ensures st.Valid() && DescsIn(st.tree, task.openfiles)
    ensures st.fslist == old(st.fslist)
    ensures var fd := HandleToFd(task.openfiles, h);
            if fd.None? || fd.value.mode == ModeRead
            then r == -1 && st.tree == old(st.tree) && st.calls == old(st.calls)
            else
              var i := fd.value.inode;
              var pos := fd.value.filePos;
              var size := old(st.tree).inodes[i].size;
              && r == status
              && i in st.tree.inodes
              && var newSize := st.tree.inodes[i].size;
                 // the larger of the old size and the write's end
                 && newSize >= size && newSize >= pos + len && (newSize == size || newSize == pos + len)
                 && st.tree == old(st.tree).(inodes := old(st.tree).inodes[i := old(st.tree).inodes[i].(size := newSize)])
                 && st.calls == old(st.calls) + (if pos + len > size then [Sync(i)] else []) + [VfsTypes.Write(i, pos, len)]
  {
    var fd := HandleToFd(task.openfiles, h);
    if fd.None? || fd.value.mode == ModeRead {
      return -1;
    }
    var i := fd.value.inode;
    var pos := fd.value.filePos;
    if pos + len > st.tree.inodes[i].size {
      st.tree := st.tree.(inodes := st.tree.inodes[i := st.tree.inodes[i].(size := pos + len)]);
      st.calls := st.calls + [Sync(i)];
    }
    st.calls := st.calls + [VfsTypes.Write(i, pos, len)];
    return status;
  }

  /** The second half of vfs_link, once the old tnode's inode oi is known and the new tnode nt
      has been created: the new tnode, its own inode and the log entries of setlink, and the
      status. When the mount points differ the new tnode is unbound and stays in the tree;
      otherwise its inode is dropped (no references, released) and it is bound to oi, which
      gains one reference. */
  function LinkStep(t: Tree, nt: TNodeId, oi: InodeId): (r: (Tree, int, seq<BackendCall>))
    requires Closed(t) && InodeOf(t, nt).Some? && oi in t.inodes && t.tnodes[nt].inode != Some(oi)
    ensures r.1 == 0 || r.1 == -1
  {
    var ni := t.tnodes[nt].inode.value;
    if t.inodes[ni].mountpoint != t.inodes[oi].mountpoint then
      (SetLink(t, nt, None), -1, [VfsTypes.SetLink(nt, None)])
    else
      var t1 := AddRef(t, ni, -t.inodes[ni].refcount);
      var t2 := AddRef(t1, oi, 1);
      var t3 := SetLink(t2, nt, Some(oi));
      (t3.(freedInodes := t3.freedInodes + {ni}), 0, [VfsTypes.SetLink(nt, Some(oi))])
  }

  /** The link step keeps the tree closed. It fails exactly when the mount points differ,
      leaving the new tnode unbound; otherwise the new tnode is bound to oi, which gains
      exactly one reference, and the new tnode's own inode is released with no references. */
  lemma LinkStepProps(t: Tree, nt: TNodeId, oi: InodeId)
    requires Closed(t) && InodeOf(t, nt).Some? && oi in t.inodes && t.tnodes[nt].inode != Some(oi)
    ensures var r := LinkStep(t, nt, oi);
            var ni := t.tnodes[nt].inode.value;
            && Closed(r.0)
            && (r.1 == -1 <==> t.inodes[ni].mountpoint != t.inodes[oi].mountpoint)
            && (r.1 == -1 ==> r.0 == SetLink(t, nt, None) && r.2 == [VfsTypes.SetLink(nt, None)])
            && (r.1 != -1 ==>
                  && r.1 == 0
                  && nt in r.0.tnodes && ni in r.0.inodes && oi in r.0.inodes
                  && r.0.tnodes[nt].inode == Some(oi)
                  && r.0.inodes[oi].refcount == t.inodes[oi].refcount + 1
                  && r.0.inodes[ni].refcount == 0
                  && r.0.freedInodes == t.freedInodes + {ni}
                  && r.2 == [VfsTypes.SetLink(nt, Some(oi))])
  {
  }

  /** The link step on the state: the tree becomes LinkStep's and its setlink call is logged. */
  method LinkBind(st: VfsState, nt: TNodeId, oi: InodeId) returns (r: int)
    requires st.Valid() && InodeOf(st.tree, nt).Some? && oi in st.tree.inodes
    requires st.tree.tnodes[nt].inode != Some(oi)
    modifies st
    ensures st.Valid() && st.fslist == old(st.fslist)
    ensures st.tree == LinkStep(old(st.tree), nt, oi).0
    ensures r == LinkStep(old(st.tree), nt, oi).1
    ensures st.calls == old(st.calls) + LinkStep(old(st.tree), nt, oi).2
  {
    var t := st.tree;
    LinkStepProps(t, nt, oi);
    var l := LinkStep(t, nt, oi);
    st.tree := l.0;
    st.calls := st.calls + l.2;
    r := l.1;
  }

  /** vfs_link: the old path must exist and the new one must be created with the old node's
      type, `made` being the tnode the backend's mknode returns; then LinkStep decides. Every
      other case fails with no change. */
  method Link(st: VfsState, oldpath: string, newpath: string, made: MadeNode) returns (r: int)
    requires st.Valid()
    requires forall c :: c in made.inode.children ==> c in st.tree.tnodes
    requires Lands(st.tree, ResolveV1(st.tree, oldpath, NO_CREATE))
    requires ResolveV1(st.tree, oldpath, NO_CREATE).Return? ==> ResolveV1(st.tree, newpath, CREATE | ERR_ON_EXIST) != Crash
    modifies st
    ensures st.Valid()
    ensures st.fslist == old(st.fslist)
    ensures var t := old(st.tree);
            var o := ResolveV1(t, oldpath, NO_CREATE);
            var n := ResolveV1(t, newpath, CREATE | ERR_ON_EXIST);
            if o.Return? && n.CreateUnder? then
              var oi := t.tnodes[o.node].inode.value;
              var kind := t.inodes[oi].kind;
              var c := CreateV1(t, n.parent, made);
              var l := LinkStep(c.0, c.1, oi);
              && r == l.1
              && st.tree == l.0
              && st.calls == old(st.calls) + [Mknode(t.tnodes[n.parent].inode.value, n.name, kind)] + l.2
            else r == -1 && st.tree == t && st.calls == old(st.calls)
  {
    var oldNode := PathToNode(st, oldpath, NO_CREATE, File, NO_MKNODE);
    if oldNode.None? {
      return -1;
    }
    var oi := st.tree.tnodes[oldNode.value].inode.value;
    var newNode := PathToNode(st, newpath, CREATE | ERR_ON_EXIST, st.tree.inodes[oi].kind, made);
    if newNode.None? {
      return -1;
    }
    r := LinkBind(st, newNode.value, oi);
  }

  /** What vfs_unlink dereferences: the node must exist with an inode, and a node without
      children must have a parent folder. */
  predicate UnlinkSafe(t: Tree, path: string)
  {
    var o := ResolveV1(t, path, NO_CREATE);
    && Lands(t, o)
    && (o.Return? && InodeOf(t, o.node).value.children == [] ==> t.tnodes[o.node].parent.Some?)
  }

  /** The tree after vfs_unlink removes the tnode n: its inode loses a reference and is
      released when none is left, the backend unbinds the tnode, and the first occurrence of
      the tnode is taken out of its parent's child list, the tnode being released if found. */
  function Unlinked(t: Tree, n: TNodeId): (r: Tree)
    requires Closed(t) && InodeOf(t, n).Some? && t.tnodes[n].parent.Some?
    // kmfree only marks records released: no record is added or dropped
    ensures r.tnodes.Keys == t.tnodes.Keys && r.inodes.Keys == t.inodes.Keys
    ensures r.root == t.root && r.nextId == t.nextId
  {
    var i := t.tnodes[n].inode.value;
    var t1 := AddRef(t, i, -1);
    var t2 := SetLink(t1, n, None);
    var t3 := if t1.inodes[i].refcount == 0 then t2.(freedInodes := t2.freedInodes + {i}) else t2;
    var pi := t.tnodes[n].parent.value;
    var p := t3.inodes[pi];
    var t4 := SetChildren(t3, pi, RemoveFirst(p.children, n));
    if n in p.children then t4.(freedTnodes := t4.freedTnodes + {n}) else t4
  }

  /** Unlinking keeps the tree closed; the tnode loses its inode, the inode one reference (it
      is released exactly when that was the last), and the parent's list loses the tnode. */
  lemma UnlinkedProps(t: Tree, n: TNodeId)
    requires Closed(t) && InodeOf(t, n).Some? && t.tnodes[n].parent.Some?
    ensures var r := Unlinked(t, n);
            var i := t.tnodes[n].inode.value;
            var pi := t.tnodes[n].parent.value;
            && Closed(r)
            && n in r.tnodes && i in r.inodes && pi in t.inodes && pi in r.inodes
            && r.tnodes[n].inode == None
            && (i != pi ==> r.inodes[i].refcount == t.inodes[i].refcount - 1)
            && (i in r.freedInodes <==> i in t.freedInodes || t.inodes[i].refcount == 1)
            && r.inodes[pi].children == RemoveFirst(t.inodes[pi].children, n)
            && (n in r.freedTnodes <==> n in t.freedTnodes || n in t.inodes[pi].children)
  {
    var i := t.tnodes[n].inode.value;
    var t1 := AddRef(t, i, -1);
    ClosedAddRef(t, i, -1);
    var t2 := SetLink(t1, n, None);
    ClosedSetLink(t1, n, None);
    var t3 := if t1.inodes[i].refcount == 0 then t2.(freedInodes := t2.freedInodes + {i}) else t2;
    assert Closed(t3);
    var pi := t.tnodes[n].parent.value;
    var p := t3.inodes[pi];
    ClosedSetChildren(t3, pi, RemoveFirst(p.children, n));
  }

  /** The second half of vfs_unlink, for a childless tnode n with a parent. */
  method Detach(st: VfsState, n: TNodeId) returns ()
    requires st.Valid() && InodeOf(st.tree, n).Some? && st.tree.tnodes[n].parent.Some?
    modifies st
    ensures st.Valid() && st.fslist == old(st.fslist)
    ensures st.tree == Unlinked(old(st.tree), n)
    ensures st.calls == old(st.calls) + [VfsTypes.SetLink(n, None)]
  {
    UnlinkedProps(st.tree, n);
    var i := st.tree.tnodes[n].inode.value;
    st.tree := AddRef(st.tree, i, -1);
    var zero := st.tree.inodes[i].refcount == 0;
    st.tree := SetLink(st.tree, n, None);
    st.calls := st.calls + [VfsTypes.SetLink(n, None)];
    if zero {
      st.tree := st.tree.(freedInodes := st.tree.freedInodes + {i});
    }
    // the tnode leaves its parent's list
    var pi := st.tree.tnodes[n].parent.value;
    var kids, found := RemoveChild(st.tree.inodes[pi].children, n);
    st.tree := SetChildren(st.tree, pi, kids);
    if found {
      st.tree := st.tree.(freedTnodes := st.tree.freedTnodes + {n});
    }
  }

  /** vfs_unlink: fails when the path does not exist or the node has children. Otherwise the
      node is unlinked as Unlinked says and the backend's setlink status is returned. */
  method Unlink(st: VfsState, path: string, status: int) returns (r: int)
    requires st.Valid() && UnlinkSafe(st.tree, path)
    modifies st
    ensures st.Valid()
    ensures st.fslist == old(st.fslist)
    ensures var o := ResolveV1(old(st.tree), path, NO_CREATE);
            if o.Return? && InodeOf(old(st.tree), o.node).value.children == [] then
              && r == status
              && st.tree == Unlinked(old(st.tree), o.node)
              && st.calls == old(st.calls) + [VfsTypes.SetLink(o.node, None)]
            else r == -1 && st.tree == old(st.tree) && st.calls == old(st.calls)
  {
    var tn := PathToNode(st, path, NO_CREATE, File, NO_MKNODE);
    if tn.None? {
      return -1;
    }
    var n := tn.value;
    var i := st.tree.tnodes[n].inode.value;
    if st.tree.inodes[i].children != [] {
      return -1;
    }
    Detach(st, n);
    return status;
  }

  /** Opening an existing path and closing the handle restores the tree; the slot stays in
      the table, cleared, and a second close of the handle fails. */
  method OpenThenClose(st: VfsState, task: Task, path: string, mode: OpenMode) returns (h: int, second: int)
    requires st.Valid() && DescsIn(st.tree, task.openfiles)
    requires ResolveV1(st.tree, path, NO_CREATE).Return?
    requires InodeOf(st.tree, ResolveV1(st.tree, path, NO_CREATE).node).Some?
    modifies st, task
    ensures h == |old(task.openfiles)| && second == -1
    ensures st.tree == old(st.tree)
    ensures task.openfiles == old(task.openfiles) + [None]
  {
    ghost var t := st.tree;
    h := Open(st, task, path, mode);
    ghost var i := t.tnodes[ResolveV1(t, path, NO_CREATE).node].inode.value;
    var first := Close(st, task, h);
    AddRefUndo(t, i, 1);
    second := Close(st, task, h);
  }
}
