/**
  The data of the kernel's virtual file system (kernel/fs/vfs.c and kernel/fs/vfs/common.c).

  A tnode is a name in the tree; it points at an inode and at the inode of the folder that
  holds it. An inode carries the node's type, permissions, size and reference count and the
  ordered list of its child tnodes. The nodes live in an arena: two maps from ids to records.
  kmalloc is a fresh id and kmfree adds the id to a freed set; the record itself stays, so a
  stale id never makes a lookup undefined.
*/
module VfsTypes {
  import opened Optional

  type TNodeId = nat
  type InodeId = nat

  /** The node types the VFS code tests for. */
  datatype NodeType = File | Folder | BlockDevice | MountPoint

  /** IS_TRAVERSABLE: folders and mount points have children that paths may walk into. */
  predicate Traversable(k: NodeType)
  {
    k == Folder || k == MountPoint
  }

  /** A registered file system: the identity of its record, its name and whether it needs
      no backing device. */
  datatype FsInfo = FsInfo(id: nat, name: string, istemp: bool)

  datatype Inode = Inode(
    kind: NodeType,
    perms: int,
    uid: int,
    size: nat,
    refcount: int,
    fs: FsInfo,
    ident: Option<nat>,
    mountpoint: Option<TNodeId>,
    children: seq<TNodeId>)

  /** A tnode: its name, its inode (None is a NULL pointer) and the inode of its parent folder. */
  datatype TNode = TNode(name: string, inode: Option<InodeId>, parent: Option<InodeId>)

  /** The node arena: the records, the static root tnode, the next fresh id and the ids
      that kmfree has released. */
  datatype Tree = Tree(
    tnodes: map<TNodeId, TNode>,
    inodes: map<InodeId, Inode>,
    root: TNodeId,
    nextId: nat,
    freedTnodes: set<TNodeId>,
    freedInodes: set<InodeId>)

  /** Every id the tree refers to has a record, and every id in use is below nextId. */
  predicate Closed(t: Tree)
  {
    && t.root in t.tnodes
    && (forall n :: n in t.tnodes ==> n < t.nextId)
    && (forall i :: i in t.inodes ==> i < t.nextId)
    && (forall n :: n in t.tnodes && t.tnodes[n].inode.Some? ==> t.tnodes[n].inode.value in t.inodes)
    && (forall n :: n in t.tnodes && t.tnodes[n].parent.Some? ==> t.tnodes[n].parent.value in t.inodes)
    && (forall i, c :: i in t.inodes && c in t.inodes[i].children ==> c in t.tnodes)
  }

  /** The inode record of tnode n, when n has a non-NULL inode. */
  function InodeOf(t: Tree, n: TNodeId): (r: Option<Inode>)
    ensures r.Some? <==> n in t.tnodes && t.tnodes[n].inode.Some? && t.tnodes[n].inode.value in t.inodes
  {
    if n in t.tnodes && t.tnodes[n].inode.Some? && t.tnodes[n].inode.value in t.inodes
    then Some(t.inodes[t.tnodes[n].inode.value])
    else None
  }

  /** Open modes of a node descriptor; only the read-only mode is tested by the VFS. */
  datatype OpenMode = ModeRead | ModeWrite | ModeReadWrite

  /** An open file: its tnode and inode, the file position and the mode it was opened in. */
  datatype NodeDesc = NodeDesc(tnode: TNodeId, inode: InodeId, filePos: nat, mode: OpenMode)

  /** What a backend's mknode returns: a new tnode under the parent's inode, with the name the
      backend gave it and the record of the new inode the backend made for it. */
  datatype MadeNode = MadeNode(name: string, inode: Inode)

  /** The mknode result passed to a path_to_node that runs without CREATE and so never
      calls mknode. */
  const NO_MKNODE := MadeNode("", Inode(File, 0, 0, 0, 0, FsInfo(0, "", true), None, None, []))

  /** The calls the VFS makes into file-system backends, in the order it makes them. */
  datatype BackendCall =
    | Mknode(parent: InodeId, name: string, kind: NodeType)
    | MknodeNotify(tnode: TNodeId)
    | Sync(inode: InodeId)
    | Read(inode: InodeId, pos: nat, len: nat)
    | Write(inode: InodeId, pos: nat, len: nat)
    | Mount(fs: FsInfo, device: Option<InodeId>)
    | SetLink(tnode: TNodeId, target: Option<InodeId>)

  /** path_to_node modes. */
  const NO_CREATE: bv8 := 1
  const CREATE: bv8 := 2
  const ERR_ON_EXIST: bv8 := 4

  /** The global state of the VFS: the node tree, the registered file systems (head first)
      with the tail pointer, and the log of backend calls. */
  class VfsState {
    var tree: Tree
    var fslist: seq<FsInfo>
    var fsTail: Option<FsInfo>
    var calls: seq<BackendCall>

    /** The tree is closed; the registered file systems are distinct records, and the tail
        pointer, which registration sets only for the first file system, names the head. */
    ghost predicate Valid()
      reads this
    {
      && Closed(tree)
      && (forall j, k :: 0 <= j < k < |fslist| ==> fslist[j].id != fslist[k].id)
      && (fslist == [] <==> fsTail == None)
      && (fslist != [] ==> fsTail == Some(fslist[0]))
    }
  }

  /** The running task: its table of open files, in which a closed slot is None. */
  class Task {
    var openfiles: seq<Option<NodeDesc>>
  }
}
