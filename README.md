# VFS tree engine and page-frame allocator

This is a Dafny model of two parts of a small x86-64 hobby kernel:

- **The virtual file system.**
  - A tree of *tnodes* (names) over *inodes* (files, folders, block devices, mount points).
  - A registry of file-system drivers.
  - The open-file table of the running task.
  - The operations `vfs_open`, `vfs_close`, `vfs_create`, `vfs_seek`, `vfs_chmod`,
    `vfs_mount`, `vfs_read`, `vfs_write`, `vfs_link` and `vfs_unlink`.
- **`path_to_node` in its two generations.**
  - `kernel/fs/vfs.c` keeps children in a sibling list. It stops at the first path token
    that does not match.
  - `kernel/fs/vfs/common.c` keeps children in a vector and appends new nodes to it. A token
    that does not match leaves the walk where it stands.
  - `common.c` also has the allocation helpers `vfs_alloc_tnode`, `vfs_alloc_inode` and
    `vfs_free_nodes`.
- **The physical memory manager** of `kernel/mm/pmm.c`.
  - It keeps one bit per 4 KiB page, and a set bit means the page is free.
  - The operations are `pmm_free`, `pmm_alloc` and `pmm_get`, the boot-time `pmm_init`, and
    `pmm_reclaim_bootloader_mem`.

## Layout

- `option.dfy` (module `Optional`): the `Option` type both halves use for NULL and for a
  missing entry.
- `pmm_bitmap.dfy` (module `PmmBitmap`)
  - The byte bitmap, seen as one boolean per page (`PageView`).
  - The range updates `MarkUsed` and `MarkFree`.
  - The free-page count `FreeCount`.
- `pmm_map.dfy` (module `PmmMap`)
  - The boot memory map and what `pmm_init` computes from it: `PhysLimitOf`, `TotalMemOf`,
    the bitmap size, its home entry (`FirstHome`), and the pages the two release passes free
    (`Released`).
  - The page view after boot (`BootView`).
- `pmm.dfy` (module `Pmm`)
  - The class `PhysMem`. Its fields are the bitmap as an `array<bv8>`, the statistics and the
    map.
  - Each C function is a method that updates the array in place.
  - `Valid()` keeps `free_mem` equal to `PAGE_SIZE` times the number of set bits.
- `vfs_types.dfy` (module `VfsTypes`): tnodes, inodes and the node arena `Tree`.
  - `kmalloc` is a fresh id and `kmfree` adds the id to a released set.
  - `Closed` says that every id the tree refers to has a record.
  - The global state `VfsState` holds the tree, the registry, its tail pointer and the log of
    calls into file-system backends.
  - `Task` holds the open-file table.
- `vfs_path.dfy` (module `VfsPath`): tokenisation and the walks of both generations.
  - `WalkV1` and `WalkV2` walk the path token by token.
  - `ResolveV1` and `ResolveV2` give the outcome of `path_to_node` on a tree.
  - The properties of both generations are proved here.
- `vfs_common.dfy` (module `VfsCommon`)
  - The allocation helpers.
  - The loops of the vector generation, as methods proved against `WalkV2` and `FirstMatch`.
  - `PathToNodeV2`.
- `vfs.dfy` (module `Vfs`)
  - The registry and the sibling-list insert and removal.
  - `PathToNode`, the generation `vfs.c` uses.
  - Every `vfs_*` operation, each as a method over `VfsState` and `Task`.

## How each concern is modelled

**Calls into backends.**
- A backend is foreign code reached through function pointers: `mknode`, `sync`, `read`,
  `write`, `mount` and `setlink`.
- Each call the VFS makes is appended to `VfsState.calls`, in order.
- Whatever the backend returns is a parameter of the operation:
  - the root inode of a mount;
  - the status of a read or a write;
  - the status of `setlink` in `vfs_unlink`.
- What `setlink` does to the tree is modelled as binding the tnode to the target inode.
- In `vfs.c`, what `mknode` returns is a parameter too (`MadeNode`): the name the backend gave
  the new tnode and the record of the inode it made for it.

**Undefined behaviour.**
- `path_to_node` can dereference a tnode whose inode pointer is NULL. Such a walk ends in
  `NullDeref` and resolves to `Crash`.
- Operations that dereference the node they get back require that no crash happens.
- `CrashIsNullDeref` shows that both generations crash only there: a walk that stops has just
  looked into its node's inode, so the `mknode` call and the final checks never meet a NULL.

**A swapped copy in `vfs_alloc_tnode`.**
- The arguments of `memcpy` in `vfs_alloc_tnode` are swapped.
- So the new tnode's name stays zeroed, and the caller's token buffer is zeroed instead.
- This is modelled as written:
  - `AllocTnode` names the tnode `""` and returns the emptied buffer;
  - nodes that `common.c` creates carry an empty name.

**The two generations disagree.**
- `GenerationsDiverge` shows two paths where they differ.
- For `"/x/a"`, where `x` is missing, `vfs.c` fails but `common.c` skips `x` and returns `/a`.
- `vfs.c` creates `"/a/b"` under the file `a`, but `common.c` refuses.

## Model

| member | source | states |
|---|---|---|
| PmmBitmap.PageView | kernel/mm/pmm.c:12-13 | the bitmap has eight page bits per byte; what each bit means is stated by the lemmas below |
| PmmBitmap.ShiftIsMask | kernel/mm/pmm.c:24 | `1 << k` on a byte is the mask with only bit k set |
| PmmBitmap.ClearPageBitView | kernel/mm/pmm.c:24 | clearing page p's bit in its byte makes exactly page p used in the page view |
| PmmBitmap.SetPageBitView | kernel/mm/pmm.c:47 | setting page p's bit in its byte makes exactly page p free in the page view |
| PmmBitmap.ByteOfAddress | kernel/mm/pmm.c:24 | the byte index `addr / (PAGE_SIZE*8)` and bit `(addr/PAGE_SIZE) % 8` are the page number divided into byte and bit |
| PmmBitmap.TestAddrBit | kernel/mm/pmm.c:33 | the bit test of bmp_isfree at an address is in bounds and is true exactly when that page is free in the view |
| PmmBitmap.SetAddrBit | kernel/mm/pmm.c:47 | the byte update of pmm_free at an address frees exactly that address's page |
| PmmBitmap.ClearAddrBit | kernel/mm/pmm.c:24 | the byte update of bmp_markused at an address marks exactly that address's page used |
| PmmBitmap.SameView | kernel/mm/pmm.c:12-13 | two bitmaps of the same length with the same page view are the same bytes |
| PmmBitmap.MarkUsed | kernel/mm/pmm.c:21-26 | marking a range used keeps the bitmap's length; which pages change is MarkUsedNext's and MarkUsedCount's |
| PmmBitmap.MarkFree | kernel/mm/pmm.c:41-49 | freeing a range keeps the bitmap's length; which pages change is MarkFreeNext's and MarkFreeCount's |
| PmmBitmap.AllFreeOne | kernel/mm/pmm.c:44 | bmp_isfree on one page is that page's bit |
| PmmBitmap.MarkUsedNext | kernel/mm/pmm.c:23-24 | each step of the bmp_markused loop clears the next page and leaves the earlier ones |
| PmmBitmap.MarkFreeNext | kernel/mm/pmm.c:43-47 | each step of the pmm_free loop sets the next page, whose state was not changed by earlier steps |
| PmmBitmap.FreeCountUpdate | kernel/mm/pmm.c:44-47 | changing one page moves the free-page count by one exactly when its state changes |
| PmmBitmap.MarkUsedCount | kernel/mm/pmm.c:21-26 | marking a range used removes exactly the free pages it held from the count |
| PmmBitmap.MarkFreeCount | kernel/mm/pmm.c:41-49 | freeing n pages adds exactly the n minus the already-free ones to the count, which is what free_mem accounts |
| PmmBitmap.FreeInAllFree | kernel/mm/pmm.c:28-38 | a range holds at most n free pages, and exactly n when bmp_isfree says it is all free |
| PmmBitmap.AllocFreeRoundTrip | kernel/mm/pmm.c:41-60 | freeing an all-free range after marking it used gives the view back, and the allocation removed exactly n free pages |
| PmmBitmap.FreeIdempotent | kernel/mm/pmm.c:41-49 | freeing a range twice is freeing it once, and afterwards every page of it is free |
| PmmBitmap.NoFreePage | kernel/mm/pmm.c:114 | a zeroed bitmap has no free page |
| PmmMap.PhysLimitOf | kernel/mm/pmm.c:85-94 | phys_limit after the statistics loop: 0 when no entry ends above 1 MiB, and otherwise above 1 MiB |
| PmmMap.TotalMemOf | kernel/mm/pmm.c:85-98 | total_mem after the statistics loop: 0 when no entry of a counted type ends above 1 MiB |
| PmmMap.PhysLimitIsMax | kernel/mm/pmm.c:85-98 | phys_limit is the largest end among entries above 1 MiB, and is one of them or 0 |
| PmmMap.TotalMemAppend | kernel/mm/pmm.c:95-97 | total_mem sums the lengths of the counted entry types over the map, piecewise |
| PmmMap.BitmapBytesFits | kernel/mm/pmm.c:101 | the corrected bitmap size has a bit for every page below phys_limit and no spare byte |
| PmmMap.BitmapTooSmallAsWritten | kernel/mm/pmm.c:101 | for one usable entry [0x100000, 0x101000) the size as written is 32 bytes while page 256 needs byte 32 |
| PmmMap.FirstHome | kernel/mm/pmm.c:102-112 | the bitmap's home is the first usable entry above 1 MiB at least bm_size long, and there is none when no entry qualifies |
| PmmMap.Released | kernel/mm/pmm.c:117-125 | a release pass keeps the page view's length; which pages it frees is ReleasedPages' |
| PmmMap.ReleasedPages | kernel/mm/pmm.c:117-125 | after a release pass a page is free exactly when it was free before or a selected entry covers it |
| PmmMap.EntryPagesFit | kernel/mm/pmm.c:124 | the pages pmm_free releases for an entry ending below phys_limit lie below NUM_PAGES(phys_limit) |
| PmmMap.NumPagesMonotone | kernel/mm/pmm.c:128 | NUM_PAGES grows with the byte count, so the bitmap's pages fit its home entry |
| PmmMap.MapBelowLimit | kernel/mm/pmm.c:85-112 | once the bitmap has a home, every entry of the map ends at or below phys_limit |
| PmmMap.BootView | kernel/mm/pmm.c:114-128 | the view pmm_init leaves has eight page bits per bitmap byte; which pages are free is BootViewPages' |
| PmmMap.HomeIsFree | kernel/mm/pmm.c:117-128 | the bitmap's own pages are free after the populate pass, so pmm_alloc of them at line 128 succeeds |
| PmmMap.BootViewPages | kernel/mm/pmm.c:80-131 | after pmm_init a page is free exactly when a usable entry above 1 MiB covers it and it is not one of the bitmap's own pages |
| Pmm.PageAfter | kernel/mm/pmm.c:23 | the loop address after k steps of PAGE_SIZE lies in page addr/PAGE_SIZE + k |
| Pmm.PhysMem.BmpMarkUsed | kernel/mm/pmm.c:21-26 | the new page view is the old one with the numpages pages from addr marked used |
| PmmBitmap.EmptyRange | kernel/mm/pmm.c:21-49 | a range of no pages, at any address, is free and in bounds for bmp_isfree, and bmp_markused and pmm_free leave every page as it was |
| PmmBitmap.ScanNext | kernel/mm/pmm.c:32-35 | while every page tested so far was free, the next page bmp_isfree tests lies in the bitmap |
| Pmm.PhysMem.BmpIsFree | kernel/mm/pmm.c:28-38 | true exactly when every one of the numpages pages from addr lies in the bitmap and is free, and nothing changes; only the pages before the first used one need to lie in the bitmap |
| Pmm.PhysMem.FreePage | kernel/mm/pmm.c:43-47 | one step of pmm_free: the page becomes free and free_mem stays PAGE_SIZE times the free-page count, so it grows by PAGE_SIZE exactly when the page was used |
| Pmm.PhysMem.BmpSetFree | kernel/mm/pmm.c:47 | setting the bit frees exactly that page |
| Pmm.PhysMem.Free | kernel/mm/pmm.c:41-49 | the range becomes free, free_mem grows by PAGE_SIZE per page that was used, and free_mem still counts the free pages |
| Pmm.PhysMem.Alloc | kernel/mm/pmm.c:52-60 | succeeds exactly when the whole range lies in the bitmap and is free; then the range is marked used and free_mem drops by numpages pages; otherwise nothing changes |
| Pmm.BelowLimitPage | kernel/mm/pmm.c:66 | a page-aligned address below phys_limit is one of its NUM_PAGES(phys_limit) pages |
| Pmm.GetScansInBoundsBooted | kernel/mm/pmm.c:62-78 | on a booted bitmap a one-page pmm_get never tests past the bitmap, and no pmm_get does once the bitmap's last page is used |
| Pmm.PhysMem.Get | kernel/mm/pmm.c:62-78 | returns the lowest page-aligned address below phys_limit whose range is free and allocates it; None, the kernel panic, only when no such address exists, and then nothing changes; any page count is accepted as long as no test reads past the bitmap |
| Pmm.PhysMem.MapStats | kernel/mm/pmm.c:85-98 | the statistics loop computes phys_limit and total_mem of the map |
| Pmm.PhysMem.FindBitmapHome | kernel/mm/pmm.c:102-112 | the home loop returns the base of the first qualifying entry |
| Pmm.PhysMem.PopulateBitmap | kernel/mm/pmm.c:117-125 | the populate pass frees exactly the pages of the usable entries above 1 MiB and keeps free_mem in step |
| Pmm.PhysMem.Init | kernel/mm/pmm.c:80-131 | pmm_init records the map, phys_limit and total_mem and leaves the boot view, with free_mem counting its free pages |
| Pmm.PhysMem.ReclaimBootloaderMem | kernel/mm/pmm.c:134-142 | frees exactly the pages of the bootloader-reclaimable entries and keeps free_mem in step |
| Pmm.PhysMem.AllocThenFree | kernel/mm/pmm.c:41-60 | pmm_alloc succeeds exactly when the range lies in the bitmap and is free, and pmm_alloc then pmm_free of the same range restores the bitmap bytes and free_mem |
| VfsTypes.InodeOf | kernel/fs/vfs.c:94 | a tnode's inode can be looked into exactly when the tnode exists and its inode pointer is non-NULL |
| VfsPath.TokenEnd | kernel/fs/vfs.c:84-88 | a token ends at a '/' or at the end of the path |
| VfsPath.TokenEndFirst | kernel/fs/vfs.c:84-88 | no '/' lies inside a token |
| VfsPath.TokensNoSlash | kernel/fs/vfs.c:81-90 | none of the tokens extracted from a path holds a '/' |
| VfsPath.TokensJoin | kernel/fs/vfs.c:81-90 | joining the tokens with '/' gives the path back, except for one trailing '/' |
| VfsPath.LastTokenReachesEnd | kernel/fs/vfs.c:90 | the index passes the path's length exactly when the last token is not followed by '/' |
| VfsPath.FirstMatch | kernel/fs/vfs.c:94-102 | a child found by the scan carries the token's name |
| VfsPath.FirstMatchFirst | kernel/fs/vfs/common.c:88-95 | no earlier child carries the name, and none at all when the scan finds none |
| VfsPath.ResolveV1 | kernel/fs/vfs.c:67-143 | relative paths fail; "/" gives the root or, under ERR_ON_EXIST, NULL; nothing is created without CREATE, and only under a node with an inode |
| VfsPath.ResolveV2 | kernel/fs/vfs/common.c:59-128 | the same four guarantees for the vector generation |
| VfsPath.DescendV1 | kernel/fs/vfs.c:81-110 | the walk matches at most as many tokens as the path has |
| VfsPath.WalkV1 | kernel/fs/vfs.c:81-110 | the token loop of vfs.c never moves its index back; it finds every token only once the index reaches the end, and a miss stops it at most one past the end |
| VfsPath.WalkV2 | kernel/fs/vfs/common.c:73-96 | the token loop of common.c never moves its index back, and ends with the last token found only at the end of the path |
| VfsPath.WalkV1Segments | kernel/fs/vfs.c:81-110 | the index loop of vfs.c finds every token exactly when all tokens match in turn; otherwise it stops on the first missing one, and its index is past the end exactly when that token is the last and has no '/' after it |
| VfsPath.CreateOnlyAtLastSegmentV1 | kernel/fs/vfs.c:112-142 | vfs.c creates only when CREATE is set, all tokens but the last matched and no '/' follows; `mknode` is called under the node reached with the last token; a full match returns the node or NULL under ERR_ON_EXIST, and a partial match never returns a node |
| VfsPath.LastTokenIsLast | kernel/fs/vfs/common.c:73-83 | the last token read is the last element of the token list |
| VfsPath.WalkV2LastToken | kernel/fs/vfs/common.c:73-96 | unless it stops at a non-traversable node, the vector walk ends holding the path's last token |
| VfsPath.WalkV2LastDecides | kernel/fs/vfs/common.c:84-96 | unless it stops at a non-traversable node, the vector walk has found a node exactly when the last token matched; a miss means no child has that name |
| VfsPath.CreateOnlyAtLastSegmentV2 | kernel/fs/vfs/common.c:99-119 | common.c creates only when CREATE is set, under a traversable node that has no child of that name, when the path does not end in '/', with its last token as the outcome's name (the swapped copy then leaves the node itself unnamed) |
| VfsPath.WalkV2Index | kernel/fs/vfs/common.c:82 | the vector walk's index passes the end only when the path does not end in '/' |
| VfsPath.TokenEndAt | kernel/fs/vfs/common.c:76-80 | the inner tokenising loop stops exactly at TokenEnd |
| VfsPath.FirstMatchAt | kernel/fs/vfs/common.c:88-95 | the child scan that stops at the first child with the name finds FirstMatch |
| VfsPath.GenerationsDiverge | kernel/fs/vfs/common.c:84-96 | "/x/a" fails in vfs.c but returns "/a" in common.c; "/a/b" with CREATE is created under the file "a" by vfs.c and refused by common.c |
| VfsPath.WalkV1MissHasInode | kernel/fs/vfs.c:81-110 | a vfs.c walk that stops at a token it did not find stops at a node with an inode |
| VfsPath.WalkV2MissHasInode | kernel/fs/vfs/common.c:59-128 | the same for the walk of common.c |
| VfsPath.CrashIsNullDeref | kernel/fs/vfs.c:81-127 | path_to_node, in either generation, crashes exactly when its walk looks into a tnode with a NULL inode; the create branch never does |
| VfsPath.WalkV1InTree | kernel/fs/vfs.c:94-102 | the sibling-list walk only stands on tnodes of the tree |
| VfsPath.WalkV2InTree | kernel/fs/vfs/common.c:88-95 | the vector walk only stands on tnodes of the tree |
| VfsCommon.NewTnode | kernel/fs/vfs/common.c:12 | a fresh id, not used before, holds the new record; nothing else changes and the tree stays closed |
| VfsCommon.AllocTnode | kernel/fs/vfs/common.c:10-18 | the new tnode is fresh with the given inode and parent and an empty name; the caller's name buffer comes back empty; the tree stays closed |
| VfsCommon.NewInode | kernel/fs/vfs/common.c:24 | a fresh id, not used before, holds the new inode record; nothing else changes and the tree stays closed when the record's children are tnodes of it |
| VfsCommon.AllocInode | kernel/fs/vfs/common.c:21-36 | the new inode is fresh with the given type, perms, owner, fs and mount point, size 0, no ident and refcount 1; the other inodes are unchanged |
| VfsCommon.FreeNodes | kernel/fs/vfs/common.c:39-45 | the tnode is released; its inode is released exactly when its refcount is at most 0; no record is changed |
| VfsCommon.HandleToFd | kernel/fs/vfs/common.c:48-56 | no descriptor exactly when the handle is negative, past the table, or its slot is cleared; otherwise the slot's descriptor |
| VfsCommon.CreateV2 | kernel/fs/vfs/common.c:106-114 | the new inode and a fresh tnode under the parent, appended at the end of its child vector; the tree stays closed |
| VfsCommon.CreateV2Frame | kernel/fs/vfs/common.c:106-114 | creating changes no existing tnode and no inode but the parent's |
| VfsCommon.NextToken | kernel/fs/vfs/common.c:74-82 | the token is the characters up to the next '/' or the end, and the index moves one past it |
| VfsCommon.ScanChildren | kernel/fs/vfs/common.c:88-95 | returns the index of the first child with the name |
| VfsCommon.TokenLoopV2 | kernel/fs/vfs/common.c:73-96 | the loop ends where WalkV2 says |
| VfsCommon.InsertV2 | kernel/fs/vfs/common.c:106-114 | the tree becomes CreateV2's, the registry is untouched, and the backend's mknode is told of the new tnode |
| VfsCommon.PathToNodeV2 | kernel/fs/vfs/common.c:59-128 | returns and changes exactly what ResolveV2 says: a created node, an existing one, or NULL with no change |
| Vfs.FsIndex | kernel/fs/vfs.c:26-34 | the position of the first file system with the name, and none when none has it |
| Vfs.GetFs | kernel/fs/vfs.c:26-34 | returns a registered file system with the name, the first from the head, and NULL exactly when none has it |
| Vfs.Registered | kernel/fs/vfs.c:145-155 | registering adds one file system; the first becomes the head and every later one goes right after the head, the rest of the list following in its old order |
| Vfs.RegisterFs | kernel/fs/vfs.c:145-155 | the registry becomes Registered's; the tail is set only for the first file system |
| Vfs.Reverse | kernel/fs/vfs.c:153-154 | reversal keeps the length; used to state the registration order in RegisterEachOrder |
| Vfs.RegisterEachOrder | kernel/fs/vfs.c:145-155 | after a sequence of registrations the first file system is the head and the others follow newest first |
| Vfs.RegisteredLookup | kernel/fs/vfs.c:26-34 | a new file system shadows all older ones of its name except the head |
| Vfs.AfterFirst | kernel/fs/vfs.c:119-126 | a new child becomes the only child or goes right after the first, and the list keeps every other child |
| Vfs.RemoveFirst | kernel/fs/vfs.c:403-413 | removing a child from the list drops one element when it is present and nothing otherwise |
| Vfs.RemoveFirstCount | kernel/fs/vfs.c:403-413 | exactly one occurrence of the tnode leaves the list |
| Vfs.RemoveFirstAt | kernel/fs/vfs.c:404-412 | the list loses exactly the first occurrence, and the rest keeps its order |
| Vfs.CreateThenRemove | kernel/fs/vfs.c:119-126 | inserting a new child and then unlinking it gives the child list back |
| Vfs.RemoveChild | kernel/fs/vfs.c:403-413 | the unlink loop removes the first occurrence and reports whether it found one |
| Vfs.CreateV1 | kernel/fs/vfs.c:113-127 | the tnode mknode returned is a new tnode under the parent, with the backend's name and inode record, and goes right after the parent's first child; the tree stays closed |
| Vfs.CreateV1Frame | kernel/fs/vfs.c:113-127 | creating changes no existing tnode and no inode but the parent's |
| Vfs.AddRef | kernel/fs/vfs.c:165 | only the inode's refcount moves |
| Vfs.AddRefUndo | kernel/fs/vfs.c:197 | taking a reference and dropping it restores the tree |
| Vfs.SetLink | kernel/fs/vfs.c:367 | setlink rebinds only that tnode's inode |
| Vfs.TokenLoopV1 | kernel/fs/vfs.c:81-110 | the loop ends where WalkV1 says |
| Vfs.InsertV1 | kernel/fs/vfs.c:113-127 | mknode is called with the parent's inode, the token and the type, and the tree becomes CreateV1's for the tnode it returned |
| Vfs.PathToNode | kernel/fs/vfs.c:67-143 | returns and changes exactly what ResolveV1 says: a created node, an existing one, or NULL with no change |
| Vfs.Open | kernel/fs/vfs.c:157-184 | an existing path gains a reference and a descriptor at position 0 is appended; the handle is its index; otherwise -1 and no change |
| Vfs.Close | kernel/fs/vfs.c:186-207 | a valid handle drops one reference and its slot is cleared; otherwise -1 and no change |
| Vfs.Create | kernel/fs/vfs.c:209-221 | returns 0 exactly when path_to_node creates the node, and then the tree is CreateV1's for the tnode mknode returned; otherwise -1 and no change |
| Vfs.Seek | kernel/fs/vfs.c:223-237 | fails on an invalid handle or a read-only one at or past the end; otherwise the position becomes pos |
| Vfs.Chmod | kernel/fs/vfs.c:239-255 | fails on an invalid or read-only handle; otherwise the inode's perms change and a sync follows |
| Vfs.Mounted | kernel/fs/vfs.c:287-293 | the target holds the backend's inode, with refcount 1 and the target as mount point, and its old inode is released |
| Vfs.Mount | kernel/fs/vfs.c:257-301 | returns 0 exactly when the fs is registered, the device is a block device if one is needed, and the target is an empty folder or has no inode; then the backend mounts and the tree is Mounted's |
| Vfs.Read | kernel/fs/vfs.c:304-317 | a valid handle reads at its position and returns the backend's status; the tree does not change |
| Vfs.Write | kernel/fs/vfs.c:319-342 | fails on an invalid or read-only handle; otherwise the size becomes the larger of the old size and the write's end, with a sync first when it grows, nothing else in the tree changes, and the backend's status is returned |
| Vfs.LinkStep | kernel/fs/vfs.c:355-373 | the link step returns 0 or -1; the rest of its meaning is LinkStepProps' |
| Vfs.LinkStepProps | kernel/fs/vfs.c:355-373 | fails exactly when the mount points differ, leaving the new tnode unbound; otherwise the new tnode is bound to the old inode, which gains one reference, and the new inode is released; the tree stays closed |
| Vfs.LinkBind | kernel/fs/vfs.c:355-373 | the tree and the log become LinkStep's |
| Vfs.Link | kernel/fs/vfs.c:344-377 | links only when the old path exists and the new one is created with its type; then LinkStep decides; otherwise -1 and no change |
| Vfs.Unlinked | kernel/fs/vfs.c:391-413 | the tree after vfs_unlink: no record is added or dropped (kmfree only releases), and the root is unchanged |
| Vfs.UnlinkedProps | kernel/fs/vfs.c:391-413 | unlinking keeps the tree closed; the tnode loses its inode; the inode loses one reference and is released exactly when it was the last; the parent's list loses the tnode |
| Vfs.Detach | kernel/fs/vfs.c:391-413 | the tree becomes Unlinked's and setlink(tnode, NULL) is logged |
| Vfs.Unlink | kernel/fs/vfs.c:379-420 | fails when the path does not exist or has children; otherwise the node is unlinked and the setlink status is returned |
| Vfs.OpenThenClose | kernel/fs/vfs.c:157-207 | open then close restores the tree and leaves a cleared slot; a second close of the handle fails |

## Left out

- Locking (`lock_wait` and `lock_release`) is left out. Each operation runs as one atomic step.
- Logging (`klog_*`), `vfs_debug`, `dumpnodes_rec` and `pmm_dumpstats` are left out. They only print.
- `vfs_init` is left out. It is one registration and one mount.
- `pmm_getstats` is left out. It only copies the statistics.
- The bodies of the file-system backends are not part of this model.
  - Their calls are logged.
  - Their results are parameters.
  - `setlink` is modelled as rebinding the tnode.
- `kmalloc` and `kmfree` are not modelled as memory.
  - A released record stays in the arena's maps, so a use after free is not detected.
  - `memset` of a fresh record is its zero value.
- `sched_get_current` is an explicit `Task` parameter.
- Names are compared by string equality. The `sizeof` bound of `strncmp` and the fixed size of name buffers are not modelled.
- Paths are strings without a NUL. The static `tmpbuff` of `VFS_MAX_PATH_LEN` characters is not bounded, so an overflow of it is not modelled.
- `PHYS_TO_VIRT` and `VIRT_TO_PHYS` are identities. The bitmap is an array of its own; the model does not place it in its home entry's memory.
- 64-bit overflow of addresses and of `free_mem`, and the 32-bit width of permissions, are not modelled. Integers are unbounded.
- Pmm.PhysMem.Get: the second loop of `pmm_get` (from 0 up to `lastusedpage`) is omitted.
  - Nothing assigns `lastusedpage`, so it stays 0 and that loop never runs.
  - The kernel panic is the result None.
  - The method requires that no test of `bmp_isfree` it makes reads past the bitmap, which is where `pmm_get` itself would read out of bounds: a test runs past the bitmap only when its run reaches beyond the bitmap's last page with no used page before the end. `GetScansInBoundsBooted` shows this always holds for one page, and for any count once the bitmap's last page is used.
- Pmm.PhysMem.BmpIsFree and Pmm.PhysMem.Alloc require the same of their one test.
- Pmm.PhysMem.Free and Pmm.PhysMem.BmpMarkUsed require a non-empty range to lie inside the bitmap. They write every page of it, so the C code writes out of bounds otherwise; a range of no pages is accepted at any address, as the C loops then do nothing.
- Pmm.PhysMem.Init requires a home entry for the bitmap to exist. Without one, the static `bitmap` pointer is still NULL and `pmm_init` would `memset` through it.
- Pmm.PhysMem.Init sizes and zeroes the bitmap with the rounded-up `BitmapBytes`, not the rounded-down size of `pmm.c` line 101; the row under "## Findings" gives the size as written and the page it leaves without a bit.
- Pmm.PhysMem.FindBitmapHome is given that same rounded-up size when `Init` calls it.
- Vfs.Open, Vfs.Create, Vfs.Mount, Vfs.Link and Vfs.Unlink require that path resolution does not dereference a tnode with a NULL inode, and that the node they use has an inode. `vfs.c` would crash there.
- Vfs.Unlink requires a target without children to have a parent. Unlinking the root while its inode has no children makes `vfs_unlink` dereference the root's NULL parent at `vfs.c` line 404. That happens after the reference count has dropped and `setlink` has been called, and the model does not capture that half-done state.
- Vfs.Mount requires the children of the backend's root inode to be tnodes of the tree.
- Vfs.Mount and Vfs.Mounted take the inode that the backend's `mount` returns as a new, non-NULL inode, placed under a fresh id. At `vfs.c` lines 291-293 the source writes the reference count and mount point through whatever pointer `mount` returns. So a backend that hands back an inode already in the tree, which other tnodes would then see changed in place, is not modelled. Neither is one that returns NULL, where `vfs_mount` would crash.
- Vfs.Mount takes the device path as a string, so a NULL `device` is not modelled. With a file system that needs a device, `vfs_mount` would pass NULL to `path_to_node`, which reads it; the model has no such input.
- Vfs.RegisterFs requires a file system that is not registered yet. Registering an already registered file system again makes the C list cyclic, which is not modelled.
- Vfs.CreateV1, Vfs.InsertV1, Vfs.PathToNode, Vfs.Create and Vfs.Link take the tnode that `mknode` returns as new, with its parent set to the parent's inode, and require the children of its inode record to be tnodes of the tree. A backend that hands back an existing tnode is not modelled.
- Vfs.LinkBind applies the link step to the tree as one value. The order of the in-place updates (refcount, setlink, `kmfree`) is not visible.
- Files outside the VFS and the page allocator are not part of this model. That includes the kernel entry point, the exception handlers and the ACPI tables.

## Findings

| source | as written | input that shows it | evidently intended | confidence | as-written member | corrected member |
|---|---|---|---|---|---|---|
| kernel/mm/pmm.c:101 | `bm_size = phys_limit / (PAGE_SIZE * 8)` rounds down, so the pages in the last partial byte have no bit | one usable entry [0x100000, 0x101000): phys_limit 0x101000 gives a 32-byte bitmap, but the populate pass frees page 256, whose bit is in byte 32 | round up, so that every page below phys_limit has a bit (33 bytes here) | not executed | PmmMap.BitmapTooSmallAsWritten | PmmMap.BitmapBytesFits |
