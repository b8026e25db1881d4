/**
  Path resolution as both generations of path_to_node perform it: kernel/fs/vfs.c (the
  sibling-list version) and kernel/fs/vfs/common.c (the vector version).

  After the leading '/', both cut the rest of the path into tokens at each '/': a token runs
  from the current index to the next '/' or the end, and the index then moves one past that
  end. So "a//b" has the tokens "a", "" and "b", a trailing '/' adds no token, and the index
  ends one past the path's length exactly when the last token was not followed by a '/'.
  Each function below follows the loop of one generation token by token.
*/
module VfsPath {
  import opened Optional
  import opened VfsTypes

  /** The end of the token that starts at index i: the next '/' at or after i, or the end. */
  function TokenEnd(s: string, i: nat): (e: nat)
    requires i <= |s|
    ensures i <= e <= |s|
    ensures e == |s| || s[e] == '/'
    decreases |s| - i
  {
    if i == |s| || s[i] == '/' then i else TokenEnd(s, i + 1)
  }

  /** A token holds no '/': TokenEnd is the first '/' at or after i. */
  lemma {:induction false} TokenEndFirst(s: string, i: nat)
    requires i <= |s|
    ensures forall j :: i <= j < TokenEnd(s, i) ==> s[j] != '/'
    decreases |s| - i
  {
    if i < |s| && s[i] != '/' {
      TokenEndFirst(s, i + 1);
    }
  }

  /** The tokens of s from index i on, in the order the loop extracts them. */
  function Tokens(s: string, i: nat): seq<string>
    decreases |s| - i
  {
    if i >= |s| then [] else [s[i..TokenEnd(s, i)]] + Tokens(s, TokenEnd(s, i) + 1)
  }

  /** The tokens joined with '/' between them. */
  function Join(ts: seq<string>): string
    decreases |ts|
  {
    if |ts| == 0 then "" else if |ts| == 1 then ts[0] else ts[0] + "/" + Join(ts[1..])
  }

  /** No token holds a '/'. */
  lemma {:induction false} TokensNoSlash(s: string, i: nat)
    requires i <= |s|
    ensures forall k :: 0 <= k < |Tokens(s, i)| ==> '/' !in Tokens(s, i)[k]
    decreases |s| - i
  {
    if i < |s| {
      var e := TokenEnd(s, i);
      var tok := s[i..e];
      TokenEndFirst(s, i);
      assert '/' !in tok by {
        forall k | 0 <= k < |tok| ensures tok[k] != '/' {
          assert tok[k] == s[i + k];
        }
      }
      if e < |s| {
        TokensNoSlash(s, e + 1);
      }
      forall k | 1 <= k < |Tokens(s, i)| ensures Tokens(s, i)[k] == Tokens(s, e + 1)[k - 1] { }
    }
  }

  /** Joining a token in front of a non-empty list puts one '/' between them. */
  lemma JoinCons(tok: string, rest: seq<string>)
    requires |rest| > 0
    ensures Join([tok] + rest) == tok + "/" + Join(rest)
  {
    assert ([tok] + rest)[1..] == rest;
  }

  /** Cutting s[i..] at the '/' at index e. */
  lemma SplitAtSlash(s: string, i: nat, e: nat)
    requires i <= e < |s| && s[e] == '/'
    ensures s[i..] == s[i..e] + "/" + s[e + 1..]
  {
    assert s[i..] == s[i..e] + s[e..e + 1] + s[e + 1..];
  }

  /** Joining the tokens gives the path back, less one trailing '/'. */
  lemma {:induction false} TokensJoin(s: string, i: nat)
    requires i < |s|
    ensures s[|s| - 1] == '/' ==> Join(Tokens(s, i)) + "/" == s[i..]
    ensures s[|s| - 1] != '/' ==> Join(Tokens(s, i)) == s[i..]
    decreases |s| - i
  {
    var e := TokenEnd(s, i);
    if e + 1 >= |s| {
      TokensJoinLast(s, i);
    } else {
      var tok := s[i..e];
      var rest := Tokens(s, e + 1);
      TokensJoin(s, e + 1);
      JoinCons(tok, rest);
      SplitAtSlash(s, i, e);
      if s[|s| - 1] == '/' {
        JoinStep(tok, Join(rest), s[e + 1..], s[i..]);
      }
    }
  }

  /** TokensJoin when the token at i is the last one. */
  lemma TokensJoinLast(s: string, i: nat)
    requires i < |s| && TokenEnd(s, i) + 1 >= |s|
    ensures s[|s| - 1] == '/' ==> Join(Tokens(s, i)) + "/" == s[i..]
    ensures s[|s| - 1] != '/' ==> Join(Tokens(s, i)) == s[i..]
  {
    var e := TokenEnd(s, i);
    assert |Tokens(s, i)| == 1 && Join(Tokens(s, i)) == s[i..e];
    if e == |s| {
      TokenEndFirst(s, i);
      assert s[i..e] == s[i..];
    } else {
      SplitAtSlash(s, i, e);
    }
  }

  /** One token more on both sides of TokensJoin's equation, with a trailing '/'. */
  lemma JoinStep(tok: string, joined: string, rest: string, whole: string)
    requires joined + "/" == rest && whole == tok + "/" + rest
    ensures tok + "/" + joined + "/" == whole
  {
    assert (tok + "/" + joined) + "/" == (tok + "/") + (joined + "/");
  }

  /** The token at index i is the last one and no '/' follows it exactly when it runs to the
      end of the path: this is the test `curr_index > pathlen` of both generations. */
  lemma LastTokenReachesEnd(s: string, i: nat)
    requires i < |s|
    ensures TokenEnd(s, i) == |s| <==> |Tokens(s, i)| == 1 && s[|s| - 1] != '/'
  {
    var e := TokenEnd(s, i);
    TokenEndFirst(s, i);
    if e < |s| && e + 1 == |s| {
      assert s[|s| - 1] == '/';
    }
  }

  /** The tnode n exists and carries the name. */
  predicate Named(t: Tree, n: TNodeId, name: string)
  {
    n in t.tnodes && t.tnodes[n].name == name
  }

  /** The child scan of both generations: the lowest index whose tnode has the name. */
  function FirstMatch(t: Tree, kids: seq<TNodeId>, name: string): (r: Option<nat>)
    ensures r.Some? ==> r.value < |kids| && Named(t, kids[r.value], name)
    decreases |kids|
  {
    if |kids| == 0 then None
    else if Named(t, kids[0], name) then Some(0)
    else match FirstMatch(t, kids[1..], name)
      case None => None
      case Some(j) => Some(j + 1)
  }

  /** No child before the one FirstMatch picks has the name, and none at all when it picks
      none. */
  lemma {:induction false} FirstMatchFirst(t: Tree, kids: seq<TNodeId>, name: string)
    ensures var r := FirstMatch(t, kids, name);
            && (r.Some? ==> forall j :: 0 <= j < r.value ==> !Named(t, kids[j], name))
            && (r.None? ==> forall j :: 0 <= j < |kids| ==> !Named(t, kids[j], name))
    decreases |kids|
  {
    if |kids| > 0 && !Named(t, kids[0], name) {
      FirstMatchFirst(t, kids[1..], name);
      forall j | 1 <= j < |kids| ensures kids[j] == kids[1..][j - 1] { }
    }
  }

  /** Where a walk ends: the current node, whether the last step found its token, the index
      and the last token; NullDeref when a node without an inode had to be looked into. */
  datatype Walk =
    | Reached(node: TNodeId, found: bool, index: nat, token: string)
    | NullDeref

  /** The token loop of vfs.c's path_to_node from index idx at node curr: it descends while
      the current node is traversable and has a child with the token's name, and stops at
      the first token that does not match. */
  function WalkV1(t: Tree, s: string, idx: nat, curr: TNodeId): (w: Walk)
    ensures w.Reached? ==> idx <= w.index
    ensures w.Reached? && w.found ==> |s| <= w.index && w.token == ""
    ensures w.Reached? && !w.found ==> w.index <= |s| + 1
    decreases |s| - idx
  {
    if idx >= |s| then Reached(curr, true, idx, "")
    else
      var e := TokenEnd(s, idx);
      var tok := s[idx..e];
      match InodeOf(t, curr)
      case None => NullDeref
      case Some(ino) =>
        if !Traversable(ino.kind) then Reached(curr, false, e + 1, tok)
        else match FirstMatch(t, ino.children, tok)
          case None => Reached(curr, false, e + 1, tok)
          case Some(j) => WalkV1(t, s, e + 1, ino.children[j])
  }

  /** The token loop of common.c's path_to_node: a token that does not match leaves the
      current node as it is and the loop goes on with the next token; a node that is not
      traversable stops it. */
  function WalkV2(t: Tree, s: string, idx: nat, curr: TNodeId, found: bool, token: string): (w: Walk)
    ensures w.Reached? ==> idx <= w.index
    ensures w.Reached? && w.found ==> |s| <= w.index
    decreases |s| - idx
  {
    if idx >= |s| then Reached(curr, found, idx, token)
    else
      var e := TokenEnd(s, idx);
      var tok := s[idx..e];
      match InodeOf(t, curr)
      case None => NullDeref
      case Some(ino) =>
        if !Traversable(ino.kind) then Reached(curr, false, e + 1, tok)
        else match FirstMatch(t, ino.children, tok)
          case None => WalkV2(t, s, e + 1, curr, false, tok)
          case Some(j) => WalkV2(t, s, e + 1, ino.children[j], true, tok)
  }

  /** What path_to_node does: return NULL, return an existing node, or create a node with the
      name under a parent; Crash when the source would dereference a NULL inode. */
  datatype Outcome = Fail | Return(node: TNodeId) | CreateUnder(parent: TNodeId, name: string) | Crash

  predicate Absolute(path: string)
  {
    |path| > 0 && path[0] == '/'
  }

  /** The outcome of vfs.c's path_to_node. */
  function ResolveV1(t: Tree, path: string, mode: bv8): (o: Outcome)
    ensures !Absolute(path) ==> o == Fail
    ensures path == "/" ==> o == (if mode & ERR_ON_EXIST != 0 then Fail else Return(t.root))
    ensures mode & CREATE == 0 ==> !o.CreateUnder?
    ensures o.CreateUnder? ==> InodeOf(t, o.parent).Some?
  {
    if !Absolute(path) then Fail
    else
      var s := path[1..];
      match WalkV1(t, s, 0, t.root)
      case NullDeref => Crash
      case Reached(n, found, idx, tok) =>
        if !found then
          if mode & CREATE != 0 && idx > |s| then
            // mknode is reached through the node's inode
            if InodeOf(t, n).None? then Crash else CreateUnder(n, tok)
          else Fail
        else if mode & ERR_ON_EXIST != 0 then Fail
        else Return(n)
  }

  /** The outcome of common.c's path_to_node. */
  function ResolveV2(t: Tree, path: string, mode: bv8): (o: Outcome)
    ensures !Absolute(path) ==> o == Fail
    ensures path == "/" ==> o == (if mode & ERR_ON_EXIST != 0 then Fail else Return(t.root))
    ensures mode & CREATE == 0 ==> !o.CreateUnder?
    ensures o.CreateUnder? ==> InodeOf(t, o.parent).Some?
  {
    if !Absolute(path) then Fail
    else
      var s := path[1..];
      match WalkV2(t, s, 0, t.root, true, "")
      case NullDeref => Crash
      case Reached(n, found, idx, tok) =>
        if !found then
          match InodeOf(t, n)
          case None => Crash
          case Some(ino) =>
            if !Traversable(ino.kind) then Fail
            else if mode & CREATE != 0 && idx > |s| then CreateUnder(n, tok)
            else Fail
        else if mode & ERR_ON_EXIST != 0 then Fail
        else Return(n)
  }

  /** A walk of vfs.c that stops at a token it did not find stops at a node whose inode it
      has just looked into. */
  lemma {:induction false} WalkV1MissHasInode(t: Tree, s: string, idx: nat, curr: TNodeId)
    ensures var w := WalkV1(t, s, idx, curr);
            w.Reached? && !w.found ==> InodeOf(t, w.node).Some?
    decreases |s| - idx
  {
    if idx < |s| {
      var e := TokenEnd(s, idx);
      match InodeOf(t, curr)
      case None =>
      case Some(ino) =>
        if Traversable(ino.kind) {
          match FirstMatch(t, ino.children, s[idx..e])
          case None =>
          case Some(j) => WalkV1MissHasInode(t, s, e + 1, ino.children[j]);
        }
    }
  }

  /** The same for common.c's walk, which may go on past a token it did not find but only
      from a node whose inode it has looked into. */
  lemma {:induction false} WalkV2MissHasInode(t: Tree, s: string, idx: nat, curr: TNodeId, found: bool, token: string)
    requires found || InodeOf(t, curr).Some?
    ensures var w := WalkV2(t, s, idx, curr, found, token);
            w.Reached? && !w.found ==> InodeOf(t, w.node).Some?
    decreases |s| - idx
  {
    if idx < |s| {
      var e := TokenEnd(s, idx);
      var tok := s[idx..e];
      match InodeOf(t, curr)
      case None =>
      case Some(ino) =>
        if Traversable(ino.kind) {
          match FirstMatch(t, ino.children, tok)
          case None => WalkV2MissHasInode(t, s, e + 1, curr, false, tok);
          case Some(j) => WalkV2MissHasInode(t, s, e + 1, ino.children[j], true, tok);
        }
    }
  }

  /** Both generations crash only where the walk looks into a tnode whose inode is NULL: once
      a walk stops, the inode that mknode or the final checks reach through is never NULL. */
  lemma CrashIsNullDeref(t: Tree, path: string, mode: bv8)
    ensures ResolveV1(t, path, mode) == Crash <==> Absolute(path) && WalkV1(t, path[1..], 0, t.root) == NullDeref
    ensures ResolveV2(t, path, mode) == Crash <==> Absolute(path) && WalkV2(t, path[1..], 0, t.root, true, "") == NullDeref
  {
    if Absolute(path) {
      WalkV1MissHasInode(t, path[1..], 0, t.root);
      WalkV2MissHasInode(t, path[1..], 0, t.root, true, "");
    }
  }

  /** Segment by segment, as vfs.c walks: the node reached and how many leading tokens matched. */
  datatype Descent = Descent(node: TNodeId, matched: nat) | Deref

  function DescendV1(t: Tree, n: TNodeId, toks: seq<string>): (d: Descent)
    ensures d.Descent? ==> d.matched <= |toks|
    decreases |toks|
  {
    if |toks| == 0 then Descent(n, 0)
    else match InodeOf(t, n)
      case None => Deref
      case Some(ino) =>
        if !Traversable(ino.kind) then Descent(n, 0)
        else match FirstMatch(t, ino.children, toks[0])
          case None => Descent(n, 0)
          case Some(j) =>
            match DescendV1(t, ino.children[j], toks[1..])
            case Deref => Deref
            case Descent(m, k) => Descent(m, k + 1)
  }

  /** The index loop of vfs.c follows the segments: it finds every token exactly when all of
      them match, and otherwise stops on the first missing one, with `curr_index > pathlen`
      exactly when that token is the last and no '/' follows it. */
  lemma {:induction false} WalkV1Segments(t: Tree, s: string, idx: nat, n: TNodeId)
    ensures var w := WalkV1(t, s, idx, n);
            var toks := Tokens(s, idx);
            var d := DescendV1(t, n, toks);
            && (w.NullDeref? <==> d.Deref?)
            && (w.Reached? ==>
                  && w.node == d.node
                  && (w.found <==> d.matched == |toks|)
                  && (!w.found ==> w.token == toks[d.matched]
                                   && (w.index > |s| <==> d.matched == |toks| - 1 && s[|s| - 1] != '/')))
    decreases |s| - idx
  {
    if idx < |s| {
      var e := TokenEnd(s, idx);
      var tok := s[idx..e];
      var toks := Tokens(s, idx);
      var rest := Tokens(s, e + 1);
      assert |toks| == |rest| + 1 && toks[0] == tok;
      var w := WalkV1(t, s, idx, n);
      match InodeOf(t, n)
      case None =>
        assert w == NullDeref && DescendV1(t, n, toks) == Deref;
      case Some(ino) =>
        if !Traversable(ino.kind) || FirstMatch(t, ino.children, tok).None? {
          assert w == Reached(n, false, e + 1, tok) && DescendV1(t, n, toks) == Descent(n, 0);
          LastTokenReachesEnd(s, idx);
        } else {
          var c := ino.children[FirstMatch(t, ino.children, tok).value];
          assert toks[1..] == rest;
          assert w == WalkV1(t, s, e + 1, c);
          WalkV1Segments(t, s, e + 1, c);
          var d := DescendV1(t, c, rest);
          assert DescendV1(t, n, toks) == if d.Deref? then Deref else Descent(d.node, d.matched + 1);
          if w.Reached? && !w.found && d.matched < |rest| - 1 {
            LastTokenReachesEnd(s, e + 1);
          }
        }
    }
  }

  /** vfs.c creates a node only when every token but the last matched, the last did not, no
      '/' follows it and CREATE is set; the node is created under the node the matched tokens
      lead to, with the last token as its name. When every token matches, the node reached is
      returned, or NULL under ERR_ON_EXIST. */
  lemma CreateOnlyAtLastSegmentV1(t: Tree, path: string, mode: bv8)
    requires Absolute(path) && ResolveV1(t, path, mode) != Crash
    ensures var s := path[1..];
            var toks := Tokens(s, 0);
            var d := DescendV1(t, t.root, toks);
            && d.Descent?
            && (ResolveV1(t, path, mode).CreateUnder? <==>
                  mode & CREATE != 0 && |toks| > 0 && d.matched == |toks| - 1 && s[|s| - 1] != '/')
            && (ResolveV1(t, path, mode).CreateUnder? ==>
                  ResolveV1(t, path, mode) == CreateUnder(d.node, toks[|toks| - 1]))
            && (d.matched == |toks| ==>
                  ResolveV1(t, path, mode) == (if mode & ERR_ON_EXIST != 0 then Fail else Return(d.node)))
            && (d.matched < |toks| ==> !ResolveV1(t, path, mode).Return?)
  {
    WalkV1Segments(t, path[1..], 0, t.root);
  }

  /** The last token of s from index i on (i < |s|): the one after which no other starts. */
  function LastToken(s: string, i: nat): string
    requires i < |s|
    decreases |s| - i
  {
    var e := TokenEnd(s, i);
    if e + 1 >= |s| then s[i..e] else LastToken(s, e + 1)
  }

  /** LastToken is the last element of Tokens. */
  lemma {:induction false} LastTokenIsLast(s: string, i: nat)
    requires i < |s|
    ensures var toks := Tokens(s, i);
            |toks| > 0 && toks[|toks| - 1] == LastToken(s, i)
    decreases |s| - i
  {
    var e := TokenEnd(s, i);
    var rest := Tokens(s, e + 1);
    assert |Tokens(s, i)| == |rest| + 1;
    if e + 1 < |s| {
      LastTokenIsLast(s, e + 1);
      assert Tokens(s, i)[|rest|] == rest[|rest| - 1];
    } else {
      assert |rest| == 0;
    }
  }

  /** In common.c a token that matches nowhere is skipped: the walk goes on from the same node.
      Whenever the walk does not stop at a node that is not traversable, its last token is the
      path's last token. */
  lemma {:induction false} WalkV2LastToken(t: Tree, s: string, idx: nat, curr: TNodeId, found: bool, token: string)
    requires idx < |s|
    ensures var w := WalkV2(t, s, idx, curr, found, token);
            w.Reached? && InodeOf(t, w.node).Some? && Traversable(InodeOf(t, w.node).value.kind) ==>
              w.token == LastToken(s, idx)
    decreases |s| - idx
  {
    var e := TokenEnd(s, idx);
    var tok := s[idx..e];
    match InodeOf(t, curr)
    case None =>
    case Some(ino) =>
      if Traversable(ino.kind) && e + 1 < |s| {
        match FirstMatch(t, ino.children, tok)
        case None => WalkV2LastToken(t, s, e + 1, curr, false, tok);
        case Some(j) => WalkV2LastToken(t, s, e + 1, ino.children[j], true, tok);
      }
  }

  /** Whenever the walk of common.c does not stop at a node that is not traversable, it has
      found a node exactly when its last token matched a child of the node the walk stood at,
      which is then the node it returns. */
  lemma {:induction false} WalkV2LastDecides(t: Tree, s: string, idx: nat, curr: TNodeId, found: bool, token: string)
    requires idx < |s|
    ensures var w := WalkV2(t, s, idx, curr, found, token);
            w.Reached? && InodeOf(t, w.node).Some? && Traversable(InodeOf(t, w.node).value.kind) ==>
              && (w.found ==> Named(t, w.node, w.token))
              && (!w.found ==> FirstMatch(t, InodeOf(t, w.node).value.children, w.token).None?)
    decreases |s| - idx
  {
    var e := TokenEnd(s, idx);
    var tok := s[idx..e];
    match InodeOf(t, curr)
    case None =>
    case Some(ino) =>
      if Traversable(ino.kind) && e + 1 < |s| {
        match FirstMatch(t, ino.children, tok)
        case None => WalkV2LastDecides(t, s, e + 1, curr, false, tok);
        case Some(j) => WalkV2LastDecides(t, s, e + 1, ino.children[j], true, tok);
      }
  }

  /** common.c never creates a node under one that is not traversable, and never when the
      path ends in '/'; what it creates is named after the path's last token. */
  lemma CreateOnlyAtLastSegmentV2(t: Tree, path: string, mode: bv8)
    requires Absolute(path)
    ensures var o := ResolveV2(t, path, mode);
            var s := path[1..];
            o.CreateUnder? ==>
              && mode & CREATE != 0
              && InodeOf(t, o.parent).Some? && Traversable(InodeOf(t, o.parent).value.kind)
              && |s| > 0 && s[|s| - 1] != '/'
              && o.name == Tokens(s, 0)[|Tokens(s, 0)| - 1]
              && FirstMatch(t, InodeOf(t, o.parent).value.children, o.name).None?
  {
    var s := path[1..];
    if |s| > 0 {
      WalkV2LastToken(t, s, 0, t.root, true, "");
      LastTokenIsLast(s, 0);
      WalkV2LastDecides(t, s, 0, t.root, true, "");
      var w := WalkV2(t, s, 0, t.root, true, "");
      if w.Reached? && !w.found && w.index > |s| {
        WalkV2Index(t, s, 0, t.root, true, "");
      }
    }
  }

  /** The index a walk of common.c ends on: it passes the end of the path only when the last
      token it read ran to the end. */
  lemma {:induction false} WalkV2Index(t: Tree, s: string, idx: nat, curr: TNodeId, found: bool, token: string)
    requires idx < |s|
    ensures var w := WalkV2(t, s, idx, curr, found, token);
            w.Reached? && w.index > |s| ==> s[|s| - 1] != '/'
    decreases |s| - idx
  {
    var e := TokenEnd(s, idx);
    if e + 1 < |s| {
      var tok := s[idx..e];
      match InodeOf(t, curr)
      case None =>
      case Some(ino) =>
        if Traversable(ino.kind) {
          match FirstMatch(t, ino.children, tok)
          case None => WalkV2Index(t, s, e + 1, curr, false, tok);
          case Some(j) => WalkV2Index(t, s, e + 1, ino.children[j], true, tok);
        }
    } else if e == |s| {
      TokenEndFirst(s, idx);
    }
  }

  /** The inner loop of both tokenisers stops at the first '/' or at the end: that is TokenEnd. */
  lemma {:induction false} TokenEndAt(s: string, i: nat, k: nat)
    requires i <= k <= |s|
    requires k == |s| || s[k] == '/'
    requires forall j :: i <= j < k ==> s[j] != '/'
    ensures TokenEnd(s, i) == k
    decreases k - i
  {
    if i < k {
      TokenEndAt(s, i + 1, k);
    }
  }

  /** The child scans of both generations stop at the first child with the name: FirstMatch. */
  lemma {:induction false} FirstMatchAt(t: Tree, kids: seq<TNodeId>, name: string, k: nat)
    requires k < |kids| && Named(t, kids[k], name)
    requires forall j :: 0 <= j < k ==> !Named(t, kids[j], name)
    ensures FirstMatch(t, kids, name) == Some(k)
    decreases k
  {
    if k > 0 {
      FirstMatchAt(t, kids[1..], name, k - 1);
    }
  }

  /** A node the resolution returns can be looked into: it has an inode. Callers that
      dereference the returned node's inode need this. */
  predicate Lands(t: Tree, o: Outcome)
  {
    o != Crash && (o.Return? ==> InodeOf(t, o.node).Some?)
  }

  /** A root folder holding one file "a". */
  function RootWithFile(): (t: Tree)
    ensures Closed(t)
  {
    var fs := FsInfo(0, "ramfs", true);
    Tree(
      map[0 := TNode("", Some(0), None), 1 := TNode("a", Some(1), Some(0))],
      map[0 := Inode(Folder, 511, 0, 0, 1, fs, None, Some(0), [1]),
          1 := Inode(File, 511, 0, 0, 1, fs, None, Some(0), [])],
      0, 2, {}, {})
  }

  /** The two generations disagree. With a missing middle segment, vfs.c reports "/x/a" as
      missing while common.c skips "x" and returns the file "a". With CREATE, vfs.c creates
      "/a/b" under the file "a", which common.c refuses. */
  lemma GenerationsDiverge()
    ensures ResolveV1(RootWithFile(), "/x/a", NO_CREATE) == Fail
    ensures ResolveV2(RootWithFile(), "/x/a", NO_CREATE) == Return(1)
    ensures ResolveV1(RootWithFile(), "/a/b", CREATE) == CreateUnder(1, "b")
    ensures ResolveV2(RootWithFile(), "/a/b", CREATE) == Fail
  {
    var t := RootWithFile();
    var p := "/x/a";
    assert p[1..] == "x/a";
    assert TokenEnd("x/a", 0) == 1;
    assert "x/a"[0..1] == "x";
    assert FirstMatch(t, [1], "x") == None by {
      assert !Named(t, 1, "x");
    }
    assert TokenEnd("x/a", 2) == 3;
    assert "x/a"[2..3] == "a";
    FirstMatchAt(t, [1], "a", 0);
    var q := "/a/b";
    assert q[1..] == "a/b";
    assert TokenEnd("a/b", 0) == 1;
    assert "a/b"[0..1] == "a";
    assert TokenEnd("a/b", 2) == 3;
    assert "a/b"[2..3] == "b";
  }

  /** Both walks only ever stand on the start node or on a child they found by name, so the
      node they reach is a tnode of the tree. */
  lemma {:induction false} WalkV1InTree(t: Tree, s: string, idx: nat, n: TNodeId)
    requires n in t.tnodes
    ensures WalkV1(t, s, idx, n).Reached? ==> WalkV1(t, s, idx, n).node in t.tnodes
    decreases |s| - idx
  {
    if idx < |s| {
      var e := TokenEnd(s, idx);
      match InodeOf(t, n)
      case None =>
      case Some(ino) =>
        if Traversable(ino.kind) {
          match FirstMatch(t, ino.children, s[idx..e])
          case None =>
          case Some(j) => WalkV1InTree(t, s, e + 1, ino.children[j]);
        }
    }
  }

  lemma {:induction false} WalkV2InTree(t: Tree, s: string, idx: nat, n: TNodeId, found: bool, token: string)
    requires n in t.tnodes
    ensures WalkV2(t, s, idx, n, found, token).Reached? ==> WalkV2(t, s, idx, n, found, token).node in t.tnodes
    decreases |s| - idx
  {
    if idx < |s| {
      var e := TokenEnd(s, idx);
      var tok := s[idx..e];
      match InodeOf(t, n)
      case None =>
      case Some(ino) =>
        if Traversable(ino.kind) {
          match FirstMatch(t, ino.children, tok)
          case None => WalkV2InTree(t, s, e + 1, n, false, tok);
          case Some(j) => WalkV2InTree(t, s, e + 1, ino.children[j], true, tok);
        }
    }
  }
}
