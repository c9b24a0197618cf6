/**
 The name operations of kernel/fs/vfs.c on a mutable vnode table.
 */
module Vfs {
  import opened VfsPath
  import opened VfsTree

  datatype Status = Fine | NoEntry | Exists | NotDir | IsDir | NoSpace | NotEmpty | Bad

  datatype Call =
    | DoOpen(path: string, flags: Flags, memory: bool)
    | DoClose(n: nat)
    | DoMkdir(path: string, memory: bool)
    | DoUnlink(path: string, directory: bool)
    | DoRename(from: string, to: string, memory: bool)

  function Because(f: Found): Status {
    match f
    case NotFound => NoEntry
    case NotDirectory => NotDir
    case Invalid => Bad
    case Ok(_) => Fine
  }

  /** The open flags that matter to the tree. */
  datatype Flags = Flags(create: bool, exclusive: bool, directory: bool, write: bool)

  // ----- Which status each operation answers

  function OpenStatus(nodes: Nodes, path: string, flags: Flags, memory: bool): Status {
    var found, p := Walk(nodes, path), LookupParent(nodes, path);
    if found == NotFound && flags.create then
      if p.Missing? then Because(p.why)
      else if !memory then NoSpace
      else if flags.directory then NotDir
      else Fine
    else if !found.Ok? then Because(found)
    else if flags.create && flags.exclusive then Exists
    else if flags.directory && !IsDirectory(nodes, found.node) then NotDir
    else if flags.write && IsDirectory(nodes, found.node) then IsDir
    else Fine
  }

  predicate IsDirectory(nodes: Nodes, n: nat) {
    n in nodes && nodes[n].kind == Dir
  }

  predicate IsEmpty(nodes: Nodes, n: nat) {
    n in nodes && nodes[n].children == []
  }

  function ChildOf(nodes: Nodes, dir: nat, name: string): nat {
    if dir in nodes then ChildNamed(nodes, nodes[dir].children, name) else 0
  }

  function MkdirStatus(nodes: Nodes, path: string, memory: bool): Status {
    var p := LookupParent(nodes, path);
    if p.Missing? then Because(p.why)
    else if ChildOf(nodes, p.dir, p.name) != 0 then Exists
    else if !memory then NoSpace
    else Fine
  }

  function UnlinkStatus(nodes: Nodes, path: string, directory: bool): Status {
    var p := LookupParent(nodes, path);
    if p.Missing? then Because(p.why) else
    var n := ChildOf(nodes, p.dir, p.name);
    if n == 0 then NoEntry
    else if directory && !IsDirectory(nodes, n) then NotDir
    else if !directory && IsDirectory(nodes, n) then IsDir
    else if !IsEmpty(nodes, n) then NotEmpty
    else Fine
  }

  ghost function RenameStatus(nodes: Nodes, from: string, to: string, memory: bool): Status {
    var f, p := LookupParent(nodes, from), LookupParent(nodes, to);
    if f.Missing? then Because(f.why) else
    var n := ChildOf(nodes, f.dir, f.name);
    if n == 0 then NoEntry
    else if p.Missing? then Because(p.why)
    else if Above(nodes, n, p.dir) then Bad
    else
      var target := ChildOf(nodes, p.dir, p.name);
      if target == n then Fine
      else if target != 0 && IsDirectory(nodes, n) && !IsDirectory(nodes, target) then NotDir
      else if target != 0 && !IsDirectory(nodes, n) && IsDirectory(nodes, target) then IsDir
      else if target != 0 && !IsEmpty(nodes, target) then NotEmpty
      else if !memory then NoSpace
      else Fine
  }

  function Bump(nodes: Nodes, n: nat): Nodes
    requires n in nodes
  {
    nodes[n := nodes[n].(refs := nodes[n].refs + 1)]
  }

  lemma BumpTree(nodes: Nodes, n: nat, refs: nat)
    requires Tree(nodes) && n in nodes && (refs > 0 || nodes[n].linked)
    ensures Tree(nodes[n := nodes[n].(refs := refs)])
  {
    var r := nodes[n := nodes[n].(refs := refs)];
    forall x | x in r ensures Placed(r, x) && UniqueNames(r, x) {
      assert Placed(nodes, x) && UniqueNames(nodes, x);
    }
    forall x | x in r && r[x].linked ensures Rooted(r, x) {
      assert Rooted(nodes, x);
      var k: nat :| Up(nodes, x, k) == ROOT;
      UpFrame(nodes, r, x, k);
    }
  }

  /** Dropping a node that is not in the tree. */
  lemma ReleaseTree(nodes: Nodes, n: nat)
    requires Tree(nodes) && n in nodes && !nodes[n].linked
    ensures Tree(nodes - {n})
  {
    var r := nodes - {n};
    assert Placed(nodes, n);
    forall x | x in r ensures Placed(r, x) && UniqueNames(r, x) {
      assert Placed(nodes, x) && UniqueNames(nodes, x);
      forall c | c in nodes[x].children ensures c != n {
        assert Placed(nodes, c);
      }
      if nodes[x].parent != 0 { assert Placed(nodes, nodes[x].parent); }
    }
    forall x | x in r && r[x].linked ensures Rooted(r, x) {
      ReleaseRooted(nodes, n, x);
    }
  }

  lemma ReleaseRooted(nodes: Nodes, n: nat, x: nat)
    requires Tree(nodes) && n in nodes && !nodes[n].linked && x in nodes && nodes[x].linked
    ensures Rooted(nodes - {n}, x)
  {
    assert Rooted(nodes, x) && Placed(nodes, n);
    var k: nat :| Up(nodes, x, k) == ROOT;
    forall j: nat | j <= k ensures Up(nodes, x, j) != n {
      ChildlessAvoided(nodes, x, j, n);
    }
    UpAvoids(nodes, nodes - {n}, x, k, n);
  }

  class Vfs {
    var nodes: Nodes
    var nextIno: nat

    ghost predicate Valid()
      reads this
    {
      Tree(nodes) && nextIno > ROOT && forall n :: n in nodes ==> n < nextIno
    }

    constructor ()
      ensures Valid() && nodes == map[ROOT := VNode(0, [], "", true, 0, Dir)] && nextIno == 2
    {
      nodes := map[ROOT := VNode(0, [], "", true, 0, Dir)];
      nextIno := 2;
      new;
      assert Up(nodes, ROOT, 0) == ROOT;
    }

    // ----- Lookups

    method FindChild(dir: nat, name: string) returns (c: nat)
      requires dir in nodes && 0 !in nodes && forall k :: k in nodes[dir].children ==> k in nodes
      ensures c == ChildNamed(nodes, nodes[dir].children, name)
    {
      var kids := nodes[dir].children;
      var i := 0;
      assert kids[0..] == kids;
      while i < |kids|
        invariant 0 <= i <= |kids|
        invariant ChildNamed(nodes, kids[i..], name) == ChildNamed(nodes, kids, name)
      {
        if nodes[kids[i]].name == name {
          return kids[i];
        }
        assert kids[i..][1..] == kids[i + 1..];
        i := i + 1;
      }
      c := 0;
    }

    /** `walk` over the characters of `path`. */
    method DoWalk(path: string) returns (r: Found)
      requires Valid()
      ensures r == Walk(nodes, path)
      ensures r.Ok? ==> r.node in nodes && nodes[r.node].linked
    {
      if path == [] || path[0] != '/' {
        return Invalid;
      }
      ResolveLinked(nodes, ROOT, Components(path));
      var node := ROOT;
      var i := 0;
      assert path[0..] == path;
      while i < |path|
        invariant 0 <= i <= |path| && node in nodes && nodes[node].linked
        invariant Resolve(nodes, node, Components(path[i..])) == Walk(nodes, path)
        decreases |path| - i
      {
        while i < |path| && path[i] == '/'
          invariant 0 <= i <= |path|
          invariant Resolve(nodes, node, Components(path[i..])) == Walk(nodes, path)
        {
          assert path[i..][1..] == path[i + 1..];
          i := i + 1;
        }
        var start := i;
        while i < |path| && path[i] != '/'
          invariant start <= i <= |path| && forall j :: start <= j < i ==> path[j] != '/'
        {
          i := i + 1;
        }
        if i == start {
          break;
        }
        var name := path[start..i];
        NextComponent(path, start, i);
        NodePlaced(nodes, node);
        if nodes[node].kind != Dir {
          return NotDirectory;
        }
        if DotName(name) {
          if |name| == 2 && nodes[node].parent != 0 {
            ParentLinked(nodes, node);
            node := nodes[node].parent;
          }
          continue;
        }
        var child := FindChild(node, name);
        if child == 0 {
          return NotFound;
        }
        assert nodes[child].linked by { NodePlaced(nodes, child); }
        node := child;
      }
      assert path[i..] == [];
      return Ok(node);
    }

    method DoLookupParent(path: string) returns (r: FoundParent)
      requires Valid()
      ensures r == LookupParent(nodes, path)
      ensures r.Parent? ==> Agreement(nodes, path, r.dir, r.name) && nodes[r.dir].linked
    {
      LookupAgrees(nodes, path);
      if path == [] || path[0] != '/' {
        return Missing(Invalid);
      }
      var end := |path|;
      while end > 0 && path[end - 1] == '/'
        invariant 0 <= end <= |path| && TrimEnd(path, end) == TrimEnd(path, |path|)
      {
        end := end - 1;
      }
      var start := end;
      while start > 0 && path[start - 1] != '/'
        invariant 0 <= start <= end && NameStart(path, start) == NameStart(path, end)
      {
        start := start - 1;
      }
      var name := path[start..end];
      if start == end || DotName(name) {
        return Missing(Invalid);
      }
      if |name| >= NAME_MAX {
        return Missing(Invalid);
      }
      var walked := DoWalk(path[..start]);
      if !walked.Ok? {
        return Missing(walked);
      }
      if nodes[walked.node].kind != Dir {
        return Missing(NotDirectory);
      }
      return Parent(walked.node, name);
    }

    // ----- Operations

    /** Opens or creates; an open node gains one reference. */
    method Open(path: string, flags: Flags, memory: bool) returns (s: Status, n: nat)
      requires Valid()
      modifies this
      ensures Valid()
      ensures var p := LookupParent(old(nodes), path);
              var created := Walk(old(nodes), path) == NotFound && flags.create && p.Parent? && memory;
              && (created ==> p.dir in old(nodes) && old(nextIno) !in old(nodes) && nextIno == old(nextIno) + 1)
              && (var tree := if created then Create(old(nodes), p.dir, old(nextIno), p.name, Reg) else old(nodes);
                  if s == Fine then
                    n in tree && Walk(tree, path) == Ok(n) && nodes == tree[n := tree[n].(refs := tree[n].refs + 1)]
                  else nodes == tree)
      ensures s == OpenStatus(old(nodes), path, flags, memory)
    {
      hide Tree, Walk, LookupParent;
      n := 0;
      var found := DoWalk(path);
      if found == NotFound && flags.create {
        var p := DoLookupParent(path);
        if p.Missing? {
          return Because(p.why), 0;
        }
        if !memory {
          return NoSpace, 0;
        }
        CreateKeeps(nodes, p.dir, nextIno, p.name, Reg);
        CreateVisible(nodes, path, nextIno, Reg);
        n := nextIno;
        nodes := Create(nodes, p.dir, n, p.name, Reg);
        nextIno := nextIno + 1;
      } else if !found.Ok? {
        return Because(found), 0;
      } else if flags.create && flags.exclusive {
        return Exists, 0;
      } else {
        n := found.node;
      }
      if flags.directory && nodes[n].kind != Dir {
        return NotDir, n;
      }
      if flags.write && nodes[n].kind == Dir {
        return IsDir, n;
      }
      BumpTree(nodes, n, nodes[n].refs + 1);
      nodes := Bump(nodes, n);
      s := Fine;
    }

    /** The last close of an unlinked node releases it. */
    method Close(n: nat)
      requires Valid() && n in nodes && nodes[n].refs > 0
      modifies this`nodes
      ensures Valid()
      ensures nodes == if !old(nodes)[n].linked && old(nodes)[n].refs == 1 then old(nodes) - {n}
                       else old(nodes)[n := old(nodes)[n].(refs := old(nodes)[n].refs - 1)]
    {
      hide Tree;
      var v := nodes[n];
      if !v.linked && v.refs - 1 == 0 {
        ReleaseTree(nodes, n);
        nodes := nodes - {n};
      } else {
        BumpTree(nodes, n, v.refs - 1);
        nodes := nodes[n := v.(refs := v.refs - 1)];
      }
    }

    method Mkdir(path: string, memory: bool) returns (s: Status)
      requires Valid()
      modifies this
      ensures Valid()
      ensures s == Fine ==> var p := LookupParent(old(nodes), path);
                            && p.Parent? && p.dir in old(nodes) && old(nextIno) !in old(nodes)
                            && nodes == Create(old(nodes), p.dir, old(nextIno), p.name, Dir)
                            && Walk(old(nodes), path) == NotFound && Walk(nodes, path) == Ok(old(nextIno))
      ensures s != Fine ==> nodes == old(nodes)
      ensures s == MkdirStatus(old(nodes), path, memory)
    {
      hide Tree, Walk, LookupParent, ChildNamed;
      var p := DoLookupParent(path);
      if p.Missing? {
        return Because(p.why);
      }
      NodePlaced(nodes, p.dir);
      var child := FindChild(p.dir, p.name);
      if child != 0 {
        return Exists;
      }
      if !memory {
        return NoSpace;
      }
      CreateKeeps(nodes, p.dir, nextIno, p.name, Dir);
      CreateVisible(nodes, path, nextIno, Dir);
      nodes := Create(nodes, p.dir, nextIno, p.name, Dir);
      nextIno := nextIno + 1;
      return Fine;
    }

    method Unlink(path: string, directory: bool) returns (s: Status)
      requires Valid()
      modifies this`nodes
      ensures Valid()
      ensures s != Fine ==> nodes == old(nodes)
      ensures s == UnlinkStatus(old(nodes), path, directory)
      ensures s == Fine ==>
                var found := Walk(old(nodes), path);
                && found.Ok? && found.node in old(nodes)
                && old(nodes)[found.node].parent in old(nodes) && old(nodes)[found.node].parent != found.node
                && nodes == Remove(old(nodes), found.node)
    {
      hide Tree, Walk, LookupParent, ChildNamed;
      var p := DoLookupParent(path);
      if p.Missing? {
        return Because(p.why);
      }
      NodePlaced(nodes, p.dir);
      var n := FindChild(p.dir, p.name);
      if n == 0 {
        return NoEntry;
      }
      ChildFacts(nodes, p.dir, p.name);
      if directory && nodes[n].kind != Dir {
        return NotDir;
      }
      if !directory && nodes[n].kind == Dir {
        return IsDir;
      }
      if nodes[n].children != [] {
        return NotEmpty;
      }
      RemoveKeeps(nodes, n);
      nodes := Remove(nodes, n);
      return Fine;
    }

    /** Is `n` the directory itself or one of its ancestors? */
    method IsAbove(n: nat, dir: nat) returns (above: bool)
      requires Valid() && dir in nodes && nodes[dir].linked && n in nodes
      ensures above <==> Above(nodes, n, dir)
    {
      var a := dir;
      ghost var j := 0;
      assert Rooted(nodes, dir);
      ghost var k: nat :| Up(nodes, dir, k) == ROOT;
      while a != 0
        invariant a == Up(nodes, dir, j) && (a != 0 ==> a in nodes && j <= k) && (a == 0 ==> j == k + 1)
        invariant forall i: nat :: i < j ==> Up(nodes, dir, i) != n
        decreases if a == 0 then 0 else 1, k - j
      {
        if a == n {
          return true;
        }
        UpStep(nodes, dir, j, k, a);
        a := nodes[a].parent;
        j := j + 1;
      }
      forall i: nat ensures Up(nodes, dir, i) != n {
        if i > k { PastRoot(nodes, dir, k, i); }
      }
      return false;
    }

    /** Moves a node, with everything below it, over at most one empty target. */
    method Rename(from: string, to: string, memory: bool) returns (s: Status)
      requires Valid()
      modifies this`nodes
      ensures Valid()
      ensures s != Fine ==> nodes == old(nodes)
      ensures s == RenameStatus(old(nodes), from, to, memory)
      ensures s == Fine ==>
                var source, p := Walk(old(nodes), from), LookupParent(old(nodes), to);
                && source.Ok? && p.Parent? && p.dir in old(nodes) && source.node in old(nodes)
                && !Above(old(nodes), source.node, p.dir)
                && RenameEffect(old(nodes), nodes, source.node, p.dir, p.name)
    {
      hide Tree, Walk, LookupParent, ChildNamed, Above, RenameEffect;
      var f := DoLookupParent(from);
      if f.Missing? {
        return Because(f.why);
      }
      NodePlaced(nodes, f.dir);
      var n := FindChild(f.dir, f.name);
      if n == 0 {
        return NoEntry;
      }
      ChildFacts(nodes, f.dir, f.name);
      var p := DoLookupParent(to);
      if p.Missing? {
        return Because(p.why);
      }
      var above := IsAbove(n, p.dir);
      if above {
        return Bad;
      }
      NodePlaced(nodes, p.dir);
      var target := FindChild(p.dir, p.name);
      if target == n {
        NoRename(nodes, n, p.dir, p.name);
        return Fine;
      }
      if target != 0 {
        ChildFacts(nodes, p.dir, p.name);
        if nodes[n].kind == Dir && nodes[target].kind != Dir {
          return NotDir;
        }
        if nodes[n].kind != Dir && nodes[target].kind == Dir {
          return IsDir;
        }
        if nodes[target].children != [] {
          return NotEmpty;
        }
      }
      if !memory {
        return NoSpace;
      }
      MoveOver(n, p.dir, p.name, target);
      return Fine;
    }

    /** The second half of a rename: drop the empty target, move the node. */
    method MoveOver(n: nat, dir: nat, name: string, target: nat)
      requires Valid() && n in nodes && n != ROOT && nodes[n].linked
      requires dir in nodes && nodes[dir].linked && nodes[dir].kind == Dir && !Above(nodes, n, dir)
      requires Plain(name) && !DotName(name) && target == ChildNamed(nodes, nodes[dir].children, name) && target != n
      requires target != 0 ==> target in nodes && nodes[target].children == []
      modifies this`nodes
      ensures Valid() && RenameEffect(old(nodes), nodes, n, dir, name)
    {
      hide Tree, ChildNamed, Above;
      if target != 0 {
        ReplaceTarget(nodes, n, dir, name);
        nodes := Remove(nodes, target);
      }
      MoveKeeps(nodes, n, dir, name);
      assert n != 0 by { NodePlaced(nodes, n); }
      MoveShows(nodes, n, dir, name);
      nodes := Move(nodes, n, dir, name);
    }

    /** Every sequence of calls keeps the tree. */
    method RunAll(calls: seq<Call>)
      requires Valid()
      modifies this
      ensures Valid()
    {
      var i := 0;
      while i < |calls|
        invariant 0 <= i <= |calls| && Valid()
      {
        match calls[i] {
          case DoOpen(path, flags, memory) =>
            var _, _ := Open(path, flags, memory);
          case DoClose(n) =>
            if n in nodes && nodes[n].refs > 0 {
              Close(n);
            }
          case DoMkdir(path, memory) =>
            var _ := Mkdir(path, memory);
          case DoUnlink(path, directory) =>
            var _ := Unlink(path, directory);
          case DoRename(from, to, memory) =>
            var _ := Rename(from, to, memory);
        }
        i := i + 1;
      }
    }
  }

  /** Nothing when the name is already `n`'s; otherwise the old holder of the name goes and `n` moves there. */
  ghost predicate RenameEffect(before: Nodes, after: Nodes, n: nat, dir: nat, name: string)
    requires dir in before
  {
    var target := ChildNamed(before, before[dir].children, name);
    if target == n then after == before
    else
      && (target != 0 ==> target in before && before[target].children == [] && before[target].parent in before
                          && before[target].parent != target)
      && var mid := if target == 0 then before else Remove(before, target);
         && n in mid && dir in mid && mid[n].parent in mid && mid[n].parent != n && dir != n
         && after == Move(mid, n, dir, name)
         && ChildNamed(after, after[dir].children, name) == n
  }

  lemma NoRename(nodes: Nodes, n: nat, dir: nat, name: string)
    requires dir in nodes && ChildNamed(nodes, nodes[dir].children, name) == n
    ensures RenameEffect(nodes, nodes, n, dir, name)
  {
  }

  /** Removing the empty target leaves the node and the directory where they were. */
  lemma ReplaceTarget(nodes: Nodes, n: nat, dir: nat, name: string)
    requires Tree(nodes) && dir in nodes && nodes[dir].linked && n in nodes && n != ROOT && nodes[n].linked
    requires var target := ChildNamed(nodes, nodes[dir].children, name);
             target != 0 && target != n && target in nodes && nodes[target].children == []
    requires !Above(nodes, n, dir)
    ensures var target := ChildNamed(nodes, nodes[dir].children, name);
            && target != ROOT && nodes[target].linked && nodes[target].parent == dir && target != dir
            && var r := Remove(nodes, target);
               && Tree(r) && dir in r && r[dir].linked && r[dir].kind == nodes[dir].kind && n in r && r[n].linked
               && !Above(r, n, dir) && ChildNamed(r, r[dir].children, name) == 0
  {
    ChildFacts(nodes, dir, name);
    var target := ChildNamed(nodes, nodes[dir].children, name);
    RemoveKeeps(nodes, target);
    RemoveHides(nodes, target);
    var r := Remove(nodes, target);
    forall j: nat ensures Up(r, dir, j) != n {
      assert Rooted(nodes, dir);
      var k: nat :| Up(nodes, dir, k) == ROOT;
      StillNotAbove(nodes, r, dir, k, j, target, n);
    }
  }

  lemma {:induction false} StillNotAbove(nodes: Nodes, r: Nodes, dir: nat, k: nat, j: nat, target: nat, n: nat)
    requires Tree(nodes) && Tree(r) && dir in nodes && n in nodes && Up(nodes, dir, k) == ROOT && !Above(nodes, n, dir)
    requires target in nodes && nodes[target].children == [] && dir != target
    requires forall y :: y in nodes && y != target ==> y in r && r[y].parent == nodes[y].parent
    ensures Up(r, dir, j) != n
  {
    if j <= k {
      forall i: nat | i <= j ensures Up(nodes, dir, i) != target { ChildlessAvoided(nodes, dir, i, target); }
      UpInside(nodes, dir, j, k);
      UpAvoids(nodes, r, dir, j, target);
    } else {
      forall i: nat | i <= k ensures Up(nodes, dir, i) != target { ChildlessAvoided(nodes, dir, i, target); }
      UpAvoids(nodes, r, dir, k, target);
      PastRoot(r, dir, k, j);
    }
  }

  /** Below the root every step of a path to it is a node. */
  lemma {:induction false} UpInside(nodes: Nodes, x: nat, j: nat, k: nat)
    requires Tree(nodes) && j <= k && Up(nodes, x, k) == ROOT
    ensures Up(nodes, x, j) in nodes
    decreases j
  {
    if x in nodes && j > 0 {
      UpInside(nodes, nodes[x].parent, j - 1, k - 1);
    }
  }

  lemma {:induction false} PastRoot(nodes: Nodes, x: nat, k: nat, i: nat)
    requires Tree(nodes) && Up(nodes, x, k) == ROOT && i > k
    ensures Up(nodes, x, i) == 0
  {
    UpAdd(nodes, x, k, i - k);
    UpZero(nodes, i - k - 1);
  }

  lemma {:induction false} UpZero(nodes: Nodes, k: nat)
    requires 0 !in nodes
    ensures Up(nodes, 0, k) == 0
  {
  }

  /** One step of the ancestor loop. */
  lemma UpStep(nodes: Nodes, dir: nat, j: nat, k: nat, a: nat)
    requires Tree(nodes) && Up(nodes, dir, k) == ROOT && j <= k && a == Up(nodes, dir, j) && a in nodes
    ensures Up(nodes, dir, j + 1) == nodes[a].parent
    ensures nodes[a].parent != 0 ==> nodes[a].parent in nodes && j + 1 <= k
    ensures nodes[a].parent == 0 ==> j == k
  {
    UpAdd(nodes, dir, j, 1);
    assert Up(nodes, a, 1) == nodes[a].parent;
    assert Placed(nodes, a);
    if j < k {
      UpAdd(nodes, dir, j, k - j);
      UpZero(nodes, k - j - 1);
    }
  }

  lemma NodePlaced(nodes: Nodes, n: nat)
    requires Tree(nodes) && n in nodes
    ensures 0 !in nodes && ROOT in nodes
    ensures forall c :: c in nodes[n].children ==> c in nodes && nodes[c].linked
    ensures nodes[n].parent != 0 ==> nodes[n].linked
  {
    assert Placed(nodes, n);
    forall c | c in nodes[n].children ensures nodes[c].linked {
      assert Placed(nodes, c);
    }
  }

  lemma NextComponent(path: string, start: nat, i: nat)
    requires start < i <= |path| && (i < |path| ==> path[i] == '/') && forall j :: start <= j < i ==> path[j] != '/'
    ensures Components(path[start..]) == [path[start..i]] + Components(path[i..])
  {
    var s := path[start..];
    SlashUnique(s, 0, i - start);
    assert s[..i - start] == path[start..i] && s[i - start..] == path[i..];
  }

  lemma ChildFacts(nodes: Nodes, dir: nat, name: string)
    requires Tree(nodes) && dir in nodes && ChildNamed(nodes, nodes[dir].children, name) != 0
    ensures var n := ChildNamed(nodes, nodes[dir].children, name);
            n in nodes && n != ROOT && nodes[n].linked && nodes[n].parent == dir && nodes[n].name == name && n != dir
  {
    var n := ChildNamed(nodes, nodes[dir].children, name);
    assert Placed(nodes, dir) && Placed(nodes, n);
    ParentDiffers(nodes, n);
  }
}
