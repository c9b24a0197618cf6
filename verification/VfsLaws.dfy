/**
 Laws of path names in kernel/fs/vfs.c: what "." and ".." do, that every file is found by its names
 from the root down, and which failure gives which status.
 */
module VfsLaws {
  import opened VfsPath
  import opened VfsTree
  import opened Vfs

  // ----- Paths as texts

  lemma {:induction false} EndSlash(a: string)
    ensures Components(a + "/") == Components(a)
    decreases |a|
  {
    if a == [] {
      OnlySlashes("/");
      assert a + "/" == "/";
    } else if a[0] == '/' {
      assert (a + "/")[1..] == a[1..] + "/";
      EndSlash(a[1..]);
    } else {
      var k := Slash(a, 0);
      SlashUnique(a + "/", 0, k);
      assert (a + "/")[..k] == a[..k] && (a + "/")[k..] == a[k..] + "/";
      EndSlash(a[k..]);
    }
  }

  /** A slash separates; with no slash there is one name or none. */
  lemma SlashSplits(a: string, b: string)
    ensures Components(a + "/" + b) == Components(a) + Components(b)
    ensures Plain(a) ==> Components(a) == [a]
    ensures Components("") == []
  {
    hide Components;
    EndSlash(a);
    ComponentsAppend(a + "/", b);
    if Plain(a) {
      LastComponent(a, "");
      assert a + "" == a;
    }
    OnlySlashes("");
  }

  // ----- Walking on

  lemma {:induction false} ResolveStep(nodes: Nodes, node: nat, comps: seq<string>, name: string)
    ensures Resolve(nodes, node, comps + [name]) ==
            if Resolve(nodes, node, comps).Ok? then Resolve(nodes, Resolve(nodes, node, comps).node, [name])
            else Resolve(nodes, node, comps)
  {
    ResolveAppend(nodes, node, comps, [name]);
  }

  /** One more name behind a path. */
  lemma WalkOn(nodes: Nodes, path: string, name: string)
    requires path != [] && path[0] == '/' && Plain(name)
    ensures Walk(nodes, path + "/" + name) ==
            if Walk(nodes, path).Ok? then Resolve(nodes, Walk(nodes, path).node, [name]) else Walk(nodes, path)
  {
    hide Components, Resolve;
    SlashSplits(path, name);
    SlashSplits(name, "");
    ResolveStep(nodes, ROOT, Components(path), name);
    assert (path + "/" + name)[0] == '/';
  }

  ghost predicate Directory(nodes: Nodes, n: nat) {
    n in nodes && nodes[n].kind == Dir
  }

  /** ".." leads to the parent, from the root to the root, and "." nowhere else. */
  lemma DotsWalk(nodes: Nodes, path: string)
    requires Walk(nodes, path).Ok? && Directory(nodes, Walk(nodes, path).node)
    ensures Walk(nodes, path + "/.") == Walk(nodes, path)
    ensures var d := Walk(nodes, path).node;
            Walk(nodes, path + "/..") == Ok(if nodes[d].parent == 0 then d else nodes[d].parent)
  {
    hide Components;
    WalkOn(nodes, path, ".");
    WalkOn(nodes, path, "..");
    assert path + "/." == path + "/" + "." && path + "/.." == path + "/" + "..";
    assert ["."][1..] == [] && [".."][1..] == [];
  }

  /** In the tree only the root has no parent to go to. */
  lemma DotDotFromRoot(nodes: Nodes, path: string)
    requires Tree(nodes) && Walk(nodes, path).Ok? && Directory(nodes, Walk(nodes, path).node)
    ensures var d := Walk(nodes, path).node;
            Walk(nodes, path + "/..") == Ok(if d == ROOT then ROOT else nodes[d].parent)
  {
    DotsWalk(nodes, path);
    var d := Walk(nodes, path).node;
    ResolveLinked(nodes, ROOT, Components(path));
    assert Placed(nodes, d);
  }

  /** The only child with a name is the one a lookup finds. */
  lemma ChildFound(nodes: Nodes, d: nat, c: nat)
    requires Tree(nodes) && d in nodes && c in nodes[d].children
    ensures c in nodes && c != 0 && nodes[c].parent == d && nodes[c].linked
    ensures Plain(nodes[c].name) && !DotName(nodes[c].name) && nodes[d].kind == Dir
    ensures ChildNamed(nodes, nodes[d].children, nodes[c].name) == c
  {
    assert Placed(nodes, d) && UniqueNames(nodes, d);
    assert d != 0 && c in nodes;
    assert Placed(nodes, c);
  }

  /** Down by its name to a child, and back up by "..". */
  lemma DownAndUp(nodes: Nodes, path: string, c: nat)
    requires Tree(nodes) && Walk(nodes, path).Ok?
    requires var d := Walk(nodes, path).node; d in nodes && c in nodes[d].children
    ensures c in nodes && Walk(nodes, path + "/" + nodes[c].name) == Ok(c)
    ensures nodes[c].kind == Dir ==> Walk(nodes, path + "/" + nodes[c].name + "/..") == Walk(nodes, path)
  {
    hide Components, ChildNamed;
    var d := Walk(nodes, path).node;
    ChildFound(nodes, d, c);
    WalkOn(nodes, path, nodes[c].name);
    assert [nodes[c].name][1..] == [];
    if nodes[c].kind == Dir {
      DotsWalk(nodes, path + "/" + nodes[c].name);
      assert d != 0;
    }
  }

  /** The names from the root down to `n`, which is `k` levels below it. */
  function Names(nodes: Nodes, n: nat, k: nat): string
    decreases k
  {
    if k == 0 || n !in nodes then "/" else Names(nodes, nodes[n].parent, k - 1) + "/" + nodes[n].name
  }

  lemma UpFromSomewhere(nodes: Nodes, d: nat, k: nat)
    requires 0 !in nodes && Up(nodes, d, k) == ROOT
    ensures d != 0
  {
    UpZero(nodes, k);
  }

  /** Every vnode in the tree is found under its names from the root down. */
  lemma {:induction false} NamesLead(nodes: Nodes, n: nat, k: nat)
    requires Tree(nodes) && n in nodes && nodes[n].linked && Up(nodes, n, k) == ROOT
    ensures Names(nodes, n, k) != [] && Names(nodes, n, k)[0] == '/'
    ensures Walk(nodes, Names(nodes, n, k)) == Ok(n)
    decreases k
  {
    assert Placed(nodes, n);
    if k == 0 {
      OnlySlashes("/");
    } else {
      var d := nodes[n].parent;
      UpFromSomewhere(nodes, d, k - 1);
      ParentLinked(nodes, n);
      NamesLead(nodes, d, k - 1);
      DownAndUp(nodes, Names(nodes, d, k - 1), n);
    }
  }

  lemma EveryNodeFound(nodes: Nodes, n: nat)
    requires Tree(nodes) && n in nodes && nodes[n].linked
    ensures exists k: nat :: Up(nodes, n, k) == ROOT && Walk(nodes, Names(nodes, n, k)) == Ok(n)
  {
    assert Rooted(nodes, n);
    var k: nat :| Up(nodes, n, k) == ROOT;
    NamesLead(nodes, n, k);
  }

  // ----- When a walk fails

  /** One step of a walk from `a` to `b`. */
  ghost predicate OneStep(nodes: Nodes, a: nat, name: string, b: nat) {
    && Directory(nodes, a)
    && if name == "." then b == a
       else if name == ".." then b == (if nodes[a].parent == 0 then a else nodes[a].parent)
       else b != 0 && b in nodes[a].children && b in nodes && nodes[b].name == name
  }

  /** `trail` takes the first steps of `comps` from `node` on. */
  ghost predicate Trail(nodes: Nodes, node: nat, comps: seq<string>, trail: seq<nat>) {
    && 0 < |trail| <= |comps| + 1 && trail[0] == node
    && forall i :: 0 <= i < |trail| - 1 ==> OneStep(nodes, trail[i], comps[i], trail[i + 1])
  }

  /** A walk goes on as long as it can; it ends well if every name was passed, and otherwise says whether
      it stands on something that is no directory or misses a name in one. */
  lemma {:induction false} WalkEnds(nodes: Nodes, node: nat, comps: seq<string>) returns (trail: seq<nat>)
    ensures Trail(nodes, node, comps, trail)
    ensures var r, last, k := Resolve(nodes, node, comps), trail[|trail| - 1], |trail| - 1;
            if k == |comps| then r == Ok(last)
            else if !Directory(nodes, last) then r == NotDirectory
            else r == NotFound && comps[k] != "." && comps[k] != ".."
                 && forall c :: c in nodes[last].children && c != 0 && c in nodes ==> nodes[c].name != comps[k]
    decreases |comps|
  {
    trail := [node];
    if comps != [] && Directory(nodes, node) {
      var next :=
        if comps[0] == "." then node
        else if comps[0] == ".." then (if nodes[node].parent != 0 then nodes[node].parent else node)
        else ChildNamed(nodes, nodes[node].children, comps[0]);
      if DotName(comps[0]) || next != 0 {
        var rest := WalkEnds(nodes, next, comps[1..]);
        trail := [node] + rest;
        assert OneStep(nodes, node, comps[0], next);
        forall i | 0 <= i < |trail| - 1 ensures OneStep(nodes, trail[i], comps[i], trail[i + 1]) {
          assert i > 0 ==> trail[i] == rest[i - 1] && trail[i + 1] == rest[i] && comps[i] == comps[1..][i - 1];
        }
      }
    }
  }

  /** The parent of a path: everything but its last name, which must be one that a file can have. */
  lemma ParentIff(nodes: Nodes, path: string)
    requires path != [] && path[0] == '/'
    ensures var comps, r := Components(path), LookupParent(nodes, path);
            if comps == [] then r == Missing(Invalid) else
            var front, last := comps[..|comps| - 1], comps[|comps| - 1];
            var up := Resolve(nodes, ROOT, front);
            if last == "." || last == ".." || |last| >= 64 then r == Missing(Invalid)
            else if !up.Ok? then r == Missing(up)
            else if !Directory(nodes, up.node) then r == Missing(NotDirectory)
            else r == Parent(up.node, last)
  {
    hide Components, Slash, TrimEnd, NameStart, Resolve;
    var end := TrimEnd(path, |path|);
    var start := NameStart(path, end);
    if start == end {
      OnlySlashes(path);
    } else {
      SplitLast(path, start, end);
    }
  }

  // ----- Statuses

  ghost predicate Lacks(nodes: Nodes, path: string, why: Found) {
    LookupParent(nodes, path) == Missing(why)
  }

  /** The status of an open, failure by failure. */
  lemma OpenFailures(nodes: Nodes, path: string, flags: Flags, memory: bool)
    ensures var s, w, p := OpenStatus(nodes, path, flags, memory), Walk(nodes, path), LookupParent(nodes, path);
            var creating := w == NotFound && flags.create;
            var known := w.Ok? && !(flags.create && flags.exclusive);
            var dir := w.Ok? && Directory(nodes, w.node);
            && (s == Fine <==> (known && (flags.directory ==> dir) && (flags.write ==> !dir))
                               || (creating && p.Parent? && memory && !flags.directory))
            && (s == Exists <==> w.Ok? && flags.create && flags.exclusive)
            && (s == IsDir <==> known && dir && flags.write)
            && (s == NotDir <==> w == NotDirectory || (known && !dir && flags.directory)
                                 || (creating && (Lacks(nodes, path, NotDirectory)
                                               || (p.Parent? && memory && flags.directory))))
            && (s == NoSpace <==> creating && p.Parent? && !memory)
            && (s == NoEntry <==> (w == NotFound && !flags.create) || (creating && Lacks(nodes, path, NotFound)))
            && (s == Bad <==> w == Invalid || (creating && Lacks(nodes, path, Invalid)))
            && s != NotEmpty
  {
    hide Walk, LookupParent;
  }

  lemma MkdirFailures(nodes: Nodes, path: string, memory: bool)
    ensures var s, p := MkdirStatus(nodes, path, memory), LookupParent(nodes, path);
            var there := Walk(nodes, path).Ok?;
            && (s == Fine <==> p.Parent? && !there && memory)
            && (s == Exists <==> p.Parent? && there)
            && (s == NoSpace <==> p.Parent? && !there && !memory)
            && (s == NoEntry <==> Lacks(nodes, path, NotFound)) && (s == NotDir <==> Lacks(nodes, path, NotDirectory))
            && (s == Bad <==> Lacks(nodes, path, Invalid)) && s != IsDir && s != NotEmpty
  {
    LookupAgrees(nodes, path);
    hide Walk, LookupParent;
  }

  lemma UnlinkFailures(nodes: Nodes, path: string, directory: bool)
    ensures var s, p, w := UnlinkStatus(nodes, path, directory), LookupParent(nodes, path), Walk(nodes, path);
            var there := p.Parent? && w.Ok?;
            var dir := w.Ok? && Directory(nodes, w.node);
            && (s == Fine <==> there && (directory <==> dir) && w.node in nodes && nodes[w.node].children == [])
            && (s == NotDir <==> Lacks(nodes, path, NotDirectory) || (there && directory && !dir))
            && (s == IsDir <==> there && !directory && dir)
            && (s == NotEmpty <==> there && (directory <==> dir) && !(w.node in nodes && nodes[w.node].children == []))
            && (s == NoEntry <==> Lacks(nodes, path, NotFound) || (p.Parent? && !w.Ok?))
            && (s == Bad <==> Lacks(nodes, path, Invalid)) && s != Exists && s != NoSpace
  {
    LookupAgrees(nodes, path);
    hide Walk, LookupParent;
  }

  /** A rename of `n` to a place where `t` is, if there is something. */
  lemma RenameFailures(nodes: Nodes, from: string, to: string, memory: bool)
    ensures var s, f, p := RenameStatus(nodes, from, to, memory), LookupParent(nodes, from), LookupParent(nodes, to);
            var w, t := Walk(nodes, from), Walk(nodes, to);
            var there := f.Parent? && w.Ok?;
            var below := there && p.Parent? && Above(nodes, w.node, p.dir);
            var over := there && p.Parent? && !below && t.Ok? && t.node != w.node;
            var vacant := there && p.Parent? && !below && !t.Ok?;
            var dir, onDir := w.Ok? && Directory(nodes, w.node), t.Ok? && Directory(nodes, t.node);
            var empty := t.Ok? && t.node in nodes && nodes[t.node].children == [];
            && (s == Fine <==> there && p.Parent? && !below
                               && (t == w || (vacant && memory) || (over && (dir <==> onDir) && empty && memory)))
            && (s == IsDir <==> over && !dir && onDir)
            && (s == NotEmpty <==> over && (dir <==> onDir) && !empty)
            && (s == NoSpace <==> (vacant || (over && (dir <==> onDir) && empty)) && !memory)
            && (s == NotDir <==> Lacks(nodes, from, NotDirectory) || (there && Lacks(nodes, to, NotDirectory))
                                 || (over && dir && !onDir))
            && (s == NoEntry <==> Lacks(nodes, from, NotFound) || (f.Parent? && !w.Ok?)
                                  || (there && Lacks(nodes, to, NotFound)))
            && (s == Bad <==> Lacks(nodes, from, Invalid) || (there && Lacks(nodes, to, Invalid)) || below)
            && s != Exists
  {
    LookupAgrees(nodes, from);
    LookupAgrees(nodes, to);
    hide Walk, LookupParent, Above;
  }

  // ----- What the edits change

  /** A new vnode is the last child of its directory, empty and unopened, and nothing else changes. */
  lemma CreateOnly(nodes: Nodes, dir: nat, n: nat, name: string, kind: Kind)
    requires dir in nodes && n !in nodes
    ensures var r := Create(nodes, dir, n, name, kind);
            && r.Keys == nodes.Keys + {n} && r[n] == VNode(dir, [], name, true, 0, kind)
            && r[dir] == nodes[dir].(children := nodes[dir].children + [n])
            && forall x :: x in nodes && x != dir ==> r[x] == nodes[x]
  {
  }

  /** A removed vnode leaves its directory, and exists on only while it is open. */
  lemma RemoveOnly(nodes: Nodes, n: nat)
    requires n in nodes && nodes[n].parent in nodes && nodes[n].parent != n
    ensures var r, p := Remove(nodes, n), nodes[n].parent;
            && (n in r <==> nodes[n].refs > 0) && (n in r ==> r[n] == nodes[n].(parent := 0, linked := false))
            && p in r && r[p] == nodes[p].(children := r[p].children)
            && (forall c :: c in r[p].children <==> c in nodes[p].children && c != n)
            && (forall x :: x in nodes && x != n && x != p ==> x in r && r[x] == nodes[x]) && r.Keys <= nodes.Keys
  {
  }

  /** A moved vnode keeps its kind, its children and its openers; only two lists of children change. */
  lemma MoveOnly(nodes: Nodes, n: nat, dir: nat, name: string)
    requires n in nodes && nodes[n].parent in nodes && nodes[n].parent != n && dir in nodes && dir != n
    ensures var r := Move(nodes, n, dir, name);
            && r.Keys == nodes.Keys && r[n] == nodes[n].(parent := dir, linked := true, name := name)
            && (forall x :: x in nodes && x != n ==> r[x] == nodes[x].(children := r[x].children))
            && (forall x, c :: x in nodes && x != n ==>
                  (c in r[x].children <==>
                     (c in nodes[x].children && (c != n || x != nodes[n].parent)) || (x == dir && c == n)))
  {
  }
}
