/**
 The vnode tree of kernel/fs/vfs.c and what create, remove and rename keep of it.
 */
module VfsTree {
  import opened VfsPath

  // ----- The invariant

  /** `n` agrees with its parent and its children. */
  ghost predicate Placed(nodes: Nodes, n: nat)
    requires n in nodes
  {
    var v := nodes[n];
    && (v.children != [] ==> v.kind == Dir)
    && (forall c :: c in v.children ==> c in nodes && nodes[c].parent == n)
    && (v.parent != 0 ==> v.parent in nodes && n in nodes[v.parent].children && v.linked
                          && Plain(v.name) && !DotName(v.name))
    && (v.linked ==> n == ROOT || v.parent != 0)
    && (!v.linked ==> v.parent == 0 && v.children == [] && v.refs > 0)
  }

  ghost predicate Distinct(s: seq<nat>) {
    forall i, j :: 0 <= i < j < |s| ==> s[i] != s[j]
  }

  /** Siblings have different names. */
  ghost predicate UniqueNames(nodes: Nodes, n: nat)
    requires n in nodes
  {
    && Distinct(nodes[n].children)
    && (forall c, d :: c in nodes[n].children && d in nodes[n].children && c in nodes && d in nodes && c != d ==>
          nodes[c].name != nodes[d].name)
  }

  /** The node `k` steps up from `n`; 0 beyond the top. */
  function Up(nodes: Nodes, n: nat, k: nat): nat
    decreases k
  {
    if k == 0 then n else if n in nodes then Up(nodes, nodes[n].parent, k - 1) else 0
  }

  /** Going up from `n` arrives at the root. */
  ghost predicate Rooted(nodes: Nodes, n: nat) {
    exists k: nat :: Up(nodes, n, k) == ROOT
  }

  /** Linked nodes form a tree under the root; unlinked ones hang nowhere and are still open. */
  ghost predicate Tree(nodes: Nodes) {
    && ROOT in nodes && nodes[ROOT].kind == Dir && nodes[ROOT].linked && nodes[ROOT].parent == 0 && 0 !in nodes
    && (forall n {:trigger Placed(nodes, n)} :: n in nodes ==> Placed(nodes, n))
    && (forall n {:trigger UniqueNames(nodes, n)} :: n in nodes ==> UniqueNames(nodes, n))
    && (forall n {:trigger Rooted(nodes, n)} :: n in nodes && nodes[n].linked ==> Rooted(nodes, n))
  }

  lemma {:induction false} UpAdd(nodes: Nodes, n: nat, j: nat, k: nat)
    requires 0 !in nodes && Up(nodes, n, j) in nodes
    ensures Up(nodes, n, j + k) == Up(nodes, Up(nodes, n, j), k)
    decreases j
  {
    if j > 0 && n in nodes {
      UpAdd(nodes, nodes[n].parent, j - 1, k);
    }
  }

  /** Resolving from a linked directory always ends at a linked node. */
  lemma {:induction false} ResolveLinked(nodes: Nodes, node: nat, comps: seq<string>)
    requires Tree(nodes) && node in nodes && nodes[node].linked
    ensures var r := Resolve(nodes, node, comps);
            r.Ok? ==> r.node in nodes && nodes[r.node].linked
    decreases |comps|
  {
    if comps != [] && nodes[node].kind == Dir {
      assert Placed(nodes, node);
      ResolveLinked(nodes, node, comps[1..]);
      if nodes[node].parent != 0 {
        ParentLinked(nodes, node);
        ResolveLinked(nodes, nodes[node].parent, comps[1..]);
      }
      var child := ChildNamed(nodes, nodes[node].children, comps[0]);
      if child != 0 {
        assert Placed(nodes, child);
        ResolveLinked(nodes, child, comps[1..]);
      }
    }
  }

  lemma ParentLinked(nodes: Nodes, n: nat)
    requires Tree(nodes) && n in nodes && nodes[n].parent != 0
    ensures nodes[n].parent in nodes && nodes[nodes[n].parent].linked && nodes[nodes[n].parent].kind == Dir
  {
    assert Placed(nodes, n) && Placed(nodes, nodes[n].parent);
  }

  // ----- Edits of child lists

  function Without(s: seq<nat>, n: nat): (r: seq<nat>)
    ensures n !in r && forall x :: x in r <==> x in s && x != n
    ensures |r| <= |s|
  {
    if s == [] then [] else if s[0] == n then Without(s[1..], n) else [s[0]] + Without(s[1..], n)
  }

  lemma {:induction false} WithoutDistinct(s: seq<nat>, n: nat)
    requires Distinct(s)
    ensures Distinct(Without(s, n))
  {
    if s != [] {
      WithoutDistinct(s[1..], n);
      assert s[0] !in s[1..];
    }
  }

  /** `attach`: `n` becomes the last child of `dir`, under the given name. */
  function Attach(nodes: Nodes, dir: nat, n: nat, name: string): Nodes
    requires dir in nodes && n in nodes && dir != n
  {
    nodes[dir := nodes[dir].(children := nodes[dir].children + [n])]
         [n := nodes[n].(parent := dir, linked := true, name := name)]
  }

  /** `detach`: `n` leaves its parent. */
  function Detach(nodes: Nodes, n: nat): Nodes
    requires n in nodes && nodes[n].parent in nodes && nodes[n].parent != n
  {
    var p := nodes[n].parent;
    nodes[p := nodes[p].(children := Without(nodes[p].children, n))]
         [n := nodes[n].(parent := 0, linked := false)]
  }

  // ----- Creating

  /** A new node of the given kind as the last child of `dir`. */
  function Create(nodes: Nodes, dir: nat, n: nat, name: string, kind: Kind): Nodes
    requires dir in nodes && n !in nodes
  {
    nodes[dir := nodes[dir].(children := nodes[dir].children + [n])]
         [n := VNode(dir, [], name, true, 0, kind)]
  }

  lemma {:induction false} UpFrame(nodes: Nodes, nodes': Nodes, n: nat, k: nat)
    requires forall x :: x in nodes ==> x in nodes' && nodes'[x].parent == nodes[x].parent
    requires 0 !in nodes && Up(nodes, n, k) in nodes
    ensures Up(nodes', n, k) == Up(nodes, n, k)
    decreases k
  {
    if k > 0 && n in nodes {
      UpFrame(nodes, nodes', nodes[n].parent, k - 1);
    }
  }

  lemma CreateKeeps(nodes: Nodes, dir: nat, n: nat, name: string, kind: Kind)
    requires Tree(nodes) && dir in nodes && nodes[dir].kind == Dir && nodes[dir].linked && n !in nodes && n != 0
    requires Plain(name) && !DotName(name) && ChildNamed(nodes, nodes[dir].children, name) == 0
    ensures Tree(Create(nodes, dir, n, name, kind))
  {
    hide Placed, UniqueNames, Rooted;
    var r := Create(nodes, dir, n, name, kind);
    forall x | x in r ensures Placed(r, x) {
      CreatePlaced(nodes, dir, n, name, kind, x);
    }
    forall x | x in r ensures UniqueNames(r, x) {
      CreateUnique(nodes, dir, n, name, kind, x);
    }
    forall x | x in r && r[x].linked ensures Rooted(r, x) {
      CreateRooted(nodes, dir, n, name, kind, x);
    }
  }

  lemma CreateRooted(nodes: Nodes, dir: nat, n: nat, name: string, kind: Kind, x: nat)
    requires Tree(nodes) && dir in nodes && nodes[dir].linked && n !in nodes && n != 0
    requires x in Create(nodes, dir, n, name, kind) && Create(nodes, dir, n, name, kind)[x].linked
    ensures Rooted(Create(nodes, dir, n, name, kind), x)
  {
    var r := Create(nodes, dir, n, name, kind);
    var y := if x == n then dir else x;
    assert Rooted(nodes, y);
    var k: nat :| Up(nodes, y, k) == ROOT;
    UpFrame(nodes, r, y, k);
    assert x == n ==> Up(r, n, k + 1) == Up(r, dir, k);
  }

  lemma CreatePlaced(nodes: Nodes, dir: nat, n: nat, name: string, kind: Kind, x: nat)
    requires Tree(nodes) && dir in nodes && nodes[dir].kind == Dir && nodes[dir].linked && n !in nodes && n != 0
    requires Plain(name) && !DotName(name) && x in Create(nodes, dir, n, name, kind)
    ensures Placed(Create(nodes, dir, n, name, kind), x)
  {
    var r := Create(nodes, dir, n, name, kind);
    assert Placed(nodes, dir);
    if x == n {
      assert r[dir].children[|nodes[dir].children|] == n;
    } else {
      assert Placed(nodes, x);
      forall c | c in r[x].children ensures c in r && r[c].parent == x {
        if c != n { assert c in nodes[x].children && Placed(nodes, c); }
      }
    }
  }

  lemma CreateUnique(nodes: Nodes, dir: nat, n: nat, name: string, kind: Kind, x: nat)
    requires Tree(nodes) && dir in nodes && n !in nodes && n != 0 && x in Create(nodes, dir, n, name, kind)
    requires ChildNamed(nodes, nodes[dir].children, name) == 0
    ensures UniqueNames(Create(nodes, dir, n, name, kind), x)
  {
    var r := Create(nodes, dir, n, name, kind);
    if x in nodes {
      assert UniqueNames(nodes, x) && Placed(nodes, x);
      assert n !in nodes[x].children;
      forall c | c in nodes[x].children ensures c in nodes && c != 0 && r[c].name == nodes[c].name {
      }
    }
  }

  // ----- Removing

  /** `remove_node`: out of the tree, and gone for good unless someone has it open. */
  function Remove(nodes: Nodes, n: nat): Nodes
    requires n in nodes && nodes[n].parent in nodes && nodes[n].parent != n
  {
    if nodes[n].refs == 0 then Detach(nodes, n) - {n} else Detach(nodes, n)
  }

  lemma ParentDiffers(nodes: Nodes, n: nat)
    requires Tree(nodes) && n in nodes && nodes[n].linked && n != ROOT
    ensures nodes[n].parent in nodes && nodes[n].parent != n
  {
    assert Placed(nodes, n) && Rooted(nodes, n);
    var k: nat :| Up(nodes, n, k) == ROOT;
    if nodes[n].parent == n { UpLoop(nodes, n, k); }
  }

  lemma {:induction false} UpLoop(nodes: Nodes, n: nat, k: nat)
    requires n in nodes && nodes[n].parent == n
    ensures Up(nodes, n, k) == n
  {
    if k > 0 { UpLoop(nodes, n, k - 1); }
  }

  /** Paths upwards that do not pass a node do not notice a change of its parent. */
  lemma {:induction false} UpAvoids(nodes: Nodes, nodes': Nodes, x: nat, k: nat, n: nat)
    requires 0 !in nodes && Up(nodes, x, k) in nodes && forall j: nat :: j <= k ==> Up(nodes, x, j) != n
    requires forall y :: y in nodes && y != n ==> y in nodes' && nodes'[y].parent == nodes[y].parent
    ensures Up(nodes', x, k) == Up(nodes, x, k)
    decreases k
  {
    assert Up(nodes, x, 0) == x;
    if k > 0 && x in nodes {
      forall j: nat | j <= k - 1 ensures Up(nodes, nodes[x].parent, j) != n {
        assert Up(nodes, x, j + 1) == Up(nodes, nodes[x].parent, j);
      }
      UpAvoids(nodes, nodes', nodes[x].parent, k - 1, n);
    }
  }

  /** Nobody's path to the root goes through a childless node. */
  lemma {:induction false} ChildlessAvoided(nodes: Nodes, x: nat, j: nat, n: nat)
    requires Tree(nodes) && n in nodes && nodes[n].children == [] && x != n
    ensures Up(nodes, x, j) != n
    decreases j
  {
    if j > 0 && x in nodes {
      assert Placed(nodes, x);
      ChildlessAvoided(nodes, nodes[x].parent, j - 1, n);
    }
  }

  lemma RemoveKeeps(nodes: Nodes, n: nat)
    requires Tree(nodes) && n in nodes && n != ROOT && nodes[n].linked && nodes[n].children == []
    ensures nodes[n].parent in nodes && nodes[n].parent != n && Tree(Remove(nodes, n))
  {
    hide Placed, UniqueNames, Rooted;
    ParentDiffers(nodes, n);
    var r := Remove(nodes, n);
    forall x | x in r ensures Placed(r, x) {
      RemovePlaced(nodes, n, x);
    }
    forall x | x in r ensures UniqueNames(r, x) {
      RemoveUnique(nodes, n, x);
    }
    forall x | x in r && r[x].linked ensures Rooted(r, x) {
      RemoveRooted(nodes, n, x);
    }
  }

  lemma RemoveRooted(nodes: Nodes, n: nat, x: nat)
    requires Tree(nodes) && n in nodes && n != ROOT && nodes[n].children == []
    requires nodes[n].parent in nodes && nodes[n].parent != n && x in Remove(nodes, n) && Remove(nodes, n)[x].linked
    ensures Rooted(Remove(nodes, n), x)
  {
    assert Rooted(nodes, x);
    var k: nat :| Up(nodes, x, k) == ROOT;
    forall j: nat | j <= k ensures Up(nodes, x, j) != n {
      ChildlessAvoided(nodes, x, j, n);
    }
    UpAvoids(nodes, Remove(nodes, n), x, k, n);
  }

  lemma RemovePlaced(nodes: Nodes, n: nat, x: nat)
    requires Tree(nodes) && n in nodes && n != ROOT && nodes[n].linked && nodes[n].children == []
    requires nodes[n].parent in nodes && nodes[n].parent != n && x in Remove(nodes, n)
    ensures Placed(Remove(nodes, n), x)
  {
    var r := Remove(nodes, n);
    assert Placed(nodes, x) && Placed(nodes, n);
    forall c | c in r[x].children ensures c in r && r[c].parent == x {
      assert c in nodes[x].children;
      assert Placed(nodes, c);
    }
  }

  lemma RemoveUnique(nodes: Nodes, n: nat, x: nat)
    requires Tree(nodes) && n in nodes && nodes[n].parent in nodes && nodes[n].parent != n && x in Remove(nodes, n)
    ensures UniqueNames(Remove(nodes, n), x)
  {
    assert UniqueNames(nodes, x) && Placed(nodes, x) && UniqueNames(nodes, nodes[n].parent);
    WithoutDistinct(nodes[nodes[n].parent].children, n);
  }

  // ----- Moving

  /** `rename`: `n` goes with everything below it to `dir`, under a new name. */
  function Move(nodes: Nodes, n: nat, dir: nat, name: string): Nodes
    requires n in nodes && nodes[n].parent in nodes && nodes[n].parent != n && dir in nodes && dir != n
  {
    Attach(Detach(nodes, n), dir, n, name)
  }

  /** `n` is `x` or one of its ancestors. */
  ghost predicate Above(nodes: Nodes, n: nat, x: nat) {
    exists j: nat :: Up(nodes, x, j) == n
  }

  lemma MoveKeeps(nodes: Nodes, n: nat, dir: nat, name: string)
    requires Tree(nodes) && n in nodes && n != ROOT && nodes[n].linked
    requires dir in nodes && nodes[dir].linked && nodes[dir].kind == Dir && !Above(nodes, n, dir)
    requires Plain(name) && !DotName(name)
    requires ChildNamed(nodes, nodes[dir].children, name) in {0, n}
    ensures nodes[n].parent in nodes && nodes[n].parent != n && dir != n && Tree(Move(nodes, n, dir, name))
  {
    hide Placed, UniqueNames, Rooted;
    ParentDiffers(nodes, n);
    assert dir != n by { assert Up(nodes, dir, 0) == dir; }
    var r := Move(nodes, n, dir, name);
    forall x | x in r ensures Placed(r, x) {
      MovePlaced(nodes, n, dir, name, x);
    }
    forall x | x in r ensures UniqueNames(r, x) {
      MoveUnique(nodes, n, dir, name, x);
    }
    forall x | x in r && r[x].linked ensures Rooted(r, x) {
      MoveRooted(nodes, n, dir, name, x);
    }
  }

  lemma MovePlaced(nodes: Nodes, n: nat, dir: nat, name: string, x: nat)
    requires Tree(nodes) && n in nodes && n != ROOT && nodes[n].linked && x in nodes
    requires nodes[n].parent in nodes && nodes[n].parent != n
    requires dir in nodes && nodes[dir].linked && nodes[dir].kind == Dir && dir != n
    requires Plain(name) && !DotName(name)
    ensures Placed(Move(nodes, n, dir, name), x)
  {
    var r := Move(nodes, n, dir, name);
    assert Placed(nodes, x) && Placed(nodes, n) && Placed(nodes, dir);
    var kids := Detach(nodes, n)[dir].children;
    assert r[dir].children == kids + [n];
    if x == n { assert r[dir].children[|kids|] == n; }
    forall c | c in r[x].children ensures c in r && r[c].parent == x {
      if c != n { assert c in nodes[x].children && Placed(nodes, c); }
    }
  }

  lemma MoveUnique(nodes: Nodes, n: nat, dir: nat, name: string, x: nat)
    requires Tree(nodes) && n in nodes && x in nodes && nodes[n].parent in nodes && nodes[n].parent != n
    requires dir in nodes && dir != n && ChildNamed(nodes, nodes[dir].children, name) in {0, n}
    ensures UniqueNames(Move(nodes, n, dir, name), x)
  {
    hide Rooted, Plain, DotName;
    var r := Move(nodes, n, dir, name);
    var p := nodes[n].parent;
    assert UniqueNames(nodes, x) && UniqueNames(nodes, p) && UniqueNames(nodes, dir);
    WithoutDistinct(nodes[p].children, n);
    MoveNames(nodes, n, dir, name, x);
    OthersNamedElse(nodes, n, dir, name);
  }

  /** A moved node aside, children keep their names; and only the new directory gains one. */
  lemma MoveNames(nodes: Nodes, n: nat, dir: nat, name: string, x: nat)
    requires Tree(nodes) && n in nodes && x in nodes && nodes[n].parent in nodes && nodes[n].parent != n
    requires dir in nodes && dir != n
    ensures var r := Move(nodes, n, dir, name);
            && (forall c :: c in r[x].children ==>
                 (c == n && x == dir) || (c != n && c in nodes[x].children && c in nodes))
            && (forall c :: c in nodes && c != n ==> r[c].name == nodes[c].name)
            && r[n].name == name && (dir != nodes[n].parent ==> n !in nodes[dir].children)
  {
    assert Placed(nodes, x) && Placed(nodes, n) && Placed(nodes, dir);
  }

  /** If the name is free, or is `n`'s own, no other child of the directory has it. */
  lemma OthersNamedElse(nodes: Nodes, n: nat, dir: nat, name: string)
    requires Tree(nodes) && dir in nodes && ChildNamed(nodes, nodes[dir].children, name) in {0, n}
    ensures forall c :: c in nodes[dir].children && c != n && c in nodes ==> nodes[c].name != name
  {
    assert UniqueNames(nodes, dir);
  }

  lemma {:induction false} MoveRootedBy(nodes: Nodes, n: nat, dir: nat, name: string, x: nat, k: nat)
    requires Tree(nodes) && n in nodes && n != ROOT && nodes[n].parent in nodes && nodes[n].parent != n
    requires dir in nodes && dir != n
    requires x in nodes && Up(nodes, x, k) == ROOT && Rooted(Move(nodes, n, dir, name), dir)
    ensures Rooted(Move(nodes, n, dir, name), x)
    decreases k
  {
    var r := Move(nodes, n, dir, name);
    if x == n {
      var j: nat :| Up(r, dir, j) == ROOT;
      assert Up(r, n, j + 1) == Up(r, dir, j);
    } else if k == 0 {
      assert Up(r, x, 0) == ROOT;
    } else {
      assert Placed(nodes, x);
      MoveRootedBy(nodes, n, dir, name, nodes[x].parent, k - 1);
      var j: nat :| Up(r, nodes[x].parent, j) == ROOT;
      assert Up(r, x, j + 1) == Up(r, nodes[x].parent, j);
    }
  }

  lemma MoveRooted(nodes: Nodes, n: nat, dir: nat, name: string, x: nat)
    requires Tree(nodes) && n in nodes && n != ROOT && nodes[n].parent in nodes && nodes[n].parent != n
    requires nodes[n].linked
    requires dir in nodes && dir != n && nodes[dir].linked && !Above(nodes, n, dir)
    requires x in nodes && nodes[x].linked
    ensures Rooted(Move(nodes, n, dir, name), x)
  {
    var r := Move(nodes, n, dir, name);
    assert Rooted(nodes, dir) && Rooted(nodes, x);
    var k: nat :| Up(nodes, dir, k) == ROOT;
    UpAvoids(nodes, r, dir, k, n);
    assert Up(r, dir, k) == ROOT;
    var j: nat :| Up(nodes, x, j) == ROOT;
    MoveRootedBy(nodes, n, dir, name, x, j);
  }

  // ----- What lookups show afterwards

  lemma {:induction false} ChildNamedAppend(nodes: Nodes, kids: seq<nat>, n: nat, name: string)
    requires n in nodes && n != 0
    ensures ChildNamed(nodes, kids + [n], name) ==
            if ChildNamed(nodes, kids, name) != 0 then ChildNamed(nodes, kids, name)
            else if nodes[n].name == name then n else 0
  {
    if kids == [] {
      assert kids + [n] == [n] && [n][1..] == [];
    } else {
      assert (kids + [n])[1..] == kids[1..] + [n];
      ChildNamedAppend(nodes, kids[1..], n, name);
    }
  }

  /** Looking a name up only reads the names of the children. */
  lemma {:induction false} ChildNamedFrame(a: Nodes, b: Nodes, kids: seq<nat>, name: string)
    requires forall c :: c in kids ==> c in a && c in b && a[c].name == b[c].name
    ensures ChildNamed(a, kids, name) == ChildNamed(b, kids, name)
  {
    if kids != [] { ChildNamedFrame(a, b, kids[1..], name); }
  }

  /** Creating a node hides nothing that could be found before. */
  lemma {:induction false} ResolveCreate(nodes: Nodes, dir: nat, n: nat, name: string, kind: Kind, x: nat,
                                         comps: seq<string>)
    requires Tree(nodes) && dir in nodes && n !in nodes && n != 0 && x in nodes
    requires Resolve(nodes, x, comps).Ok?
    ensures Resolve(Create(nodes, dir, n, name, kind), x, comps) == Resolve(nodes, x, comps)
    decreases |comps|
  {
    var r := Create(nodes, dir, n, name, kind);
    if comps != [] {
      assert Placed(nodes, x);
      if comps[0] == "." {
        ResolveCreate(nodes, dir, n, name, kind, x, comps[1..]);
      } else if comps[0] == ".." {
        ResolveCreate(nodes, dir, n, name, kind, if nodes[x].parent != 0 then nodes[x].parent else x, comps[1..]);
      } else {
        var child := ChildNamed(nodes, nodes[x].children, comps[0]);
        ChildNamedFrame(nodes, r, nodes[x].children, comps[0]);
        ChildNamedAppend(r, nodes[x].children, n, comps[0]);
        ResolveCreate(nodes, dir, n, name, kind, child, comps[1..]);
      }
    }
  }

  /** What one call creates, the next lookup of the same path finds. */
  lemma CreateVisible(nodes: Nodes, path: string, n: nat, kind: Kind)
    requires Tree(nodes) && LookupParent(nodes, path).Parent? && Walk(nodes, path) == NotFound && n !in nodes && n != 0
    ensures var p := LookupParent(nodes, path);
            p.dir in nodes && Walk(Create(nodes, p.dir, n, p.name, kind), path) == Ok(n)
  {
    var p := LookupParent(nodes, path);
    LookupAgrees(nodes, path);
    var r := Create(nodes, p.dir, n, p.name, kind);
    var start := NameStart(path, TrimEnd(path, |path|));
    ResolveCreate(nodes, p.dir, n, p.name, kind, ROOT, Components(path[..start]));
    LookupAgrees(r, path);
    assert Placed(nodes, p.dir);
    ChildNamedFrame(nodes, r, nodes[p.dir].children, p.name);
    ChildNamedAppend(r, nodes[p.dir].children, n, p.name);
  }

  /** In the directories concerned, a removed name is gone. */
  lemma RemoveHides(nodes: Nodes, n: nat)
    requires Tree(nodes) && n in nodes && n != ROOT && nodes[n].linked && nodes[n].children == []
    ensures nodes[n].parent in nodes && nodes[n].parent != n
    ensures var r := Remove(nodes, n);
            ChildNamed(r, r[nodes[n].parent].children, nodes[n].name) == 0
  {
    RemoveKeeps(nodes, n);
    var p := nodes[n].parent;
    assert Placed(nodes, n) && UniqueNames(nodes, p) && Placed(nodes, p);
    var c := ChildNamed(Remove(nodes, n), Remove(nodes, n)[p].children, nodes[n].name);
  }

  /** A moved node is found under its new name, and not under its old one. */
  lemma MoveShows(nodes: Nodes, n: nat, dir: nat, name: string)
    requires Tree(nodes) && n in nodes && nodes[n].parent in nodes && nodes[n].parent != n && dir in nodes
    requires dir != n && n != 0
    requires Tree(Move(nodes, n, dir, name))
    ensures var r := Move(nodes, n, dir, name);
            ChildNamed(r, r[dir].children, name) == n
    ensures var r := Move(nodes, n, dir, name);
            var p := nodes[n].parent;
            (p != dir || name != nodes[n].name) ==> ChildNamed(r, r[p].children, nodes[n].name) == 0
  {
    var r := Move(nodes, n, dir, name);
    var p := nodes[n].parent;
    assert Placed(r, n) && UniqueNames(r, dir) && Placed(nodes, n) && UniqueNames(nodes, p) && Placed(nodes, p);
    var c := ChildNamed(r, r[p].children, nodes[n].name);
  }
}
