/**
 Path names in kernel/fs/vfs.c: splitting into components, and the two ways the
 source looks a path up.
 */
module VfsPath {

  const ROOT: nat := 1
  const NAME_MAX: nat := 64

  datatype Kind = Reg | Dir

  /** `parent` is 0 for the root and for a node that has been unlinked. */
  datatype VNode = VNode(parent: nat, children: seq<nat>, name: string, linked: bool, refs: nat, kind: Kind)

  type Nodes = map<nat, VNode>

  datatype Found = NotFound | NotDirectory | Invalid | Ok(node: nat)

  // ----- Components

  /** Index of the first slash at or after `i`, or the length. */
  function Slash(s: string, i: nat): (k: nat)
    requires i <= |s|
    ensures i <= k <= |s| && (k < |s| ==> s[k] == '/') && forall j :: i <= j < k ==> s[j] != '/'
    decreases |s| - i
  {
    if i == |s| || s[i] == '/' then i else Slash(s, i + 1)
  }

  /** The non-empty stretches between slashes. */
  function Components(s: string): (r: seq<string>)
    decreases |s|
  {
    if s == [] then []
    else if s[0] == '/' then Components(s[1..])
    else [s[..Slash(s, 0)]] + Components(s[Slash(s, 0)..])
  }

  predicate Plain(name: string) {
    name != [] && forall i :: 0 <= i < |name| ==> name[i] != '/'
  }

  predicate DotName(name: string) {
    name == "." || name == ".."
  }

  lemma SlashUnique(s: string, i: nat, k: nat)
    requires i <= k <= |s| && (k < |s| ==> s[k] == '/') && forall j :: i <= j < k ==> s[j] != '/'
    ensures Slash(s, i) == k
  {
  }

  /** A path that ends in a slash can be split there. */
  lemma {:induction false} ComponentsAppend(a: string, b: string)
    requires a != [] ==> a[|a| - 1] == '/'
    ensures Components(a + b) == Components(a) + Components(b)
    decreases |a|
  {
    if a == [] {
      assert a + b == b;
    } else if a[0] == '/' {
      assert (a + b)[1..] == a[1..] + b;
      ComponentsAppend(a[1..], b);
    } else {
      var k := Slash(a, 0);
      SlashUnique(a + b, 0, k);
      assert (a + b)[..k] == a[..k] && (a + b)[k..] == a[k..] + b;
      ComponentsAppend(a[k..], b);
    }
  }

  lemma {:induction false} OnlySlashes(s: string)
    requires forall i :: 0 <= i < |s| ==> s[i] == '/'
    ensures Components(s) == []
  {
    if s != [] {
      OnlySlashes(s[1..]);
    }
  }

  lemma LastComponent(name: string, slashes: string)
    requires Plain(name) && forall i :: 0 <= i < |slashes| ==> slashes[i] == '/'
    ensures Components(name + slashes) == [name]
  {
    var s := name + slashes;
    SlashUnique(s, 0, |name|);
    assert s[..|name|] == name && s[|name|..] == slashes;
    OnlySlashes(slashes);
  }

  // ----- Looking up

  /** The first child with the given name, or 0. */
  function ChildNamed(nodes: Nodes, kids: seq<nat>, name: string): (c: nat)
    ensures c != 0 ==> c in kids && c in nodes && nodes[c].name == name
    ensures c == 0 ==> forall k :: k in kids && k != 0 && k in nodes ==> nodes[k].name != name
  {
    if kids == [] then 0
    else if kids[0] in nodes && kids[0] != 0 && nodes[kids[0]].name == name then kids[0]
    else ChildNamed(nodes, kids[1..], name)
  }

  /** Following components from a node. */
  function Resolve(nodes: Nodes, node: nat, comps: seq<string>): (r: Found)
    decreases |comps|
  {
    if comps == [] then Ok(node)
    else if node !in nodes || nodes[node].kind != Dir then NotDirectory
    else if comps[0] == "." then Resolve(nodes, node, comps[1..])
    else if comps[0] == ".." then
      Resolve(nodes, if nodes[node].parent != 0 then nodes[node].parent else node, comps[1..])
    else
      var child := ChildNamed(nodes, nodes[node].children, comps[0]);
      if child == 0 then NotFound else Resolve(nodes, child, comps[1..])
  }

  /** What `walk` answers for the first `length` characters. */
  function Walk(nodes: Nodes, path: string): Found {
    if path == [] || path[0] != '/' then Invalid else Resolve(nodes, ROOT, Components(path))
  }

  datatype FoundParent = Missing(why: Found) | Parent(dir: nat, name: string)

  /** Length of the path without trailing slashes. */
  function TrimEnd(path: string, end: nat): (r: nat)
    requires end <= |path|
    ensures r <= end && (r > 0 ==> path[r - 1] != '/') && forall i :: r <= i < end ==> path[i] == '/'
  {
    if end > 0 && path[end - 1] == '/' then TrimEnd(path, end - 1) else end
  }

  /** Where the last component starts. */
  function NameStart(path: string, start: nat): (r: nat)
    requires start <= |path|
    ensures r <= start && (r > 0 ==> path[r - 1] == '/') && forall i :: r <= i < start ==> path[i] != '/'
  {
    if start > 0 && path[start - 1] != '/' then NameStart(path, start - 1) else start
  }

  function LookupParent(nodes: Nodes, path: string): (r: FoundParent)
    ensures r.Missing? ==> !r.why.Ok?
  {
    if path == [] || path[0] != '/' then Missing(Invalid) else
    var end := TrimEnd(path, |path|);
    var start := NameStart(path, end);
    var name := path[start..end];
    if start == end || DotName(name) || |name| >= NAME_MAX then Missing(Invalid) else
    var walked := Walk(nodes, path[..start]);
    if !walked.Ok? then Missing(walked)
    else if walked.node !in nodes || nodes[walked.node].kind != Dir then Missing(NotDirectory)
    else Parent(walked.node, name)
  }

  lemma {:induction false} ResolveAppend(nodes: Nodes, node: nat, a: seq<string>, b: seq<string>)
    ensures Resolve(nodes, node, a + b) ==
            if Resolve(nodes, node, a).Ok? then Resolve(nodes, Resolve(nodes, node, a).node, b)
              else Resolve(nodes, node, a)
    decreases |a|
  {
    if a == [] {
      assert a + b == b;
    } else {
      assert (a + b)[0] == a[0] && (a + b)[1..] == a[1..] + b;
      if node in nodes && nodes[node].kind == Dir {
        ResolveAppend(nodes, node, a[1..], b);
        ResolveAppend(nodes, nodes[node].parent, a[1..], b);
        ResolveAppend(nodes, ChildNamed(nodes, nodes[node].children, a[0]), a[1..], b);
      }
    }
  }

  predicate Agreement(nodes: Nodes, path: string, dir: nat, name: string) {
    && Plain(name) && !DotName(name) && |name| < NAME_MAX && dir in nodes && nodes[dir].kind == Dir
    && Walk(nodes, path) == AsFound(ChildNamed(nodes, nodes[dir].children, name))
  }

  function AsFound(child: nat): Found {
    if child == 0 then NotFound else Ok(child)
  }

  /** On every path the one-step lookup agrees with finding the parent and then the child. */
  lemma LookupAgrees(nodes: Nodes, path: string)
    ensures LookupParent(nodes, path).Parent? ==>
              Agreement(nodes, path, LookupParent(nodes, path).dir, LookupParent(nodes, path).name)
    ensures LookupParent(nodes, path).Missing? ==>
              LookupParent(nodes, path).why == Invalid || Walk(nodes, path) == LookupParent(nodes, path).why
  {
    if path == [] || path[0] != '/' { return; }
    var end := TrimEnd(path, |path|);
    var start := NameStart(path, end);
    var name := path[start..end];
    if start == end || DotName(name) || |name| >= NAME_MAX { return; }
    hide Components, Slash, TrimEnd, NameStart;
    SplitLast(path, start, end);
    ResolveAppend(nodes, ROOT, Components(path[..start]), [name]);
    assert [name][1..] == [];
  }

  lemma SplitLast(path: string, start: nat, end: nat)
    requires start < end <= |path| && (start > 0 ==> path[start - 1] == '/')
    requires (forall i :: start <= i < end ==> path[i] != '/') && forall i :: end <= i < |path| ==> path[i] == '/'
    ensures Components(path) == Components(path[..start]) + [path[start..end]]
  {
    hide Components, Slash;
    var name := path[start..end];
    assert path[start..] == name + path[end..];
    assert path == path[..start] + path[start..];
    LastComponent(name, path[end..]);
    ComponentsAppend(path[..start], name + path[end..]);
  }
}
