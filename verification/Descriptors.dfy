/**
 Open files, pipes and vnodes as kernel/task.c counts them.

 A descriptor table is a sequence of file ids, 0 for an empty slot; there is one
 table per task.  A reference may also be held by the kernel itself, in a local
 variable, between two statements: `held` is the multiset of those.
 */
module Descriptors {

  const INT32_MAX: int := 0x7fff_ffff

  datatype Kind = Console | Vfs | PipeRead | PipeWrite

  datatype File = File(refs: int, kind: Kind, pipe: int, node: int)

  datatype Node = Node(refs: int, linked: bool)

  /** `loading` holds the executables that exec has open while it reads them. */
  datatype Desc = Desc(tables: seq<seq<int>>, files: map<int, File>, pipes: map<int, int>,
                       nodes: map<int, Node>, loading: multiset<int>)

  // ----- Counting

  /** How many slots, over all tables, name file `f`. */
  ghost function Uses(tables: seq<seq<int>>, f: int): nat {
    if tables == [] then 0 else Uses(tables[..|tables| - 1], f) + multiset(tables[|tables| - 1])[f]
  }

  ghost function PipeUsers(files: map<int, File>, p: int): set<int> {
    set f | f in files && files[f].pipe == p
  }

  ghost function NodeUsers(files: map<int, File>, n: int): set<int> {
    set f | f in files && files[f].node == n
  }

  ghost predicate WellKinded(file: File) {
    match file.kind
    case Console => file.pipe == 0 && file.node == 0
    case Vfs => file.pipe == 0 && file.node != 0
    case PipeRead => file.pipe != 0 && file.node == 0
    case PipeWrite => file.pipe != 0 && file.node == 0
  }

  /** A file exists exactly while someone refers to it, and counts its referrers. */
  ghost predicate FilesCounted(files: map<int, File>, tables: seq<seq<int>>, held: multiset<int>) {
    && 0 !in files
    && (forall f :: f in files ==>
          files[f].refs == Uses(tables, f) + held[f] && files[f].refs > 0 && WellKinded(files[f]))
    && (forall f :: f != 0 && Uses(tables, f) > 0 ==> f in files)
    && (forall f :: f != 0 && f in held ==> f in files)
  }

  ghost predicate PipesCounted(files: map<int, File>, pipes: map<int, int>) {
    && 0 !in pipes
    && (forall p :: p in pipes ==> pipes[p] == |PipeUsers(files, p)| && pipes[p] > 0)
    && (forall f :: f in files && files[f].pipe != 0 ==> files[f].pipe in pipes)
  }

  /** A vnode counts its open files and loads; once unlinked it lives only as long as they do. */
  ghost predicate NodesCounted(files: map<int, File>, nodes: map<int, Node>, loading: multiset<int>) {
    && 0 !in nodes
    && (forall n :: n in nodes ==> nodes[n].refs == |NodeUsers(files, n)| + loading[n])
    && (forall n :: n in nodes && !nodes[n].linked ==> nodes[n].refs > 0)
    && (forall f :: f in files && files[f].node != 0 ==> files[f].node in nodes)
    && (forall n :: n in loading ==> n in nodes)
  }

  ghost predicate Counted(d: Desc, held: multiset<int>) {
    && FilesCounted(d.files, d.tables, held)
    && PipesCounted(d.files, d.pipes)
    && NodesCounted(d.files, d.nodes, d.loading)
  }

  // ----- Uses under table edits

  lemma {:induction false} UsesUpdate(tables: seq<seq<int>>, t: nat, row: seq<int>, f: int)
    requires t < |tables|
    ensures Uses(tables[t := row], f) + multiset(tables[t])[f] == Uses(tables, f) + multiset(row)[f]
  {
    var r := tables[t := row];
    var n := |tables| - 1;
    if t == n {
      assert r[..n] == tables[..n];
    } else {
      assert r[..n] == tables[..n][t := row];
      UsesUpdate(tables[..n], t, row, f);
    }
  }

  lemma UsesAppend(tables: seq<seq<int>>, row: seq<int>, f: int)
    ensures Uses(tables + [row], f) == Uses(tables, f) + multiset(row)[f]
  {
    assert (tables + [row])[..|tables|] == tables;
  }

  lemma {:induction false} UsesWithout(tables: seq<seq<int>>, t: nat, f: int)
    requires t < |tables|
    ensures Uses(tables[..t] + tables[t + 1..], f) + multiset(tables[t])[f] == Uses(tables, f)
  {
    var r := tables[..t] + tables[t + 1..];
    var n := |tables| - 1;
    if t == n {
      assert r == tables[..n];
    } else {
      assert r[..n - 1] == tables[..n][..t] + tables[..n][t + 1..];
      UsesWithout(tables[..n], t, f);
    }
  }

  lemma RowWrite(row: seq<int>, fd: nat, x: int)
    requires fd < |row|
    ensures multiset(row[fd := x]) == multiset(row) - multiset{row[fd]} + multiset{x}
  {
    assert row == row[..fd] + [row[fd]] + row[fd + 1..];
    assert row[fd := x] == row[..fd] + [x] + row[fd + 1..];
  }

  /** Writing one slot moves the old reference to the kernel and takes the new one from it. */
  lemma SlotWrite(d: Desc, held: multiset<int>, t: nat, fd: nat, x: int)
    requires t < |d.tables| && fd < |d.tables[t]|
    requires Counted(d, held + multiset{x})
    ensures Counted(d.(tables := d.tables[t := d.tables[t][fd := x]]), held + multiset{d.tables[t][fd]})
  {
    var row := d.tables[t];
    var tables := d.tables[t := row[fd := x]];
    var y := row[fd];
    assert y in multiset(row);
    RowWrite(row, fd, x);
    forall f ensures Uses(tables, f) + (held + multiset{y})[f] == Uses(d.tables, f) + (held + multiset{x})[f] {
      UsesUpdate(d.tables, t, row[fd := x], f);
    }
    Recount(d, held + multiset{x}, tables, held + multiset{y});
  }

  /** The count only depends on how many referrers each file has, not on where they are. */
  lemma Recount(d: Desc, held: multiset<int>, tables: seq<seq<int>>, held': multiset<int>)
    requires Counted(d, held)
    requires forall f :: f != 0 ==> Uses(tables, f) + held'[f] == Uses(d.tables, f) + held[f]
    ensures Counted(d.(tables := tables), held')
  {
    forall f | f != 0 && (Uses(tables, f) > 0 || f in held') ensures f in d.files {
      assert Uses(d.tables, f) + held[f] > 0;
    }
  }

  function Zeros(n: nat): (r: seq<int>)
    ensures |r| == n && forall i :: 0 <= i < n ==> r[i] == 0
  {
    seq(n, _ => 0)
  }

  /** Fresh slots are empty, so growing a table refers to nothing new. */
  lemma GrowKeeps(d: Desc, held: multiset<int>, t: nat, n: nat)
    requires t < |d.tables| && Counted(d, held)
    ensures Counted(d.(tables := d.tables[t := d.tables[t] + Zeros(n)]), held)
  {
    var row := d.tables[t] + Zeros(n);
    assert multiset(row) == multiset(d.tables[t]) + multiset(Zeros(n));
    forall f | f != 0 ensures Uses(d.tables[t := row], f) == Uses(d.tables, f) {
      assert f !in Zeros(n);
      UsesUpdate(d.tables, t, row, f);
    }
    Recount(d, held, d.tables[t := row], held);
  }

  lemma SlotLive(d: Desc, held: multiset<int>, t: nat, fd: nat)
    requires t < |d.tables| && fd < |d.tables[t]| && Counted(d, held) && d.tables[t][fd] != 0
    ensures d.tables[t][fd] in d.files
  {
    var f := d.tables[t][fd];
    UsesWithout(d.tables, t, f);
    assert f in multiset(d.tables[t]);
  }

  // ----- Reference counting

  function Get(d: Desc, f: int): Desc
    requires f in d.files
  {
    d.(files := d.files[f := d.files[f].(refs := d.files[f].refs + 1)])
  }

  function PutPipe(pipes: map<int, int>, p: int): map<int, int>
    requires p in pipes
  {
    if pipes[p] - 1 != 0 then pipes[p := pipes[p] - 1] else pipes - {p}
  }

  /** `vfs_close` on the vnode: the last close of an unlinked node releases it. */
  function CloseNode(nodes: map<int, Node>, n: int): map<int, Node>
    requires n in nodes
  {
    var refs := if nodes[n].refs != 0 then nodes[n].refs - 1 else 0;
    if !nodes[n].linked && refs == 0 then nodes - {n} else nodes[n := nodes[n].(refs := refs)]
  }

  predicate Puttable(d: Desc, f: int) {
    f == 0 || (f in d.files
               && (d.files[f].kind.Vfs? ==> d.files[f].node in d.nodes)
               && (d.files[f].pipe != 0 ==> d.files[f].pipe in d.pipes))
  }

  function Put(d: Desc, f: int): Desc
    requires Puttable(d, f)
  {
    if f == 0 then d
    else
      var file := d.files[f];
      if file.refs - 1 != 0 then d.(files := d.files[f := file.(refs := file.refs - 1)])
      else d.(files := d.files - {f},
              nodes := if file.kind.Vfs? then CloseNode(d.nodes, file.node) else d.nodes,
              pipes := if file.pipe != 0 then PutPipe(d.pipes, file.pipe) else d.pipes)
  }

  /** The vnodes that have a name.  Only creating and unlinking may change which these are. */
  ghost function Named(nodes: map<int, Node>): set<int> {
    set n | n in nodes && nodes[n].linked
  }

  /** Closing never takes a vnode that has a name. */
  lemma PutNamed(d: Desc, f: int)
    requires Puttable(d, f)
    ensures Named(Put(d, f).nodes) == Named(d.nodes) && Put(d, f).nodes.Keys <= d.nodes.Keys
  {
    if f != 0 && d.files[f].refs - 1 == 0 && d.files[f].kind.Vfs? {
      CloseNamed(d.nodes, d.files[f].node);
    }
  }

  lemma CloseNamed(nodes: map<int, Node>, n: int)
    requires n in nodes
    ensures Named(CloseNode(nodes, n)) == Named(nodes) && CloseNode(nodes, n).Keys <= nodes.Keys
  {
    forall k ensures k in Named(CloseNode(nodes, n)) <==> k in Named(nodes) {
    }
  }

  lemma OpenNamed(nodes: map<int, Node>, n: int)
    requires n in nodes
    ensures Named(OpenNode(nodes, n)) == Named(nodes)
  {
    forall k ensures k in Named(OpenNode(nodes, n)) <==> k in Named(nodes) {
    }
  }

  /** Two descriptor states with the same files up to their counts. */
  ghost predicate SameIdentity(a: map<int, File>, b: map<int, File>) {
    forall f :: f in a && f in b ==> a[f].(refs := 0) == b[f].(refs := 0)
  }

  lemma UsersSameKeys(a: map<int, File>, b: map<int, File>)
    requires a.Keys == b.Keys && SameIdentity(a, b)
    ensures forall p :: PipeUsers(a, p) == PipeUsers(b, p)
    ensures forall n :: NodeUsers(a, n) == NodeUsers(b, n)
  {
    forall f | f in a ensures a[f].pipe == b[f].pipe && a[f].node == b[f].node {
      assert f in b && a[f].(refs := 0) == b[f].(refs := 0);
    }
    forall p ensures PipeUsers(a, p) == PipeUsers(b, p) {
    }
    forall n ensures NodeUsers(a, n) == NodeUsers(b, n) {
    }
  }

  lemma GetKeeps(d: Desc, held: multiset<int>, f: int)
    requires Counted(d, held) && f in d.files
    ensures Counted(Get(d, f), held + multiset{f}) && SameIdentity(d.files, Get(d, f).files)
    ensures Get(d, f).files.Keys == d.files.Keys
  {
    UsersSameKeys(d.files, Get(d, f).files);
  }

  lemma RemoveUser(files: map<int, File>, f: int)
    requires f in files
    ensures forall p :: |PipeUsers(files - {f}, p)| == |PipeUsers(files, p)| - (if files[f].pipe == p then 1 else 0)
    ensures forall n :: |NodeUsers(files - {f}, n)| == |NodeUsers(files, n)| - (if files[f].node == n then 1 else 0)
  {
    forall p ensures |PipeUsers(files - {f}, p)| == |PipeUsers(files, p)| - (if files[f].pipe == p then 1 else 0) {
      assert PipeUsers(files - {f}, p) == PipeUsers(files, p) - {f};
    }
    forall n ensures |NodeUsers(files - {f}, n)| == |NodeUsers(files, n)| - (if files[f].node == n then 1 else 0) {
      assert NodeUsers(files - {f}, n) == NodeUsers(files, n) - {f};
    }
  }

  lemma PutCount(d: Desc, held: multiset<int>, f: int)
    requires FilesCounted(d.files, d.tables, held + multiset{f}) && f in d.files && Puttable(d, f)
    ensures FilesCounted(Put(d, f).files, d.tables, held)
  {
    assert f in held + multiset{f};
    assert forall g :: g in held ==> g in held + multiset{f};
  }

  /** `file_put` gives up one reference; the file, its pipe and its vnode go exactly when
      the last of theirs does. */
  lemma PutKeeps(d: Desc, held: multiset<int>, f: int)
    requires Counted(d, held + multiset{f})
    ensures Puttable(d, f) && Counted(Put(d, f), held)
    ensures SameIdentity(d.files, Put(d, f).files) && Put(d, f).files.Keys <= d.files.Keys
  {
    hide PipesCounted, NodesCounted;
    if f == 0 {
      Recount(d, held + multiset{f}, d.tables, held);
      return;
    }
    assert f in held + multiset{f};
    PutPuttable(d, f);
    PutCount(d, held, f);
    if d.files[f].refs > 1 {
      UsersSameKeys(d.files, Put(d, f).files);
      SameUsersCounted(d, Put(d, f).files);
    } else {
      PutLast(d, f);
    }
  }

  lemma PutPuttable(d: Desc, f: int)
    requires PipesCounted(d.files, d.pipes) && NodesCounted(d.files, d.nodes, d.loading)
    requires f in d.files && WellKinded(d.files[f])
    ensures Puttable(d, f)
  {
  }

  lemma SameUsersCounted(d: Desc, files: map<int, File>)
    requires PipesCounted(d.files, d.pipes) && NodesCounted(d.files, d.nodes, d.loading)
    requires files.Keys == d.files.Keys && SameIdentity(d.files, files)
    ensures PipesCounted(files, d.pipes) && NodesCounted(files, d.nodes, d.loading)
  {
    UsersSameKeys(d.files, files);
    forall f | f in files ensures files[f].pipe == d.files[f].pipe && files[f].node == d.files[f].node {
      assert f in d.files && d.files[f].(refs := 0) == files[f].(refs := 0);
    }
  }

  lemma PutLast(d: Desc, f: int)
    requires PipesCounted(d.files, d.pipes) && NodesCounted(d.files, d.nodes, d.loading)
    requires f in d.files && f != 0 && WellKinded(d.files[f]) && d.files[f].refs == 1
    ensures Puttable(d, f)
    ensures PipesCounted(Put(d, f).files, Put(d, f).pipes)
    ensures NodesCounted(Put(d, f).files, Put(d, f).nodes, d.loading)
  {
    PutPuttable(d, f);
    RemoveUser(d.files, f);
    PutLastPipe(d, f);
    PutLastNode(d, f);
  }

  lemma PutLastPipe(d: Desc, f: int)
    requires PipesCounted(d.files, d.pipes) && Puttable(d, f) && f in d.files && f != 0 && d.files[f].refs == 1
    requires forall p :: |PipeUsers(d.files - {f}, p)| ==
               |PipeUsers(d.files, p)| - (if d.files[f].pipe == p then 1 else 0)
    ensures PipesCounted(Put(d, f).files, Put(d, f).pipes)
  {
    var e := Put(d, f);
    forall g | g in e.files && e.files[g].pipe != 0 ensures e.files[g].pipe in e.pipes {
      var p := e.files[g].pipe;
      assert g in PipeUsers(e.files, p);
    }
  }

  lemma PutLastNode(d: Desc, f: int)
    requires NodesCounted(d.files, d.nodes, d.loading) && Puttable(d, f) && f in d.files && f != 0
    requires d.files[f].refs == 1
    requires WellKinded(d.files[f])
    requires forall n :: |NodeUsers(d.files - {f}, n)| ==
               |NodeUsers(d.files, n)| - (if d.files[f].node == n then 1 else 0)
    ensures NodesCounted(Put(d, f).files, Put(d, f).nodes, d.loading)
  {
    var e := Put(d, f);
    forall g | g in e.files && e.files[g].node != 0 ensures e.files[g].node in e.nodes {
      var n := e.files[g].node;
      assert g in NodeUsers(e.files, n);
    }
  }

  // ----- New objects

  lemma AddUser(files: map<int, File>, f: int, file: File)
    requires f !in files
    ensures forall p :: |PipeUsers(files[f := file], p)| == |PipeUsers(files, p)| + (if file.pipe == p then 1 else 0)
    ensures forall n :: |NodeUsers(files[f := file], n)| == |NodeUsers(files, n)| + (if file.node == n then 1 else 0)
  {
    var more := files[f := file];
    assert more - {f} == files;
    RemoveUser(more, f);
  }

  function OpenNode(nodes: map<int, Node>, n: int): map<int, Node>
    requires n in nodes
  {
    nodes[n := nodes[n].(refs := nodes[n].refs + 1)]
  }

  /** A new file that is on no pipe comes with one reference, held by the kernel. */
  lemma NewKeeps(d: Desc, held: multiset<int>, f: int, file: File)
    requires Counted(d, held) && f !in d.files && f != 0 && file.refs == 1 && WellKinded(file) && file.pipe == 0
    requires file.node != 0 ==> file.node in d.nodes
    ensures var nodes := if file.node != 0 then OpenNode(d.nodes, file.node) else d.nodes;
            Counted(d.(files := d.files[f := file], nodes := nodes), held + multiset{f})
  {
    var files := d.files[f := file];
    var nodes := if file.node != 0 then OpenNode(d.nodes, file.node) else d.nodes;
    AddUser(d.files, f, file);
    assert Uses(d.tables, f) == 0 && f !in held;
    assert FilesCounted(files, d.tables, held + multiset{f});
    assert PipesCounted(files, d.pipes);
    assert NodesCounted(files, nodes, d.loading);
  }

  /** A new pipe comes with both its ends, each with one reference held by the kernel. */
  lemma NewPipeKeeps(d: Desc, held: multiset<int>, p: int, r: int, w: int)
    requires Counted(d, held) && p !in d.pipes && p != 0
    requires r !in d.files && w !in d.files && r != 0 && w != 0 && r != w
    ensures Counted(d.(files := d.files[r := File(1, PipeRead, p, 0)][w := File(1, PipeWrite, p, 0)],
                       pipes := d.pipes[p := 2]), held + multiset{r, w})
  {
    hide PipesCounted, NodesCounted;
    var files := d.files[r := File(1, PipeRead, p, 0)][w := File(1, PipeWrite, p, 0)];
    NewPipePipes(d, p, r, w);
    assert Uses(d.tables, r) == 0 && r !in held && Uses(d.tables, w) == 0 && w !in held;
    assert FilesCounted(files, d.tables, held + multiset{r, w});
  }

  lemma NewPipePipes(d: Desc, p: int, r: int, w: int)
    requires PipesCounted(d.files, d.pipes) && NodesCounted(d.files, d.nodes, d.loading) && p !in d.pipes && p != 0
    requires r !in d.files && w !in d.files && r != w
    ensures var files := d.files[r := File(1, PipeRead, p, 0)][w := File(1, PipeWrite, p, 0)];
            PipesCounted(files, d.pipes[p := 2]) && NodesCounted(files, d.nodes, d.loading)
  {
    var one := d.files[r := File(1, PipeRead, p, 0)];
    AddUser(d.files, r, File(1, PipeRead, p, 0));
    AddUser(one, w, File(1, PipeWrite, p, 0));
    assert forall f :: f in d.files ==> d.files[f].pipe != p;
    assert PipeUsers(d.files, p) == {};
  }

  // ----- Tables appear and disappear with their tasks

  /** A fork's table takes over the references the kernel took for it. */
  lemma AppendKeeps(d: Desc, held: multiset<int>, row: seq<int>)
    requires Counted(d, held + multiset(row))
    ensures Counted(d.(tables := d.tables + [row]), held)
  {
    forall f ensures Uses(d.tables + [row], f) == Uses(d.tables, f) + multiset(row)[f] {
      UsesAppend(d.tables, row, f);
    }
    Recount(d, held + multiset(row), d.tables + [row], held);
  }

  /** Emptying a table hands all its references to the kernel, to be put one by one. */
  lemma DetachKeeps(d: Desc, held: multiset<int>, t: nat)
    requires t < |d.tables| && Counted(d, held)
    ensures Counted(d.(tables := d.tables[t := []]), held + multiset(d.tables[t]))
  {
    forall f ensures Uses(d.tables[t := []], f) + multiset(d.tables[t])[f] == Uses(d.tables, f) {
      UsesUpdate(d.tables, t, [], f);
    }
    Recount(d, held, d.tables[t := []], held + multiset(d.tables[t]));
  }

  lemma DropTableKeeps(d: Desc, held: multiset<int>, t: nat)
    requires t < |d.tables| && d.tables[t] == [] && Counted(d, held)
    ensures Counted(d.(tables := d.tables[..t] + d.tables[t + 1..]), held)
  {
    forall f ensures Uses(d.tables[..t] + d.tables[t + 1..], f) == Uses(d.tables, f) {
      UsesWithout(d.tables, t, f);
    }
    Recount(d, held, d.tables[..t] + d.tables[t + 1..], held);
  }

  // ----- Choosing a descriptor number

  /** The lowest empty slot at or after `i`; past the end every slot counts as empty. */
  function LowestFree(row: seq<int>, i: nat): (fd: nat)
    ensures fd >= i && (fd < |row| ==> row[fd] == 0)
    ensures fd == i || fd <= |row|
    ensures forall j :: i <= j < fd && j < |row| ==> row[j] != 0
    decreases if i < |row| then |row| - i else 0
  {
    if i < |row| && row[i] != 0 then LowestFree(row, i + 1) else i
  }

  /** Doubling `count` until it exceeds `fd`, saturating at INT32_MAX. */
  function Capacity(count: int, fd: int): (r: int)
    requires 0 < count <= INT32_MAX && 0 <= fd < INT32_MAX
    ensures count <= r && fd < r <= INT32_MAX
    ensures count > fd ==> r == count
    ensures count <= fd ==> r == INT32_MAX || r <= 2 * fd
    decreases INT32_MAX - count
  {
    if count <= fd then Capacity(if count > INT32_MAX / 2 then INT32_MAX else count * 2, fd) else count
  }
}
