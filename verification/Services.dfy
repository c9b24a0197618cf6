/**
 Service validation of userland/pablo/src/service.c: the accepted configurations are
 those with well formed services and an acyclic `after` graph.
 */
module Services {

  datatype Policy = Once | Respawn

  datatype Service = Service(name: string, path: string, after: string, policy: Policy)

  /** The first service of that name, or -1. */
  function Index(s: seq<Service>, name: string): (r: int)
    ensures -1 <= r < |s|
    ensures r >= 0 ==> s[r].name == name
    ensures r < 0 <==> forall k :: 0 <= k < |s| ==> s[k].name != name
  {
    if s == [] then -1
    else if s[0].name == name then 0
    else
      var r := Index(s[1..], name);
      assert forall k :: 0 < k < |s| ==> s[k] == s[1..][k - 1];
      if r < 0 then -1 else r + 1
  }

  /** The service that `i` starts after, or -1. */
  function Parent(s: seq<Service>, i: nat): (r: int)
    requires i < |s|
    ensures -1 <= r < |s|
  {
    if s[i].after == "" then -1 else Index(s, s[i].after)
  }

  /** The service to start after is the one with the name in `after`. */
  lemma ParentNamed(s: seq<Service>, i: nat)
    requires i < |s|
    ensures var p := Parent(s, i);
            if p >= 0 then s[i].after != "" && s[p].name == s[i].after
            else s[i].after == "" || forall k :: 0 <= k < |s| ==> s[k].name != s[i].after
  {
  }

  /** The `n`-th service up the chain of dependencies, or -1 beyond its end. */
  function Follow(s: seq<Service>, i: int, n: nat): (r: int)
    requires -1 <= i < |s|
    ensures -1 <= r < |s|
    decreases n
  {
    if n == 0 || i < 0 then i else Follow(s, Parent(s, i), n - 1)
  }

  ghost predicate WellFormed(s: seq<Service>, i: nat)
    requires i < |s|
  {
    && s[i].name != "" && s[i].path != "" && s[i].path[0] == '/'
    && (s[i].after != "" ==> exists k :: 0 <= k < |s| && s[k].name == s[i].after)
  }

  /** `i` leads back to itself. */
  ghost predicate OnCycle(s: seq<Service>, i: nat)
    requires i < |s|
  {
    exists n: nat :: n > 0 && Follow(s, i, n) == i
  }

  ghost predicate Acceptable(s: seq<Service>) {
    && (forall i :: 0 <= i < |s| ==> WellFormed(s, i))
    && (forall i, j :: 0 <= i < j < |s| ==> s[i].name != s[j].name)
    && (forall i :: 0 <= i < |s| ==> !OnCycle(s, i))
  }

  /** The chain above `i` ends. */
  ghost predicate Rooted(s: seq<Service>, i: int)
    requires -1 <= i < |s|
  {
    exists n: nat :: Follow(s, i, n) == -1
  }

  // ----- Chains

  lemma {:induction false} FollowAdd(s: seq<Service>, i: int, m: nat, n: nat)
    requires -1 <= i < |s|
    ensures Follow(s, i, m + n) == Follow(s, Follow(s, i, m), n)
    decreases m
  {
    if m > 0 && i >= 0 {
      FollowAdd(s, Parent(s, i), m - 1, n);
    }
  }

  lemma {:induction false} RootedAcyclic(s: seq<Service>, i: nat, n: nat, m: nat)
    requires i < |s| && m > 0 && Follow(s, i, n) == -1
    ensures Follow(s, i, m) != i
    decreases n
  {
    if Follow(s, i, m) == i {
      if n < m {
        FollowAdd(s, i, n, m - n);
      } else {
        FollowAdd(s, i, m, n - m);
        RootedAcyclic(s, i, n - m, m);
      }
    }
  }

  lemma RootedUp(s: seq<Service>, i: nat)
    requires i < |s|
    ensures Rooted(s, Parent(s, i)) ==> Rooted(s, i)
  {
    if Rooted(s, Parent(s, i)) {
      var n: nat :| Follow(s, Parent(s, i), n) == -1;
      assert Follow(s, i, n + 1) == -1;
    }
  }

  ghost predicate Above(s: seq<Service>, i: nat, n: nat, x: int)
    requires i < |s|
  {
    exists k: nat :: k <= n && Follow(s, i, k) == x
  }

  /** The first `n` services up a chain that has not ended are all different, unless one is on a cycle. */
  lemma {:induction false} ChainSet(s: seq<Service>, i: nat, n: nat) returns (seen: set<int>)
    requires i < |s| && Follow(s, i, n) >= 0
    requires forall j :: 0 <= j < |s| ==> !OnCycle(s, j)
    ensures |seen| == n + 1 && (forall k :: 0 <= k <= n ==> Follow(s, i, k) in seen)
    ensures forall x :: x in seen ==> 0 <= x < |s| && Above(s, i, n, x)
  {
    if n == 0 {
      seen := {i};
      assert Follow(s, i, n) == i;
      assert Above(s, i, n, i);
    } else {
      if Follow(s, i, n - 1) < 0 {
        FollowAdd(s, i, n - 1, 1);
      }
      var before := ChainSet(s, i, n - 1);
      var x := Follow(s, i, n);
      if x in before {
        var k: nat :| k <= n - 1 && Follow(s, i, k) == x;
        FollowAdd(s, i, k, n - k);
        assert OnCycle(s, x);
      }
      seen := before + {x};
      assert Above(s, i, n, x);
      forall y | y in before ensures Above(s, i, n, y) {
        assert Above(s, i, n - 1, y);
      }
    }
  }

  lemma {:induction false} InRange(seen: set<int>, n: nat)
    requires forall x :: x in seen ==> 0 <= x < n
    ensures |seen| <= n
  {
    if n > 0 {
      InRange(seen - {n - 1}, n - 1);
    } else {
      assert forall x :: x !in seen;
      assert seen == {};
    }
  }

  /** Without cycles every chain ends. */
  lemma AcyclicRooted(s: seq<Service>, i: nat)
    requires i < |s| && forall j :: 0 <= j < |s| ==> !OnCycle(s, j)
    ensures Rooted(s, i)
  {
    if Follow(s, i, |s|) >= 0 {
      var seen := ChainSet(s, i, |s|);
      InRange(seen, |s|);
    }
  }

  // ----- The checker

  method ServiceIndex(s: seq<Service>, name: string) returns (r: int)
    ensures r == Index(s, name)
  {
    var i := 0;
    while i < |s|
      invariant 0 <= i <= |s| && Index(s, name) == (if Index(s[i..], name) < 0 then -1 else Index(s[i..], name) + i)
    {
      assert s[i..][1..] == s[i + 1..] && s[i..][0] == s[i];
      if s[i].name == name {
        return i;
      }
      i := i + 1;
    }
    return -1;
  }

  ghost function Whites(states: seq<nat>): set<nat> {
    set i | 0 <= i < |states| && states[i] == 0
  }

  /** Every visited service has a chain that ends; every service being visited leads to `at`. */
  ghost predicate Colours(s: seq<Service>, states: seq<nat>, at: int)
    requires -1 <= at < |s|
  {
    && |states| == |s| && (forall i :: 0 <= i < |s| ==> states[i] <= 2)
    && (forall i :: 0 <= i < |s| && states[i] == 2 ==> Rooted(s, i))
    && (forall i :: 0 <= i < |s| && states[i] == 1 ==> at >= 0 && Leads(s, i, at))
  }

  ghost predicate Leads(s: seq<Service>, i: nat, at: nat)
    requires i < |s|
  {
    exists n: nat :: n > 0 && Follow(s, i, n) == at
  }

  lemma LeadsOn(s: seq<Service>, i: nat, at: nat)
    requires i < |s| && at < |s| && Leads(s, i, at) && Parent(s, at) >= 0
    ensures Leads(s, i, Parent(s, at))
  {
    var n: nat :| n > 0 && Follow(s, i, n) == at;
    FollowAdd(s, i, n, 1);
    assert Follow(s, at, 1) == Parent(s, at);
    assert Follow(s, i, n + 1) == Parent(s, at);
  }

  lemma Greyed(s: seq<Service>, states: seq<nat>, at: nat)
    requires at < |s| && Colours(s, states, at) && states[at] == 0
    ensures Parent(s, at) >= 0 ==> Colours(s, states[at := 1], Parent(s, at))
    ensures |Whites(states[at := 1])| < |Whites(states)|
  {
    if Parent(s, at) >= 0 {
      assert Follow(s, at, 1) == Parent(s, at);
      forall i | 0 <= i < |s| && states[at := 1][i] == 1 ensures Leads(s, i, Parent(s, at)) {
        if i != at {
          LeadsOn(s, i, at);
        }
      }
    }
    assert Whites(states[at := 1]) == Whites(states) - {at};
    assert at in Whites(states);
  }

  /** The visit of one service: success makes it visited, failure means a bad dependency or a cycle. */
  method VisitDependency(s: seq<Service>, index: nat, states: array<nat>) returns (ok: bool)
    requires index < |s| && states.Length == |s| && Colours(s, states[..], index)
    modifies states
    ensures ok ==> states[index] == 2 && Colours(s, states[..], index)
    ensures ok ==> forall i :: 0 <= i < |s| ==>
      (old(states[i]) == 1 <==> states[i] == 1) && (old(states[i]) == 2 ==> states[i] == 2)
    ensures !ok ==> exists i :: 0 <= i < |s| && (OnCycle(s, i) || !WellFormed(s, i))
    decreases |Whites(states[..])|
  {
    if states[index] == 1 {
      assert states[..][index] == 1;
      assert OnCycle(s, index);
      return false;
    }
    if states[index] == 2 {
      return true;
    }
    ghost var before := states[..];
    Greyed(s, before, index);
    states[index] := 1;
    assert states[..] == before[index := 1];
    if s[index].after != "" {
      var dependency := ServiceIndex(s, s[index].after);
      if dependency < 0 {
        assert !WellFormed(s, index);
        return false;
      }
      var up := VisitDependency(s, dependency, states);
      if !up {
        return false;
      }
      assert states[..][dependency] == 2;
    } else {
      assert Follow(s, -1, 0) == -1;
    }
    RootedUp(s, index);
    ghost var inner := states[..];
    states[index] := 2;
    assert states[..] == inner[index := 2];
    forall i | 0 <= i < |s| && states[..][i] == 1 ensures Leads(s, i, index) {
      assert before[i] == 1;
    }
    ok := true;
  }

  /** The whole check. */
  method Validate(s: seq<Service>) returns (ok: bool)
    ensures ok <==> Acceptable(s)
  {
    var i := 0;
    while i < |s|
      invariant 0 <= i <= |s|
      invariant forall k :: 0 <= k < i ==> WellFormed(s, k)
      invariant forall k, j :: 0 <= k < i && k < j < |s| ==> s[k].name != s[j].name
    {
      if s[i].name == "" || s[i].path == "" || s[i].path[0] != '/' {
        assert !WellFormed(s, i);
        return false;
      }
      var j := i + 1;
      while j < |s|
        invariant i < j <= |s| && forall k :: i < k < j ==> s[i].name != s[k].name
      {
        if s[i].name == s[j].name {
          return false;
        }
        j := j + 1;
      }
      if s[i].after != "" {
        var found := ServiceIndex(s, s[i].after);
        if s[i].after == s[i].name {
          SelfCycle(s, i);
          return false;
        }
        if found < 0 {
          assert !WellFormed(s, i);
          return false;
        }
      }
      i := i + 1;
    }
    var states := new nat[|s|](_ => 0);
    i := 0;
    while i < |s|
      invariant 0 <= i <= |s| && Colours(s, states[..], -1)
      invariant forall k :: 0 <= k < i ==> states[k] == 2
    {
      assert Colours(s, states[..], i);
      var up := VisitDependency(s, i, states);
      if !up {
        return false;
      }
      i := i + 1;
    }
    forall k | 0 <= k < |s| ensures !OnCycle(s, k) {
      assert states[..][k] == 2;
      var n: nat :| Follow(s, k, n) == -1;
      forall m: nat | m > 0 ensures Follow(s, k, m) != k {
        RootedAcyclic(s, k, n, m);
      }
    }
    return true;
  }

  lemma SelfCycle(s: seq<Service>, i: nat)
    requires i < |s| && s[i].after == s[i].name && s[i].after != ""
    ensures !Acceptable(s)
  {
    if Acceptable(s) {
      assert Parent(s, i) == i;
      assert Follow(s, i, 1) == i;
      assert OnCycle(s, i);
    }
  }
}
