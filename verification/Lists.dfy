// The intrusive circular doubly linked list of src/include/klib/list.h. List nodes
// are addresses; the next and prev words of all of them are two maps.
module Lists {
  const NULL: nat := 0

  function Ring(head: nat, s: seq<nat>): (r: seq<nat>)
    ensures |r| == |s| + 1
  {
    [head] + s
  }

  // The node after position i, going round.
  function After(r: seq<nat>, i: nat): nat
    requires i < |r|
  {
    if i + 1 < |r| then r[i + 1] else r[0]
  }

  ghost predicate Distinct(r: seq<nat>) {
    forall i, j :: 0 <= i < j < |r| ==> r[i] != r[j]
  }

  ghost predicate Linked(next: map<nat, nat>, prev: map<nat, nat>, a: nat, b: nat) {
    a in next && next[a] == b && b in prev && prev[b] == a
  }

  // The circle of a ring: each element linked to the next, the last to the first.
  ghost predicate Circle(next: map<nat, nat>, prev: map<nat, nat>, r: seq<nat>) {
    forall i :: 0 <= i < |r| ==> LinkedAt(next, prev, r, i)
  }

  ghost predicate LinkedAt(next: map<nat, nat>, prev: map<nat, nat>, r: seq<nat>, i: nat)
    requires i < |r|
  {
    Linked(next, prev, r[i], After(r, i))
  }

  // The links form a circle through head and the elements s, in order.
  ghost predicate IsList(next: map<nat, nat>, prev: map<nat, nat>, head: nat, s: seq<nat>) {
    Distinct(Ring(head, s)) && Circle(next, prev, Ring(head, s))
  }

  // Links of nodes outside the set are as before.
  ghost predicate SameOutside(m: map<nat, nat>, m': map<nat, nat>, nodes: set<nat>) {
    forall x :: x !in nodes ==> (x in m' <==> x in m) && (x in m ==> m'[x] == m[x])
  }

  function Nodes(head: nat, s: seq<nat>): set<nat> {
    set x | x in Ring(head, s)
  }

  function Insert(s: seq<nat>, k: nat, node: nat): seq<nat>
    requires k <= |s|
  {
    s[..k] + [node] + s[k..]
  }

  function Without(s: seq<nat>, k: nat): seq<nat>
    requires k < |s|
  {
    s[..k] + s[k + 1..]
  }

  lemma InsertLink(next: map<nat, nat>, prev: map<nat, nat>, r: seq<nat>, k: nat, node: nat, i: nat)
    requires Circle(next, prev, r) && Distinct(r) && k < |r| && node !in r && i <= |r|
    ensures var p, n := r[k], After(r, k);
      LinkedAt(next[node := n][p := node], prev[n := node][node := p], Insert(r, k + 1, node), i)
  {
    var r' := Insert(r, k + 1, node);
    if i < k {
      assert LinkedAt(next, prev, r, i);
      assert r'[i] == r[i] && After(r', i) == r[i + 1] && r[i + 1] != After(r, k);
    } else if i == k {
      assert r'[i] == r[k] && After(r', i) == node;
    } else if i == k + 1 {
      assert r'[i] == node && After(r', i) == After(r, k);
    } else {
      assert LinkedAt(next, prev, r, i - 1);
      assert r'[i] == r[i - 1] && After(r', i) == After(r, i - 1);
      assert r[i - 1] != r[k] && After(r, i - 1) != After(r, k);
    }
  }

  // __list_add between the neighbours at position k of the ring.
  lemma InsertKeepsList(next: map<nat, nat>, prev: map<nat, nat>, head: nat, s: seq<nat>, k: nat, node: nat)
    requires IsList(next, prev, head, s) && k <= |s| && node !in Ring(head, s)
    ensures var p, n := Ring(head, s)[k], After(Ring(head, s), k);
      IsList(next[node := n][p := node], prev[n := node][node := p], head, Insert(s, k, node))
  {
    hide LinkedAt;
    var r := Ring(head, s);
    var p, n := r[k], After(r, k);
    assert Ring(head, Insert(s, k, node)) == Insert(r, k + 1, node);
    DistinctInsert(r, k + 1, node);
    var next', prev', r' := next[node := n][p := node], prev[n := node][node := p], Insert(r, k + 1, node);
    forall i | 0 <= i <= |r|
      ensures LinkedAt(next', prev', r', i)
    {
      InsertLink(next, prev, r, k, node, i);
    }
  }

  lemma DistinctInsert(r: seq<nat>, k: nat, node: nat)
    requires Distinct(r) && k <= |r| && node !in r
    ensures Distinct(Insert(r, k, node))
  {
    var r' := Insert(r, k, node);
    forall i, j | 0 <= i < j < |r'|
      ensures r'[i] != r'[j]
    {
      var x, y := if i < k then i else i - 1, if j < k then j else j - 1;
      assert i != k ==> r'[i] == r[x];
      assert j != k ==> r'[j] == r[y];
    }
  }

  lemma RemoveLink(next: map<nat, nat>, prev: map<nat, nat>, r: seq<nat>, k: nat, i: nat)
    requires Circle(next, prev, r) && Distinct(r) && 0 < k < |r| && i < |r| - 1
    ensures var p, n := r[k - 1], After(r, k);
      LinkedAt(next[p := n][r[k] := NULL], prev[n := p][r[k] := NULL], Without(r, k), i)
  {
    var r' := Without(r, k);
    if i < k - 1 {
      assert LinkedAt(next, prev, r, i);
      assert r'[i] == r[i] && After(r', i) == r[i + 1] && r[i + 1] != After(r, k);
    } else if i == k - 1 {
      assert r'[i] == r[k - 1] && After(r', i) == After(r, k);
      assert r[k - 1] != r[k] && After(r, k) != r[k];
    } else {
      assert LinkedAt(next, prev, r, i + 1);
      assert r'[i] == r[i + 1] && After(r', i) == After(r, i + 1);
      assert r[i + 1] != r[k - 1] && After(r, i + 1) != After(r, k) && r[i + 1] != r[k];
    }
  }

  // list_del of the element at position k.
  lemma RemoveKeepsList(next: map<nat, nat>, prev: map<nat, nat>, head: nat, s: seq<nat>, k: nat)
    requires IsList(next, prev, head, s) && k < |s|
    ensures var node := s[k];
      && node in next && node in prev && prev[node] == Ring(head, s)[k] && next[node] == After(Ring(head, s), k + 1)
    ensures var node := s[k]; var p, n := prev[node], next[node];
      IsList(next[p := n][node := NULL], prev[n := p][node := NULL], head, Without(s, k))
  {
    var r := Ring(head, s);
    assert r[k + 1] == s[k];
    assert LinkedAt(next, prev, r, k) && LinkedAt(next, prev, r, k + 1);
    hide LinkedAt;
    assert Ring(head, Without(s, k)) == Without(r, k + 1);
    DistinctWithout(r, k + 1);
    var p, n, r' := r[k], After(r, k + 1), Without(r, k + 1);
    var next', prev' := next[p := n][r[k + 1] := NULL], prev[n := p][r[k + 1] := NULL];
    forall i | 0 <= i < |r| - 1
      ensures LinkedAt(next', prev', r', i)
    {
      RemoveLink(next, prev, r, k + 1, i);
    }
  }

  lemma DistinctWithout(r: seq<nat>, k: nat)
    requires Distinct(r) && k < |r|
    ensures Distinct(Without(r, k))
  {
    var r' := Without(r, k);
    forall i, j | 0 <= i < j < |r'|
      ensures r'[i] != r'[j]
    {
      assert r'[i] == r[if i < k then i else i + 1] && r'[j] == r[if j < k then j else j + 1];
    }
  }

  // A list none of whose nodes was touched is still there.
  lemma OtherListKept(next: map<nat, nat>, prev: map<nat, nat>, next': map<nat, nat>, prev': map<nat, nat>,
                      touched: set<nat>, head: nat, s: seq<nat>)
    requires IsList(next, prev, head, s) && touched !! Nodes(head, s)
    requires SameOutside(next, next', touched) && SameOutside(prev, prev', touched)
    ensures IsList(next', prev', head, s)
  {
    var r := Ring(head, s);
    forall i | 0 <= i <= |s|
      ensures LinkedAt(next', prev', r, i)
    {
      assert LinkedAt(next, prev, r, i);
      assert r[i] in Nodes(head, s) && After(r, i) in Nodes(head, s);
    }
  }

  lemma AfterInRing(head: nat, s: seq<nat>, i: nat)
    requires i <= |s|
    ensures After(Ring(head, s), i) == if i < |s| then s[i] else head
    ensures i < |s| ==> Ring(head, s)[i + 1] == s[i]
    ensures Ring(head, s)[0] == head
  {
  }

  // An element is found by its neighbours: walking next from the head visits s.
  lemma NextIs(next: map<nat, nat>, prev: map<nat, nat>, head: nat, s: seq<nat>, i: nat)
    requires IsList(next, prev, head, s) && i <= |s|
    ensures Ring(head, s)[i] in next && next[Ring(head, s)[i]] == After(Ring(head, s), i)
    ensures After(Ring(head, s), i) == head <==> i == |s|
  {
    var r := Ring(head, s);
    assert i < |s| ==> r[0] != r[i + 1];
    assert LinkedAt(next, prev, r, i);
  }

  class ListMemory {
    var next: map<nat, nat>
    var prev: map<nat, nat>

    constructor ()
      ensures next == map[] && prev == map[]
    {
      next, prev := map[], map[];
    }

    ghost predicate Holds(head: nat, s: seq<nat>)
      reads this
    {
      IsList(next, prev, head, s)
    }

    method InitListHead(list: nat)
      modifies this
      ensures Holds(list, []) && next == old(next)[list := list] && prev == old(prev)[list := list]
      ensures SameOutside(old(next), next, {list}) && SameOutside(old(prev), prev, {list})
    {
      next := next[list := list];
      prev := prev[list := list];
    }

    method AddBetween(node: nat, p: nat, n: nat)
      modifies this
      ensures next == old(next)[node := n][p := node] && prev == old(prev)[n := node][node := p]
    {
      prev := prev[n := node];
      next := next[node := n];
      prev := prev[node := p];
      next := next[p := node];
    }

    method Add(node: nat, head: nat, ghost s: seq<nat>)
      requires Holds(head, s) && node !in Ring(head, s)
      modifies this
      ensures Holds(head, [node] + s)
      ensures SameOutside(old(next), next, Nodes(head, [node] + s)) && SameOutside(old(prev), prev, Nodes(head, [node] + s))
    {
      NextIs(next, prev, head, s, 0);
      InsertKeepsList(next, prev, head, s, 0, node);
      assert Insert(s, 0, node) == [node] + s;
      assert head in Nodes(head, [node] + s) && After(Ring(head, s), 0) in Ring(head, [node] + s);
      AddBetween(node, head, next[head]);
    }

    method AddTail(node: nat, head: nat, ghost s: seq<nat>)
      requires Holds(head, s) && node !in Ring(head, s)
      modifies this
      ensures Holds(head, s + [node])
      ensures SameOutside(old(next), next, Nodes(head, s + [node])) && SameOutside(old(prev), prev, Nodes(head, s + [node]))
    {
      NextIs(next, prev, head, s, |s|);
      InsertKeepsList(next, prev, head, s, |s|, node);
      assert Insert(s, |s|, node) == s + [node];
      assert Ring(head, s)[|s|] in Ring(head, s + [node]) && node in Ring(head, s + [node]);
      assert LinkedAt(next, prev, Ring(head, s), |s|);
      AddBetween(node, prev[head], head);
    }

    method Del(entry: nat, ghost head: nat, ghost s: seq<nat>, ghost k: nat)
      requires Holds(head, s) && k < |s| && s[k] == entry
      modifies this
      ensures Holds(head, Without(s, k))
      ensures next.Keys == old(next).Keys && prev.Keys == old(prev).Keys && entry in next && entry in prev
      ensures next[entry] == NULL && prev[entry] == NULL
      ensures SameOutside(old(next), next, Nodes(head, s)) && SameOutside(old(prev), prev, Nodes(head, s))
    {
      RemoveKeepsList(next, prev, head, s, k);
      NeighboursAreNodes(next, prev, head, s, k);
      var p, n := prev[entry], next[entry];
      prev := prev[n := p];
      next := next[p := n];
      next := next[entry := NULL];
      prev := prev[entry := NULL];
    }

    method IsEmpty(head: nat, ghost s: seq<nat>) returns (b: bool)
      requires Holds(head, s)
      ensures b <==> s == []
    {
      NextIs(next, prev, head, s, 0);
      b := next[head] == head;
    }

    method IsSingular(head: nat, ghost s: seq<nat>) returns (b: bool)
      requires Holds(head, s)
      ensures b <==> |s| == 1
    {
      var empty := IsEmpty(head, s);
      var r := Ring(head, s);
      NextIs(next, prev, head, s, 0);
      assert LinkedAt(next, prev, r, |s|);
      b := !empty && next[head] == prev[head];
    }
  }

  lemma NeighboursAreNodes(next: map<nat, nat>, prev: map<nat, nat>, head: nat, s: seq<nat>, k: nat)
    requires IsList(next, prev, head, s) && k < |s|
    ensures s[k] in next && s[k] in prev
    ensures s[k] in Nodes(head, s) && prev[s[k]] in Nodes(head, s) && next[s[k]] in Nodes(head, s)
    ensures prev[s[k]] in next && next[s[k]] in prev
  {
    var r := Ring(head, s);
    assert r[k + 1] == s[k];
    assert LinkedAt(next, prev, r, k) && LinkedAt(next, prev, r, k + 1);
  }
}
