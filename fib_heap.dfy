/** src/wfc/fib_heap.rs: a Fibonacci heap of grid positions keyed by a `u8` priority. A node is
  * named by its key (the source's `PartialEq` compares keys, and `map` holds one node per key), so
  * the `Rc<RefCell<FibHeapNode>>` links become positions in a map of node records. */
module FibHeaps {
  import opened Prelude
  import opened Vec3

  /** A `FibHeapNode` without its key: priority, mark, parent and the `LinkedList` of children. */
  datatype Node = Node(value: U8, marked: bool, parent: Option<Pos>, children: seq<Pos>)

  // ---------------------------------------------------------------------------
  // Sequences of positions

  predicate NoDup(s: seq<Pos>) {
    forall i, j :: 0 <= i < j < |s| ==> s[i] != s[j]
  }

  function Elements(s: seq<Pos>): set<Pos> {
    set x | x in s
  }

  /** `iter().position(|a| a.key == x).unwrap()`: the index of the first occurrence of `x`. */
  function IndexOf(s: seq<Pos>, x: Pos): (i: nat)
    requires x in s
    ensures i < |s| && s[i] == x && x !in s[..i]
  {
    if s[0] == x then 0 else
      var i := IndexOf(s[1..], x);
      assert s[1..][..i] == s[1..i + 1];
      i + 1
  }

  /** `LinkedList::remove(i)` on a list without duplicates takes exactly `s[i]` out. */
  lemma RemoveAt(s: seq<Pos>, i: nat)
    requires NoDup(s) && i < |s|
    ensures NoDup(s[..i] + s[i + 1..]) && Elements(s[..i] + s[i + 1..]) == Elements(s) - {s[i]}
  {
    var t := s[..i] + s[i + 1..];
    forall a, b | 0 <= a < b < |t| ensures t[a] != t[b] {
      var a' := if a < i then a else a + 1;
      var b' := if b < i then b else b + 1;
      assert t[a] == s[a'] && t[b] == s[b'];
    }
    forall x | x in Elements(s) - {s[i]} ensures x in Elements(t) {
      var k :| 0 <= k < |s| && s[k] == x;
      if k < i { assert t[k] == x; } else { assert t[k - 1] == x; }
    }
  }

  // ---------------------------------------------------------------------------
  // The shape of the heap

  /** The roots are nodes, and a node is a root exactly when it has no parent. */
  ghost predicate TopsOk(nodes: map<Pos, Node>, tops: set<Pos>) {
    tops <= nodes.Keys && forall n {:trigger nodes[n].parent} :: n in nodes ==> (nodes[n].parent.None? <==> n in tops)
  }

  /** No child list holds a position twice. */
  ghost predicate ChildLists(nodes: map<Pos, Node>) {
    forall n {:trigger nodes[n].children} :: n in nodes ==> NoDup(nodes[n].children)
  }

  /** A node's parent is a node that lists it among its children. */
  ghost predicate ParentLinks(nodes: map<Pos, Node>) {
    forall n {:trigger nodes[n].parent} :: n in nodes && nodes[n].parent.Some? ==>
      nodes[n].parent.value in nodes && n in nodes[nodes[n].parent.value].children
  }

  /** A listed child is a node that points back at its parent. */
  ghost predicate ChildLinks(nodes: map<Pos, Node>) {
    forall n, i {:trigger nodes[n].children[i]} :: n in nodes && 0 <= i < |nodes[n].children| ==>
      nodes[n].children[i] in nodes && nodes[nodes[n].children[i]].parent == Some(n)
  }

  /** Every node has a level, and a listed child's is strictly below its parent's. */
  ghost predicate Levels(nodes: map<Pos, Node>, level: map<Pos, nat>) {
    (forall n :: n in nodes ==> n in level) &&
    (forall n, i {:trigger nodes[n].children[i]} :: n in nodes && 0 <= i < |nodes[n].children| && nodes[n].children[i] in nodes ==>
      level[nodes[n].children[i]] < level[n])
  }

  /** The links form a forest whose roots are `tops`; `level` rises strictly from a child to its
    * parent, so parent chains end. */
  ghost predicate Forest(nodes: map<Pos, Node>, tops: set<Pos>, level: map<Pos, nat>) {
    TopsOk(nodes, tops) && ChildLists(nodes) && ParentLinks(nodes) && ChildLinks(nodes) && Levels(nodes, level)
  }

  /** Heap order: no child has a smaller priority than its parent. */
  ghost predicate HeapOrdered(nodes: map<Pos, Node>) {
    forall n, i {:trigger nodes[n].children[i]} :: n in nodes && 0 <= i < |nodes[n].children| && nodes[n].children[i] in nodes ==>
      nodes[n].value <= nodes[nodes[n].children[i]].value
  }

  /** Heap order except possibly between `x` and its parent. */
  ghost predicate HeapOrderedExcept(nodes: map<Pos, Node>, x: Pos) {
    forall n, i {:trigger nodes[n].children[i]} ::
      (n in nodes && 0 <= i < |nodes[n].children| && nodes[n].children[i] in nodes && nodes[n].children[i] != x) ==>
      nodes[n].value <= nodes[nodes[n].children[i]].value
  }

  /** `min` is None exactly when the heap is empty, and otherwise a root whose priority is at most
    * that of every node. */
  ghost predicate MinOk(nodes: map<Pos, Node>, roots: seq<Pos>, min: Option<Pos>) {
    (min.None? <==> nodes == map[]) &&
    (min.Some? ==> min.value in roots && min.value in nodes &&
                   forall n :: n in nodes ==> nodes[min.value].value <= nodes[n].value)
  }

  /** The `ranked` map of `consolidate`: every entry is a node whose rank (number of children) is
    * its key. */
  ghost predicate RankedOk(nodes: map<Pos, Node>, ranked: map<nat, Pos>) {
    forall r :: r in ranked ==> ranked[r] in nodes && |nodes[ranked[r]].children| == r
  }

  /** No two roots after the first share a rank. */
  ghost predicate OneRootPerRank(nodes: map<Pos, Node>, roots: seq<Pos>) {
    forall i, j :: 1 <= i < j < |roots| && roots[i] in nodes && roots[j] in nodes ==>
      |nodes[roots[i]].children| != |nodes[roots[j]].children|
  }

  /** A bound on every level. */
  ghost function MaxLevel(level: map<Pos, nat>): (m: nat)
    ensures forall n :: n in level ==> level[n] <= m
    decreases |level.Keys|
  {
    if level == map[] then 0 else
      var n :| n in level;
      var rest := level - {n};
      assert level.Keys == rest.Keys + {n};
      var m := MaxLevel(rest);
      if level[n] > m then level[n] else m
  }

  // ---------------------------------------------------------------------------
  // How the operations change the nodes. Each change has one lemma per part of `Forest`.

  /** Two node maps with the same positions, parents and children: only priorities and marks
    * differ. */
  ghost predicate SameShape(a: map<Pos, Node>, b: map<Pos, Node>) {
    a.Keys == b.Keys &&
    forall n :: n in a ==> a[n].parent == b[n].parent && a[n].children == b[n].children
  }

  /** Changing priorities and marks leaves the forest as it is. */
  lemma ShapeKeepsForest(a: map<Pos, Node>, b: map<Pos, Node>, tops: set<Pos>, level: map<Pos, nat>)
    requires SameShape(a, b) && Forest(a, tops, level)
    ensures Forest(b, tops, level)
  {
    forall n | n in b && b[n].parent.Some?
      ensures b[n].parent.value in b && n in b[b[n].parent.value].children
    {
      assert a[n].parent == b[n].parent;
    }
    forall n, i | n in b && 0 <= i < |b[n].children|
      ensures b[n].children[i] in b && b[b[n].children[i]].parent == Some(n)
      ensures level[b[n].children[i]] < level[n]
    {
      assert a[n].children[i] == b[n].children[i];
    }
  }

  /** `insert` on the nodes: a new parentless, childless node. */
  function Inserted(nodes: map<Pos, Node>, x: Pos, v: U8): map<Pos, Node> {
    nodes[x := Node(v, false, None, [])]
  }

  lemma InsertKeepsForest(nodes: map<Pos, Node>, tops: set<Pos>, level: map<Pos, nat>, x: Pos, v: U8)
    requires Forest(nodes, tops, level) && HeapOrdered(nodes) && x !in nodes
    ensures Forest(Inserted(nodes, x, v), tops + {x}, level[x := 0]) && HeapOrdered(Inserted(nodes, x, v))
  {
    var after := Inserted(nodes, x, v);
    forall n, i | n in after && 0 <= i < |after[n].children|
      ensures after[n].children[i] in after && after[after[n].children[i]].parent == Some(n)
      ensures level[x := 0][after[n].children[i]] < level[x := 0][n]
    {
      assert n != x && after[n].children[i] == nodes[n].children[i];
    }
  }

  /** Pushing a position that is not a root yet to the front of the roots. */
  lemma PushRoot(roots: seq<Pos>, x: Pos)
    requires NoDup(roots) && x !in roots
    ensures NoDup([x] + roots) && Elements([x] + roots) == Elements(roots) + {x}
  {
  }

  /** `cut(c, p)` on the nodes: `c` leaves the children of `p`, loses its parent and its mark. */
  function CutNodes(nodes: map<Pos, Node>, c: Pos, p: Pos): map<Pos, Node>
    requires c in nodes && p in nodes && c in nodes[p].children
  {
    var siblings := nodes[p].children;
    var i := IndexOf(siblings, c);
    nodes[p := nodes[p].(children := siblings[..i] + siblings[i + 1..])][c := nodes[c].(parent := None, marked := false)]
  }

  /** What the cut lemmas below start from: `c` is a child of `p`, and the new child list of `p`
    * is the old one without `c`. */
  ghost predicate CutFacts(nodes: map<Pos, Node>, c: Pos, p: Pos) {
    c in nodes && p in nodes && c != p && nodes[c].parent == Some(p) && c in nodes[p].children &&
    NoDup(CutNodes(nodes, c, p)[p].children) &&
    Elements(CutNodes(nodes, c, p)[p].children) == Elements(nodes[p].children) - {c}
  }

  lemma CutSiblings(nodes: map<Pos, Node>, level: map<Pos, nat>, c: Pos, p: Pos)
    requires ChildLists(nodes) && ParentLinks(nodes) && Levels(nodes, level)
    requires c in nodes && nodes[c].parent == Some(p)
    ensures CutFacts(nodes, c, p)
  {
    var siblings := nodes[p].children;
    var i := IndexOf(siblings, c);
    assert siblings[i] == c;
    RemoveAt(siblings, i);
  }

  /** A child of `n` after the cut was a child of `n` before it, other than `c`. */
  lemma CutChild(nodes: map<Pos, Node>, c: Pos, p: Pos, n: Pos, i: nat)
    requires CutFacts(nodes, c, p) && n in nodes && i < |CutNodes(nodes, c, p)[n].children|
    ensures exists j :: 0 <= j < |nodes[n].children| && nodes[n].children[j] == CutNodes(nodes, c, p)[n].children[i]
    ensures n == p ==> CutNodes(nodes, c, p)[n].children[i] != c
  {
    var after := CutNodes(nodes, c, p);
    var k := after[n].children[i];
    if n == p {
      assert k in Elements(after[p].children);
      assert k in Elements(nodes[p].children) - {c};
    } else {
      assert after[n].children == nodes[n].children;
    }
    assert k in nodes[n].children;
  }

  lemma CutTops(nodes: map<Pos, Node>, tops: set<Pos>, c: Pos, p: Pos)
    requires TopsOk(nodes, tops) && ChildLists(nodes) && CutFacts(nodes, c, p)
    ensures TopsOk(CutNodes(nodes, c, p), tops + {c}) && ChildLists(CutNodes(nodes, c, p))
  {
  }

  lemma CutParents(nodes: map<Pos, Node>, c: Pos, p: Pos)
    requires ParentLinks(nodes) && CutFacts(nodes, c, p)
    ensures ParentLinks(CutNodes(nodes, c, p))
  {
    var after := CutNodes(nodes, c, p);
    forall n | n in after && after[n].parent.Some?
      ensures after[n].parent.value in after && n in after[after[n].parent.value].children
    {
      var q := after[n].parent.value;
      assert nodes[n].parent == Some(q);
      if q == p {
        assert n in Elements(nodes[p].children) - {c};
        assert n in Elements(after[p].children);
      }
    }
  }

  lemma CutChildren(nodes: map<Pos, Node>, c: Pos, p: Pos)
    requires ChildLinks(nodes) && CutFacts(nodes, c, p)
    ensures ChildLinks(CutNodes(nodes, c, p))
  {
    var after := CutNodes(nodes, c, p);
    forall n, i | n in after && 0 <= i < |after[n].children|
      ensures after[n].children[i] in after && after[after[n].children[i]].parent == Some(n)
    {
      CutChild(nodes, c, p, n, i);
    }
  }

  lemma CutLevels(nodes: map<Pos, Node>, level: map<Pos, nat>, c: Pos, p: Pos)
    requires Levels(nodes, level) && CutFacts(nodes, c, p)
    ensures Levels(CutNodes(nodes, c, p), level)
  {
    var after := CutNodes(nodes, c, p);
    forall n, i | n in after && 0 <= i < |after[n].children| && after[n].children[i] in after
      ensures level[after[n].children[i]] < level[n]
    {
      CutChild(nodes, c, p, n, i);
    }
  }

  lemma CutOrder(nodes: map<Pos, Node>, c: Pos, p: Pos)
    requires ChildLinks(nodes) && HeapOrderedExcept(nodes, c) && CutFacts(nodes, c, p)
    ensures HeapOrdered(CutNodes(nodes, c, p))
  {
    var after := CutNodes(nodes, c, p);
    forall n, i | n in after && 0 <= i < |after[n].children| && after[n].children[i] in after
      ensures after[n].value <= after[after[n].children[i]].value
    {
      CutChild(nodes, c, p, n, i);
    }
  }

  /** Cutting a child from its parent makes it one more root. */
  lemma CutKeepsForest(nodes: map<Pos, Node>, tops: set<Pos>, level: map<Pos, nat>, c: Pos, p: Pos)
    requires Forest(nodes, tops, level) && c in nodes && nodes[c].parent == Some(p)
    requires HeapOrderedExcept(nodes, c)
    ensures p in nodes && c in nodes[p].children
    ensures Forest(CutNodes(nodes, c, p), tops + {c}, level) && HeapOrdered(CutNodes(nodes, c, p))
  {
    CutSiblings(nodes, level, c, p);
    CutTops(nodes, tops, c, p);
    CutParents(nodes, c, p);
    CutChildren(nodes, c, p);
    CutLevels(nodes, level, c, p);
    CutOrder(nodes, c, p);
  }

  /** `parent` adopts `child` (src/wfc/fib_heap.rs:139-143 and 149-153): `child` is pushed to the
    * front of the children of `parent`, which is unmarked, and points back at it. */
  function Adopted(nodes: map<Pos, Node>, parent: Pos, child: Pos): map<Pos, Node>
    requires parent in nodes && child in nodes
  {
    nodes[parent := nodes[parent].(children := [child] + nodes[parent].children, marked := false)]
         [child := nodes[child].(parent := Some(parent))]
  }

  /** The levels after an adoption: the parent rises above the child if it has to. */
  function AdoptedLevel(level: map<Pos, nat>, parent: Pos, child: Pos): map<Pos, nat>
    requires parent in level && child in level
  {
    level[parent := if level[parent] > level[child] then level[parent] else level[child] + 1]
  }

  /** What the adoption lemmas below start from: two distinct parentless nodes. */
  ghost predicate AdoptFacts(nodes: map<Pos, Node>, a: Pos, b: Pos) {
    a in nodes && b in nodes && a != b && nodes[a].parent.None? && nodes[b].parent.None? &&
    b !in nodes[a].children
  }

  /** A child of `n` after the adoption is `b` under `a`, or was a child of `n` before it and is
    * neither `a` nor `b`. */
  lemma AdoptChild(nodes: map<Pos, Node>, a: Pos, b: Pos, n: Pos, i: nat)
    requires ChildLinks(nodes) && AdoptFacts(nodes, a, b) && n in nodes && i < |Adopted(nodes, a, b)[n].children|
    ensures var k := Adopted(nodes, a, b)[n].children[i];
      (n == a && i == 0 && k == b) ||
      (k != a && k != b && (exists j :: 0 <= j < |nodes[n].children| && nodes[n].children[j] == k) && nodes[k].parent == Some(n))
  {
    var after := Adopted(nodes, a, b);
    if n == a && i > 0 {
      assert after[a].children[i] == nodes[a].children[i - 1];
    } else if n != a {
      assert after[n].children[i] == nodes[n].children[i];
    }
  }

  lemma AdoptTops(nodes: map<Pos, Node>, tops: set<Pos>, a: Pos, b: Pos)
    requires TopsOk(nodes, tops) && ChildLists(nodes) && AdoptFacts(nodes, a, b)
    ensures TopsOk(Adopted(nodes, a, b), tops - {b}) && ChildLists(Adopted(nodes, a, b))
  {
  }

  lemma AdoptParents(nodes: map<Pos, Node>, a: Pos, b: Pos)
    requires ParentLinks(nodes) && AdoptFacts(nodes, a, b)
    ensures ParentLinks(Adopted(nodes, a, b))
  {
    var after := Adopted(nodes, a, b);
    forall n | n in after && after[n].parent.Some?
      ensures after[n].parent.value in after && n in after[after[n].parent.value].children
    {
      if n != b {
        assert nodes[n].parent == after[n].parent;
      }
    }
  }

  lemma AdoptChildren(nodes: map<Pos, Node>, a: Pos, b: Pos)
    requires ChildLinks(nodes) && AdoptFacts(nodes, a, b)
    ensures ChildLinks(Adopted(nodes, a, b))
  {
    var after := Adopted(nodes, a, b);
    forall n, i | n in after && 0 <= i < |after[n].children|
      ensures after[n].children[i] in after && after[after[n].children[i]].parent == Some(n)
    {
      AdoptChild(nodes, a, b, n, i);
    }
  }

  lemma AdoptLevels(nodes: map<Pos, Node>, level: map<Pos, nat>, a: Pos, b: Pos)
    requires ChildLinks(nodes) && Levels(nodes, level) && AdoptFacts(nodes, a, b)
    ensures Levels(Adopted(nodes, a, b), AdoptedLevel(level, a, b))
  {
    var after := Adopted(nodes, a, b);
    var lv := AdoptedLevel(level, a, b);
    forall n, i | n in after && 0 <= i < |after[n].children| && after[n].children[i] in after
      ensures lv[after[n].children[i]] < lv[n]
    {
      AdoptChild(nodes, a, b, n, i);
    }
  }

  lemma AdoptOrder(nodes: map<Pos, Node>, a: Pos, b: Pos)
    requires ChildLinks(nodes) && HeapOrdered(nodes) && AdoptFacts(nodes, a, b) && nodes[a].value <= nodes[b].value
    ensures HeapOrdered(Adopted(nodes, a, b))
  {
    var after := Adopted(nodes, a, b);
    forall n, i | n in after && 0 <= i < |after[n].children| && after[n].children[i] in after
      ensures after[n].value <= after[after[n].children[i]].value
    {
      AdoptChild(nodes, a, b, n, i);
    }
  }

  /** Linking two roots leaves one root fewer, still heap ordered. */
  lemma AdoptKeepsForest(nodes: map<Pos, Node>, tops: set<Pos>, level: map<Pos, nat>, a: Pos, b: Pos)
    requires Forest(nodes, tops, level) && HeapOrdered(nodes)
    requires a in tops && b in tops && a != b && nodes[a].value <= nodes[b].value
    ensures Forest(Adopted(nodes, a, b), tops - {b}, AdoptedLevel(level, a, b))
    ensures HeapOrdered(Adopted(nodes, a, b))
  {
    forall j | 0 <= j < |nodes[a].children| ensures nodes[a].children[j] != b {
      assert nodes[nodes[a].children[j]].parent == Some(a);
    }
    AdoptTops(nodes, tops, a, b);
    AdoptParents(nodes, a, b);
    AdoptChildren(nodes, a, b);
    AdoptLevels(nodes, level, a, b);
    AdoptOrder(nodes, a, b);
  }

  /** `pop_min` on the nodes: the children of `m` lose their parent and `m` is removed. */
  function Popped(nodes: map<Pos, Node>, m: Pos): map<Pos, Node>
    requires m in nodes
  {
    map n | n in nodes && n != m :: if n in nodes[m].children then nodes[n].(parent := None) else nodes[n]
  }

  lemma PopTops(nodes: map<Pos, Node>, tops: set<Pos>, m: Pos)
    requires TopsOk(nodes, tops) && ChildLists(nodes) && ParentLinks(nodes) && ChildLinks(nodes) && m in tops
    ensures TopsOk(Popped(nodes, m), tops - {m} + Elements(nodes[m].children))
    ensures ChildLists(Popped(nodes, m))
  {
    var after := Popped(nodes, m);
    forall n | n in after ensures after[n].parent.None? <==> n in tops - {m} + Elements(nodes[m].children) {
      if n in nodes[m].children {
        var j :| 0 <= j < |nodes[m].children| && nodes[m].children[j] == n;
        assert nodes[n].parent == Some(m);
      } else if nodes[n].parent.Some? {
        assert nodes[n].parent != Some(m);
      }
    }
    forall c | c in Elements(nodes[m].children) ensures c in after {
      var j :| 0 <= j < |nodes[m].children| && nodes[m].children[j] == c;
      assert nodes[c].parent == Some(m);
    }
  }

  lemma PopParents(nodes: map<Pos, Node>, m: Pos)
    requires ParentLinks(nodes) && m in nodes
    ensures ParentLinks(Popped(nodes, m))
  {
    var after := Popped(nodes, m);
    forall n | n in after && after[n].parent.Some?
      ensures after[n].parent.value in after && n in after[after[n].parent.value].children
    {
      assert n !in nodes[m].children;
      assert nodes[n].parent == after[n].parent;
    }
  }

  lemma PopChildren(nodes: map<Pos, Node>, m: Pos)
    requires ChildLinks(nodes) && m in nodes && nodes[m].parent.None?
    ensures ChildLinks(Popped(nodes, m))
  {
    var after := Popped(nodes, m);
    forall n, i | n in after && 0 <= i < |after[n].children|
      ensures after[n].children[i] in after && after[after[n].children[i]].parent == Some(n)
    {
      var k := nodes[n].children[i];
      assert nodes[k].parent == Some(n);
      forall j | 0 <= j < |nodes[m].children| ensures nodes[m].children[j] != k {
        assert nodes[nodes[m].children[j]].parent == Some(m);
      }
    }
  }

  lemma PopLevelsOrder(nodes: map<Pos, Node>, level: map<Pos, nat>, m: Pos)
    requires Levels(nodes, level) && HeapOrdered(nodes) && m in nodes
    ensures Levels(Popped(nodes, m), level) && HeapOrdered(Popped(nodes, m))
  {
    var after := Popped(nodes, m);
    forall n, i | n in after && 0 <= i < |after[n].children| && after[n].children[i] in after
      ensures level[after[n].children[i]] < level[n] && after[n].value <= after[after[n].children[i]].value
    {
      assert after[n].children[i] == nodes[n].children[i];
    }
  }

  /** Removing a root makes its children roots. */
  lemma PopKeepsForest(nodes: map<Pos, Node>, tops: set<Pos>, level: map<Pos, nat>, m: Pos)
    requires Forest(nodes, tops, level) && HeapOrdered(nodes) && m in tops
    ensures Forest(Popped(nodes, m), tops - {m} + Elements(nodes[m].children), level)
    ensures HeapOrdered(Popped(nodes, m))
  {
    PopTops(nodes, tops, m);
    PopParents(nodes, m);
    PopChildren(nodes, m);
    PopLevelsOrder(nodes, level, m);
  }

  /** The priority of every position. */
  function Priorities(nodes: map<Pos, Node>): (r: map<Pos, U8>)
    ensures r.Keys == nodes.Keys
  {
    map n | n in nodes :: nodes[n].value
  }

  /** What `min` promises, in terms of priorities: None exactly on an empty heap, otherwise a
    * position whose priority is the smallest. */
  lemma MinPriority(nodes: map<Pos, Node>, roots: seq<Pos>, min: Option<Pos>)
    requires MinOk(nodes, roots, min)
    ensures min.None? <==> Priorities(nodes) == map[]
    ensures min.Some? ==> min.value in Priorities(nodes)
    ensures min.Some? ==> forall k :: k in Priorities(nodes) ==> Priorities(nodes)[min.value] <= Priorities(nodes)[k]
  {
  }

  /** A parent is a node one level up, and under heap order its priority is no larger. */
  lemma ParentAbove(nodes: map<Pos, Node>, level: map<Pos, nat>, n: Pos)
    requires ParentLinks(nodes) && Levels(nodes, level) && n in nodes && nodes[n].parent.Some?
    ensures nodes[n].parent.value in nodes && n in level && nodes[n].parent.value in level
    ensures level[n] < level[nodes[n].parent.value]
    ensures HeapOrdered(nodes) ==> nodes[nodes[n].parent.value].value <= nodes[n].value
  {
    var p := nodes[n].parent.value;
    var j :| 0 <= j < |nodes[p].children| && nodes[p].children[j] == n;
  }

  /** Following parents from any node reaches a top whose priority is no larger. */
  lemma {:induction false} TopBelow(nodes: map<Pos, Node>, tops: set<Pos>, level: map<Pos, nat>, n: Pos)
    requires Forest(nodes, tops, level) && HeapOrdered(nodes) && n in nodes
    ensures exists t :: t in tops && nodes[t].value <= nodes[n].value
    decreases MaxLevel(level) - level[n]
  {
    if nodes[n].parent.Some? {
      ParentAbove(nodes, level, n);
      TopBelow(nodes, tops, level, nodes[n].parent.value);
    } else {
      assert n in tops;
    }
  }

  /** A forest without roots is empty. */
  lemma NoTops(nodes: map<Pos, Node>, level: map<Pos, nat>)
    requires Forest(nodes, {}, level) && HeapOrdered(nodes)
    ensures nodes == map[]
  {
    forall n | n in nodes ensures false {
      TopBelow(nodes, {}, level, n);
    }
  }

  /** A root whose priority is at most every root's is at most every node's. */
  lemma MinOfRoots(nodes: map<Pos, Node>, roots: seq<Pos>, level: map<Pos, nat>, m: Pos)
    requires Forest(nodes, Elements(roots), level) && HeapOrdered(nodes)
    requires m in roots && forall r :: r in roots ==> nodes[m].value <= nodes[r].value
    ensures MinOk(nodes, roots, Some(m))
  {
    forall n | n in nodes ensures nodes[m].value <= nodes[n].value {
      TopBelow(nodes, Elements(roots), level, n);
    }
  }

  /** `min` stays right when no priority changes and it is still a root. */
  lemma SamePriorities(a: map<Pos, Node>, b: map<Pos, Node>, roots: seq<Pos>, roots': seq<Pos>, min: Option<Pos>)
    requires MinOk(a, roots, min) && a.Keys == b.Keys && Priorities(a) == Priorities(b)
    requires min.Some? ==> min.value in roots'
    ensures MinOk(b, roots', min)
  {
    forall n | n in b ensures b[n].value == Priorities(b)[n] == Priorities(a)[n] == a[n].value {
    }
  }

  /** An inserted node becomes the minimum when there was none or it is strictly smaller. */
  lemma InsertKeepsMin(nodes: map<Pos, Node>, roots: seq<Pos>, min: Option<Pos>, x: Pos, v: U8)
    requires MinOk(nodes, roots, min) && NoDup(roots) && Elements(roots) <= nodes.Keys && x !in nodes
    ensures MinOk(Inserted(nodes, x, v), [x] + roots, if min.None? || nodes[min.value].value > v then Some(x) else min)
    ensures NoDup([x] + roots) && Elements([x] + roots) == Elements(roots) + {x}
    ensures Priorities(Inserted(nodes, x, v)) == Priorities(nodes)[x := v]
  {
    assert x !in roots;
  }

  /** Cutting keeps the positions and their priorities. */
  lemma CutPriorities(nodes: map<Pos, Node>, c: Pos, p: Pos)
    requires c in nodes && p in nodes && c in nodes[p].children
    ensures CutNodes(nodes, c, p).Keys == nodes.Keys && Priorities(CutNodes(nodes, c, p)) == Priorities(nodes)
  {
  }

  /** Adopting keeps the positions and their priorities. */
  lemma AdoptPriorities(nodes: map<Pos, Node>, a: Pos, b: Pos)
    requires a in nodes && b in nodes
    ensures Adopted(nodes, a, b).Keys == nodes.Keys && Priorities(Adopted(nodes, a, b)) == Priorities(nodes)
  {
  }

  /** Setting a mark changes nothing else. */
  lemma MarkKeepsForest(nodes: map<Pos, Node>, tops: set<Pos>, level: map<Pos, nat>, x: Pos)
    requires Forest(nodes, tops, level) && HeapOrdered(nodes) && x in nodes
    ensures var after := nodes[x := nodes[x].(marked := true)];
      Forest(after, tops, level) && HeapOrdered(after) && after.Keys == nodes.Keys && Priorities(after) == Priorities(nodes)
  {
    var after := nodes[x := nodes[x].(marked := true)];
    ShapeKeepsForest(nodes, after, tops, level);
    forall n, i | n in after && 0 <= i < |after[n].children| && after[n].children[i] in after
      ensures after[n].value <= after[after[n].children[i]].value
    {
      assert after[n].children[i] == nodes[n].children[i];
    }
  }

  /** Lowering a priority keeps the forest, and heap order everywhere except possibly above the
    * node; there too when the parent's priority is no larger. */
  lemma LowerKeepsForest(nodes: map<Pos, Node>, tops: set<Pos>, level: map<Pos, nat>, x: Pos, v: U8)
    requires Forest(nodes, tops, level) && HeapOrdered(nodes) && x in nodes && v <= nodes[x].value
    ensures var after := nodes[x := nodes[x].(value := v)];
      Forest(after, tops, level) && HeapOrderedExcept(after, x) &&
      after.Keys == nodes.Keys && Priorities(after) == Priorities(nodes)[x := v]
    ensures var after := nodes[x := nodes[x].(value := v)];
      (nodes[x].parent.None? || nodes[nodes[x].parent.value].value <= v) ==> HeapOrdered(after)
  {
    var after := nodes[x := nodes[x].(value := v)];
    ShapeKeepsForest(nodes, after, tops, level);
    forall n, i | n in after && 0 <= i < |after[n].children| && after[n].children[i] in after
      ensures after[n].children[i] != x ==> after[n].value <= after[after[n].children[i]].value
      ensures (nodes[x].parent.None? || nodes[nodes[x].parent.value].value <= v) ==>
        after[n].value <= after[after[n].children[i]].value
    {
      var k := nodes[n].children[i];
      assert nodes[k].parent == Some(n);
    }
  }

  /** After `decrease_key` the minimum is the lowered node exactly when its new priority is below
    * the old minimum's. */
  lemma LowerKeepsMin(before: map<Pos, Node>, nodes: map<Pos, Node>, roots: seq<Pos>, m: Pos, x: Pos, v: U8)
    requires m in before && x in before && forall n :: n in before ==> before[m].value <= before[n].value
    requires v <= before[x].value
    requires nodes.Keys == before.Keys && Priorities(nodes) == Priorities(before)[x := v] && m in roots
    requires x in roots || (before[x].parent.Some? && before[x].parent.value in before &&
                            before[x].parent.value != x && before[before[x].parent.value].value <= v)
    ensures nodes[m].value == if m == x then v else before[m].value
    ensures MinOk(nodes, roots, if nodes[m].value > v then Some(x) else Some(m))
  {
    forall n | n in nodes ensures nodes[n].value == if n == x then v else before[n].value {
      assert nodes[n].value == Priorities(nodes)[n];
    }
  }

  /** The parents cleared so far by the loop of `pop_min`. */
  function Cleared(nodes: map<Pos, Node>, cs: seq<Pos>): map<Pos, Node> {
    map n | n in nodes :: if n in cs then nodes[n].(parent := None) else nodes[n]
  }

  lemma ClearStep(nodes: map<Pos, Node>, cs: seq<Pos>, i: nat)
    requires i < |cs| && cs[i] in nodes
    ensures Cleared(nodes, cs[..i + 1]) == Cleared(nodes, cs[..i])[cs[i] := Cleared(nodes, cs[..i])[cs[i]].(parent := None)]
  {
    assert forall n :: n in cs[..i + 1] <==> n in cs[..i] || n == cs[i];
  }

  /** The steps of `pop_min` on the nodes add up to `Popped`. */
  lemma ClearedPopped(nodes: map<Pos, Node>, m: Pos, y: Node)
    requires m in nodes
    ensures Cleared(nodes, nodes[m].children)[m := y] - {m} == Popped(nodes, m)
    ensures Priorities(Popped(nodes, m)) == Priorities(nodes) - {m}
  {
  }

  /** The roots of `pop_min`: the minimum's children appended, then the minimum taken out. */
  lemma PopRoots(nodes: map<Pos, Node>, roots: seq<Pos>, level: map<Pos, nat>, m: Pos)
    requires Forest(nodes, Elements(roots), level) && NoDup(roots) && m in roots
    ensures var s := roots + nodes[m].children;
      NoDup(s) && m in s &&
      var i := IndexOf(s, m);
      NoDup(s[..i] + s[i + 1..]) &&
      Elements(s[..i] + s[i + 1..]) == Elements(roots) - {m} + Elements(nodes[m].children)
  {
    var kids := nodes[m].children;
    var s := roots + kids;
    forall a, b | 0 <= a < b < |s| ensures s[a] != s[b] {
      if a < |roots| && b >= |roots| {
        var k := kids[b - |roots|];
        assert nodes[k].parent == Some(m);
        assert s[a] in Elements(roots);
      }
    }
    var i := IndexOf(s, m);
    RemoveAt(s, i);
    assert Elements(s) == Elements(roots) + Elements(kids);
    assert m !in kids by {
      assert nodes[m].parent.None?;
      forall j | 0 <= j < |kids| ensures kids[j] != m {
        assert nodes[kids[j]].parent == Some(m);
      }
    }
  }

  /** Set bookkeeping of `insert_or_merge`. */
  lemma MergeSets(tops: set<Pos>, rest: set<Pos>, other: Pos, node: Pos, after: set<Pos>)
    ensures (tops - {other}) - (rest + {node}) + after == tops - ((rest + {other}) + {node}) + after
    ensures (tops - {node}) - (rest + {other}) + after == tops - ((rest + {other}) + {node}) + after
  {
  }

  /** Distinct entries of `ranked` are distinct nodes. */
  lemma RankedInjective(nodes: map<Pos, Node>, ranked: map<nat, Pos>)
    requires RankedOk(nodes, ranked)
    ensures forall r, s :: r in ranked && s in ranked && r != s ==> ranked[r] != ranked[s]
  {
  }

  /** Taking an entry out of `ranked`. */
  lemma RankedRemove(nodes: map<Pos, Node>, ranked: map<nat, Pos>, rank: nat)
    requires RankedOk(nodes, ranked) && rank in ranked
    ensures var rest := ranked - {rank};
      |rest| < |ranked| && RankedOk(nodes, rest) &&
      ranked.Values == rest.Values + {ranked[rank]} && ranked[rank] !in rest.Values
  {
    var rest := ranked - {rank};
    assert ranked.Keys == rest.Keys + {rank};
    forall r | r in rest ensures rest[r] != ranked[rank] {
    }
    forall v | v in ranked.Values ensures v in rest.Values + {ranked[rank]} {
      var r :| r in ranked && ranked[r] == v;
      if r != rank {
        assert rest[r] == v;
      }
    }
    forall v | v in rest.Values ensures v in ranked.Values {
      var r :| r in rest && rest[r] == v;
      assert ranked[r] == v;
    }
  }

  /** Entering a new rank adds its node to the values. */
  lemma RankedAdd(ranked: map<nat, Pos>, rank: nat, node: Pos)
    requires rank !in ranked
    ensures ranked[rank := node].Values == ranked.Values + {node}
  {
    var after := ranked[rank := node];
    forall y | y in ranked.Values ensures y in after.Values {
      var r :| r in ranked && ranked[r] == y;
      assert after[r] == y;
    }
    assert after[rank] == node;
  }

  /** Entries of `ranked` that an adoption does not touch keep their rank. */
  lemma RankedAfterAdopt(nodes: map<Pos, Node>, ranked: map<nat, Pos>, a: Pos, b: Pos)
    requires RankedOk(nodes, ranked) && a in nodes && b in nodes && a !in ranked.Values && b !in ranked.Values
    ensures RankedOk(Adopted(nodes, a, b), ranked)
  {
    forall r | r in ranked ensures ranked[r] != a && ranked[r] != b {
      assert ranked[r] in ranked.Values;
    }
  }

  /** The roots `consolidate` leaves behind `min` have distinct ranks. */
  lemma RanksDistinct(nodes: map<Pos, Node>, ranked: map<nat, Pos>, s: seq<Pos>)
    requires RankedOk(nodes, ranked) && NoDup(s) && Elements(s) <= ranked.Values
    ensures forall i :: 0 <= i < |s| ==> s[i] in nodes
    ensures forall i, j :: 0 <= i < j < |s| ==> |nodes[s[i]].children| != |nodes[s[j]].children|
  {
    forall i | 0 <= i < |s| ensures s[i] in nodes {
      assert s[i] in Elements(s);
    }
    forall i, j | 0 <= i < j < |s| ensures |nodes[s[i]].children| != |nodes[s[j]].children| {
      assert s[i] in Elements(s) && s[j] in Elements(s);
      var r :| r in ranked && ranked[r] == s[i];
      var q :| q in ranked && ranked[q] == s[j];
    }
  }

  /** The root list `consolidate` builds: `min` in front of the ranked roots. */
  function Regrouped(rest: seq<Pos>, min: Option<Pos>): (roots: seq<Pos>)
    ensures Elements(roots) == Elements(rest) + (if min.Some? then {min.value} else {})
  {
    if min.Some? then [min.value] + rest else rest
  }

  lemma RegroupNoDup(rest: seq<Pos>, min: Option<Pos>)
    requires NoDup(rest) && (min.Some? ==> min.value !in rest)
    ensures NoDup(Regrouped(rest, min))
  {
  }

  lemma RegroupRanks(nodes: map<Pos, Node>, ranked: map<nat, Pos>, rest: seq<Pos>, min: Option<Pos>)
    requires RankedOk(nodes, ranked) && Elements(rest) <= ranked.Values && NoDup(rest)
    ensures OneRootPerRank(nodes, Regrouped(rest, min))
  {
    RanksDistinct(nodes, ranked, rest);
    var roots := Regrouped(rest, min);
    if min.Some? {
      forall i, j | 1 <= i < j < |roots| ensures |nodes[roots[i]].children| != |nodes[roots[j]].children| {
        assert roots[i] == rest[i - 1] && roots[j] == rest[j - 1];
      }
    }
  }

  lemma NothingLeft(done: set<Pos>, roots: seq<Pos>, keep: set<Pos>)
    ensures done + Elements(roots[|roots|..]) + keep == done + keep
  {
    assert roots[|roots|..] == [];
  }

  /** Set bookkeeping of one round of `consolidate`. */
  lemma ConsolidateStep(roots: seq<Pos>, i: nat, done: set<Pos>, done': set<Pos>, keep: set<Pos>)
    requires NoDup(roots) && i < |roots| && done <= Elements(roots[..i]) - keep
    requires roots[i] !in keep ==> done' <= done + {roots[i]}
    requires roots[i] in keep ==> done' == done
    ensures roots[i] !in done && roots[i] in done + Elements(roots[i..]) + keep
    ensures roots[i] !in keep ==>
      (done + Elements(roots[i..]) + keep) - (done + {roots[i]}) + done' == done' + Elements(roots[i + 1..]) + keep
    ensures roots[i] in keep ==> done + Elements(roots[i..]) + keep == done' + Elements(roots[i + 1..]) + keep
    ensures done' <= Elements(roots[..i + 1]) - keep
  {
    assert roots[i..] == [roots[i]] + roots[i + 1..];
    assert roots[..i + 1] == roots[..i] + [roots[i]];
    forall j | 0 <= j < |roots| && j != i ensures roots[j] != roots[i] {
    }
    assert roots[i] !in roots[..i];
    assert roots[i] !in roots[i + 1..];
  }

  // ---------------------------------------------------------------------------
  // The heap

  class FibHeap {
    /** `map`: the node of every position in the heap. */
    var nodes: map<Pos, Node>
    /** `roots`, in list order. */
    var roots: seq<Pos>
    /** `min`. */
    var min: Option<Pos>
    /** Levels that make parent chains finite. */
    ghost var level: map<Pos, nat>

    ghost predicate Valid()
      reads this
    {
      Forest(nodes, Elements(roots), level) && NoDup(roots) && HeapOrdered(nodes) && MinOk(nodes, roots, min)
    }

    /** The priority of every position in the heap. */
    function Contents(): map<Pos, U8>
      reads this
    {
      Priorities(nodes)
    }

    /** `FibHeap::new`: empty. */
    constructor ()
      ensures Valid() && Contents() == map[] && roots == [] && min.None?
    {
      nodes := map[];
      roots := [];
      min := None;
      level := map[];
    }

    /** `insert`: a fresh unmarked root at the front of the root list; it becomes `min` when the
      * heap was empty or its priority is strictly below the minimum's. The position must not be
      * in the heap yet (otherwise the map entry would be replaced while the old node stays
      * linked). */
    method Insert(position: Pos, value: U8)
      requires Valid() && position !in nodes
      modifies this
      ensures Valid() && Contents() == old(Contents())[position := value]
      ensures roots == [position] + old(roots)
      ensures min == if old(min).None? || old(nodes)[old(min).value].value > value then Some(position) else old(min)
    {
      InsertKeepsForest(nodes, Elements(roots), level, position, value);
      InsertKeepsMin(nodes, roots, min, position, value);
      nodes := Inserted(nodes, position, value);
      level := level[position := 0];
      roots := [position] + roots;
      if min.None? || nodes[min.value].value > value {
        min := Some(position);
      }
    }

    /** `cut`: `child` leaves the children of `parent`, loses its parent and mark, and is pushed to
      * the front of the roots. Heap order may be broken between the two beforehand; it holds
      * afterwards. */
    method Cut(child: Pos, parent: Pos)
      requires Forest(nodes, Elements(roots), level) && NoDup(roots)
      requires child in nodes && nodes[child].parent == Some(parent) && HeapOrderedExcept(nodes, child)
      modifies this
      ensures parent in old(nodes) && child in old(nodes)[parent].children
      ensures nodes == CutNodes(old(nodes), child, parent)
      ensures Forest(nodes, Elements(roots), level) && NoDup(roots) && HeapOrdered(nodes)
      ensures nodes.Keys == old(nodes).Keys && Contents() == old(Contents())
      ensures roots == [child] + old(roots) && min == old(min) && level == old(level)
    {
      CutKeepsForest(nodes, Elements(roots), level, child, parent);
      CutPriorities(nodes, child, parent);
      PushRoot(roots, child);
      var siblings := nodes[parent].children;
      var index := IndexOf(siblings, child);
      nodes := nodes[parent := nodes[parent].(children := siblings[..index] + siblings[index + 1..])]
                    [child := nodes[child].(parent := None, marked := false)];
      roots := [child] + roots;
    }

    /** `cascade_cut`, as written: when the node's parent is MARKED the node is cut and the parent
      * cascades; when the parent is unmarked the NODE is marked. (The textbook operation tests
      * and sets the mark of the node itself.) Priorities and the set of positions never change,
      * and roots are only added. */
    method CascadeCut(node: Pos)
      requires Forest(nodes, Elements(roots), level) && NoDup(roots) && HeapOrdered(nodes) && node in nodes
      modifies this
      ensures Forest(nodes, Elements(roots), level) && NoDup(roots) && HeapOrdered(nodes)
      ensures nodes.Keys == old(nodes).Keys && Contents() == old(Contents())
      ensures min == old(min) && level == old(level) && Elements(old(roots)) <= Elements(roots)
      ensures old(nodes)[node].parent.None? ==> nodes == old(nodes) && roots == old(roots)
      ensures old(nodes)[node].parent.Some? && !old(nodes)[old(nodes)[node].parent.value].marked ==>
        nodes == old(nodes)[node := old(nodes)[node].(marked := true)] && roots == old(roots)
      ensures old(nodes)[node].parent.Some? && old(nodes)[old(nodes)[node].parent.value].marked ==> node in roots
      decreases MaxLevel(level) - level[node]
    {
      var parent := nodes[node].parent;
      if parent.Some? {
        var p := parent.value;
        ParentAbove(nodes, level, node);
        if nodes[p].marked {
          Cut(node, p);
          CascadeCut(p);
        } else {
          MarkKeepsForest(nodes, Elements(roots), level, node);
          nodes := nodes[node := nodes[node].(marked := true)];
        }
      }
    }

    /** `decrease_key`: the node of `key` takes priority `value`; if its parent now has a larger
      * priority it is cut and the parent cascades, and otherwise only its priority changes; it
      * becomes `min` when `value` is below the minimum's priority. The key must be in the heap (`unwrap`), and the new priority must not
      * exceed the old one, as the name says (a larger one could break heap order below the
      * node). */
    method DecreaseKey(key: Pos, value: U8)
      requires Valid() && key in nodes && value <= nodes[key].value
      modifies this
      ensures Valid() && Contents() == old(Contents())[key := value]
      ensures min == if old(min) != Some(key) && old(nodes)[old(min).value].value > value then Some(key) else old(min)
      ensures old(nodes)[key].parent.Some? && old(nodes)[old(nodes)[key].parent.value].value > value ==> key in roots
      ensures !(old(nodes)[key].parent.Some? && old(nodes)[old(nodes)[key].parent.value].value > value) ==>
        roots == old(roots) && nodes == old(nodes)[key := old(nodes)[key].(value := value)]
    {
      ghost var before := nodes;
      LowerKeepsForest(nodes, Elements(roots), level, key, value);
      nodes := nodes[key := nodes[key].(value := value)];
      var parent := nodes[key].parent;
      if parent.Some? {
        var p := parent.value;
        if nodes[p].value > nodes[key].value {
          Cut(key, p);
          CascadeCut(p);
        } else {
          assert p in before && p != key;
        }
      } else {
        assert key in roots;
      }
      LowerKeepsMin(before, nodes, roots, min.value, key, value);
      if nodes[min.value].value > value {
        min := Some(key);
      }
    }

    /** The loop of `pop_min` that clears the parent of every child of the minimum. */
    method ClearParents(children: seq<Pos>)
      requires forall c :: c in children ==> c in nodes
      modifies this
      ensures nodes == Cleared(old(nodes), children)
      ensures roots == old(roots) && min == old(min) && level == old(level)
    {
      for i := 0 to |children|
        invariant nodes == Cleared(old(nodes), children[..i])
        invariant roots == old(roots) && min == old(min) && level == old(level)
      {
        ClearStep(old(nodes), children, i);
        nodes := nodes[children[i] := nodes[children[i]].(parent := None)];
      }
      assert children[..|children|] == children;
    }

    /** The search for the new minimum in `pop_min`: the first root whose priority no later root
      * undercuts; a later root replaces the one held only when strictly smaller. */
    method FirstMinimal() returns (m: Pos)
      requires roots != [] && Elements(roots) <= nodes.Keys
      ensures m in roots && forall r :: r in roots ==> nodes[m].value <= nodes[r].value
      ensures forall i :: 0 <= i < IndexOf(roots, m) ==> nodes[roots[i]].value > nodes[m].value
    {
      m := roots[0];
      ghost var at := 0;
      for i := 1 to |roots|
        invariant at < i && roots[at] == m
        invariant forall j :: 0 <= j < i ==> nodes[m].value <= nodes[roots[j]].value
        invariant forall j :: 0 <= j < at ==> nodes[roots[j]].value > nodes[m].value
      {
        if nodes[m].value > nodes[roots[i]].value {
          m := roots[i];
          at := i;
        }
      }
      assert roots[at] in roots[..at + 1];
    }

    /** `pop_min`: None, changing nothing, on an empty heap. Otherwise the minimum's children move
      * to the end of the root list with their parents cleared, the minimum leaves the roots and
      * the map, the new `min` is the first minimal root (None when no root is left), and the
      * roots are consolidated. The position returned has the smallest priority in the heap. */
    method PopMin() returns (result: Option<Pos>)
      requires Valid()
      modifies this
      ensures Valid()
      ensures result.None? <==> old(Contents()) == map[]
      ensures result.None? ==> nodes == old(nodes) && roots == old(roots) && min == old(min)
      ensures result.Some? ==> result == old(min) && result.value in old(Contents())
      ensures result.Some? ==> forall k :: k in old(Contents()) ==> old(Contents())[result.value] <= old(Contents())[k]
      ensures result.Some? ==> Contents() == old(Contents()) - {result.value}
      ensures OneRootPerRank(nodes, roots)
    {
      if min.None? {
        return None;
      }
      var m := min.value;
      result := Some(m);
      MinPriority(nodes, roots, min);
      DetachMin();
      PickMin();
      Consolidate();
    }

    /** The middle of `pop_min`: the minimum's children appended to the roots with their parents
      * cleared, then the minimum taken out of the roots and of the map. */
    method DetachMin()
      requires Valid() && min.Some?
      modifies this
      ensures min == old(min) && level == old(level)
      ensures nodes == Popped(old(nodes), min.value) && Contents() == old(Contents()) - {min.value}
      ensures Forest(nodes, Elements(roots), level) && NoDup(roots) && HeapOrdered(nodes)
    {
      var m := min.value;
      ghost var before := nodes;
      var children := nodes[m].children;
      PopKeepsForest(nodes, Elements(roots), level, m);
      PopRoots(nodes, roots, level, m);
      ClearParents(children);
      ClearedPopped(before, m, nodes[m].(children := []));
      roots := roots + children;
      nodes := nodes[m := nodes[m].(children := [])];
      var index := IndexOf(roots, m);
      roots := roots[..index] + roots[index + 1..];
      nodes := nodes - {m};
      assert nodes == Popped(before, m);
    }

    /** The end of `pop_min` before `consolidate`: `min` becomes the first root of smallest
      * priority, or None when no root is left. */
    method PickMin()
      requires Forest(nodes, Elements(roots), level) && NoDup(roots) && HeapOrdered(nodes)
      modifies this
      ensures Valid() && nodes == old(nodes) && roots == old(roots)
    {
      if roots == [] {
        min := None;
        assert Elements(roots) == {};
        NoTops(nodes, level);
      } else {
        var newMin := FirstMinimal();
        min := Some(newMin);
        MinOfRoots(nodes, roots, level, newMin);
      }
    }

    /** `consolidate`: every root other than `min` goes through `insert_or_merge` in list order;
      * the roots become the values of `ranked` (in its unspecified order) with `min` pushed to
      * the front. The positions and priorities are unchanged and no two roots after `min` share
      * a rank. */
    method Consolidate()
      requires Valid()
      modifies this
      ensures Valid() && Contents() == old(Contents()) && min == old(min)
      ensures min.Some? ==> roots != [] && roots[0] == min.value
      ensures OneRootPerRank(nodes, roots)
    {
      var ranked := RankRoots();
      RankedInjective(nodes, ranked);
      var rest := ValuesOf(ranked);
      RegroupNoDup(rest, min);
      RegroupRanks(nodes, ranked, rest, min);
      SamePriorities(old(nodes), nodes, old(roots), Regrouped(rest, min), min);
      roots := rest;
      if min.Some? {
        roots := [min.value] + roots;
      }
    }

    /** The loop of `consolidate`: the roots other than `min`, in list order, merged into
      * `ranked`. Every root is then `min` or the value of one rank. */
    method RankRoots() returns (ranked: map<nat, Pos>)
      requires Valid()
      modifies this
      ensures Forest(nodes, ranked.Values + (if min.Some? then {min.value} else {}), level)
      ensures HeapOrdered(nodes) && RankedOk(nodes, ranked)
      ensures min.Some? ==> min.value !in ranked.Values
      ensures roots == old(roots) && min == old(min)
      ensures nodes.Keys == old(nodes).Keys && Contents() == old(Contents())
    {
      ranked := map[];
      var keep: set<Pos> := if min.Some? then {min.value} else {};
      assert roots != [] ==> min.Some? by {
        if roots != [] {
          assert roots[0] in Elements(roots);
        }
      }
      for i := 0 to |roots|
        invariant roots == old(roots) && min == old(min) && nodes.Keys == old(nodes).Keys
        invariant Contents() == old(Contents())
        invariant Forest(nodes, ranked.Values + Elements(roots[i..]) + keep, level)
        invariant HeapOrdered(nodes) && RankedOk(nodes, ranked)
        invariant ranked.Values <= Elements(roots[..i]) - keep
      {
        ranked := RankRoot(i, ranked, keep);
      }
      NothingLeft(ranked.Values, roots, keep);
    }

    /** One turn of the loop of `consolidate`: the `i`-th root, unless it is `min`, merged into
      * `ranked`. */
    method RankRoot(i: nat, ranked: map<nat, Pos>, ghost keep: set<Pos>) returns (ranked': map<nat, Pos>)
      requires i < |roots| && NoDup(roots) && min.Some? && keep == {min.value}
      requires Forest(nodes, ranked.Values + Elements(roots[i..]) + keep, level)
      requires HeapOrdered(nodes) && RankedOk(nodes, ranked) && ranked.Values <= Elements(roots[..i]) - keep
      modifies this
      ensures roots == old(roots) && min == old(min) && nodes.Keys == old(nodes).Keys && Contents() == old(Contents())
      ensures Forest(nodes, ranked'.Values + Elements(roots[i + 1..]) + keep, level)
      ensures HeapOrdered(nodes) && RankedOk(nodes, ranked') && ranked'.Values <= Elements(roots[..i + 1]) - keep
    {
      var node := roots[i];
      ghost var done := ranked.Values;
      ranked' := ranked;
      if node != min.value {
        ConsolidateStep(roots, i, done, done + {node}, keep);
        ranked' := InsertOrMerge(ranked, node, done + Elements(roots[i..]) + keep);
      }
      ConsolidateStep(roots, i, done, ranked'.Values, keep);
    }

    /** `insert_or_merge`: if `ranked` holds a root of the same rank as `node`, that entry is taken
      * out and the two are linked, the one with the strictly larger priority becoming a child of
      * the other (on a tie `node` goes under the root already ranked), and the survivor is
      * inserted again; otherwise `node` is entered under its rank. `tops` are the roots of the
      * moment: `node`, the ranked ones and others, which stay roots. */
    method InsertOrMerge(ranked: map<nat, Pos>, node: Pos, ghost tops: set<Pos>) returns (ranked': map<nat, Pos>)
      requires Forest(nodes, tops, level) && HeapOrdered(nodes) && RankedOk(nodes, ranked)
      requires node in tops && ranked.Values <= tops && node !in ranked.Values
      modifies this
      ensures Forest(nodes, tops - (ranked.Values + {node}) + ranked'.Values, level)
      ensures HeapOrdered(nodes) && RankedOk(nodes, ranked')
      ensures ranked'.Values <= ranked.Values + {node}
      ensures nodes.Keys == old(nodes).Keys && Contents() == old(Contents())
      ensures roots == old(roots) && min == old(min)
      decreases |ranked|
    {
      var rank := |nodes[node].children|;
      if rank in ranked {
        var other := ranked[rank];
        var rest := ranked - {rank};
        RankedRemove(nodes, ranked, rank);
        if nodes[other].value > nodes[node].value {
          RankedAfterAdopt(nodes, rest, node, other);
          Adopt(node, other, tops);
          ranked' := InsertOrMerge(rest, node, tops - {other});
        } else {
          RankedAfterAdopt(nodes, rest, other, node);
          Adopt(other, node, tops);
          ranked' := InsertOrMerge(rest, other, tops - {node});
        }
        MergeSets(tops, rest.Values, other, node, ranked'.Values);
      } else {
        RankedAdd(ranked, rank, node);
        ranked' := ranked[rank := node];
        assert tops - (ranked.Values + {node}) + ranked'.Values == tops;
      }
    }

    /** `parent` adopts the root `child`: pushed to the front of its children, `parent` unmarked
      * and `child` pointing back at it. */
    method Adopt(parent: Pos, child: Pos, ghost tops: set<Pos>)
      requires Forest(nodes, tops, level) && HeapOrdered(nodes)
      requires parent in tops && child in tops && parent != child && nodes[parent].value <= nodes[child].value
      modifies this
      ensures nodes == Adopted(old(nodes), parent, child) && level == AdoptedLevel(old(level), parent, child)
      ensures Forest(nodes, tops - {child}, level) && HeapOrdered(nodes)
      ensures roots == old(roots) && min == old(min)
      ensures nodes.Keys == old(nodes).Keys && Contents() == old(Contents())
    {
      AdoptKeepsForest(nodes, tops, level, parent, child);
      AdoptPriorities(nodes, parent, child);
      nodes := nodes[parent := nodes[parent].(children := [child] + nodes[parent].children, marked := false)]
                    [child := nodes[child].(parent := Some(parent))];
      level := AdoptedLevel(level, parent, child);
    }
  }

  /** `ranked.values().collect()`: every value once, in the map's unspecified order. */
  method ValuesOf(ranked: map<nat, Pos>) returns (vals: seq<Pos>)
    requires forall r, s :: r in ranked && s in ranked && r != s ==> ranked[r] != ranked[s]
    ensures Elements(vals) == ranked.Values && NoDup(vals)
  {
    vals := [];
    var keys := ranked.Keys;
    ghost var ks: seq<nat> := [];
    while keys != {}
      invariant keys <= ranked.Keys && |ks| == |vals| && NoDup(vals)
      invariant forall j :: 0 <= j < |ks| ==> ks[j] in ranked && ks[j] !in keys && vals[j] == ranked[ks[j]]
      invariant forall r :: r in ranked && r !in keys ==> r in ks
      decreases |keys|
    {
      var r :| r in keys;
      forall j | 0 <= j < |vals| ensures vals[j] != ranked[r] {
        assert ks[j] != r;
      }
      vals := vals + [ranked[r]];
      ks := ks + [r];
      keys := keys - {r};
    }
    forall y | y in ranked.Values ensures y in Elements(vals) {
      var r :| r in ranked && ranked[r] == y;
      var j :| 0 <= j < |ks| && ks[j] == r;
      assert vals[j] == y;
    }
  }
}
