/** The tree of memory contexts, linked by parent, first child and next sibling. */
module ContextTree {
  import opened Lists

  datatype Node = Node(parent: nat, first: nat, next: nat)

  /** The children of each context in order, its depth, and a bound on all depths. */
  datatype Shape = Shape(kids: map<nat, seq<nat>>, depth: map<nat, nat>, limit: nat)

  ghost function Depth(g: Shape, a: nat): nat {
    if a in g.depth then g.depth[a] else 0
  }

  ghost function Kids(g: Shape, a: nat): seq<nat> {
    if a in g.kids then g.kids[a] else []
  }

  ghost predicate KidAt(nodes: map<nat, Node>, g: Shape, a: nat, ks: seq<nat>, i: nat)
    requires i < |ks|
  {
    && ks[i] != 0 && ks[i] in nodes
    && nodes[ks[i]].parent == a && nodes[ks[i]].next == At(ks, i + 1)
    && Depth(g, ks[i]) == Depth(g, a) + 1
  }

  ghost predicate NodeOk(nodes: map<nat, Node>, g: Shape, a: nat) {
    a in nodes ==>
      var ks := Kids(g, a);
      && a != 0 && Depth(g, a) < g.limit
      && nodes[a].first == At(ks, 0)
      && (forall i :: 0 <= i < |ks| ==> KidAt(nodes, g, a, ks, i))
      && (forall i, j :: 0 <= i < j < |ks| ==> ks[i] != ks[j])
      && (nodes[a].parent != 0 ==> nodes[a].parent in nodes && a in Kids(g, nodes[a].parent))
  }

  ghost predicate TreeOk(nodes: map<nat, Node>, g: Shape) {
    0 !in nodes && forall a :: NodeOk(nodes, g, a)
  }

  /** Context `a` is `c` or one of its descendants. */
  ghost predicate Under(nodes: map<nat, Node>, g: Shape, a: nat, c: nat)
    decreases Depth(g, a)
  {
    a in nodes && (a == c || (nodes[a].parent != 0 && Depth(g, nodes[a].parent) < Depth(g, a)
                              && Under(nodes, g, nodes[a].parent, c)))
  }

  lemma ParentHigher(nodes: map<nat, Node>, g: Shape, a: nat)
    requires TreeOk(nodes, g) && a in nodes && nodes[a].parent != 0
    ensures nodes[a].parent in nodes && Depth(g, a) == Depth(g, nodes[a].parent) + 1
  {
    assert NodeOk(nodes, g, a);
    var p := nodes[a].parent;
    assert NodeOk(nodes, g, p);
    var i :| 0 <= i < |Kids(g, p)| && Kids(g, p)[i] == a;
    assert KidAt(nodes, g, p, Kids(g, p), i);
  }

  /** A descendant is at least as deep. */
  lemma {:induction false} UnderDeeper(nodes: map<nat, Node>, g: Shape, a: nat, c: nat)
    requires Under(nodes, g, a, c)
    ensures c in nodes && Depth(g, c) <= Depth(g, a) && (Depth(g, c) == Depth(g, a) ==> a == c)
    decreases Depth(g, a)
  {
    if a != c {
      UnderDeeper(nodes, g, nodes[a].parent, c);
    }
  }

  /** Below `c` means below one of its children. */
  lemma {:induction false} UnderChild(nodes: map<nat, Node>, g: Shape, a: nat, c: nat) returns (i: nat)
    requires TreeOk(nodes, g) && Under(nodes, g, a, c) && a != c
    ensures i < |Kids(g, c)| && Under(nodes, g, a, Kids(g, c)[i])
    decreases Depth(g, a)
  {
    var p := nodes[a].parent;
    if p == c {
      assert NodeOk(nodes, g, a);
      i :| 0 <= i < |Kids(g, c)| && Kids(g, c)[i] == a;
    } else {
      i := UnderChild(nodes, g, p, c);
    }
  }

  /** Below a child of `c` means properly below `c`. */
  lemma {:induction false} ChildUnder(nodes: map<nat, Node>, g: Shape, a: nat, c: nat, k: nat)
    requires TreeOk(nodes, g) && c in nodes && k in Kids(g, c) && Under(nodes, g, a, k)
    ensures Under(nodes, g, a, c) && a != c
    decreases Depth(g, a)
  {
    assert NodeOk(nodes, g, c);
    var i :| 0 <= i < |Kids(g, c)| && Kids(g, c)[i] == k;
    assert KidAt(nodes, g, c, Kids(g, c), i);
    UnderDeeper(nodes, g, a, k);
    if a != k {
      ChildUnder(nodes, g, nodes[a].parent, c, k);
    } else {
      assert Under(nodes, g, c, c);
    }
  }

  /** At one depth a context has at most one ancestor. */
  lemma {:induction false} OneAncestor(nodes: map<nat, Node>, g: Shape, a: nat, c: nat, d: nat)
    requires Under(nodes, g, a, c) && Under(nodes, g, a, d) && Depth(g, c) == Depth(g, d)
    ensures c == d
    decreases Depth(g, a)
  {
    UnderDeeper(nodes, g, a, c);
    UnderDeeper(nodes, g, a, d);
    if a != c && a != d {
      OneAncestor(nodes, g, nodes[a].parent, c, d);
    }
  }

  /** What remains keeps its ancestors. */
  ghost predicate Remains(nodes: map<nat, Node>, nodes': map<nat, Node>, a: nat) {
    a in nodes' ==>
      && a in nodes && nodes'[a].parent == nodes[a].parent
      && (nodes'[a].parent != 0 && nodes'[a].parent in nodes ==> nodes'[a].parent in nodes')
  }

  lemma {:induction false} UnderKept(nodes: map<nat, Node>, nodes': map<nat, Node>, g: Shape, g': Shape, a: nat, c: nat)
    requires (forall b :: Remains(nodes, nodes', b)) && g'.depth == g.depth && a in nodes'
    ensures Under(nodes', g', a, c) <==> Under(nodes, g, a, c)
    decreases Depth(g, a)
  {
    var p := nodes[a].parent;
    assert Remains(nodes, nodes', a) && Remains(nodes, nodes', p);
    if a != c && p != 0 && Depth(g, p) < Depth(g, a) && p in nodes {
      UnderKept(nodes, nodes', g, g', p, c);
    }
  }

  // ---------- removing a leaf ----------

  /** Unlinks `c` from behind `prev`, its elder sibling (0: it is the first child). */
  function Delinked(nodes: map<nat, Node>, c: nat, prev: nat): map<nat, Node>
    requires c in nodes
  {
    var p := nodes[c].parent;
    if prev != 0 && prev in nodes then nodes[prev := nodes[prev].(next := nodes[c].next)] - {c}
    else if p != 0 && p in nodes then nodes[p := nodes[p].(first := nodes[c].next)] - {c}
    else nodes - {c}
  }

  ghost function Trimmed(g: Shape, p: nat, c: nat): Shape {
    g.(kids := (if p in g.kids then g.kids[p := Less(g.kids[p], c)] else g.kids) - {c})
  }

  /** How a deletion leaves context `a`. */
  ghost predicate KeptAt(nodes: map<nat, Node>, g: Shape, nodes': map<nat, Node>, g': Shape, c: nat, p: nat, a: nat) {
    a in nodes' ==>
      && a in nodes && nodes'[a].parent == nodes[a].parent
      && Kids(g', a) == if a == p then Less(Kids(g, a), c) else Kids(g, a)
  }

  lemma LeafStep(nodes: map<nat, Node>, g: Shape, c: nat, i: nat) returns (nodes': map<nat, Node>, g': Shape)
    requires TreeOk(nodes, g) && c in nodes && Kids(g, c) == []
    requires nodes[c].parent != 0 ==> i < |Kids(g, nodes[c].parent)| && Kids(g, nodes[c].parent)[i] == c
    ensures var p := nodes[c].parent;
            && nodes' == Delinked(nodes, c, if p == 0 then 0 else At(Kids(g, p), i - 1))
            && g' == Trimmed(g, p, c)
            && (forall a :: KeptAt(nodes, g, nodes', g', c, p, a))
    ensures TreeOk(nodes', g') && forall a :: a in nodes' <==> a in nodes && a != c
  {
    var p := nodes[c].parent;
    var ks := Kids(g, p);
    var prev := if p == 0 then 0 else At(ks, i - 1);
    nodes', g' := Delinked(nodes, c, prev), Trimmed(g, p, c);
    assert NodeOk(nodes, g, c);
    if p != 0 {
      ParentHigher(nodes, g, c);
      assert NodeOk(nodes, g, p);
      assert KidAt(nodes, g, p, ks, i);
      LessIsWithout(ks, i);
      if i > 0 {
        assert KidAt(nodes, g, p, ks, i - 1);
      }
    }
    forall a
      ensures KeptAt(nodes, g, nodes', g', c, p, a)
    {
    }
    forall a
      ensures NodeOk(nodes', g', a)
    {
      if a in nodes' {
        LeafNode(nodes, g, c, i, nodes', g', a);
      }
    }
  }

  lemma LeafNode(nodes: map<nat, Node>, g: Shape, c: nat, i: nat, nodes': map<nat, Node>, g': Shape, a: nat)
    requires TreeOk(nodes, g) && c in nodes && Kids(g, c) == []
    requires nodes[c].parent != 0 ==> i < |Kids(g, nodes[c].parent)| && Kids(g, nodes[c].parent)[i] == c
    requires var p := nodes[c].parent;
             && nodes' == Delinked(nodes, c, if p == 0 then 0 else At(Kids(g, p), i - 1)) && g' == Trimmed(g, p, c)
             && (forall b :: KeptAt(nodes, g, nodes', g', c, p, b))
    requires a in nodes'
    ensures NodeOk(nodes', g', a)
  {
    var p := nodes[c].parent;
    assert NodeOk(nodes, g, a) && KeptAt(nodes, g, nodes', g', c, p, a);
    if a == p && p != 0 {
      ParentKids(nodes, g, c, i, nodes', g');
    } else {
      OtherKids(nodes, g, c, i, nodes', g', a);
    }
    if nodes[a].parent != 0 {
      StaysChild(nodes, g, c, i, nodes', g', a);
    }
  }

  /** The parent's children are the others, relinked around `c`. */
  lemma ParentKids(nodes: map<nat, Node>, g: Shape, c: nat, i: nat, nodes': map<nat, Node>, g': Shape)
    requires TreeOk(nodes, g) && c in nodes && nodes[c].parent != 0
    requires i < |Kids(g, nodes[c].parent)| && Kids(g, nodes[c].parent)[i] == c
    requires nodes' == Delinked(nodes, c, At(Kids(g, nodes[c].parent), i - 1)) && g'.depth == g.depth
    requires Kids(g', nodes[c].parent) == Less(Kids(g, nodes[c].parent), c)
    ensures var p := nodes[c].parent;
            var ks' := Kids(g', p);
            && p in nodes' && nodes'[p].first == At(ks', 0)
            && (forall j :: 0 <= j < |ks'| ==> KidAt(nodes', g', p, ks', j))
            && (forall j, k :: 0 <= j < k < |ks'| ==> ks'[j] != ks'[k])
  {
    var p := nodes[c].parent;
    var ks, ks' := Kids(g, p), Kids(g', p);
    ParentHigher(nodes, g, c);
    assert NodeOk(nodes, g, p) && KidAt(nodes, g, p, ks, i);
    LessIsWithout(ks, i);
    if i > 0 {
      assert KidAt(nodes, g, p, ks, i - 1);
    }
    NotOwnKid(nodes, g, p);
    forall j | 0 <= j < |ks'|
      ensures KidAt(nodes', g', p, ks', j)
    {
      KidStays(nodes, g, c, i, g', p, ks, j);
    }
    WithoutOnce(ks, i);
  }

  lemma NotOwnKid(nodes: map<nat, Node>, g: Shape, p: nat)
    requires TreeOk(nodes, g) && p in nodes
    ensures p !in Kids(g, p)
  {
    assert NodeOk(nodes, g, p);
    forall j | 0 <= j < |Kids(g, p)|
      ensures Kids(g, p)[j] != p
    {
      assert KidAt(nodes, g, p, Kids(g, p), j);
    }
  }

  /** The link of the child now at position `j`. */
  lemma KidStays(nodes: map<nat, Node>, g: Shape, c: nat, i: nat, g': Shape, p: nat, ks: seq<nat>, j: nat)
    requires c in nodes && nodes[c].parent == p != 0 && p in nodes && i < |ks| && ks[i] == c && j < |ks| - 1
    requires (forall k :: 0 <= k < |ks| ==> KidAt(nodes, g, p, ks, k)) && g'.depth == g.depth && p !in ks
    requires forall k, l :: 0 <= k < l < |ks| ==> ks[k] != ks[l]
    ensures KidAt(Delinked(nodes, c, At(ks, i - 1)), g', p, Without(ks, i), j)
  {
    var k := if j < i then j else j + 1;
    WithoutAt(ks, i, j);
    assert KidAt(nodes, g, p, ks, i) && KidAt(nodes, g, p, ks, k) && ks[k] != ks[i];
    if i > 0 {
      assert KidAt(nodes, g, p, ks, i - 1);
      assert k != i - 1 ==> ks[k] != ks[i - 1];
    }
  }

  lemma WithoutAt(s: seq<nat>, i: nat, j: int)
    requires i < |s|
    ensures At(Without(s, i), j) == if j < i then At(s, j) else At(s, j + 1)
    ensures At(Without(s, i), j + 1) == if j + 1 < i then At(s, j + 1) else At(s, j + 2)
  {
  }

  lemma WithoutOnce(s: seq<nat>, i: nat)
    requires i < |s| && forall j, k :: 0 <= j < k < |s| ==> s[j] != s[k]
    ensures var t := Without(s, i); forall j, k :: 0 <= j < k < |t| ==> t[j] != t[k]
  {
  }

  /** The children of other contexts are not touched. */
  lemma OtherKids(nodes: map<nat, Node>, g: Shape, c: nat, i: nat, nodes': map<nat, Node>, g': Shape, a: nat)
    requires TreeOk(nodes, g) && c in nodes
    requires var p := nodes[c].parent;
             && (p != 0 ==> i < |Kids(g, p)| && Kids(g, p)[i] == c && a != p)
             && nodes' == Delinked(nodes, c, if p == 0 then 0 else At(Kids(g, p), i - 1))
    requires a in nodes' && a in nodes && Kids(g', a) == Kids(g, a) && g'.depth == g.depth
    ensures nodes'[a].first == nodes[a].first
    ensures var ks := Kids(g, a); forall j :: 0 <= j < |ks| ==> KidAt(nodes', g', a, ks, j)
  {
    var p, ks := nodes[c].parent, Kids(g, a);
    assert NodeOk(nodes, g, a);
    if p != 0 {
      ParentHigher(nodes, g, c);
      assert NodeOk(nodes, g, p) && KidAt(nodes, g, p, Kids(g, p), i);
      if i > 0 {
        assert KidAt(nodes, g, p, Kids(g, p), i - 1);
      }
    }
    forall j | 0 <= j < |ks|
      ensures KidAt(nodes', g', a, ks, j)
    {
      assert KidAt(nodes, g, a, ks, j);
      assert ks[j] != c && (p != 0 && i > 0 ==> ks[j] != Kids(g, p)[i - 1]);
    }
  }

  /** A context that remains is still among its parent's children. */
  lemma StaysChild(nodes: map<nat, Node>, g: Shape, c: nat, i: nat, nodes': map<nat, Node>, g': Shape, a: nat)
    requires TreeOk(nodes, g) && c in nodes && Kids(g, c) == []
    requires nodes[c].parent != 0 ==> i < |Kids(g, nodes[c].parent)| && Kids(g, nodes[c].parent)[i] == c
    requires forall b :: KeptAt(nodes, g, nodes', g', c, nodes[c].parent, b)
    requires forall b :: b in nodes' <==> b in nodes && b != c
    requires a in nodes' && nodes[a].parent != 0
    ensures nodes[a].parent in nodes' && a in Kids(g', nodes[a].parent)
  {
    var p, q := nodes[c].parent, nodes[a].parent;
    ParentHigher(nodes, g, a);
    assert NodeOk(nodes, g, a) && NodeOk(nodes, g, q);
    assert KeptAt(nodes, g, nodes', g', c, p, q);
    if q == p {
      LessIsWithout(Kids(g, q), i);
      OthersStay(Kids(g, q), i, a);
    }
  }

  lemma OthersStay(s: seq<nat>, i: nat, a: nat)
    requires i < |s| && a in s && a != s[i]
    ensures a in Without(s, i)
  {
    var j :| 0 <= j < |s| && s[j] == a;
    assert Without(s, i)[if j < i then j else j - 1] == a;
  }

  // ---------- deletion ----------

  /** Exactly the subtree of `c` is gone; what remains has its parent and its
      children in order, except that the parent of `c` has lost `c`. */
  ghost predicate Pruned(nodes: map<nat, Node>, g: Shape, nodes': map<nat, Node>, g': Shape, c: nat, p: nat) {
    && (forall a :: a in nodes' <==> a in nodes && !Under(nodes, g, a, c))
    && (forall a :: KeptAt(nodes, g, nodes', g', c, p, a))
    && g'.depth == g.depth && g'.limit == g.limit
  }

  /** Some of the first `i` children of `c`, with all below them, includes `a`. */
  ghost predicate Gone(nodes: map<nat, Node>, g: Shape, ks: seq<nat>, i: nat, a: nat)
    requires i <= |ks|
  {
    exists j :: 0 <= j < i && Under(nodes, g, a, ks[j])
  }

  /** The first `i` children of `c` are gone, and nothing else has changed. */
  ghost predicate Stripped(nodes: map<nat, Node>, g: Shape, nodes': map<nat, Node>, g': Shape, c: nat, i: nat) {
    && i <= |Kids(g, c)|
    && (forall a :: a in nodes' <==> a in nodes && !Gone(nodes, g, Kids(g, c), i, a))
    && (forall a :: StripAt(nodes, g, nodes', g', c, i, a))
    && g'.depth == g.depth && g'.limit == g.limit
  }

  ghost predicate StripAt(nodes: map<nat, Node>, g: Shape, nodes': map<nat, Node>, g': Shape, c: nat, i: nat, a: nat) {
    a in nodes' ==>
      && a in nodes && nodes'[a].parent == nodes[a].parent
      && Kids(g', a) == if a == c && i <= |Kids(g, c)| then Kids(g, c)[i..] else Kids(g, a)
  }

  lemma ParentGone(nodes: map<nat, Node>, g: Shape, ks: seq<nat>, i: nat, a: nat)
    requires TreeOk(nodes, g) && a in nodes && nodes[a].parent != 0 && i <= |ks|
    ensures Gone(nodes, g, ks, i, nodes[a].parent) ==> Gone(nodes, g, ks, i, a)
  {
    ParentHigher(nodes, g, a);
    if Gone(nodes, g, ks, i, nodes[a].parent) {
      var j :| 0 <= j < i && Under(nodes, g, nodes[a].parent, ks[j]);
      assert Under(nodes, g, a, ks[j]);
    }
  }

  lemma StripRemains(nodes: map<nat, Node>, g: Shape, nodes': map<nat, Node>, g': Shape, c: nat, i: nat)
    requires TreeOk(nodes, g) && c in nodes && Stripped(nodes, g, nodes', g', c, i)
    ensures forall a :: Remains(nodes, nodes', a)
  {
    var ks := Kids(g, c);
    forall a: nat
      ensures Remains(nodes, nodes', a)
    {
      assert StripAt(nodes, g, nodes', g', c, i, a);
      if a in nodes' && nodes[a].parent != 0 {
        var p := nodes[a].parent;
        ParentHigher(nodes, g, a);
        ParentGone(nodes, g, ks, i, a);
      }
    }
  }

  /** `c` itself survives while its children go. */
  lemma StillThere(nodes: map<nat, Node>, g: Shape, c: nat, i: nat)
    requires TreeOk(nodes, g) && c in nodes && i <= |Kids(g, c)|
    ensures !Gone(nodes, g, Kids(g, c), i, c)
  {
    forall j | 0 <= j < i
      ensures !Under(nodes, g, c, Kids(g, c)[j])
    {
      if Under(nodes, g, c, Kids(g, c)[j]) {
        ChildUnder(nodes, g, c, c, Kids(g, c)[j]);
      }
    }
  }

  /** Deleting the next child strips one more. */
  lemma StripOne(n0: map<nat, Node>, g0: Shape, n1: map<nat, Node>, g1: Shape, n2: map<nat, Node>, g2: Shape, c: nat,
                 i: nat)
    requires TreeOk(n0, g0) && c in n0 && i < |Kids(g0, c)|
    requires Stripped(n0, g0, n1, g1, c, i) && Pruned(n1, g1, n2, g2, Kids(g0, c)[i], c)
    requires c in n1
    ensures Stripped(n0, g0, n2, g2, c, i + 1)
  {
    var ks := Kids(g0, c);
    var next := i + 1;
    StripRemains(n0, g0, n1, g1, c, i);
    assert StripAt(n0, g0, n1, g1, c, i, c);
    assert Less(ks[i..], ks[i]) == ks[next..];
    forall a: nat
      ensures a in n2 <==> a in n0 && !Gone(n0, g0, ks, next, a)
    {
      assert StripAt(n0, g0, n1, g1, c, i, a);
      if a in n1 {
        UnderKept(n0, n1, g0, g1, a, ks[i]);
      }
      GoneNext(n0, g0, ks, i, a);
    }
    forall a: nat
      ensures StripAt(n0, g0, n2, g2, c, next, a)
    {
      assert StripAt(n0, g0, n1, g1, c, i, a) && KeptAt(n1, g1, n2, g2, ks[i], c, a);
    }
  }

  lemma GoneNext(nodes: map<nat, Node>, g: Shape, ks: seq<nat>, i: nat, a: nat)
    requires i < |ks|
    ensures Gone(nodes, g, ks, i + 1, a) <==> Gone(nodes, g, ks, i, a) || Under(nodes, g, a, ks[i])
  {
    if Gone(nodes, g, ks, i, a) {
      var j :| 0 <= j < i && Under(nodes, g, a, ks[j]);
      assert Gone(nodes, g, ks, i + 1, a);
    }
  }

  /** All children stripped, then `c` removed: the subtree of `c` is pruned. */
  lemma StripAll(n0: map<nat, Node>, g0: Shape, n1: map<nat, Node>, g1: Shape, n2: map<nat, Node>, g2: Shape, c: nat)
    requires TreeOk(n0, g0) && c in n0 && Stripped(n0, g0, n1, g1, c, |Kids(g0, c)|) && c in n1
    requires forall a :: a in n2 <==> a in n1 && a != c
    requires forall a :: KeptAt(n1, g1, n2, g2, c, n0[c].parent, a)
    requires g2.depth == g1.depth && g2.limit == g1.limit
    ensures Pruned(n0, g0, n2, g2, c, n0[c].parent)
  {
    var ks, p := Kids(g0, c), n0[c].parent;
    forall a: nat
      ensures a in n2 <==> a in n0 && !Under(n0, g0, a, c)
    {
      GoneIsUnder(n0, g0, c, a);
    }
    forall a: nat
      ensures KeptAt(n0, g0, n2, g2, c, p, a)
    {
      assert StripAt(n0, g0, n1, g1, c, |ks|, a) && KeptAt(n1, g1, n2, g2, c, p, a);
    }
  }

  lemma GoneIsUnder(nodes: map<nat, Node>, g: Shape, c: nat, a: nat)
    requires TreeOk(nodes, g) && c in nodes
    ensures Gone(nodes, g, Kids(g, c), |Kids(g, c)|, a) <==> Under(nodes, g, a, c) && a != c
  {
    var ks := Kids(g, c);
    if Under(nodes, g, a, c) && a != c {
      var i := UnderChild(nodes, g, a, c);
    }
    if Gone(nodes, g, ks, |ks|, a) {
      var j :| 0 <= j < |ks| && Under(nodes, g, a, ks[j]);
      ChildUnder(nodes, g, a, c, ks[j]);
    }
  }

  /** A log that names each context satisfying the predicate once. */
  ghost predicate Once(log: seq<nat>) {
    forall i, j :: 0 <= i < j < |log| ==> log[i] != log[j]
  }

  // ---------- the order of release ----------

  ghost function Room(g: Shape, c: nat): nat {
    if Depth(g, c) < g.limit then g.limit - Depth(g, c) else 0
  }

  /** Each context behind its children, and those in the order of the sibling links. */
  ghost function PostOrder(g: Shape, c: nat): seq<nat>
    decreases Room(g, c), 1, 0
  {
    Forest(g, c, |Kids(g, c)|) + [c]
  }

  /** The first `i` children of `c` with all below them. */
  ghost function Forest(g: Shape, c: nat, i: nat): seq<nat>
    requires i <= |Kids(g, c)|
    decreases Room(g, c), 0, i
  {
    if i == 0 then []
    else
      var k := Kids(g, c)[i - 1];
      Forest(g, c, i - 1) + if Depth(g, c) < Depth(g, k) < g.limit then PostOrder(g, k) else []
  }

  lemma ForestNext(nodes: map<nat, Node>, g: Shape, c: nat, i: nat)
    requires TreeOk(nodes, g) && c in nodes && i < |Kids(g, c)|
    ensures Forest(g, c, i + 1) == Forest(g, c, i) + PostOrder(g, Kids(g, c)[i])
    ensures Kids(g, c)[i] in nodes && Depth(g, Kids(g, c)[i]) == Depth(g, c) + 1 && Room(g, Kids(g, c)[i]) < Room(g, c)
  {
    assert NodeOk(nodes, g, c) && KidAt(nodes, g, c, Kids(g, c), i);
    assert NodeOk(nodes, g, Kids(g, c)[i]);
  }

  /** The order below `c` depends on nothing but the children of the contexts there. */
  lemma {:induction false} SamePostOrder(nodes: map<nat, Node>, g: Shape, g': Shape, c: nat)
    requires TreeOk(nodes, g) && c in nodes && g'.depth == g.depth && g'.limit == g.limit
    requires forall a :: Under(nodes, g, a, c) ==> Kids(g', a) == Kids(g, a)
    ensures PostOrder(g', c) == PostOrder(g, c)
    decreases Room(g, c), 1, 0
  {
    assert Under(nodes, g, c, c);
    SameForest(nodes, g, g', c, |Kids(g, c)|);
  }

  lemma {:induction false} SameForest(nodes: map<nat, Node>, g: Shape, g': Shape, c: nat, i: nat)
    requires TreeOk(nodes, g) && c in nodes && g'.depth == g.depth && g'.limit == g.limit
    requires forall a :: Under(nodes, g, a, c) ==> Kids(g', a) == Kids(g, a)
    requires i <= |Kids(g, c)| && Kids(g', c) == Kids(g, c)
    ensures Forest(g', c, i) == Forest(g, c, i)
    decreases Room(g, c), 0, i
  {
    if i > 0 {
      var k := Kids(g, c)[i - 1];
      ForestNext(nodes, g, c, i - 1);
      SameForest(nodes, g, g', c, i - 1);
      forall a | Under(nodes, g, a, k)
        ensures Kids(g', a) == Kids(g, a)
      {
        ChildUnder(nodes, g, a, c, k);
      }
      SamePostOrder(nodes, g, g', k);
    }
  }

  /** What is left of the next child is as it was. */
  lemma StripOrder(n0: map<nat, Node>, g0: Shape, n1: map<nat, Node>, g1: Shape, c: nat, i: nat)
    requires TreeOk(n0, g0) && c in n0 && Stripped(n0, g0, n1, g1, c, i) && i < |Kids(g0, c)|
    ensures PostOrder(g1, Kids(g0, c)[i]) == PostOrder(g0, Kids(g0, c)[i])
    ensures Forest(g0, c, i + 1) == Forest(g0, c, i) + PostOrder(g1, Kids(g0, c)[i])
  {
    var k := Kids(g0, c)[i];
    ForestNext(n0, g0, c, i);
    forall a | Under(n0, g0, a, k)
      ensures Kids(g1, a) == Kids(g0, a)
    {
      SiblingsApart(n0, g0, c, i, a);
      ChildUnder(n0, g0, a, c, k);
      assert StripAt(n0, g0, n1, g1, c, i, a);
    }
    SamePostOrder(n0, g0, g1, k);
  }

  /** `s` is a stretch of `t`, from place `i` on. */
  ghost predicate Stretch(s: seq<nat>, t: seq<nat>, i: nat) {
    i + |s| <= |t| && t[i..i + |s|] == s
  }

  /** The contexts at and below any descendant form one stretch of the order, which
      that descendant ends. */
  lemma {:induction false} SubtreeStretch(nodes: map<nat, Node>, g: Shape, c: nat, a: nat) returns (i: nat)
    requires TreeOk(nodes, g) && Under(nodes, g, a, c)
    ensures Stretch(PostOrder(g, a), PostOrder(g, c), i) && PostOrder(g, a)[|PostOrder(g, a)| - 1] == a
    decreases Depth(g, a)
  {
    if a == c {
      return 0;
    }
    var p := nodes[a].parent;
    var j := SubtreeStretch(nodes, g, c, p);
    assert NodeOk(nodes, g, a);
    var n :| 0 <= n < |Kids(g, p)| && Kids(g, p)[n] == a;
    ForestStretch(nodes, g, p, n, |Kids(g, p)|);
    StretchMore(PostOrder(g, a), Forest(g, p, |Kids(g, p)|), [p], |Forest(g, p, n)|);
    StretchTwice(PostOrder(g, a), PostOrder(g, p), PostOrder(g, c), |Forest(g, p, n)|, j);
    i := j + |Forest(g, p, n)|;
  }

  lemma StretchMore(s: seq<nat>, t: seq<nat>, more: seq<nat>, i: nat)
    requires Stretch(s, t, i)
    ensures Stretch(s, t + more, i)
  {
    assert (t + more)[i..i + |s|] == t[i..i + |s|];
  }

  lemma StretchTwice(s: seq<nat>, t: seq<nat>, u: seq<nat>, i: nat, j: nat)
    requires Stretch(s, t, i) && Stretch(t, u, j)
    ensures Stretch(s, u, j + i)
  {
    forall k | 0 <= k < |s|
      ensures u[j + i + k] == s[k]
    {
      assert s[k] == t[i..i + |s|][k] && t[i + k] == u[j..j + |t|][i + k];
    }
  }

  lemma {:induction false} ForestStretch(nodes: map<nat, Node>, g: Shape, c: nat, n: nat, j: nat)
    requires TreeOk(nodes, g) && c in nodes && n < j <= |Kids(g, c)|
    ensures Stretch(PostOrder(g, Kids(g, c)[n]), Forest(g, c, j), |Forest(g, c, n)|)
    decreases j
  {
    ForestNext(nodes, g, c, j - 1);
    if n + 1 < j {
      ForestStretch(nodes, g, c, n, j - 1);
      StretchMore(PostOrder(g, Kids(g, c)[n]), Forest(g, c, j - 1), PostOrder(g, Kids(g, c)[j - 1]), |Forest(g, c, n)|);
    }
  }

  class Contexts {
    var nodes: map<nat, Node>
    const top: nat
    var current: nat
    ghost var g: Shape

    ghost predicate Valid()
      reads this
    {
      TreeOk(nodes, g)
    }

    /** The contexts at and below `c`. */
    ghost predicate Below(a: nat, c: nat)
      reads this
    {
      Under(nodes, g, a, c)
    }

    /** The startup state: the top context alone. */
    constructor (root: nat)
      requires root != 0
      ensures Valid() && nodes == map[root := Node(0, 0, 0)] && top == root && current == root
    {
      nodes, top, current := map[root := Node(0, 0, 0)], root, root;
      g := Shape(map[root := []], map[root := 0], 1);
    }

    /** memory_context_create: a new first child of `parent`, or a root. */
    method Create(node: nat, parent: nat)
      requires Valid() && node != 0 && node !in nodes && (parent != 0 ==> parent in nodes)
      modifies this`nodes, this`g
      ensures Valid() && nodes.Keys == old(nodes).Keys + {node}
      ensures nodes[node].parent == parent && Kids(g, node) == []
      ensures parent != 0 ==> Kids(g, parent) == [node] + old(Kids(g, parent))
      ensures forall a :: a in old(nodes) ==> nodes[a].parent == old(nodes)[a].parent
                                              && (a != parent ==> Kids(g, a) == old(Kids(g, a)))
    {
      ghost var n0, g0 := nodes, g;
      if parent != 0 {
        nodes := nodes[node := Node(parent, 0, nodes[parent].first)][parent := nodes[parent].(first := node)];
      } else {
        nodes := nodes[node := Node(0, 0, 0)];
      }
      g := Grown(g0, node, parent);
      CreateStep(n0, g0, node, parent);
    }

    /** memory_context_delete: releases `c` and everything below it, each once. */
    method Delete(c: nat) returns (log: seq<nat>)
      requires Valid() && c in nodes && !Below(top, c) && !Below(current, c)
      modifies this`nodes, this`g
      ensures Valid() && Pruned(old(nodes), old(g), nodes, g, c, old(nodes)[c].parent)
      ensures Once(log) && forall a :: a in log <==> old(Below(a, c))
      ensures log == old(PostOrder(g, c)) && |log| > 0 && log[|log| - 1] == c
      decreases g.limit - Depth(g, c), 1
    {
      ghost var n0, g0 := nodes, g;
      assert NodeOk(nodes, g, c);
      log := DeleteChildren(c);
      ghost var n1, g1 := nodes, g;
      assert StripAt(n0, g0, n1, g1, c, |Kids(g0, c)|, c);
      assert c !in log;
      Delink(c);
      StripAll(n0, g0, n1, g1, nodes, g, c);
      log := log + [c];
    }

    /** Takes a context without children out of its parent's list and frees it. */
    method Delink(c: nat)
      requires Valid() && c in nodes && Kids(g, c) == []
      modifies this`nodes, this`g
      ensures Valid() && (forall a :: a in nodes <==> a in old(nodes) && a != c)
      ensures forall a :: KeptAt(old(nodes), old(g), nodes, g, c, old(nodes)[c].parent, a)
      ensures g.depth == old(g).depth && g.limit == old(g).limit
    {
      ghost var i := 0;
      var prev := 0;
      if nodes[c].parent != 0 {
        prev, i := ElderSibling(c);
      }
      ghost var n2, g2 := LeafStep(nodes, g, c, i);
      nodes, g := Delinked(nodes, c, prev), g2;
    }

    /** Finds the child of the same parent that precedes `c`, or 0 if there is none. */
    method ElderSibling(c: nat) returns (prev: nat, ghost i: nat)
      requires Valid() && c in nodes && nodes[c].parent != 0
      ensures var ks := Kids(g, nodes[c].parent); i < |ks| && ks[i] == c && prev == At(ks, i - 1)
    {
      var p := nodes[c].parent;
      ParentHigher(nodes, g, c);
      assert NodeOk(nodes, g, c) && NodeOk(nodes, g, p);
      ghost var ks := Kids(g, p);
      ghost var at :| 0 <= at < |ks| && ks[at] == c;
      assert KidAt(nodes, g, p, ks, 0);
      i := 0;
      if c == nodes[p].first {
        return 0, 0;
      }
      prev := nodes[p].first;
      while nodes[prev].next != c
        invariant i < at < |ks| && prev == ks[i] && prev in nodes
        decreases at - i
      {
        assert KidAt(nodes, g, p, ks, i) && KidAt(nodes, g, p, ks, i + 1);
        prev := nodes[prev].next;
        i := i + 1;
        assert KidAt(nodes, g, p, ks, i);
        assert i != at;
      }
      assert KidAt(nodes, g, p, ks, i);
      i := i + 1;
    }

    /** memory_context_delete_children: deletes the first child until there is none. */
    method DeleteChildren(c: nat) returns (log: seq<nat>)
      requires Valid() && c in nodes && (Below(top, c) ==> top == c) && (Below(current, c) ==> current == c)
      modifies this`nodes, this`g
      ensures Valid() && c in nodes && Stripped(old(nodes), old(g), nodes, g, c, |old(Kids(g, c))|)
      ensures Once(log) && forall a :: a in log <==> old(Below(a, c)) && a != c
      ensures log == old(Forest(g, c, |Kids(g, c)|))
      decreases g.limit - Depth(g, c), 0
    {
      ghost var n0, g0, ks := nodes, g, Kids(g, c);
      ghost var i := 0;
      log := [];
      assert NodeOk(n0, g0, c);
      while nodes[c].first != 0
        invariant Valid() && c in nodes && Stripped(n0, g0, nodes, g, c, i)
        invariant Released(n0, g0, c, i, log)
        decreases |ks| - i
      {
        ghost var n1, g1 := nodes, g;
        assert StripAt(n0, g0, n1, g1, c, i, c) && NodeOk(n1, g1, c);
        assert i < |ks| && nodes[c].first == ks[i];
        FirstChildMayGo(n0, g0, n1, g1, c, i, top);
        FirstChildMayGo(n0, g0, n1, g1, c, i, current);
        var more := Delete(nodes[c].first);
        OneReleased(n0, g0, n1, g1, nodes, g, c, i, log, more);
        log := log + more;
        i := i + 1;
      }
      AllReleased(n0, g0, nodes, g, c, i, log);
    }

    /** memory_context_reset: every context at and below `c` is reset once, children first. */
    method Reset(c: nat) returns (log: seq<nat>)
      requires Valid() && c in nodes
      ensures Once(log) && (forall a :: a in log <==> Below(a, c)) && |log| > 0 && log[|log| - 1] == c
      ensures log == PostOrder(g, c)
      decreases g.limit - Depth(g, c), 1
    {
      assert NodeOk(nodes, g, c);
      log := ResetChildren(c);
      assert c !in log && Below(c, c);
      log := log + [c];
    }

    /** memory_context_reset_children. */
    method ResetChildren(c: nat) returns (log: seq<nat>)
      requires Valid() && c in nodes
      ensures Once(log) && forall a :: a in log <==> Below(a, c) && a != c
      ensures log == Forest(g, c, |Kids(g, c)|)
      decreases g.limit - Depth(g, c), 0
    {
      ghost var i, ks := 0, Kids(g, c);
      log := [];
      assert NodeOk(nodes, g, c);
      var child := nodes[c].first;
      while child != 0
        invariant i <= |ks| && child == At(ks, i)
        invariant Once(log) && forall a :: a in log <==> Gone(nodes, g, ks, i, a)
        invariant log == Forest(g, c, i)
        decreases |ks| - i
      {
        assert KidAt(nodes, g, c, ks, i);
        var more := Reset(child);
        JoinSiblings(nodes, g, c, i, log, more);
        ForestNext(nodes, g, c, i);
        log := log + more;
        child := nodes[child].next;
        i := i + 1;
      }
      assert i < |ks| ==> KidAt(nodes, g, c, ks, i);
      assert i == |ks|;
      forall a: nat
        ensures Gone(nodes, g, ks, i, a) <==> Under(nodes, g, a, c) && a != c
      {
        GoneIsUnder(nodes, g, c, a);
      }
    }
  }

  /** Siblings have no descendant in common. */
  lemma JoinSiblings(nodes: map<nat, Node>, g: Shape, c: nat, i: nat, log: seq<nat>, more: seq<nat>)
    requires TreeOk(nodes, g) && c in nodes && i < |Kids(g, c)|
    requires Once(log) && forall a :: a in log <==> Gone(nodes, g, Kids(g, c), i, a)
    requires Once(more) && forall a :: a in more <==> Under(nodes, g, a, Kids(g, c)[i])
    ensures Once(log + more) && forall a :: a in log + more <==> Gone(nodes, g, Kids(g, c), i + 1, a)
  {
    var ks := Kids(g, c);
    var next := i + 1;
    assert NodeOk(nodes, g, c) && KidAt(nodes, g, c, ks, i);
    forall a: nat
      ensures a in log + more <==> Gone(nodes, g, ks, next, a)
      ensures a in log ==> a !in more
    {
      GoneNext(nodes, g, ks, i, a);
      SiblingsApart(nodes, g, c, i, a);
    }
    forall x, y | 0 <= x < y < |log + more|
      ensures (log + more)[x] != (log + more)[y]
    {
      if x < |log| <= y {
        assert log[x] in log && more[y - |log|] in more;
      }
    }
  }

  lemma SiblingsApart(nodes: map<nat, Node>, g: Shape, c: nat, i: nat, a: nat)
    requires TreeOk(nodes, g) && c in nodes && i < |Kids(g, c)|
    ensures Under(nodes, g, a, Kids(g, c)[i]) ==> !Gone(nodes, g, Kids(g, c), i, a)
  {
    var ks := Kids(g, c);
    assert NodeOk(nodes, g, c) && KidAt(nodes, g, c, ks, i);
    forall j | 0 <= j < i
      ensures Under(nodes, g, a, ks[i]) ==> !Under(nodes, g, a, ks[j])
    {
      assert KidAt(nodes, g, c, ks, j) && ks[j] != ks[i];
      if Under(nodes, g, a, ks[i]) && Under(nodes, g, a, ks[j]) {
        OneAncestor(nodes, g, a, ks[i], ks[j]);
      }
    }
  }

  lemma FirstChildMayGo(n0: map<nat, Node>, g0: Shape, n1: map<nat, Node>, g1: Shape, c: nat, i: nat, keep: nat)
    requires TreeOk(n0, g0) && TreeOk(n1, g1) && c in n0 && c in n1 && Stripped(n0, g0, n1, g1, c, i)
             && i < |Kids(g0, c)|
    requires Under(n0, g0, keep, c) ==> keep == c
    ensures Kids(g0, c)[i] in n1 && n1[Kids(g0, c)[i]].parent == c && Depth(g1, Kids(g0, c)[i]) == Depth(g0, c) + 1
    ensures !Under(n1, g1, keep, Kids(g0, c)[i])
  {
    var k := Kids(g0, c)[i];
    assert StripAt(n0, g0, n1, g1, c, i, c) && NodeOk(n1, g1, c);
    assert Kids(g1, c)[0] == k;
    assert KidAt(n1, g1, c, Kids(g1, c), 0);
    StripRemains(n0, g0, n1, g1, c, i);
    if Under(n1, g1, keep, k) {
      UnderKept(n0, n1, g0, g1, keep, k);
      ChildUnder(n0, g0, keep, c, k);
    }
  }

  /** The first `i` children of `c` have been released with all below them, in order. */
  ghost predicate Released(nodes: map<nat, Node>, g: Shape, c: nat, i: nat, log: seq<nat>) {
    && i <= |Kids(g, c)| && log == Forest(g, c, i)
    && Once(log) && forall a :: a in log <==> Gone(nodes, g, Kids(g, c), i, a)
  }

  /** One round of the loop that deletes the children of `c`. */
  lemma OneReleased(n0: map<nat, Node>, g0: Shape, n1: map<nat, Node>, g1: Shape, n2: map<nat, Node>, g2: Shape,
                    c: nat, i: nat, log: seq<nat>, more: seq<nat>)
    requires TreeOk(n0, g0) && TreeOk(n1, g1) && c in n0 && c in n1 && i < |Kids(g0, c)|
    requires Stripped(n0, g0, n1, g1, c, i) && Pruned(n1, g1, n2, g2, Kids(g0, c)[i], c)
    requires Released(n0, g0, c, i, log) && more == PostOrder(g1, Kids(g0, c)[i])
    requires Once(more) && forall a :: a in more <==> Under(n1, g1, a, Kids(g0, c)[i])
    ensures Stripped(n0, g0, n2, g2, c, i + 1) && Released(n0, g0, c, i + 1, log + more) && c in n2
  {
    StripOrder(n0, g0, n1, g1, c, i);
    StripOne(n0, g0, n1, g1, n2, g2, c, i);
    JoinLogs(n0, g0, n1, g1, c, i, log, more);
    StillThere(n0, g0, c, i + 1);
  }

  /** When no child is left, all have been released. */
  lemma AllReleased(n0: map<nat, Node>, g0: Shape, n1: map<nat, Node>, g1: Shape, c: nat, i: nat, log: seq<nat>)
    requires TreeOk(n0, g0) && TreeOk(n1, g1) && c in n0 && c in n1 && n1[c].first == 0
    requires Stripped(n0, g0, n1, g1, c, i) && Released(n0, g0, c, i, log)
    ensures i == |Kids(g0, c)| && forall a :: a in log <==> Under(n0, g0, a, c) && a != c
  {
    assert StripAt(n0, g0, n1, g1, c, i, c) && NodeOk(n1, g1, c);
    assert i < |Kids(g0, c)| ==> KidAt(n1, g1, c, Kids(g1, c), 0);
    forall a: nat
      ensures a in log <==> Under(n0, g0, a, c) && a != c
    {
      GoneIsUnder(n0, g0, c, a);
    }
  }

  lemma JoinLogs(n0: map<nat, Node>, g0: Shape, n1: map<nat, Node>, g1: Shape, c: nat, i: nat, log: seq<nat>,
                 more: seq<nat>)
    requires TreeOk(n0, g0) && c in n0 && Stripped(n0, g0, n1, g1, c, i) && i < |Kids(g0, c)|
    requires Once(log) && forall a :: a in log <==> Gone(n0, g0, Kids(g0, c), i, a)
    requires Once(more) && forall a :: a in more <==> Under(n1, g1, a, Kids(g0, c)[i])
    ensures Once(log + more) && forall a :: a in log + more <==> Gone(n0, g0, Kids(g0, c), i + 1, a)
  {
    var ks := Kids(g0, c);
    var next := i + 1;
    StripRemains(n0, g0, n1, g1, c, i);
    forall a: nat
      ensures a in log + more <==> Gone(n0, g0, ks, next, a)
      ensures !(a in log && a in more)
    {
      GoneNext(n0, g0, ks, i, a);
      assert StripAt(n0, g0, n1, g1, c, i, a);
      if a in n1 {
        UnderKept(n0, n1, g0, g1, a, ks[i]);
      }
    }
    forall x, y | 0 <= x < y < |log + more|
      ensures (log + more)[x] != (log + more)[y]
    {
      if x < |log| <= y {
        assert log[x] in log && more[y - |log|] in more;
      }
    }
  }

  // ---------- creation ----------

  ghost function Grown(g: Shape, node: nat, parent: nat): Shape {
    var d := if parent == 0 then 0 else Depth(g, parent) + 1;
    Shape(if parent == 0 then g.kids[node := []] else g.kids[node := []][parent := [node] + Kids(g, parent)],
          g.depth[node := d], if d < g.limit then g.limit else d + 1)
  }

  lemma CreateStep(nodes: map<nat, Node>, g: Shape, node: nat, parent: nat)
    requires TreeOk(nodes, g) && node != 0 && node !in nodes && (parent != 0 ==> parent in nodes)
    ensures var nodes' := if parent != 0
                          then nodes[node := Node(parent, 0, nodes[parent].first)]
                                    [parent := nodes[parent].(first := node)]
                          else nodes[node := Node(0, 0, 0)];
            TreeOk(nodes', Grown(g, node, parent))
  {
    var nodes' := if parent != 0
                  then nodes[node := Node(parent, 0, nodes[parent].first)][parent := nodes[parent].(first := node)]
                  else nodes[node := Node(0, 0, 0)];
    var g' := Grown(g, node, parent);
    assert parent != 0 ==> NodeOk(nodes, g, parent);
    forall a: nat
      ensures NodeOk(nodes', g', a)
    {
      assert NodeOk(nodes, g, a);
      if a in nodes {
        var ks, ks' := Kids(g, a), Kids(g', a);
        forall i | 0 <= i < |ks'|
          ensures KidAt(nodes', g', a, ks', i)
        {
          if a == parent && parent != 0 {
            if i > 0 {
              assert KidAt(nodes, g, a, ks, i - 1) && ks'[i] == ks[i - 1];
              assert ks[i - 1] != parent;
            }
          } else {
            assert KidAt(nodes, g, a, ks, i);
          }
        }
        forall i, j | 0 <= i < j < |ks'|
          ensures ks'[i] != ks'[j]
        {
          if a == parent && parent != 0 {
            assert KidAt(nodes, g, a, ks, j - 1);
          }
        }
      }
    }
  }
}
