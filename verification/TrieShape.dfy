/** The radix trie as a value (genmc/genmc/ADT/Trie.hpp). Nodes live in the vector `nodes` and point to each other by
    their place in it; edge labels are sequences over a total order, here the integers. */
module TrieShapes {
  import opened Options

  type Word = seq<int>

  datatype Node<P> = Node(lab: Word, dat: P, children: seq<nat>)

  // ---- Comparing a label with a string.

  /** The length of the common part. */
  function CommonPart(s: Word, t: Word): (n: nat)
    ensures n <= |s| && n <= |t|
  {
    if |s| == 0 || |t| == 0 || s[0] != t[0] then 0 else 1 + CommonPart(s[1..], t[1..])
  }

  lemma {:induction false} PartsAfter(s: Word, t: Word)
    ensures var n := CommonPart(s, t); s[..n] == t[..n] && (n < |s| && n < |t| ==> s[n] != t[n])
  {
    if |s| > 0 && |t| > 0 && s[0] == t[0] {
      PartsAfter(s[1..], t[1..]);
      var n := CommonPart(s[1..], t[1..]);
      assert s[..n + 1] == [s[0]] + s[1..][..n] && t[..n + 1] == [t[0]] + t[1..][..n];
    }
  }

  const SAME := -3
  const STRING_IS_PREFIX := -2
  const LABEL_IS_PREFIX := -1
  const DONT_MATCH := 0

  /** A number forced into the eight bits of Node::QueryResult. */
  function Int8(i: nat): int { (i + 128) % 256 - 128 }

  function Code(t: Word, lab: Word): int {
    var i := CommonPart(t, lab);
    if i < |t| && i < |lab| then Int8(i)
    else if |t| == |lab| then SAME
    else if i == |t| then STRING_IS_PREFIX
    else LABEL_IS_PREFIX
  }

  /** What a code says about the string and the label. */
  predicate Tells(t: Word, lab: Word, code: int) {
    if code == SAME then t == lab
    else if code == STRING_IS_PREFIX then |t| < |lab| && t == lab[..|t|]
    else if code == LABEL_IS_PREFIX then |lab| < |t| && lab == t[..|lab|]
    else 0 <= code && code < |t| && code < |lab| && t[..code] == lab[..code] && t[code] != lab[code]
  }

  /** The string and the label are not both longer than a common part of 128 elements or more. */
  predicate Exact(t: Word, lab: Word) {
    CommonPart(t, lab) < 128 || CommonPart(t, lab) == |t| || CommonPart(t, lab) == |lab|
  }

  /** The code says what is so exactly in that case. */
  lemma CodeIsExact(t: Word, lab: Word)
    ensures Tells(t, lab, Code(t, lab)) <==> Exact(t, lab)
  {
    var i := CommonPart(t, lab);
    Int8Fits(i);
    PartsAfter(t, lab);
    if i < |t| && i < |lab| {
      if i >= 128 { NothingElseTells(t, lab, i, Int8(i)); }
    } else {
      assert t[..|t|] == t && lab[..|lab|] == lab;
    }
  }

  lemma Int8Fits(i: nat)
    ensures if i < 128 then Int8(i) == i else Int8(i) < i
  {
  }

  lemma NothingElseTells(t: Word, lab: Word, i: nat, code: int)
    requires i < |t| && i < |lab| && t[..i] == lab[..i] && t[i] != lab[i] && code < i
    ensures !Tells(t, lab, code)
  {
    DifferentWords(t, lab, i);
    if 0 <= code { assert t[..i][code] == lab[..i][code]; }
  }

  lemma DifferentWords(t: Word, lab: Word, i: nat)
    requires i < |t| && i < |lab| && t[i] != lab[i]
    ensures t != lab && (|t| < |lab| ==> t != lab[..|t|]) && (|lab| < |t| ==> lab != t[..|lab|])
  {
    assert |t| < |lab| ==> lab[..|t|][i] == lab[i];
    assert |lab| < |t| ==> t[..|lab|][i] == t[i];
  }

  lemma {:induction false} CommonPartIs(t: Word, lab: Word, n: nat)
    requires n < |t| && n < |lab| && t[..n] == lab[..n] && t[n] != lab[n]
    ensures CommonPart(t, lab) == n
  {
    if n > 0 {
      assert t[0] == t[..n][0] == lab[..n][0] == lab[0];
      assert t[1..][..n - 1] == t[..n][1..] == lab[..n][1..] == lab[1..][..n - 1];
      CommonPartIs(t[1..], lab[1..], n - 1);
    }
  }

  /** Any two strings that part after 253 elements, up to multiples of 256, are taken for the same. */
  lemma LongLabelsFool(common: Word, x: int, y: int, u: Word, v: Word)
    requires |common| % 256 == 253 && x != y
    ensures common + [x] + u != common + [y] + v && Code(common + [x] + u, common + [y] + v) == SAME
  {
    var t, lab, n := common + [x] + u, common + [y] + v, |common|;
    assert t[..n] == common && lab[..n] == common && t[n] == x && lab[n] == y;
    CommonPartIs(t, lab, n);
  }

  // ---- The shape of the tree.

  /** Ghost knowledge about the nodes: the string that leads to each, and its parent. */
  datatype Plan = Plan(word: seq<Word>, parent: seq<nat>)

  ghost predicate SiblingsOk<P>(nodes: seq<Node<P>>, cs: seq<nat>) {
    && (forall i :: 0 <= i < |cs| ==> cs[i] < |nodes| && |nodes[cs[i]].lab| > 0)
    && forall i, j :: 0 <= i < j < |cs| ==> nodes[cs[i]].lab[0] < nodes[cs[j]].lab[0]
  }

  /** Where a node is, its parent lists it; its word is that of the parent followed by its label. */
  ghost predicate Placed<P>(nodes: seq<Node<P>>, plan: Plan, c: nat)
    requires 0 < c < |nodes| == |plan.word| == |plan.parent|
  {
    && plan.parent[c] < |nodes| && c in nodes[plan.parent[c]].children
    && 0 < |nodes[c].lab| && plan.word[c] == plan.word[plan.parent[c]] + nodes[c].lab
  }

  /** A tree of nodes with nonempty labels below the root, where siblings are sorted and differ in their first
      elements. */
  ghost predicate Shape<P>(nodes: seq<Node<P>>, plan: Plan) {
    && 0 < |nodes| == |plan.word| == |plan.parent| && plan.word[0] == []
    && (forall c :: 0 < c < |nodes| ==> Placed(nodes, plan, c))
    && (forall n, i :: 0 <= n < |nodes| && 0 <= i < |nodes[n].children| ==>
          0 < nodes[n].children[i] < |nodes| && plan.parent[nodes[n].children[i]] == n)
    && forall n :: 0 <= n < |nodes| ==> SiblingsOk(nodes, nodes[n].children)
  }

  /** n is a or lies below it. */
  ghost predicate Under<P>(nodes: seq<Node<P>>, plan: Plan, a: nat, n: nat)
    requires Shape(nodes, plan) && n < |nodes|
    decreases |plan.word[n]|
  {
    a == n || (n > 0 && (assert Placed(nodes, plan, n); Under(nodes, plan, a, plan.parent[n])))
  }

  lemma {:induction false} UnderRoot<P>(nodes: seq<Node<P>>, plan: Plan, n: nat)
    requires Shape(nodes, plan) && n < |nodes|
    ensures Under(nodes, plan, 0, n)
    decreases |plan.word[n]|
  {
    if n > 0 {
      assert Placed(nodes, plan, n);
      UnderRoot(nodes, plan, plan.parent[n]);
    }
  }

  lemma {:induction false} UnderIsPrefix<P>(nodes: seq<Node<P>>, plan: Plan, a: nat, n: nat)
    requires Shape(nodes, plan) && a < |nodes| && n < |nodes| && Under(nodes, plan, a, n)
    ensures |plan.word[a]| <= |plan.word[n]| && plan.word[a] == plan.word[n][..|plan.word[a]|]
    ensures |plan.word[a]| == |plan.word[n]| ==> a == n
    decreases |plan.word[n]|
  {
    if a != n {
      assert Placed(nodes, plan, n);
      UnderIsPrefix(nodes, plan, a, plan.parent[n]);
    }
  }

  /** The child of a on the way down to n. */
  lemma {:induction false} ChildToward<P>(nodes: seq<Node<P>>, plan: Plan, a: nat, n: nat) returns (d: nat)
    requires Shape(nodes, plan) && a < |nodes| && n < |nodes| && Under(nodes, plan, a, n) && a != n
    ensures 0 < d < |nodes| && plan.parent[d] == a && d in nodes[a].children && Under(nodes, plan, d, n)
    decreases |plan.word[n]|
  {
    assert Placed(nodes, plan, n);
    if plan.parent[n] == a { d := n; } else { d := ChildToward(nodes, plan, a, plan.parent[n]); }
  }

  /** Siblings with the same first element are the same. */
  lemma OneChild<P>(nodes: seq<Node<P>>, plan: Plan, a: nat, c: nat, d: nat)
    requires Shape(nodes, plan) && a < |nodes| && c in nodes[a].children && d in nodes[a].children
    requires c < |nodes| && d < |nodes| && 0 < |nodes[c].lab| && 0 < |nodes[d].lab| &&
      nodes[c].lab[0] == nodes[d].lab[0]
    ensures c == d
  {
    var cs := nodes[a].children;
    assert SiblingsOk(nodes, cs);
    var i :| 0 <= i < |cs| && cs[i] == c;
    var j :| 0 <= j < |cs| && cs[j] == d;
    assert !(i < j) && !(j < i);
  }

  /** Whatever node spells a prefix of the word of n is above n. */
  lemma {:induction false} PrefixIsAbove<P>(nodes: seq<Node<P>>, plan: Plan, m: nat, n: nat)
    requires Shape(nodes, plan) && m < |nodes| && n < |nodes|
    requires |plan.word[m]| <= |plan.word[n]| && plan.word[m] == plan.word[n][..|plan.word[m]|]
    ensures Under(nodes, plan, m, n)
    decreases |plan.word[m]|
  {
    if m == 0 {
      UnderRoot(nodes, plan, n);
    } else {
      assert Placed(nodes, plan, m);
      var p := plan.parent[m];
      var k := |plan.word[p]|;
      assert plan.word[p] == plan.word[m][..k] == plan.word[n][..k];
      PrefixIsAbove(nodes, plan, p, n);
      var d := ChildToward(nodes, plan, p, n);
      UnderIsPrefix(nodes, plan, d, n);
      assert Placed(nodes, plan, d);
      assert nodes[d].lab[0] == plan.word[d][k] == plan.word[n][k] == plan.word[m][k] == nodes[m].lab[0];
      OneChild(nodes, plan, p, m, d);
    }
  }

  /** No two nodes spell the same word. */
  lemma WordsDiffer<P>(nodes: seq<Node<P>>, plan: Plan, m: nat, n: nat)
    requires Shape(nodes, plan) && m < |nodes| && n < |nodes| && plan.word[m] == plan.word[n]
    ensures m == n
  {
    assert plan.word[n][..|plan.word[n]|] == plan.word[n];
    PrefixIsAbove(nodes, plan, m, n);
    UnderIsPrefix(nodes, plan, m, n);
  }

  /** From a node that spells the first k elements of a word that is in the trie, one of its edges leads on. */
  lemma NextEdge<P>(nodes: seq<Node<P>>, plan: Plan, a: nat, n: nat) returns (d: nat)
    requires Shape(nodes, plan) && a < |nodes| && n < |nodes|
    requires |plan.word[a]| < |plan.word[n]| && plan.word[a] == plan.word[n][..|plan.word[a]|]
    ensures 0 < d < |nodes| && d in nodes[a].children && |nodes[d].lab| > 0
    ensures |plan.word[a]| + |nodes[d].lab| <= |plan.word[n]|
    ensures nodes[d].lab == plan.word[n][|plan.word[a]|..|plan.word[a]| + |nodes[d].lab|]
  {
    PrefixIsAbove(nodes, plan, a, n);
    d := ChildToward(nodes, plan, a, n);
    UnderIsPrefix(nodes, plan, d, n);
    assert Placed(nodes, plan, d);
  }

  // ---- Changing the tree.

  /** std::lower_bound over children by first elements. */
  function EdgeIndex<P>(nodes: seq<Node<P>>, cs: seq<nat>, id: int): (i: nat)
    requires SiblingsOk(nodes, cs)
    ensures i <= |cs| && (forall j :: 0 <= j < i ==> nodes[cs[j]].lab[0] < id)
    ensures forall j :: i <= j < |cs| ==> id <= nodes[cs[j]].lab[0]
  {
    if |cs| == 0 || id <= nodes[cs[0]].lab[0] then 0 else 1 + EdgeIndex(nodes, cs[1..], id)
  }

  function Inserted(cs: seq<nat>, k: nat, m: nat): (r: seq<nat>)
    requires k <= |cs|
    ensures |r| == |cs| + 1 && (forall i :: 0 <= i < k ==> r[i] == cs[i]) && r[k] == m
    ensures forall i :: k < i < |r| ==> r[i] == cs[i - 1]
  {
    cs[..k] + [m] + cs[k..]
  }

  lemma InsertedMembers(cs: seq<nat>, k: nat, m: nat)
    requires k <= |cs|
    ensures forall c :: c in Inserted(cs, k, m) <==> c in cs || c == m
  {
    assert cs == cs[..k] + cs[k..];
  }

  /** A new leaf m below n, whose first element is new there, goes to its place among the children. */
  function WithLeaf<P>(nodes: seq<Node<P>>, n: nat, lab: Word, dat: P): seq<Node<P>>
    requires n < |nodes| && |lab| > 0 && SiblingsOk(nodes, nodes[n].children)
  {
    var k := EdgeIndex(nodes, nodes[n].children, lab[0]);
    nodes[n := nodes[n].(children := Inserted(nodes[n].children, k, |nodes|))] + [Node(lab, dat, [])]
  }

  ghost predicate NoEdge<P>(nodes: seq<Node<P>>, n: nat, id: int)
    requires n < |nodes| && SiblingsOk(nodes, nodes[n].children)
  {
    forall i :: 0 <= i < |nodes[n].children| ==> nodes[nodes[n].children[i]].lab[0] != id
  }

  /** The label of the i-th child once the leaf is in place. */
  lemma LeafLabel<P>(nodes: seq<Node<P>>, n: nat, lab: Word, dat: P, i: nat)
    requires n < |nodes| && |lab| > 0 && SiblingsOk(nodes, nodes[n].children) && i <= |nodes[n].children|
    ensures var h, cs := WithLeaf(nodes, n, lab, dat), nodes[n].children;
      var k := EdgeIndex(nodes, cs, lab[0]);
      && |h[n].children| == |cs| + 1 && h[n].children[i] < |h|
      && h[h[n].children[i]].lab == if i < k then nodes[cs[i]].lab else if i == k then lab else nodes[cs[i - 1]].lab
  {
  }

  lemma LeafSiblings<P>(nodes: seq<Node<P>>, n: nat, lab: Word, dat: P)
    requires n < |nodes| && |lab| > 0 && SiblingsOk(nodes, nodes[n].children) && NoEdge(nodes, n, lab[0])
    ensures var h := WithLeaf(nodes, n, lab, dat); SiblingsOk(h, h[n].children)
  {
    var cs, h := nodes[n].children, WithLeaf(nodes, n, lab, dat);
    var k, r := EdgeIndex(nodes, cs, lab[0]), h[n].children;
    LeafLabel(nodes, n, lab, dat, 0);
    forall i | 0 <= i < |r| ensures r[i] < |h| && |h[r[i]].lab| > 0 {
      LeafLabel(nodes, n, lab, dat, i);
    }
    forall i, j | 0 <= i < j < |r| ensures h[r[i]].lab[0] < h[r[j]].lab[0] {
      LeafLabel(nodes, n, lab, dat, i);
      LeafLabel(nodes, n, lab, dat, j);
      if i < k && k < j {
        assert nodes[cs[i]].lab[0] < nodes[cs[j - 1]].lab[0];
      } else if j < k {
        assert nodes[cs[i]].lab[0] < nodes[cs[j]].lab[0];
      } else if k < i {
        assert nodes[cs[i - 1]].lab[0] < nodes[cs[j - 1]].lab[0];
      }
    }
  }

  lemma LeafKeepsShape<P>(nodes: seq<Node<P>>, plan: Plan, n: nat, lab: Word, dat: P)
    requires Shape(nodes, plan) && n < |nodes| && 0 < |lab|
    requires SiblingsOk(nodes, nodes[n].children) && NoEdge(nodes, n, lab[0])
    ensures Shape(WithLeaf(nodes, n, lab, dat), Plan(plan.word + [plan.word[n] + lab], plan.parent + [n]))
  {
    var h, p, m := WithLeaf(nodes, n, lab, dat), Plan(plan.word + [plan.word[n] + lab], plan.parent + [n]), |nodes|;
    var k := EdgeIndex(nodes, nodes[n].children, lab[0]);
    InsertedMembers(nodes[n].children, k, m);
    LeafSiblings(nodes, n, lab, dat);
    forall c | 0 < c < |h| ensures Placed(h, p, c) {
      if c < m { assert Placed(nodes, plan, c) && h[c].lab == nodes[c].lab; }
    }
    forall a, i | 0 <= a < |h| && 0 <= i < |h[a].children|
      ensures 0 < h[a].children[i] < |h| && p.parent[h[a].children[i]] == a
    {
      if a == n && h[a].children[i] != m { assert h[a].children[i] in nodes[a].children; }
    }
    forall a | 0 <= a < |h| ensures SiblingsOk(h, h[a].children) {
      if a < m && a != n { assert SiblingsOk(nodes, nodes[a].children); }
    }
  }

  /** The edge from a to its k-th child is split after `index` elements by a new node. */
  function WithSplit<P>(nodes: seq<Node<P>>, a: nat, k: nat, index: nat, dat: P): seq<Node<P>>
    requires a < |nodes| && k < |nodes[a].children| && nodes[a].children[k] < |nodes|
    requires nodes[a].children[k] != a && index <= |nodes[nodes[a].children[k]].lab|
  {
    var d := nodes[a].children[k];
    var l := nodes[d].lab;
    nodes[a := nodes[a].(children := nodes[a].children[k := |nodes|])][d := nodes[d].(lab := l[index..])] +
    [Node(l[..index], dat, [d])]
  }

  lemma NotOwnChild<P>(nodes: seq<Node<P>>, plan: Plan, a: nat, k: nat)
    requires Shape(nodes, plan) && a < |nodes| && k < |nodes[a].children|
    ensures nodes[a].children[k] < |nodes| && nodes[a].children[k] != a && 0 < |nodes[nodes[a].children[k]].lab|
    ensures 0 < nodes[a].children[k]
    ensures plan.word[nodes[a].children[k]] == plan.word[a] + nodes[nodes[a].children[k]].lab
  {
    assert Placed(nodes, plan, nodes[a].children[k]);
  }

  lemma SplitKeepsShape<P>(nodes: seq<Node<P>>, plan: Plan, a: nat, k: nat, index: nat, dat: P)
    requires Shape(nodes, plan) && a < |nodes| && k < |nodes[a].children|
    requires nodes[a].children[k] < |nodes| && nodes[a].children[k] != a &&
      0 < index < |nodes[nodes[a].children[k]].lab|
    ensures var d := nodes[a].children[k];
      Shape(WithSplit(nodes, a, k, index, dat),
            Plan(plan.word + [plan.word[a] + nodes[d].lab[..index]], plan.parent[d := |nodes|] + [a]))
  {
    var d, m := nodes[a].children[k], |nodes|;
    var l, h := nodes[d].lab, WithSplit(nodes, a, k, index, dat);
    var p := Plan(plan.word + [plan.word[a] + l[..index]], plan.parent[d := m] + [a]);
    assert h[a].children[k] == m;
    NotOwnChild(nodes, plan, a, k);
    forall c | 0 < c < |h| ensures Placed(h, p, c) {
      if c < m { SplitPlaced(nodes, plan, a, k, index, dat, c); }
    }
    SplitLinks(nodes, plan, a, k, index, dat);
    forall b | 0 <= b < |h| ensures SiblingsOk(h, h[b].children) {
      if b < m { SplitSiblings(nodes, plan, a, k, index, dat, b); }
    }
  }

  lemma SplitPlaced<P>(nodes: seq<Node<P>>, plan: Plan, a: nat, k: nat, index: nat, dat: P, c: nat)
    requires Shape(nodes, plan) && a < |nodes| && k < |nodes[a].children| && 0 < c < |nodes|
    requires nodes[a].children[k] < |nodes| && nodes[a].children[k] != a &&
      0 < index < |nodes[nodes[a].children[k]].lab|
    ensures var d := nodes[a].children[k];
      Placed(WithSplit(nodes, a, k, index, dat),
             Plan(plan.word + [plan.word[a] + nodes[d].lab[..index]], plan.parent[d := |nodes|] + [a]), c)
  {
    var d, m := nodes[a].children[k], |nodes|;
    var l, h := nodes[d].lab, WithSplit(nodes, a, k, index, dat);
    NotOwnChild(nodes, plan, a, k);
    assert Placed(nodes, plan, c);
    if c == d {
      assert h[m].children[0] == d && l == l[..index] + l[index..];
    } else if plan.parent[c] == a {
      var i :| 0 <= i < |nodes[a].children| && nodes[a].children[i] == c;
      assert h[a].children[i] == c;
    }
  }

  lemma SplitSiblings<P>(nodes: seq<Node<P>>, plan: Plan, a: nat, k: nat, index: nat, dat: P, b: nat)
    requires Shape(nodes, plan) && a < |nodes| && k < |nodes[a].children| && b < |nodes|
    requires nodes[a].children[k] < |nodes| && nodes[a].children[k] != a &&
      0 < index < |nodes[nodes[a].children[k]].lab|
    ensures var h := WithSplit(nodes, a, k, index, dat); SiblingsOk(h, h[b].children)
  {
    var h := WithSplit(nodes, a, k, index, dat);
    assert SiblingsOk(nodes, nodes[b].children);
    forall i | 0 <= i < |h[b].children|
      ensures h[b].children[i] < |h| && |h[h[b].children[i]].lab| > 0
      ensures h[h[b].children[i]].lab[0] == nodes[nodes[b].children[i]].lab[0]
    {
      SplitFirst(nodes, plan, a, k, index, dat, b, i);
    }
  }

  lemma SplitLinks<P>(nodes: seq<Node<P>>, plan: Plan, a: nat, k: nat, index: nat, dat: P)
    requires Shape(nodes, plan) && a < |nodes| && k < |nodes[a].children|
    requires nodes[a].children[k] < |nodes| && nodes[a].children[k] != a &&
      0 < index < |nodes[nodes[a].children[k]].lab|
    ensures var d, h := nodes[a].children[k], WithSplit(nodes, a, k, index, dat);
      forall b, i :: 0 <= b < |h| && 0 <= i < |h[b].children| ==>
        0 < h[b].children[i] < |h| && (plan.parent[d := |nodes|] + [a])[h[b].children[i]] == b
  {
    var d, h := nodes[a].children[k], WithSplit(nodes, a, k, index, dat);
    forall b, i | 0 <= b < |h| && 0 <= i < |h[b].children|
      ensures 0 < h[b].children[i] < |h| && (plan.parent[d := |nodes|] + [a])[h[b].children[i]] == b
    {
      if b < |nodes| && !(b == a && i == k) {
        assert h[b].children[i] == nodes[b].children[i];
        SameSlot(nodes, plan, a, k, b, i);
      }
    }
  }

  /** A node is the child of one node, once. */
  lemma SameSlot<P>(nodes: seq<Node<P>>, plan: Plan, a: nat, k: nat, b: nat, i: nat)
    requires Shape(nodes, plan) && a < |nodes| && k < |nodes[a].children| && b < |nodes| && i < |nodes[b].children|
    ensures nodes[a].children[k] == nodes[b].children[i] ==> a == b && k == i
  {
    assert SiblingsOk(nodes, nodes[a].children);
  }

  lemma SplitFirst<P>(nodes: seq<Node<P>>, plan: Plan, a: nat, k: nat, index: nat, dat: P, b: nat, i: nat)
    requires Shape(nodes, plan) && a < |nodes| && k < |nodes[a].children|
    requires nodes[a].children[k] < |nodes| && nodes[a].children[k] != a &&
      0 < index < |nodes[nodes[a].children[k]].lab|
    requires b < |nodes| && i < |nodes[b].children|
    ensures var h := WithSplit(nodes, a, k, index, dat);
      && i < |h[b].children| && h[b].children[i] < |h| && nodes[b].children[i] < |nodes|
      && |h[h[b].children[i]].lab| > 0 && |nodes[nodes[b].children[i]].lab| > 0
      && h[h[b].children[i]].lab[0] == nodes[nodes[b].children[i]].lab[0]
  {
    var d := nodes[a].children[k];
    NotOwnChild(nodes, plan, b, i);
    SameSlot(nodes, plan, a, k, b, i);
  }

  /** A label that begins like that of another child goes next to it, out of order. */
  lemma TwinBreaksShape<P>(nodes: seq<Node<P>>, n: nat, lab: Word, dat: P, plan: Plan)
    requires n < |nodes| && |lab| > 0 && SiblingsOk(nodes, nodes[n].children) && !NoEdge(nodes, n, lab[0])
    ensures !Shape(WithLeaf(nodes, n, lab, dat), plan)
  {
    var h, cs := WithLeaf(nodes, n, lab, dat), nodes[n].children;
    var k := EdgeIndex(nodes, cs, lab[0]);
    var i :| 0 <= i < |cs| && nodes[cs[i]].lab[0] == lab[0];
    assert k <= i;
    LeafLabel(nodes, n, lab, dat, k);
    LeafLabel(nodes, n, lab, dat, k + 1);
    assert !SiblingsOk(h, h[n].children);
  }

  // ---- What a trie holds.

  /** Some node spells word s and carries p. */
  ghost predicate Holds<P>(nodes: seq<Node<P>>, plan: Plan, s: Word, p: P) {
    exists n :: 0 <= n < |nodes| && n < |plan.word| && plan.word[n] == s && nodes[n].dat == p
  }

  ghost predicate Known(plan: Plan, s: Word) { exists n :: 0 <= n < |plan.word| && plan.word[n] == s }

  lemma HeldOnce<P(!new)>(nodes: seq<Node<P>>, plan: Plan, n: nat)
    requires Shape(nodes, plan) && n < |nodes|
    ensures forall p: P :: Holds(nodes, plan, plan.word[n], p) <==> p == nodes[n].dat
  {
    forall p: P | Holds(nodes, plan, plan.word[n], p) ensures p == nodes[n].dat {
      var m :| 0 <= m < |nodes| && m < |plan.word| && plan.word[m] == plan.word[n] && nodes[m].dat == p;
      WordsDiffer(nodes, plan, m, n);
    }
  }

  lemma DataSet<P(!new)>(nodes: seq<Node<P>>, h: seq<Node<P>>, plan: Plan, n: nat)
    requires Shape(nodes, plan) && Shape(h, plan) && n < |nodes| && |h| == |nodes|
    requires forall m :: 0 <= m < |nodes| && m != n ==> h[m] == nodes[m]
    ensures forall t: Word, p: P ::
      Holds(h, plan, t, p) <==> if t == plan.word[n] then p == h[n].dat else Holds(nodes, plan, t, p)
  {
    HeldOnce(h, plan, n);
    forall t: Word, p: P | t != plan.word[n] ensures Holds(h, plan, t, p) <==> Holds(nodes, plan, t, p) {
      if Holds(h, plan, t, p) {
        var m :| 0 <= m < |h| && m < |plan.word| && plan.word[m] == t && h[m].dat == p;
        assert nodes[m].dat == p;
      }
      if Holds(nodes, plan, t, p) {
        var m :| 0 <= m < |nodes| && m < |plan.word| && plan.word[m] == t && nodes[m].dat == p;
        assert h[m].dat == p;
      }
    }
  }

  lemma LeafData<P>(nodes: seq<Node<P>>, n: nat, lab: Word, dat: P)
    requires n < |nodes| && |lab| > 0 && SiblingsOk(nodes, nodes[n].children)
    ensures var h := WithLeaf(nodes, n, lab, dat);
      |h| == |nodes| + 1 && h[|nodes|].dat == dat && forall x :: 0 <= x < |nodes| ==> h[x].dat == nodes[x].dat
  {
  }

  /** The trie holds what it did, and word s with p, which it did not know. */
  ghost predicate Grown<P(!new)>(nodes: seq<Node<P>>, plan: Plan, h: seq<Node<P>>, q: Plan, s: Word, p: P) {
    && !Known(plan, s) && (forall t: Word :: Known(q, t) <==> Known(plan, t) || t == s)
    && forall t: Word, x: P :: Holds(h, q, t, x) <==> Holds(nodes, plan, t, x) || (t == s && x == p)
  }

  lemma GrownByOne<P(!new)>(nodes: seq<Node<P>>, plan: Plan, h: seq<Node<P>>, q: Plan, s: Word)
    requires Shape(nodes, plan) && Shape(h, q) && |h| == |nodes| + 1 && q.word == plan.word + [s]
    requires forall n :: 0 <= n < |nodes| ==> h[n].dat == nodes[n].dat
    ensures Grown(nodes, plan, h, q, s, h[|nodes|].dat)
  {
    var m := |nodes|;
    forall n | 0 <= n < m ensures plan.word[n] != s {
      assert q.word[n] == plan.word[n];
      if q.word[n] == q.word[m] { WordsDiffer(h, q, n, m); }
    }
    forall t: Word, x: P ensures Holds(h, q, t, x) <==> Holds(nodes, plan, t, x) || (t == s && x == h[m].dat) {
      if Holds(h, q, t, x) {
        var n :| 0 <= n < |h| && n < |q.word| && q.word[n] == t && h[n].dat == x;
        assert n < m ==> plan.word[n] == t;
      }
      if Holds(nodes, plan, t, x) {
        var n :| 0 <= n < m && n < |plan.word| && plan.word[n] == t && nodes[n].dat == x;
        assert q.word[n] == t;
      }
      assert q.word[m] == s;
    }
    forall t: Word ensures Known(q, t) <==> Known(plan, t) || t == s {
      if Known(plan, t) {
        var n :| 0 <= n < m && plan.word[n] == t;
        assert q.word[n] == t;
      }
      assert q.word[m] == s;
    }
  }

  lemma SamePlaces<P>(nodes: seq<Node<P>>, h: seq<Node<P>>, plan: Plan)
    requires Shape(nodes, plan) && |h| == |nodes|
    requires forall n :: 0 <= n < |h| ==> h[n].lab == nodes[n].lab && h[n].children == nodes[n].children
    ensures Shape(h, plan)
  {
    forall c | 0 < c < |h| ensures Placed(h, plan, c) { assert Placed(nodes, plan, c); }
    forall n | 0 <= n < |h| ensures SiblingsOk(h, h[n].children) { assert SiblingsOk(nodes, nodes[n].children); }
  }

  /** The place among children only depends on their labels. */
  lemma SameIndex<P>(nodes: seq<Node<P>>, h: seq<Node<P>>, cs: seq<nat>, id: int)
    requires SiblingsOk(nodes, cs) && |nodes| <= |h| && forall i :: 0 <= i < |nodes| ==> h[i] == nodes[i]
    ensures SiblingsOk(h, cs) && EdgeIndex(h, cs, id) == EdgeIndex(nodes, cs, id)
  {
  }

  lemma {:induction false} CommonPartWhole(t: Word, lab: Word, n: nat)
    requires n <= |t| && n <= |lab| && t[..n] == lab[..n]
    ensures CommonPart(t, lab) >= n
  {
    if n > 0 {
      assert t[0] == t[..n][0] == lab[..n][0] == lab[0];
      assert t[1..][..n - 1] == t[..n][1..] == lab[..n][1..] == lab[1..][..n - 1];
      CommonPartWhole(t[1..], lab[1..], n - 1);
    }
  }

  // ---- Searching.

  ghost predicate Leads<P>(nodes: seq<Node<P>>, a: nat, d: nat, id: int) {
    a < |nodes| && d < |nodes| && d in nodes[a].children && |nodes[d].lab| > 0 && nodes[d].lab[0] == id
  }

  lemma OnlyLead<P>(nodes: seq<Node<P>>, plan: Plan, a: nat, c: nat, id: int)
    requires Shape(nodes, plan) && Leads(nodes, a, c, id)
    ensures forall d: nat :: Leads(nodes, a, d, id) ==> d == c
  {
    forall d: nat | Leads(nodes, a, d, id) ensures d == c { OneChild(nodes, plan, a, c, d); }
  }

  ghost predicate Spells(plan: Plan, a: nat, s: Word) {
    a < |plan.word| && |plan.word[a]| <= |s| && plan.word[a] == s[..|plan.word[a]|]
  }

  /** What query is asked about node c, if the search of s comes there, is answered rightly. */
  ghost predicate LegibleAt<P>(nodes: seq<Node<P>>, plan: Plan, s: Word, c: nat) {
    c < |nodes| && c < |plan.parent| && Spells(plan, plan.parent[c], s) ==>
      Exact(s[|plan.word[plan.parent[c]]|..], nodes[c].lab)
  }

  ghost predicate LegibleTo<P>(nodes: seq<Node<P>>, plan: Plan, s: Word, k: nat)
    requires Shape(nodes, plan)
  {
    forall c {:trigger LegibleAt(nodes, plan, s, c)} ::
      0 < c < |nodes| && plan.parent[c] < |plan.word| && |plan.word[plan.parent[c]]| < k ==>
        LegibleAt(nodes, plan, s, c)
  }

  /** Beyond no node on its way has s a proper common part of 128 elements or more with a label: the search of s is
      answered rightly all the way. */
  ghost predicate Legible<P>(nodes: seq<Node<P>>, plan: Plan, s: Word)
    requires Shape(nodes, plan)
  {
    LegibleTo(nodes, plan, s, |s|)
  }

  /** Strings shorter than 128 are legible in every trie, and all strings in a trie of labels shorter than 128. */
  lemma ShortIsLegible<P>(nodes: seq<Node<P>>, plan: Plan, s: Word)
    requires Shape(nodes, plan)
    ensures |s| < 128 || (forall c :: 0 < c < |nodes| ==> |nodes[c].lab| < 128) ==> Legible(nodes, plan, s)
  {
  }

  /** A word that goes on beyond node a leaves it by an edge whose label it begins with; so does every word of the trie
      that is a prefix of it. */
  lemma LeadsOn<P>(nodes: seq<Node<P>>, plan: Plan, a: nat, p: nat, s: Word) returns (d: nat)
    requires Shape(nodes, plan) && a < |nodes| && p < |nodes| && Spells(plan, a, s) && Spells(plan, p, s)
    requires |plan.word[a]| < |plan.word[p]|
    ensures Leads(nodes, a, d, s[|plan.word[a]|]) && d > 0
    ensures |plan.word[a]| + |nodes[d].lab| <= |plan.word[p]|
    ensures nodes[d].lab == s[|plan.word[a]|..][..|nodes[d].lab|]
  {
    var k := |plan.word[a]|;
    assert plan.word[a] == s[..k] == s[..|plan.word[p]|][..k] == plan.word[p][..k];
    d := NextEdge(nodes, plan, a, p);
    assert plan.word[p][k..k + |nodes[d].lab|] == s[k..][..|nodes[d].lab|];
  }

  /** Labels of other children than the one that leads on share nothing with the rest of s. */
  lemma OthersExact<P>(nodes: seq<Node<P>>, plan: Plan, a: nat, c: nat, s: Word)
    requires Shape(nodes, plan) && a < |nodes| && 0 < c < |nodes| && plan.parent[c] == a && Spells(plan, a, s)
    requires |plan.word[a]| < |s| && !Leads(nodes, a, c, s[|plan.word[a]|])
    ensures LegibleAt(nodes, plan, s, c)
  {
    assert Placed(nodes, plan, c);
    assert s[|plan.word[a]|..][0] != nodes[c].lab[0];
  }

  /** What the trie knows is legible. */
  lemma KnownIsLegible<P>(nodes: seq<Node<P>>, plan: Plan, s: Word)
    requires Shape(nodes, plan) && Known(plan, s)
    ensures Legible(nodes, plan, s)
  {
    var n :| 0 <= n < |plan.word| && plan.word[n] == s;
    assert s[..|s|] == s;
    forall c | 0 < c < |nodes| && plan.parent[c] < |plan.word| && |plan.word[plan.parent[c]]| < |s|
      ensures LegibleAt(nodes, plan, s, c)
    {
      var a := plan.parent[c];
      if Spells(plan, a, s) {
        assert Placed(nodes, plan, c);
        var d := LeadsOn(nodes, plan, a, n, s);
        if Leads(nodes, a, c, s[|plan.word[a]|]) {
          OnlyLead(nodes, plan, a, c, s[|plan.word[a]|]);
          var t, lab := s[|plan.word[a]|..], nodes[c].lab;
          assert lab[..|lab|] == lab;
          CommonPartWhole(t, lab, |lab|);
        } else {
          OthersExact(nodes, plan, a, c, s);
        }
      }
    }
  }

  /** The search of s, at node a with k elements read, has gone by right answers so far, or s is not legible. */
  ghost predicate Tracking<P>(nodes: seq<Node<P>>, plan: Plan, a: nat, s: Word, k: nat)
    requires Shape(nodes, plan)
  {
    && a < |nodes| && |plan.word[a]| == k <= |s|
    && if plan.word[a] == s[..k] then LegibleTo(nodes, plan, s, k) else !Legible(nodes, plan, s)
  }

  /** Nodes that spell a longer prefix of s than a are beyond the edge that leads on. */
  lemma LegibleFrom<P>(nodes: seq<Node<P>>, plan: Plan, a: nat, s: Word, upto: nat)
    requires Shape(nodes, plan) && a < |nodes| && Spells(plan, a, s) && |plan.word[a]| < upto <= |s|
    requires LegibleTo(nodes, plan, s, |plan.word[a]|)
    requires forall d: nat :: Leads(nodes, a, d, s[|plan.word[a]|]) ==> Exact(s[|plan.word[a]|..], nodes[d].lab)
    requires forall d: nat :: Leads(nodes, a, d, s[|plan.word[a]|]) && |plan.word[a]| + |nodes[d].lab| < upto ==>
      nodes[d].lab != s[|plan.word[a]|..][..|nodes[d].lab|]
    ensures LegibleTo(nodes, plan, s, upto)
  {
    forall c | 0 < c < |nodes| && plan.parent[c] < |plan.word| && |plan.word[plan.parent[c]]| < upto
      ensures LegibleAt(nodes, plan, s, c)
    {
      var p := plan.parent[c];
      if Spells(plan, p, s) && |plan.word[a]| < |plan.word[p]| {
        var d := LeadsOn(nodes, plan, a, p, s);
      } else if Spells(plan, p, s) && |plan.word[a]| == |plan.word[p]| {
        WordsDiffer(nodes, plan, a, p);
        if !Leads(nodes, a, c, s[|plan.word[a]|]) { OthersExact(nodes, plan, a, c, s); }
      }
    }
  }

  /** Without an edge for its next element, s is legible if the search came here rightly. */
  lemma NoLead<P>(nodes: seq<Node<P>>, plan: Plan, a: nat, s: Word, k: nat)
    requires Shape(nodes, plan) && Tracking(nodes, plan, a, s, k) && k < |s|
    requires forall d: nat :: !Leads(nodes, a, d, s[k])
    ensures Legible(nodes, plan, s) <==> plan.word[a] == s[..k]
  {
    if plan.word[a] == s[..k] { LegibleFrom(nodes, plan, a, s, |s|); }
  }

  /** What the answer about the child that leads on means: it is right unless s is not legible; the search ends knowing
      whether s is legible, or goes on tracking. */
  lemma Queried<P>(nodes: seq<Node<P>>, plan: Plan, a: nat, d: nat, s: Word, k: nat)
    requires Shape(nodes, plan) && Tracking(nodes, plan, a, s, k) && k < |s| && Leads(nodes, a, d, s[k])
    ensures plan.word[d] == plan.word[a] + nodes[d].lab
    ensures Exact(s[k..], nodes[d].lab) ==> Tells(s[k..], nodes[d].lab, Code(s[k..], nodes[d].lab))
    ensures Exact(s[k..], nodes[d].lab) ==> Code(s[k..], nodes[d].lab) != DONT_MATCH
    ensures !Exact(s[k..], nodes[d].lab) ==> !Legible(nodes, plan, s)
    ensures Exact(s[k..], nodes[d].lab) && Code(s[k..], nodes[d].lab) != LABEL_IS_PREFIX ==>
      (Legible(nodes, plan, s) <==> plan.word[a] == s[..k])
    ensures Code(s[k..], nodes[d].lab) == LABEL_IS_PREFIX && k + |nodes[d].lab| <= |s| ==>
      Tracking(nodes, plan, d, s, k + |nodes[d].lab|)
  {
    var t, lab := s[k..], nodes[d].lab;
    CodeIsExact(t, lab);
    assert t[0] == lab[0];
    ChildPlaced(nodes, plan, a, d);
    OnlyLead(nodes, plan, a, d, s[k]);
    if plan.word[a] == s[..k] {
      if !Exact(t, lab) {
        assert !LegibleAt(nodes, plan, s, d);
      } else if Code(t, lab) != LABEL_IS_PREFIX {
        NotWhole(t, lab);
        LegibleFrom(nodes, plan, a, s, |s|);
      }
    }
    if Code(t, lab) == LABEL_IS_PREFIX && k + |lab| <= |s| { GoneOn(nodes, plan, a, d, s, k); }
  }

  lemma ChildPlaced<P>(nodes: seq<Node<P>>, plan: Plan, a: nat, d: nat)
    requires Shape(nodes, plan) && a < |nodes| && d in nodes[a].children
    ensures 0 < d < |nodes| && plan.parent[d] == a && plan.word[d] == plan.word[a] + nodes[d].lab && |nodes[d].lab| > 0
  {
    var i :| 0 <= i < |nodes[a].children| && nodes[a].children[i] == d;
    assert Placed(nodes, plan, d);
  }

  lemma NotWhole(t: Word, lab: Word)
    requires Exact(t, lab) && Code(t, lab) != LABEL_IS_PREFIX
    ensures |lab| < |t| ==> lab != t[..|lab|]
  {
    var i := CommonPart(t, lab);
    PartsAfter(t, lab);
    assert |lab| < |t| ==> t[..|lab|][i] != lab[i];
  }

  lemma GoneOn<P>(nodes: seq<Node<P>>, plan: Plan, a: nat, d: nat, s: Word, k: nat)
    requires Shape(nodes, plan) && Tracking(nodes, plan, a, s, k) && k < |s| && Leads(nodes, a, d, s[k])
    requires Code(s[k..], nodes[d].lab) == LABEL_IS_PREFIX && k + |nodes[d].lab| <= |s|
    ensures Tracking(nodes, plan, d, s, k + |nodes[d].lab|)
  {
    var t, lab := s[k..], nodes[d].lab;
    var k1 := k + |lab|;
    CodeIsExact(t, lab);
    ChildPlaced(nodes, plan, a, d);
    OnlyLead(nodes, plan, a, d, s[k]);
    assert s[..k1] == s[..k] + t[..|lab|];
    if plan.word[a] == s[..k] {
      if Exact(t, lab) {
        LegibleFrom(nodes, plan, a, s, k1);
      } else {
        assert !LegibleAt(nodes, plan, s, d);
        var i := CommonPart(t, lab);
        PartsAfter(t, lab);
        assert t[..|lab|][i] != lab[i];
      }
    } else {
      assert plan.word[d][..k] == plan.word[a] && s[..k1][..k] == s[..k];
    }
  }

  // ---- Branching.

  /** A code that splits a label does so where the two part, unless it is misread. */
  lemma CodeSplits(t: Word, lab: Word)
    ensures var c := Code(t, lab);
      && (c > 0 ==> c < |t| && c < |lab| && t[..c] == lab[..c] && (t[c] != lab[c] <==> Exact(t, lab)))
      && (c == STRING_IS_PREFIX && |t| < |lab| ==> (lab[..|t|] == t <==> Exact(t, lab)))
      && (c == SAME ==> (t == lab <==> Exact(t, lab)))
  {
    var i, c := CommonPart(t, lab), Code(t, lab);
    Int8Fits(i);
    PartsAfter(t, lab);
    CodeIsExact(t, lab);
    if c > 0 {
      assert t[..i][..c] == t[..c] && lab[..i][..c] == lab[..c];
      if c < i { assert t[..i][c] == lab[..i][c]; }
    } else if c == STRING_IS_PREFIX && i < |t| < |lab| {
      assert lab[..|t|][i] != t[i];
    }
  }

  ghost predicate ProperPrefix(w: Word, s: Word) { |w| < |s| && w == s[..|w|] }

  /** A word of the trie and s part at w, which is no word of the trie. */
  ghost predicate Forks(plan: Plan, s: Word, w: Word) {
    && ProperPrefix(w, s) && !Known(plan, w)
    && exists n :: 0 <= n < |plan.word| && ProperPrefix(w, plan.word[n]) && plan.word[n][|w|] != s[|w|]
  }

  lemma PartBeyond(u: Word, v: Word, l: nat, i: nat)
    requires l <= |u| && l <= |v| && i < |u| && i < |v| && u[..l] == v[..l] && u[i] != v[i]
    ensures l <= i
  {
  }

  /** Where two words of the trie part is a word of the trie. */
  lemma {:induction false} BranchesAreKnown<P>(nodes: seq<Node<P>>, plan: Plan, a: nat, m: nat, n: nat, w: Word)
    requires Shape(nodes, plan) && a < |nodes| && m < |nodes| && n < |nodes| && Spells(plan, a, w)
    requires ProperPrefix(w, plan.word[m]) && ProperPrefix(w, plan.word[n]) && plan.word[m][|w|] != plan.word[n][|w|]
    ensures Known(plan, w)
    decreases |w| - |plan.word[a]|
  {
    var u, v, k := plan.word[m], plan.word[n], |plan.word[a]|;
    if k == |w| {
      assert w[..|w|] == w;
    } else {
      assert u[..|u|] == u && v[..|v|] == v && w[..k] == u[..|w|][..k] == u[..k] && w[..k] == v[..|w|][..k] == v[..k];
      assert u[k] == u[..|w|][k] == w[k] == v[..|w|][k] == v[k];
      var d := LeadsOn(nodes, plan, a, m, u);
      var e := LeadsOn(nodes, plan, a, n, v);
      OnlyLead(nodes, plan, a, d, w[k]);
      ChildPlaced(nodes, plan, a, d);
      var l := k + |nodes[d].lab|;
      assert u[..l] == u[..k] + u[k..][..|nodes[d].lab|] == plan.word[d];
      assert v[..l] == v[..k] + v[k..][..|nodes[d].lab|] == plan.word[d];
      PartBeyond(u, v, l, |w|);
      assert w[..l] == u[..|w|][..l] == u[..l];
      BranchesAreKnown(nodes, plan, d, m, n, w);
    }
  }

  /** No word parts from s within the word of a, if that begins s or s begins it. */
  lemma ForksBeyond<P>(nodes: seq<Node<P>>, plan: Plan, a: nat, s: Word, w: Word, n: nat)
    requires Shape(nodes, plan) && a < |nodes| && n < |nodes| && |w| < |plan.word[a]| && ProperPrefix(w, s)
    requires plan.word[a][..|w| + 1] == s[..|w| + 1]
    requires ProperPrefix(w, plan.word[n]) && plan.word[n][|w|] != s[|w|]
    ensures Known(plan, w)
  {
    assert plan.word[a][|w|] == plan.word[a][..|w| + 1][|w|] == s[..|w| + 1][|w|];
    assert plan.word[a][..|w|] == plan.word[a][..|w| + 1][..|w|] == s[..|w| + 1][..|w|] == w;
    BranchesAreKnown(nodes, plan, 0, a, n, w);
  }

  lemma NoForkWithoutLead<P>(nodes: seq<Node<P>>, plan: Plan, a: nat, s: Word)
    requires Shape(nodes, plan) && a < |nodes| && Spells(plan, a, s) && |plan.word[a]| < |s|
    requires forall d: nat :: !Leads(nodes, a, d, s[|plan.word[a]|])
    ensures forall w: Word :: !Forks(plan, s, w)
  {
    var k := |plan.word[a]|;
    forall w: Word | Forks(plan, s, w) ensures false {
      var n: nat :| n < |plan.word| && ProperPrefix(w, plan.word[n]) && plan.word[n][|w|] != s[|w|];
      var u := plan.word[n];
      if |w| < k {
        assert plan.word[a][..|w| + 1] == s[..k][..|w| + 1] == s[..|w| + 1];
        ForksBeyond(nodes, plan, a, s, w, n);
      } else if |w| > k {
        assert plan.word[a] == s[..k] == s[..|w|][..k] == u[..|w|][..k] == u[..k] && u[..|u|] == u;
        assert u[k] == u[..|w|][k] == s[..|w|][k] == s[k];
        var d := LeadsOn(nodes, plan, a, n, u);
      }
    }
  }

  lemma NoForkInside<P>(nodes: seq<Node<P>>, plan: Plan, d: nat, s: Word)
    requires Shape(nodes, plan) && d < |nodes| && ProperPrefix(s, plan.word[d])
    ensures forall w: Word :: !Forks(plan, s, w)
  {
    forall w: Word | Forks(plan, s, w) ensures false {
      var n: nat :| n < |plan.word| && ProperPrefix(w, plan.word[n]) && plan.word[n][|w|] != s[|w|];
      assert plan.word[d][..|w| + 1] == s[..|w| + 1];
      ForksBeyond(nodes, plan, d, s, w, n);
    }
  }

  lemma OneFork<P>(nodes: seq<Node<P>>, plan: Plan, d: nat, s: Word, w: Word)
    requires Shape(nodes, plan) && d < |nodes| && ProperPrefix(w, plan.word[d]) && ProperPrefix(w, s) && !Known(plan, w)
    requires plan.word[d][|w|] != s[|w|]
    ensures forall x: Word :: Forks(plan, s, x) <==> x == w
  {
    forall x: Word | Forks(plan, s, x) ensures x == w {
      var n: nat :| n < |plan.word| && ProperPrefix(x, plan.word[n]) && plan.word[n][|x|] != s[|x|];
      if |x| < |w| {
        assert plan.word[d][..|x| + 1] == w[..|x| + 1] == s[..|x| + 1];
        ForksBeyond(nodes, plan, d, s, x, n);
      } else if |x| > |w| {
        assert plan.word[n][..|w|] == x[..|w|] == w && plan.word[n][|w|] == x[|w|] == s[|w|];
        BranchesAreKnown(nodes, plan, 0, d, n, w);
      } else {
        assert x == s[..|x|] == w;
      }
    }
  }

  // ---- Walking down the tree.

  lemma LeadIndex<P>(nodes: seq<Node<P>>, plan: Plan, a: nat, id: int)
    requires Shape(nodes, plan) && a < |nodes| && SiblingsOk(nodes, nodes[a].children)
    ensures var cs := nodes[a].children;
      var i := EdgeIndex(nodes, cs, id);
      if i < |cs| && nodes[cs[i]].lab[0] == id then Leads(nodes, a, cs[i], id) && !NoEdge(nodes, a, id)
      else NoEdge(nodes, a, id) && forall d: nat :: !Leads(nodes, a, d, id)
  {
    var cs := nodes[a].children;
    var i := EdgeIndex(nodes, cs, id);
    forall d: nat | Leads(nodes, a, d, id) ensures i < |cs| && nodes[cs[i]].lab[0] == id {
      var j :| 0 <= j < |cs| && cs[j] == d;
      assert i <= j;
    }
    forall j | 0 <= j < |cs| && nodes[cs[j]].lab[0] == id ensures i < |cs| && nodes[cs[i]].lab[0] == id {
      assert Leads(nodes, a, cs[j], id);
    }
  }

  /** The child of a whose label begins with id. */
  ghost function Lead<P>(nodes: seq<Node<P>>, a: nat, id: int): (child: Option<nat>)
    ensures child.None? ==> forall d: nat :: !Leads(nodes, a, d, id)
    ensures child.Some? ==> Leads(nodes, a, child.value, id)
  {
    if exists d: nat :: Leads(nodes, a, d, id) then
      var d: nat :| Leads(nodes, a, d, id);
      Some(d)
    else None
  }

  /** Where the walk for s halts: at node a with k elements read, with the child that leads on, if any. */
  datatype Halt = Halt(a: nat, k: nat, child: Option<nat>)

  /** The walk goes on below a child as long as its label is said to be a prefix of what is left of s. */
  ghost predicate On(s: Word, k: nat, lab: Word)
    requires k < |s|
  {
    Code(s[k..], lab) == LABEL_IS_PREFIX && |lab| < |s| - k
  }

  ghost function Walked<P>(nodes: seq<Node<P>>, a: nat, s: Word, k: nat): Halt
    requires k < |s|
    decreases |s| - k
  {
    var child := Lead(nodes, a, s[k]);
    if child.Some? && On(s, k, nodes[child.value].lab) then
      Walked(nodes, child.value, s, k + |nodes[child.value].lab|)
    else Halt(a, k, child)
  }

  lemma RootTracks<P>(nodes: seq<Node<P>>, plan: Plan, s: Word)
    requires Shape(nodes, plan)
    ensures Tracking(nodes, plan, 0, s, 0)
  {
  }

  ghost predicate Halts<P>(nodes: seq<Node<P>>, plan: Plan, s: Word, halt: Halt)
    requires Shape(nodes, plan)
  {
    && halt.k < |s| && Tracking(nodes, plan, halt.a, s, halt.k) && halt.child == Lead(nodes, halt.a, s[halt.k])
    && (halt.child.Some? ==> !On(s, halt.k, nodes[halt.child.value].lab))
  }

  lemma WalksOn<P>(nodes: seq<Node<P>>, a: nat, d: nat, s: Word, k: nat)
    requires k < |s| && Lead(nodes, a, s[k]) == Some(d) && On(s, k, nodes[d].lab)
    ensures 0 < |nodes[d].lab| && k + |nodes[d].lab| < |s|
    ensures Walked(nodes, a, s, k) == Walked(nodes, d, s, k + |nodes[d].lab|)
  {
  }

  /** What holds where a walk starts and is kept as it goes on holds where it halts. */
  lemma {:induction false} WalkKeeps<P>(nodes: seq<Node<P>>, a: nat, s: Word, k: nat, Inv: (nat, nat) -> bool)
    returns (halt: Halt)
    requires k < |s| && Inv(a, k)
    requires forall b: nat, j: nat, d: nat ::
      j < |s| && Inv(b, j) && Lead(nodes, b, s[j]) == Some(d) && On(s, j, nodes[d].lab) ==> Inv(d, j + |nodes[d].lab|)
    ensures halt == Walked(nodes, a, s, k) && halt.k < |s| && Inv(halt.a, halt.k)
    ensures halt.child == Lead(nodes, halt.a, s[halt.k])
    ensures halt.child.Some? ==> !On(s, halt.k, nodes[halt.child.value].lab)
    decreases |s| - k
  {
    var child := Lead(nodes, a, s[k]);
    if child.None? || !On(s, k, nodes[child.value].lab) { return Halt(a, k, child); }
    halt := WalkKeeps(nodes, child.value, s, k + |nodes[child.value].lab|, Inv);
  }

  lemma WalkTracks<P>(nodes: seq<Node<P>>, plan: Plan, s: Word) returns (halt: Halt)
    requires Shape(nodes, plan) && s != []
    ensures halt == Walked(nodes, 0, s, 0) && Halts(nodes, plan, s, halt)
  {
    RootTracks(nodes, plan, s);
    forall b: nat, j: nat, d: nat |
      j < |s| && Tracking(nodes, plan, b, s, j) && Lead(nodes, b, s[j]) == Some(d) && On(s, j, nodes[d].lab)
      ensures Tracking(nodes, plan, d, s, j + |nodes[d].lab|)
    {
      GoneOn(nodes, plan, b, d, s, j);
    }
    halt := WalkKeeps(nodes, 0, s, 0, (b: nat, j: nat) => Tracking(nodes, plan, b, s, j));
  }

  // ---- Looking a string up.

  /** Where a search ends: at a node, nowhere, or past the end of the string or in the case the source excludes. */
  datatype Found = At(n: nat) | Nowhere | Trapped

  function FoundAt(child: Option<nat>, code: int): Found {
    if child.None? then Nowhere
    else if code == SAME then At(child.value)
    else if code == DONT_MATCH || code == LABEL_IS_PREFIX then Trapped
    else Nowhere
  }

  /** The code at which the walk halts. */
  ghost function CodeAt<P>(nodes: seq<Node<P>>, s: Word, halt: Halt): int {
    if halt.child.None? || halt.child.value >= |nodes| || halt.k >= |s| then DONT_MATCH
    else Code(s[halt.k..], nodes[halt.child.value].lab)
  }

  ghost function Search<P>(nodes: seq<Node<P>>, s: Word): Found {
    if s == [] then At(0)
    else
      var halt := Walked(nodes, 0, s, 0);
      FoundAt(halt.child, CodeAt(nodes, s, halt))
  }

  /** What is right to find for s. */
  ghost predicate Answers<P>(nodes: seq<Node<P>>, plan: Plan, s: Word, found: Found) {
    match found
    case At(n) => n < |nodes| && n < |plan.word| && plan.word[n] == s
    case Nowhere => !Known(plan, s)
    case Trapped => false
  }

  /** The search of a legible string ends at the node that spells it, or nowhere if there is none. */
  lemma SearchIsRight<P>(nodes: seq<Node<P>>, plan: Plan, s: Word, halt: Halt)
    requires Shape(nodes, plan) && Halts(nodes, plan, s, halt) && Legible(nodes, plan, s)
    ensures Answers(nodes, plan, s, FoundAt(halt.child, CodeAt(nodes, s, halt)))
  {
    if halt.child.None? {
      NoWay(nodes, plan, halt.a, s, halt.k);
    } else {
      SearchEnds(nodes, plan, halt.a, halt.child.value, s, halt.k);
    }
  }

  lemma SearchEnds<P>(nodes: seq<Node<P>>, plan: Plan, a: nat, d: nat, s: Word, k: nat)
    requires Shape(nodes, plan) && Tracking(nodes, plan, a, s, k) && k < |s| && Legible(nodes, plan, s)
    requires Leads(nodes, a, d, s[k]) && !On(s, k, nodes[d].lab)
    ensures Answers(nodes, plan, s, FoundAt(Some(d), Code(s[k..], nodes[d].lab)))
  {
    Queried(nodes, plan, a, d, s, k);
    var code := Code(s[k..], nodes[d].lab);
    if code == SAME {
      assert s == s[..k] + s[k..];
    } else {
      OnlyLead(nodes, plan, a, d, s[k]);
      NotWhole(s[k..], nodes[d].lab);
      NoWay(nodes, plan, a, s, k);
    }
  }

  /** Where no label on the way on is a prefix of the rest, s is unknown. */
  lemma NoWay<P>(nodes: seq<Node<P>>, plan: Plan, a: nat, s: Word, k: nat)
    requires Shape(nodes, plan) && a < |nodes| && k < |s| && plan.word[a] == s[..k]
    requires forall d: nat :: Leads(nodes, a, d, s[k]) ==>
      |nodes[d].lab| > |s| - k || nodes[d].lab != s[k..][..|nodes[d].lab|]
    ensures !Known(plan, s)
  {
    if n: nat :| n < |plan.word| && plan.word[n] == s {
      assert s[..|s|] == s;
      var d := LeadsOn(nodes, plan, a, n, s);
    }
  }

  /** A search that ends nowhere is right; any other is right exactly if the string is legible. */
  lemma SearchTells<P>(nodes: seq<Node<P>>, plan: Plan, s: Word)
    requires Shape(nodes, plan)
    ensures Search(nodes, s).Nowhere? ==> !Known(plan, s)
    ensures !Search(nodes, s).Nowhere? ==> (Legible(nodes, plan, s) <==> Answers(nodes, plan, s, Search(nodes, s)))
    ensures Search(nodes, s).At? ==> Search(nodes, s).n < |nodes|
  {
    if s != [] {
      var halt := WalkTracks(nodes, plan, s);
      if Legible(nodes, plan, s) { SearchIsRight(nodes, plan, s, halt); }
      else if Known(plan, s) { KnownIsLegible(nodes, plan, s); }
    }
  }
}
