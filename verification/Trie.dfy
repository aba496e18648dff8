/** The operations of the radix trie (genmc/genmc/ADT/Trie.hpp). */
module Tries {
  import opened Options
  import opened TrieShapes
  import opened TriePrefixes

  /** How an operation that may refuse ends; it may also be stuck at a VERIFY, in the case the source excludes, or past
      the end of the string. */
  datatype Outcome = Done | Refused | Stuck

  datatype Answer<P> = Payload(data: P) | Null | NoAnswer

  class Trie<P(!new)> {
    var nodes: seq<Node<P>>
    const empty: P               // Payload()
    ghost var plan: Plan

    ghost predicate Valid()
      reads this
    {
      Shape(nodes, plan)
    }

    constructor (root: P, empty: P)
      ensures Valid() && this.empty == empty && (forall s: Word :: Known(plan, s) <==> s == [])
      ensures forall s: Word, p: P :: Holds(nodes, plan, s, p) <==> s == [] && p == root
    {
      this.empty := empty;
      nodes, plan := [Node([], root, [])], Plan([[]], [0]);
      new;
      assert plan.word[0] == [] && nodes[0].dat == root;
    }

    /** Node::getEdge. */
    method GetEdge(n: nat, id: int) returns (c: Option<nat>)
      requires n < |nodes| && SiblingsOk(nodes, nodes[n].children)
      ensures c.None? ==> NoEdge(nodes, n, id)
      ensures c.Some? ==> var k := EdgeIndex(nodes, nodes[n].children, id);
        k < |nodes[n].children| && nodes[n].children[k] == c.value && nodes[c.value].lab[0] == id
    {
      var k := EdgeIndex(nodes, nodes[n].children, id);
      if k < |nodes[n].children| && nodes[nodes[n].children[k]].lab[0] == id { return Some(nodes[n].children[k]); }
      c := None;
    }

    /** Node::query, with the part of the string still to be read. */
    method Query(t: Word, lab: Word) returns (code: int)
      ensures code == Code(t, lab)
    {
      var l := if |t| < |lab| then |t| else |lab|;
      var i := 0;
      while i < l && t[i] == lab[i]
        invariant i <= l && t[..i] == lab[..i]
      {
        assert t[..i + 1] == t[..i] + [t[i]] && lab[..i + 1] == lab[..i] + [lab[i]];
        i := i + 1;
      }
      if i == l {
        CommonPartWhole(t, lab, i);
        if |t| == |lab| { return SAME; }
        if i == |t| { return STRING_IS_PREFIX; }
        return LABEL_IS_PREFIX;
      }
      CommonPartIs(t, lab, i);
      code := Int8(i);
    }

    method AddNode(dat: P, lab: Word) returns (m: nat)
      modifies this`nodes
      ensures m == |old(nodes)| && nodes == old(nodes) + [Node(lab, dat, [])]
    {
      m := |nodes|;
      nodes := nodes + [Node(lab, dat, [])];
    }

    /** Node::addEdge. */
    method AddEdge(n: nat, m: nat)
      requires n < |nodes| && m < |nodes| && |nodes[m].lab| > 0 && SiblingsOk(nodes, nodes[n].children)
      modifies this`nodes
      ensures var k := EdgeIndex(old(nodes), old(nodes)[n].children, old(nodes)[m].lab[0]);
        nodes == old(nodes)[n := old(nodes)[n].(children := Inserted(old(nodes)[n].children, k, m))]
    {
      if |nodes[n].children| == 0 {
        nodes := nodes[n := nodes[n].(children := [m])];
        assert Inserted([], 0, m) == [m];
      } else {
        var k := EdgeIndex(nodes, nodes[n].children, nodes[m].lab[0]);
        nodes := nodes[n := nodes[n].(children := Inserted(nodes[n].children, k, m))];
      }
    }

    /** Node::setEdge; the child replaced begins like the new one. */
    method SetEdge(n: nat, m: nat)
      requires n < |nodes| && m < |nodes| && |nodes[m].lab| > 0 && SiblingsOk(nodes, nodes[n].children)
      requires !NoEdge(nodes, n, nodes[m].lab[0])
      modifies this`nodes
      ensures var k := EdgeIndex(old(nodes), old(nodes)[n].children, old(nodes)[m].lab[0]);
        && k < |old(nodes)[n].children|
        && nodes == old(nodes)[n := old(nodes)[n].(children := old(nodes)[n].children[k := m])]
    {
      var k := EdgeIndex(nodes, nodes[n].children, nodes[m].lab[0]);
      assert k < |nodes[n].children|;  // the VERIFY of setEdge
      nodes := nodes[n := nodes[n].(children := nodes[n].children[k := m])];
    }

    /** The steps of splitEdge. */
    method SplitNodes(n: nat, id: int, index: nat) returns (m: nat)
      requires n < |nodes| && SiblingsOk(nodes, nodes[n].children) && !NoEdge(nodes, n, id)
      requires var k := EdgeIndex(nodes, nodes[n].children, id);
        k < |nodes[n].children| && nodes[n].children[k] != n && 0 < index < |nodes[nodes[n].children[k]].lab|
      modifies this`nodes
      ensures m == |old(nodes)|
      ensures nodes == WithSplit(old(nodes), n, EdgeIndex(old(nodes), old(nodes)[n].children, id), index, empty)
    {
      ghost var was := nodes;
      var eNode := GetEdge(n, id);
      var e := eNode.value;
      var l := nodes[e].lab;
      m := AddNode(empty, l[..index]);
      SameIndex(was, nodes, was[n].children, id);
      SetEdge(n, m);
      nodes := nodes[e := nodes[e].(lab := l[index..])];
      AddEdge(m, e);
      assert Inserted([], 0, e) == [e];
      assert nodes == WithSplit(was, n, EdgeIndex(was, was[n].children, id), index, empty);
    }

    /** splitEdge: the edge from n that begins with id is split after `index` elements. */
    method SplitEdge(n: nat, id: int, index: nat) returns (m: nat)
      requires Valid() && n < |nodes| && SiblingsOk(nodes, nodes[n].children) && !NoEdge(nodes, n, id)
      requires var k := EdgeIndex(nodes, nodes[n].children, id);
        k < |nodes[n].children| && nodes[n].children[k] < |nodes| && 0 < index < |nodes[nodes[n].children[k]].lab|
      modifies this`nodes, this`plan
      ensures Valid() && m == |old(nodes)|
      ensures var k := EdgeIndex(old(nodes), old(nodes)[n].children, id);
        var d := old(nodes)[n].children[k];
        && d != n && nodes == WithSplit(old(nodes), n, k, index, empty)
        && plan == Plan(old(plan.word) + [old(plan.word)[n] + old(nodes)[d].lab[..index]],
                        old(plan.parent)[d := m] + [n])
    {
      ghost var k := EdgeIndex(nodes, nodes[n].children, id);
      ghost var d := nodes[n].children[k];
      NotOwnChild(nodes, plan, n, k);
      SplitKeepsShape(nodes, plan, n, k, index, empty);
      plan := Plan(plan.word + [plan.word[n] + nodes[d].lab[..index]], plan.parent[d := |nodes|] + [n]);
      m := SplitNodes(n, id, index);
    }

    /** A new node below n; if another child begins with the same element, the siblings are no longer told apart. */
    method AddLeaf(n: nat, dat: P, lab: Word) returns (m: nat)
      requires Valid() && n < |nodes| && 0 < |lab| && SiblingsOk(nodes, nodes[n].children)
      modifies this`nodes, this`plan
      ensures Valid() <==> NoEdge(old(nodes), n, lab[0])
      ensures m == |old(nodes)| && nodes == WithLeaf(old(nodes), n, lab, dat)
      ensures plan == Plan(old(plan.word) + [old(plan.word)[n] + lab], old(plan.parent) + [n])
    {
      ghost var was := nodes;
      if NoEdge(nodes, n, lab[0]) { LeafKeepsShape(nodes, plan, n, lab, dat); }
      m := AddNode(dat, lab);
      SameIndex(was, nodes, was[n].children, lab[0]);
      AddEdge(n, m);
      assert nodes == WithLeaf(was, n, lab, dat);
      plan := Plan(plan.word + [plan.word[n] + lab], plan.parent + [n]);
      if !NoEdge(was, n, lab[0]) { TwinBreaksShape(was, n, lab, dat, plan); }
    }

    /** setData of a node. */
    method SetNode(m: nat, data: P)
      requires Valid() && m < |nodes|
      modifies this`nodes
      ensures Valid() && nodes == old(nodes)[m := old(nodes)[m].(dat := data)]
    {
      SamePlaces(nodes, nodes[m := nodes[m].(dat := data)], plan);
      nodes := nodes[m := nodes[m].(dat := data)];
    }

    /** splitEdge of the edge from n to d. */
    method SplitAt(n: nat, id: int, ghost d: nat, index: nat) returns (m: nat)
      requires Valid() && Leads(nodes, n, d, id) && 0 < index < |nodes[d].lab|
      modifies this`nodes, this`plan
      ensures Valid() && m == |old(nodes)| && |nodes| == m + 1
      ensures plan.word == old(plan.word) + [old(plan.word)[n] + old(nodes)[d].lab[..index]]
      ensures nodes[m].dat == empty && forall x :: 0 <= x < m ==> nodes[x].dat == old(nodes)[x].dat
      ensures SiblingsOk(nodes, nodes[m].children)
      ensures forall x: int :: NoEdge(nodes, m, x) <==> x != old(nodes)[d].lab[index]
    {
      assert SiblingsOk(nodes, nodes[n].children);
      LeadIndex(nodes, plan, n, id);
      OnlyLead(nodes, plan, n, d, id);
      m := SplitEdge(n, id, index);
      assert nodes[m].children == [d] && nodes[nodes[m].children[0]].lab[0] == old(nodes)[d].lab[index];
      assert SiblingsOk(nodes, nodes[m].children);
    }

    /** The edge is split where the string ends, `index` elements beyond n. */
    method AddInEdge(n: nat, id: int, ghost d: nat, index: nat, data: P)
      requires Valid() && Leads(nodes, n, d, id) && 0 < index < |nodes[d].lab|
      modifies this`nodes, this`plan
      ensures Valid()
      ensures Grown(old(nodes), old(plan), nodes, plan, old(plan.word)[n] + old(nodes)[d].lab[..index], data)
    {
      ghost var was, plan0 := nodes, plan;
      var m := SplitAt(n, id, d, index);
      ghost var h := nodes;
      SetNode(m, data);
      assert nodes[m].dat == data && forall x :: 0 <= x < m ==> nodes[x].dat == h[x].dat;
      GrownByOne(was, plan0, nodes, plan, plan0.word[n] + was[d].lab[..index]);
    }

    /** A leaf for the rest of the string. */
    method AddRest(n: nat, t: Word, data: P)
      requires Valid() && n < |nodes| && 0 < |t| && SiblingsOk(nodes, nodes[n].children)
      modifies this`nodes, this`plan
      ensures Valid() <==> NoEdge(old(nodes), n, t[0])
      ensures Valid() ==> Grown(old(nodes), old(plan), nodes, plan, old(plan.word)[n] + t, data)
    {
      ghost var was, plan0 := nodes, plan;
      var m := AddLeaf(n, data, t);
      if Valid() {
        LeafData(was, n, t, data);
        GrownByOne(was, plan0, nodes, plan, plan0.word[n] + t);
      }
    }

    /** The edge is split after `index` elements, and the string goes on from there. */
    method AddBeside(n: nat, ghost d: nat, t: Word, data: P, index: nat) returns (ghost h: seq<Node<P>>, ghost q: Plan)
      requires Valid() && 0 < index < |t| && Leads(nodes, n, d, t[0]) && index < |nodes[d].lab|
      modifies this`nodes, this`plan
      ensures Valid() <==> t[index] != old(nodes)[d].lab[index]
      ensures Shape(h, q) && Grown(old(nodes), old(plan), h, q, old(plan.word)[n] + old(nodes)[d].lab[..index], empty)
      ensures Valid() ==> Grown(h, q, nodes, plan, old(plan.word)[n] + old(nodes)[d].lab[..index] + t[index..], data)
    {
      ghost var was, plan0 := nodes, plan;
      var m := SplitAt(n, t[0], d, index);
      GrownByOne(was, plan0, nodes, plan, plan0.word[n] + was[d].lab[..index]);
      h, q := nodes, plan;
      AddRest(m, t[index..], data);
    }

    /** The case of addSeq without an edge. */
    method AddBelow(n: nat, s: Word, k: nat, data: P) returns (outcome: Outcome)
      requires Valid() && Tracking(nodes, plan, n, s, k) && k < |s|
      requires forall d: nat :: !Leads(nodes, n, d, s[k])
      modifies this`nodes, this`plan
      ensures outcome == Done
      ensures Legible(old(nodes), old(plan), s) <==>
        Succeeded(old(nodes), old(plan), nodes, plan, empty, s, data, outcome, None)
    {
      ghost var was, plan0 := nodes, plan;
      assert SiblingsOk(nodes, nodes[n].children);
      LeadIndex(nodes, plan, n, s[k]);
      NoLead(nodes, plan, n, s, k);
      if plan.word[n] == s[..k] { NoForkWithoutLead(nodes, plan, n, s); }
      AddRest(n, s[k..], data);
      IsWhole(plan0.word[n], s[k..], s, k);
      OneGrown(was, plan0, nodes, plan, empty, s, plan0.word[n] + s[k..], data);
      outcome := Done;
    }

    /** The cases of addSeq where its walk halts at an edge, to n. */
    method AddAtEdge(a: nat, n: nat, s: Word, k: nat, data: P, r: int)
      returns (outcome: Outcome, ghost split: Option<Word>)
      requires Valid() && Tracking(nodes, plan, a, s, k) && k < |s| && Leads(nodes, a, n, s[k])
      requires r == Code(s[k..], nodes[n].lab) && (r == LABEL_IS_PREFIX ==> |nodes[n].lab| >= |s| - k)
      modifies this`nodes, this`plan
      ensures Legible(old(nodes), old(plan), s) <==>
        Succeeded(old(nodes), old(plan), nodes, plan, empty, s, data, outcome, split)
      ensures outcome != Done ==> nodes == old(nodes) && plan == old(plan)
    {
      ghost var was, plan0 := nodes, plan;
      var t, lab := s[k..], nodes[n].lab;
      Queried(nodes, plan, a, n, s, k);
      CodeSplits(t, lab);
      ghost var w := plan.word[a];
      split := None;
      if r == SAME {
        RefusedRightly(nodes, plan, a, n, s, k, empty, data);
        outcome := Refused;
      } else if r == STRING_IS_PREFIX {
        if |t| >= |lab| { return Stuck, None; }  // the VERIFY of splitEdge
        AddInEdge(a, t[0], n, |t|, data);
        IsWhole(w, lab[..|t|], s, k);
        if w + lab[..|t|] == s { NoForkInside(was, plan0, n, s); }
        OneGrown(was, plan0, nodes, plan, empty, s, w + lab[..|t|], data);
        outcome := Done;
      } else if r <= 0 {
        outcome := Stuck;  // the case the source excludes, past the end of s, or the VERIFY of splitEdge
      } else {
        ghost var h, q := AddBeside(a, n, t, data, r);
        if Valid() {
          assert w + lab[..r] + t[r..] == w + t;
          IsWhole(w, t, s, k);
          if w + t == s { OneFork(was, plan0, n, s, w + lab[..r]); }
          TwiceGrown(was, plan0, h, q, nodes, plan, empty, s, w + lab[..r], w + t, data);
        }
        outcome, split := Done, Some(w + lab[..r]);
      }
    }

    /** The walk down the trie that addSeq and lookup share: getEdge and query, and on as long as the label is said to
        be a prefix of what is left. */
    method Walk(s: Word) returns (a: nat, k: nat, child: Option<nat>, code: int)
      requires Valid() && |s| > 0
      ensures Halt(a, k, child) == Walked(nodes, 0, s, 0) && a < |nodes| && k < |s|
      ensures child.None? ==> code == DONT_MATCH
      ensures child.Some? ==> child.value < |nodes| && code == Code(s[k..], nodes[child.value].lab)
    {
      a, k, code := 0, 0, DONT_MATCH;
      ghost var halt := Walked(nodes, 0, s, 0);
      while true
        invariant a < |nodes| && k < |s| && Walked(nodes, a, s, k) == halt
        decreases |s| - k
      {
        var b, j;
        child, code, b, j := Step(s, a, k);
        if j == k { return; }
        a, k := b, j;
      }
    }

    /** One step of the walk, which does not move where it halts. */
    method Step(s: Word, a: nat, k: nat) returns (child: Option<nat>, code: int, b: nat, j: nat)
      requires Valid() && a < |nodes| && k < |s|
      ensures b < |nodes| && k <= j < |s| && Walked(nodes, b, s, j) == Walked(nodes, a, s, k)
      ensures j == k ==> Walked(nodes, a, s, k) == Halt(a, k, child) && (child.None? ==> code == DONT_MATCH)
      ensures j == k && child.Some? ==> child.value < |nodes| && code == Code(s[k..], nodes[child.value].lab)
    {
      code, b, j := DONT_MATCH, a, k;
      child := GetLead(a, s[k]);
      if child.None? { return; }
      var n := child.value;
      code := Query(s[k..], nodes[n].lab);
      if code == LABEL_IS_PREFIX && |nodes[n].lab| < |s| - k {
        WalksOn(nodes, a, n, s, k);
        b, j := n, k + |nodes[n].lab|;
      }
    }

    method GetLead(a: nat, id: int) returns (child: Option<nat>)
      requires Valid() && a < |nodes|
      ensures child == Lead(nodes, a, id)
    {
      assert SiblingsOk(nodes, nodes[a].children);
      LeadIndex(nodes, plan, a, id);
      child := GetEdge(a, id);
      if child.Some? { OnlyLead(nodes, plan, a, child.value, id); }
    }

    /** addSeq: succeeds exactly if s is legible. */
    method AddSeq(s: Word, data: P) returns (outcome: Outcome, ghost split: Option<Word>)
      requires Valid()
      modifies this`nodes, this`plan
      ensures Legible(old(nodes), old(plan), s) <==>
        Succeeded(old(nodes), old(plan), nodes, plan, empty, s, data, outcome, split)
      ensures outcome != Done ==> nodes == old(nodes) && plan == old(plan)
    {
      if |s| == 0 { return Refused, None; }
      ghost var halt := WalkTracks(nodes, plan, s);
      var a, k, child, code := Walk(s);
      if child.None? {
        outcome := AddBelow(a, s, k, data);
        split := None;
      } else {
        outcome, split := AddAtEdge(a, child.value, s, k, data, code);
      }
    }

    /** lookup: a null answer is right, any other exactly if s is legible. */
    method Lookup(s: Word) returns (answer: Answer<P>)
      requires Valid()
      ensures answer == AnswerOf(nodes, Search(nodes, s))
      ensures answer == Null ==> !Known(plan, s)
      ensures Known(plan, s) <==> answer.Payload? && Legible(nodes, plan, s)
      ensures answer == NoAnswer ==> !Legible(nodes, plan, s)
      ensures forall p: P :: Holds(nodes, plan, s, p) <==> Legible(nodes, plan, s) && answer == Payload(p)
    {
      var found := LookupNode(s);
      AnswerIsRight(nodes, plan, s);
      match found
      case At(n) => answer := Payload(nodes[n].dat);
      case Nowhere => answer := Null;
      case Trapped => answer := NoAnswer;
    }

    method LookupNode(s: Word) returns (found: Found)
      requires Valid()
      ensures found == Search(nodes, s)
    {
      if |s| == 0 { return At(0); }
      var a, k, child, code := Walk(s);
      found := FoundAt(child, code);
    }

    /** findLongestCommonPrefix: fails exactly if the search for the string is trapped, or ends at a node whose label
        has more than one element. For a legible string that is to say that the trie knows the string, but not what is
        left of it without its last element. */
    method FindLongestCommonPrefix(s: Word) returns (length: Option<nat>)
      requires Valid()
      ensures s == [] ==> length == Some(0)
      ensures s != [] ==> (length.None? <==> Fails(nodes, Search(nodes, s)))
      ensures Legible(nodes, plan, s) ==> (length.None? <==> CutOff(plan, s))
      ensures Legible(nodes, plan, s) && length.Some? ==> LongestShared(plan, s, length.value)
    {
      if |s| == 0 {
        NothingShared(plan);
        return Some(0);
      }
      ghost var halt := WalkTracks(nodes, plan, s);
      var a, k, child, code := Walk(s);
      LengthIsRight(nodes, plan, s, halt);
      LengthFails(nodes, plan, s, halt);
      length := LengthAt(|s|, k, child, code);
    }

    /** setData, by way of lookup: refuses rightly, and otherwise changes one word of the trie, which is s exactly if s
        is legible. */
    method SetData(s: Word, data: P) returns (outcome: Outcome, ghost w: Word)
      requires Valid()
      modifies this`nodes
      ensures Valid() && (outcome != Done ==> nodes == old(nodes))
      ensures outcome == Refused ==> !Known(plan, s)
      ensures Known(plan, s) <==> outcome == Done && Legible(old(nodes), plan, s)
      ensures outcome == Done ==> Known(plan, w) && (w == s <==> Legible(old(nodes), plan, s))
      ensures outcome == Done ==> forall t: Word, p: P ::
        Holds(nodes, plan, t, p) <==> if t == w then p == data else Holds(old(nodes), plan, t, p)
    {
      ghost var was := nodes;
      w := s;
      SearchTells(nodes, plan, s);
      if Known(plan, s) { KnownIsLegible(nodes, plan, s); }
      var found := LookupNode(s);
      match found
      case At(n) =>
        SetNode(n, data);
        DataSet(was, nodes, plan, n);
        outcome, w := Done, plan.word[n];
      case Nowhere =>
        outcome := Refused;
      case Trapped =>
        outcome := Stuck;
    }
  }

  ghost function AnswerOf<P>(nodes: seq<Node<P>>, found: Found): Answer<P> {
    match found
    case At(n) => if n < |nodes| then Payload(nodes[n].dat) else NoAnswer
    case Nowhere => Null
    case Trapped => NoAnswer
  }

  /** A trie that holds only the empty string and lab answers for any string that it takes for lab. */
  lemma Mistaken<P>(nodes: seq<Node<P>>, plan: Plan, t: Word, lab: Word, p: P)
    requires Shape(nodes, plan) && t != [] && lab != [] && t[0] == lab[0] && Code(t, lab) == SAME
    requires Holds(nodes, plan, lab, p) && forall w: Word :: Known(plan, w) ==> w == [] || w == lab
    ensures AnswerOf(nodes, Search(nodes, t)) == Payload(p)
    ensures Fails(nodes, Search(nodes, t)) <==> |lab| > 1
  {
    var n: nat :| n < |nodes| && n < |plan.word| && plan.word[n] == lab && nodes[n].dat == p;
    assert plan.word[0] == [];
    assert lab[..|lab|] == lab;
    var d := LeadsOn(nodes, plan, 0, n, lab);
    ChildPlaced(nodes, plan, 0, d);
    assert Known(plan, plan.word[d]);
    WordsDiffer(nodes, plan, d, n);
    OnlyLead(nodes, plan, 0, d, t[0]);
    assert t[0..] == t && Lead(nodes, 0, t[0]) == Some(d) && plan.word[d] == nodes[d].lab;
  }

  lemma OnlyTheRoot<P>(nodes: seq<Node<P>>, plan: Plan, s: Word)
    requires Shape(nodes, plan) && forall w: Word :: Known(plan, w) ==> w == []
    ensures Legible(nodes, plan, s) && forall w: Word :: !Forks(plan, s, w)
  {
    if |nodes| > 1 {
      assert Known(plan, plan.word[1]);
      WordsDiffer(nodes, plan, 0, 1);
    }
  }

  lemma FirstWord<P(!new)>(nodes0: seq<Node<P>>, plan0: Plan, nodes: seq<Node<P>>, plan: Plan, empty: P,
                           s: Word, data: P, split: Option<Word>)
    requires Shape(nodes0, plan0) && (forall w: Word :: Known(plan0, w) ==> w == [])
    requires Succeeded(nodes0, plan0, nodes, plan, empty, s, data, Done, split)
    ensures Holds(nodes, plan, s, data) && forall w: Word :: Known(plan, w) ==> w == [] || w == s
  {
    OnlyTheRoot(nodes0, plan0, s);
    forall w: Word | Known(plan, w) ensures w == [] || w == s {
      var n: nat :| n < |plan.word| && plan.word[n] == w;
      assert Holds(nodes, plan, w, nodes[n].dat);
      assert Holds(nodes0, plan0, w, nodes[n].dat) ==> Known(plan0, w);
    }
  }

  /** A trie that holds one of two strings of 254 elements that share 253 answers for the other, and cannot tell the
      length of its longest common prefix. */
  method LookupCanMislead() returns (trie: Trie<int>, s: Word, t: Word, answer: Answer<int>, length: Option<nat>)
    ensures fresh(trie) && trie.Valid() && |s| == |t| == 254 && Known(trie.plan, s) && !Known(trie.plan, t)
    ensures AnswerOf(trie.nodes, Search(trie.nodes, t)) == Payload(1) == answer && !Legible(trie.nodes, trie.plan, t)
    ensures Fails(trie.nodes, Search(trie.nodes, t)) && !CutOff(trie.plan, t) && length == None
  {
    var common: Word := seq(253, i => 0);
    s, t := common + [0], common + [1];
    LongLabelsFool(common, 1, 0, [], []);
    assert common + [0] + [] == s && common + [1] + [] == t;
    trie := new Trie(0, 0);
    ghost var nodes0, plan0 := trie.nodes, trie.plan;
    OnlyTheRoot(nodes0, plan0, s);
    var added;
    ghost var split;
    added, split := trie.AddSeq(s, 1);
    FirstWord(nodes0, plan0, trie.nodes, trie.plan, 0, s, 1, split);
    assert t[0] == s[0];
    Mistaken(trie.nodes, trie.plan, t, s, 1);
    answer := trie.Lookup(t);
    length := trie.FindLongestCommonPrefix(t);
  }

  /** Two elements added at once are cut off. */
  method CommonPrefixCanFail() returns (trie: Trie<int>, s: Word, length: Option<nat>)
    ensures fresh(trie) && trie.Valid() && Legible(trie.nodes, trie.plan, s) && CutOff(trie.plan, s) && length == None
  {
    trie := new Trie(0, 0);
    s := [1, 2];
    ghost var nodes0, plan0 := trie.nodes, trie.plan;
    OnlyTheRoot(nodes0, plan0, s);
    var added;
    ghost var split;
    added, split := trie.AddSeq(s, 1);
    FirstWord(nodes0, plan0, trie.nodes, trie.plan, 0, s, 1, split);
    ShortIsLegible(trie.nodes, trie.plan, s);
    assert s[..1] == [1] && !Known(trie.plan, [1]);
    length := trie.FindLongestCommonPrefix(s);
  }

  /** A null answer is right, any other exactly if s is legible. */
  lemma AnswerIsRight<P(!new)>(nodes: seq<Node<P>>, plan: Plan, s: Word)
    requires Shape(nodes, plan)
    ensures var answer := AnswerOf(nodes, Search(nodes, s));
      && (answer == Null ==> !Known(plan, s)) && (answer == NoAnswer ==> !Legible(nodes, plan, s))
      && (Known(plan, s) <==> answer.Payload? && Legible(nodes, plan, s))
      && forall p: P :: Holds(nodes, plan, s, p) <==> Legible(nodes, plan, s) && answer == Payload(p)
  {
    var found := Search(nodes, s);
    SearchTells(nodes, plan, s);
    if Known(plan, s) { KnownIsLegible(nodes, plan, s); }
    assert !Known(plan, s) ==> forall p: P :: !Holds(nodes, plan, s, p);
    if found.At? { HeldOnce(nodes, plan, found.n); }
  }

  /** addSeq promises: it refuses exactly the empty string and what the trie knows, and otherwise the trie comes to
      hold s with the data and, if s and a word it holds part where it knows no word, that place with an empty
      payload. */
  ghost predicate Succeeded<P(!new)>(nodes0: seq<Node<P>>, plan0: Plan, nodes: seq<Node<P>>, plan: Plan, empty: P,
                                     s: Word, data: P, outcome: Outcome, split: Option<Word>) {
    match outcome
    case Stuck => false
    case Refused => (s == [] || Known(plan0, s)) && nodes == nodes0 && plan == plan0
    case Done =>
      && Shape(nodes, plan) && s != [] && !Known(plan0, s)
      && (forall t: Word, p: P :: Holds(nodes, plan, t, p) <==>
            Holds(nodes0, plan0, t, p) || (t == s && p == data) || (split == Some(t) && p == empty))
      && forall w: Word :: split == Some(w) <==> Forks(plan0, s, w)
  }

  lemma IsWhole(w: Word, t: Word, s: Word, k: nat)
    requires k <= |s| && |w| == k && |t| == |s| - k
    ensures w + t == s <==> w == s[..k] && t == s[k..]
  {
    assert s == s[..k] + s[k..];
    assert (w + t)[..k] == w && (w + t)[k..] == t;
  }

  lemma RefusedRightly<P(!new)>(nodes: seq<Node<P>>, plan: Plan, a: nat, n: nat, s: Word, k: nat, empty: P, data: P)
    requires Shape(nodes, plan) && Tracking(nodes, plan, a, s, k) && k < |s| && Leads(nodes, a, n, s[k])
    requires Code(s[k..], nodes[n].lab) == SAME
    ensures Legible(nodes, plan, s) <==> Succeeded(nodes, plan, nodes, plan, empty, s, data, Refused, None)
  {
    Queried(nodes, plan, a, n, s, k);
    if Legible(nodes, plan, s) {
      assert s == s[..k] + s[k..];
      assert plan.word[n] == s;
    } else if Known(plan, s) {
      KnownIsLegible(nodes, plan, s);
    }
  }

  lemma OneGrown<P(!new)>(nodes0: seq<Node<P>>, plan0: Plan, nodes: seq<Node<P>>, plan: Plan, empty: P,
                          s: Word, g: Word, data: P)
    requires Shape(nodes0, plan0) && Shape(nodes, plan) && s != [] && Grown(nodes0, plan0, nodes, plan, g, data)
    requires g == s <==> Legible(nodes0, plan0, s)
    requires g == s ==> forall w: Word :: !Forks(plan0, s, w)
    ensures g == s <==> Succeeded(nodes0, plan0, nodes, plan, empty, s, data, Done, None)
  {
    if g != s { NotHeld(nodes0, plan0, s, data); }
  }

  lemma TwiceGrown<P(!new)>(nodes0: seq<Node<P>>, plan0: Plan, h: seq<Node<P>>, q: Plan, nodes: seq<Node<P>>,
                            plan: Plan, empty: P, s: Word, w: Word, g: Word, data: P)
    requires Shape(nodes0, plan0) && Shape(nodes, plan) && Grown(nodes0, plan0, h, q, w, empty)
    requires Grown(h, q, nodes, plan, g, data) && s != []
    requires g == s <==> Legible(nodes0, plan0, s)
    requires g == s ==> forall x: Word :: Forks(plan0, s, x) <==> x == w
    ensures g == s <==> Succeeded(nodes0, plan0, nodes, plan, empty, s, data, Done, Some(w))
  {
    if g != s { NotHeld(nodes0, plan0, s, data); }
  }

  lemma NotHeld<P(!new)>(nodes: seq<Node<P>>, plan: Plan, s: Word, data: P)
    requires Shape(nodes, plan) && !Legible(nodes, plan, s)
    ensures !Known(plan, s) && !Holds(nodes, plan, s, data)
  {
    if Known(plan, s) { KnownIsLegible(nodes, plan, s); }
  }
}
