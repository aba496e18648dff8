/** What findLongestCommonPrefix of the radix trie finds (genmc/genmc/ADT/Trie.hpp). */
module TriePrefixes {
  import opened Options
  import opened TrieShapes

  /** Some word of the trie agrees with s for m elements. */
  ghost predicate Shares(plan: Plan, s: Word, m: nat) {
    m <= |s| && exists n :: 0 <= n < |plan.word| && m <= |plan.word[n]| && plan.word[n][..m] == s[..m]
  }

  ghost predicate LongestShared(plan: Plan, s: Word, m: nat) {
    Shares(plan, s, m) && forall l: nat :: Shares(plan, s, l) ==> l <= m
  }

  /** The trie knows s, but not s without its last element. */
  ghost predicate CutOff(plan: Plan, s: Word) { s != [] && Known(plan, s) && !Known(plan, s[..|s| - 1]) }

  /** What is returned where the walk for a string of the given size halts with k elements read; nothing where a VERIFY
      fails, in the case the source excludes, and past the end. A negative code wraps around. */
  function LengthAt(size: nat, k: nat, child: Option<nat>, code: int): Option<nat>
    requires -128 <= code
  {
    if child.None? then Some(k)
    else if code == SAME then if k + 1 == size then Some(k + 1) else None
    else if code == STRING_IS_PREFIX then Some(size)
    else if code == DONT_MATCH || code == LABEL_IS_PREFIX then None
    else Some(if k + code < 0 then k + code + 0x1_0000_0000 else k + code)
  }

  /** Where a search ends with which the length cannot be told. */
  ghost predicate Fails<P>(nodes: seq<Node<P>>, found: Found) {
    found.Trapped? || (found.At? && found.n < |nodes| && |nodes[found.n].lab| > 1)
  }

  /** However the codes are misread, an answer of `same` is for a single element exactly if the label is one. */
  lemma LengthFails<P>(nodes: seq<Node<P>>, plan: Plan, s: Word, halt: Halt)
    requires Shape(nodes, plan) && Halts(nodes, plan, s, halt) && CodeAt(nodes, s, halt) >= -128
    ensures var code := CodeAt(nodes, s, halt);
      LengthAt(|s|, halt.k, halt.child, code).None? <==> Fails(nodes, FoundAt(halt.child, code))
  {
    if halt.child.Some? && CodeAt(nodes, s, halt) == SAME {
      var t, lab := s[halt.k..], nodes[halt.child.value].lab;
      assert t[0] == lab[0];
      CodeSplits(t, lab);
    }
  }

  lemma NothingShared(plan: Plan)
    requires |plan.word| > 0
    ensures LongestShared(plan, [], 0)
  {
    assert plan.word[0][..0] == [];
  }

  ghost predicate RightLength(plan: Plan, s: Word, length: Option<nat>) {
    match length
    case None => CutOff(plan, s)
    case Some(m) => !CutOff(plan, s) && LongestShared(plan, s, m)
  }

  lemma SharedHere<P>(nodes: seq<Node<P>>, plan: Plan, n: nat, s: Word, m: nat)
    requires Shape(nodes, plan) && n < |nodes| && m <= |s| && m <= |plan.word[n]| && plan.word[n][..m] == s[..m]
    ensures Shares(plan, s, m)
  {
  }

  /** Without an edge that leads on, no word of the trie agrees with s any further. */
  lemma SharedWithoutLead<P>(nodes: seq<Node<P>>, plan: Plan, a: nat, s: Word)
    requires Shape(nodes, plan) && a < |nodes| && Spells(plan, a, s) && |plan.word[a]| < |s|
    requires forall d: nat :: !Leads(nodes, a, d, s[|plan.word[a]|])
    ensures LongestShared(plan, s, |plan.word[a]|)
  {
    var k := |plan.word[a]|;
    SharedHere(nodes, plan, a, s, k);
    forall m: nat | Shares(plan, s, m) ensures m <= k {
      var n: nat :| n < |plan.word| && m <= |plan.word[n]| && plan.word[n][..m] == s[..m];
      if m > k { var d := SharedLead(nodes, plan, a, n, s, m); }
    }
  }

  /** A word that agrees with s beyond node a leaves it by the edge that leads on for s. */
  lemma SharedLead<P>(nodes: seq<Node<P>>, plan: Plan, a: nat, n: nat, s: Word, m: nat) returns (d: nat)
    requires Shape(nodes, plan) && a < |nodes| && n < |nodes| && Spells(plan, a, s)
    requires |plan.word[a]| < m <= |s| && m <= |plan.word[n]| && plan.word[n][..m] == s[..m]
    ensures Leads(nodes, a, d, s[|plan.word[a]|]) && |plan.word[a]| + |nodes[d].lab| <= |plan.word[n]|
    ensures nodes[d].lab == plan.word[n][|plan.word[a]|..][..|nodes[d].lab|]
  {
    var u, k := plan.word[n], |plan.word[a]|;
    assert u[..k] == u[..m][..k] == s[..m][..k] == s[..k] && u[k] == u[..m][k] == s[..m][k] == s[k];
    assert u[..|u|] == u;
    d := LeadsOn(nodes, plan, a, n, u);
  }

  /** Where s and the label that leads on part, no word agrees with s any further. */
  lemma SharedUpTo<P>(nodes: seq<Node<P>>, plan: Plan, a: nat, d: nat, s: Word, c: nat)
    requires Shape(nodes, plan) && a < |nodes| && Spells(plan, a, s) && |plan.word[a]| < |s|
    requires Leads(nodes, a, d, s[|plan.word[a]|]) && plan.word[d] == plan.word[a] + nodes[d].lab
    requires c < |nodes[d].lab| && |plan.word[a]| + c < |s|
    requires nodes[d].lab[..c] == s[|plan.word[a]|..][..c] && nodes[d].lab[c] != s[|plan.word[a]|..][c]
    ensures LongestShared(plan, s, |plan.word[a]| + c)
  {
    var k, lab := |plan.word[a]|, nodes[d].lab;
    assert plan.word[d][..k + c] == plan.word[a] + lab[..c];
    assert s[..k + c] == s[..k] + s[k..][..c];
    SharedHere(nodes, plan, d, s, k + c);
    forall m: nat | Shares(plan, s, m) ensures m <= k + c {
      var n: nat :| n < |plan.word| && m <= |plan.word[n]| && plan.word[n][..m] == s[..m];
      if m > k + c {
        var e := SharedLead(nodes, plan, a, n, s, m);
        OnlyLead(nodes, plan, a, d, s[k]);
      }
    }
  }

  /** s is cut off exactly if the label that ends it has more than one element. */
  lemma CutOffByLabel<P>(nodes: seq<Node<P>>, plan: Plan, a: nat, d: nat, s: Word)
    requires Shape(nodes, plan) && a < |nodes| && Spells(plan, a, s) && |plan.word[a]| < |s|
    requires Leads(nodes, a, d, s[|plan.word[a]|]) && plan.word[d] == s && |plan.word[a]| + |nodes[d].lab| == |s|
    ensures CutOff(plan, s) <==> |nodes[d].lab| > 1
  {
    var w := s[..|s| - 1];
    if |nodes[d].lab| == 1 {
      assert plan.word[a] == w;
    } else if p: nat :| p < |plan.word| && plan.word[p] == w {
      var e := LeadsOn(nodes, plan, a, p, s);
      OnlyLead(nodes, plan, a, d, s[|plan.word[a]|]);
    }
  }

  lemma LengthIsRight<P>(nodes: seq<Node<P>>, plan: Plan, s: Word, halt: Halt)
    requires Shape(nodes, plan) && Halts(nodes, plan, s, halt)
    ensures CodeAt(nodes, s, halt) >= -128
    ensures Legible(nodes, plan, s) ==>
      RightLength(plan, s, LengthAt(|s|, halt.k, halt.child, CodeAt(nodes, s, halt)))
  {
    CodesFit(s[halt.k..], if halt.child.Some? then nodes[halt.child.value].lab else []);
    if Legible(nodes, plan, s) {
      SearchIsRight(nodes, plan, s, halt);
      if halt.child.None? {
        NoLead(nodes, plan, halt.a, s, halt.k);
        SharedWithoutLead(nodes, plan, halt.a, s);
      } else {
        LengthAtEdge(nodes, plan, halt.a, halt.child.value, s, halt.k);
      }
    }
  }

  lemma CodesFit(t: Word, lab: Word)
    ensures -128 <= Code(t, lab) < 128
  {
  }

  lemma LengthAtEdge<P>(nodes: seq<Node<P>>, plan: Plan, a: nat, d: nat, s: Word, k: nat)
    requires Shape(nodes, plan) && Tracking(nodes, plan, a, s, k) && k < |s| && Legible(nodes, plan, s)
    requires Leads(nodes, a, d, s[k]) && !On(s, k, nodes[d].lab)
    requires -128 <= Code(s[k..], nodes[d].lab)
    requires Answers(nodes, plan, s, FoundAt(Some(d), Code(s[k..], nodes[d].lab)))
    ensures RightLength(plan, s, LengthAt(|s|, k, Some(d), Code(s[k..], nodes[d].lab)))
  {
    var t, lab := s[k..], nodes[d].lab;
    var code := Code(t, lab);
    Queried(nodes, plan, a, d, s, k);
    assert s == s[..k] + t;
    if code == SAME {
      assert plan.word[d][..|s|] == s[..|s|];
      SharedHere(nodes, plan, d, s, |s|);
      CutOffByLabel(nodes, plan, a, d, s);
    } else if code == STRING_IS_PREFIX {
      assert plan.word[d][..|s|] == plan.word[a] + lab[..|t|];
      SharedHere(nodes, plan, d, s, |s|);
    } else {
      SharedUpTo(nodes, plan, a, d, s, code);
    }
  }
}
