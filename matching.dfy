/**
 * The matching the pages receive from networkx's maximum-weight matching,
 * taken as an input: the node pairs in the order the page's loop visits them.
 * The lookup loop finds the partner of a selected node.
 */
module Matching {
  import opened Wrappers
  import opened SkillEdges

  type Pair = (string, string)

  /** `x in (u, v)` */
  predicate Contains(p: Pair, x: string) {
    x == p.0 || x == p.1
  }

  /** `v if u == x else u`: the other node of a pair containing `x`. */
  function Other(p: Pair, x: string): (y: string)
    requires Contains(p, x)
    ensures Key(x, y) == Key(p.0, p.1)
  {
    if p.0 == x then p.1 else p.0
  }

  /**
   * A matching of the graph whose edge weights are `weight`: every pair is an
   * edge between two distinct nodes, and no node lies in two pairs.
   */
  ghost predicate IsMatching(m: seq<Pair>, weight: map<set<string>, nat>) {
    && (forall i :: 0 <= i < |m| ==> m[i].0 != m[i].1 && Key(m[i].0, m[i].1) in weight)
    && (forall i, j :: 0 <= i < j < |m| ==> Key(m[i].0, m[i].1) !! Key(m[j].0, m[j].1))
  }

  /** The partner of `x`: the other node of the first pair containing `x`, if any. */
  function PartnerOf(m: seq<Pair>, x: string): Option<string> {
    if m == [] then None
    else if Contains(m[0], x) then Some(Other(m[0], x))
    else PartnerOf(m[1..], x)
  }

  /**
   * `PartnerOf` is "no match" exactly when no pair contains `x`; otherwise it
   * is the other node of the first pair that does.
   */
  lemma {:induction false} PartnerIsFirst(m: seq<Pair>, x: string)
    ensures PartnerOf(m, x).None? <==> forall i :: 0 <= i < |m| ==> !Contains(m[i], x)
    ensures PartnerOf(m, x).Some? ==>
      exists i :: (0 <= i < |m| && Contains(m[i], x)
        && PartnerOf(m, x).value == Other(m[i], x) && forall j :: 0 <= j < i ==> !Contains(m[j], x))
  {
    if m != [] && !Contains(m[0], x) {
      PartnerIsFirst(m[1..], x);
      if PartnerOf(m, x).Some? {
        var i :| 0 <= i < |m[1..]| && Contains(m[1..][i], x)
          && PartnerOf(m, x).value == Other(m[1..][i], x) && forall j :: 0 <= j < i ==> !Contains(m[1..][j], x);
        assert m[i + 1] == m[1..][i];
        assert forall j :: 1 <= j < i + 1 ==> m[j] == m[1..][j - 1];
      }
    }
  }

  /**
   * The lookup loop of the interactive page: scan the pairs, and on the first
   * that contains `selected` take its other node and stop. The matching is
   * only read.
   */
  method FindMatch(matching: seq<Pair>, selected: string) returns (partner: Option<string>)
    ensures partner == PartnerOf(matching, selected)
    ensures partner.None? <==> forall i :: 0 <= i < |matching| ==> !Contains(matching[i], selected)
  {
    PartnerIsFirst(matching, selected);
    partner := None;
    var i := 0;
    while i < |matching|
      invariant 0 <= i <= |matching|
      invariant PartnerOf(matching[i..], selected) == PartnerOf(matching, selected)
    {
      var (u, v) := matching[i];
      if selected == u || selected == v {
        partner := Some(if u == selected then v else u);
        break;
      }
      assert matching[i..][1..] == matching[i + 1..];
      i := i + 1;
    }
  }

  /** In a matching, at most one pair contains a given node. */
  lemma OnePairPerNode(m: seq<Pair>, weight: map<set<string>, nat>, x: string, i: nat, j: nat)
    requires IsMatching(m, weight)
    requires i < |m| && j < |m| && Contains(m[i], x) && Contains(m[j], x)
    ensures i == j
  {
    assert x in Key(m[i].0, m[i].1) && x in Key(m[j].0, m[j].1);
  }

  /** The partner found in a matching is joined to the selected node by an edge. */
  lemma PartnerIsNeighbour(m: seq<Pair>, weight: map<set<string>, nat>, x: string)
    requires IsMatching(m, weight)
    requires PartnerOf(m, x).Some?
    ensures PartnerOf(m, x).value != x && Key(x, PartnerOf(m, x).value) in weight
  {
    PartnerIsFirst(m, x);
  }

  /** In a matching, partnership is symmetric: if y is x's partner then x is y's. */
  lemma PartnerSymmetric(m: seq<Pair>, weight: map<set<string>, nat>, x: string)
    requires IsMatching(m, weight)
    requires PartnerOf(m, x).Some?
    ensures PartnerOf(m, PartnerOf(m, x).value) == Some(x)
  {
    PartnerIsFirst(m, x);
    var y := PartnerOf(m, x).value;
    var i :| 0 <= i < |m| && Contains(m[i], x) && y == Other(m[i], x)
      && forall j :: 0 <= j < i ==> !Contains(m[j], x);
    assert Contains(m[i], y);
    PartnerIsFirst(m, y);
    var i' :| 0 <= i' < |m| && Contains(m[i'], y)
      && PartnerOf(m, y).value == Other(m[i'], y) && forall j :: 0 <= j < i' ==> !Contains(m[j], y);
    OnePairPerNode(m, weight, y, i, i');
  }
}
