/**
 * The part of a networkx `Graph` the two pages use: a node set, each node's
 * `bipartite` attribute, and each undirected edge's `weight` attribute; and the
 * two page loops that fill it in place together with the `edge_labels`
 * dictionary.
 */
module Graph {
  import opened Text
  import opened Catalog
  import opened SkillEdges

  class SkillGraph {
    var nodes: set<string>
    /** The `bipartite` attribute: 0 for the student side, 1 for the company side. */
    var side: map<string, nat>
    /** The `weight` attribute of each undirected edge. */
    var weight: map<set<string>, nat>

    /** Attributes belong to nodes, and every edge joins nodes of the graph. */
    ghost predicate Valid()
      reads this
    {
      && side.Keys <= nodes
      && (forall e :: e in weight ==> e <= nodes)
    }

    /** `nx.Graph()` */
    constructor ()
      ensures Valid()
      ensures nodes == {} && side == map[] && weight == map[]
    {
      nodes, side, weight := {}, map[], map[];
    }

    /** `add_node(n, bipartite=b)`: adds `n` if absent and sets its attribute. */
    method AddNode(n: string, b: nat)
      requires Valid()
      modifies this
      ensures Valid()
      ensures nodes == old(nodes) + {n} && side == old(side)[n := b] && weight == old(weight)
    {
      nodes := nodes + {n};
      side := side[n := b];
    }

    /** `add_nodes_from(ns, bipartite=b)`: `add_node` for each of `ns`. */
    method AddNodesFrom(ns: set<string>, b: nat)
      requires Valid()
      modifies this
      ensures Valid()
      ensures nodes == old(nodes) + ns && weight == old(weight)
      ensures side == old(side) + map n | n in ns :: b
    {
      nodes := nodes + ns;
      side := side + map n | n in ns :: b;
    }

    /**
     * `add_edge(u, v, weight=w)`: adds the end points if absent, and adds the
     * edge or, when it is already there, replaces its weight.
     */
    method AddEdge(u: string, v: string, w: nat)
      requires Valid()
      modifies this
      ensures Valid()
      ensures nodes == old(nodes) + {u, v} && side == old(side)
      ensures weight == old(weight)[Key(u, v) := w]
    {
      nodes := nodes + {u, v};
      weight := weight[Key(u, v) := w];
    }
  }

  /** The `bipartite` attributes after the student nodes and then the company nodes are added. */
  function Sides(students: set<string>, companies: set<string>): map<string, nat> {
    map n | n in students + companies :: if n in companies then 1 else 0
  }

  lemma SidesAddCompany(students: set<string>, companies: set<string>, n: string)
    ensures Sides(students, companies + {n}) == Sides(students, companies)[n := 1]
  {
  }

  lemma CompanyNamesStep(companies: seq<Company>, j: nat)
    requires j < |companies|
    ensures CompanyNames(companies[..j + 1]) == CompanyNames(companies[..j]) + {companies[j].name}
  {
    assert companies[..j + 1] == companies[..j] + [companies[j]];
  }

  lemma RowStep(e: Edges, student: string, have: set<string>, companies: seq<Company>, j: nat)
    requires j < |companies|
    ensures Row(e, student, have, companies[..j + 1]) == Link(Row(e, student, have, companies[..j]), student, have, companies[j])
  {
    assert companies[..j + 1][..j] == companies[..j];
  }

  lemma RowsStep(students: seq<Student>, companies: seq<Company>, i: nat)
    requires i < |students|
    ensures Rows(students[..i + 1], companies)
      == Row(Rows(students[..i], companies), students[i].name, LowerSet(students[i].skills), companies)
  {
    assert students[..i + 1][..i] == students[..i];
  }

  /**
   * The inner loop of the interactive page: `student`, already a node, against
   * every company, already a node, in order; each company sharing a
   * lower-cased skill gets an edge weighted by the number of shared skills,
   * and the label of the ordered pair is that set.
   */
  method LinkStudent(g: SkillGraph, labels0: map<(string, string), set<string>>, student: Student, companies: seq<Company>)
    returns (labels: map<(string, string), set<string>>)
    requires g.Valid()
    requires student.name in g.nodes && CompanyNames(companies) <= g.nodes
    modifies g
    ensures g.Valid() && g.nodes == old(g.nodes) && g.side == old(g.side)
    ensures Edges(g.weight, labels) == Row(Edges(old(g.weight), labels0), student.name, LowerSet(student.skills), companies)
  {
    labels := labels0;
    var have := LowerSet(student.skills);
    for j := 0 to |companies|
      invariant g.Valid() && g.nodes == old(g.nodes) && g.side == old(g.side)
      invariant Edges(g.weight, labels) == Row(Edges(old(g.weight), labels0), student.name, have, companies[..j])
    {
      var company := companies[j];
      RowStep(Edges(old(g.weight), labels0), student.name, have, companies, j);
      assert company.name in CompanyNames(companies) by { assert company in companies; }
      var matching := have * LowerSet(company.skills);
      if matching != {} {
        g.AddEdge(student.name, company.name, |matching|);
        labels := labels[(student.name, company.name) := matching];
      }
    }
    assert companies[..|companies|] == companies;
  }

  /**
   * The interactive page's graph: every student and company becomes a node,
   * and each student is checked against each company in order, adding an edge
   * and a label for every pair whose lower-cased skills overlap.
   */
  method BuildInteractiveGraph(students: seq<Student>, companies: seq<Company>)
    returns (g: SkillGraph, labels: map<(string, string), set<string>>)
    ensures fresh(g) && g.Valid()
    ensures g.nodes == StudentNames(students) + CompanyNames(companies)
    ensures g.side == Sides(StudentNames(students), CompanyNames(companies))
    ensures Edges(g.weight, labels) == Rows(students, companies)
  {
    g := new SkillGraph();
    labels := map[];
    g.AddNodesFrom(StudentNames(students), 0);
    g.AddNodesFrom(CompanyNames(companies), 1);
    assert g.side == Sides(StudentNames(students), CompanyNames(companies));
    for i := 0 to |students|
      invariant g.Valid()
      invariant g.nodes == StudentNames(students) + CompanyNames(companies)
      invariant g.side == Sides(StudentNames(students), CompanyNames(companies))
      invariant Edges(g.weight, labels) == Rows(students[..i], companies)
    {
      var student := students[i];
      RowsStep(students, companies, i);
      assert student.name in StudentNames(students) by { assert student in students; }
      labels := LinkStudent(g, labels, student, companies);
    }
    assert students[..|students|] == students;
  }

  /**
   * The job page's graph: a node "Student" for the resume, whose skills are
   * the resume's lower-cased tokens, and one node per company, each added in
   * turn and linked to the resume node when they share a token.
   */
  method BuildResumeGraph(resumeText: string, companies: seq<Company>)
    returns (g: SkillGraph, labels: map<(string, string), set<string>>)
    ensures fresh(g) && g.Valid()
    ensures g.nodes == {StudentNode} + CompanyNames(companies)
    ensures g.side == Sides({StudentNode}, CompanyNames(companies))
    ensures Edges(g.weight, labels) == ResumeEdges(resumeText, companies)
  {
    var words := ResumeWords(resumeText);
    g := new SkillGraph();
    g.AddNode(StudentNode, 0);
    labels := map[];
    for j := 0 to |companies|
      invariant g.Valid()
      invariant g.nodes == {StudentNode} + CompanyNames(companies[..j])
      invariant g.side == Sides({StudentNode}, CompanyNames(companies[..j]))
      invariant Edges(g.weight, labels) == Row(NoEdges, StudentNode, words, companies[..j])
    {
      var company := companies[j];
      CompanyNamesStep(companies, j);
      SidesAddCompany({StudentNode}, CompanyNames(companies[..j]), company.name);
      RowStep(NoEdges, StudentNode, words, companies, j);
      g.AddNode(company.name, 1);
      var requiredSkills := LowerSet(company.skills);
      var matchingSkills := words * requiredSkills;
      if matchingSkills != {} {
        g.AddEdge(StudentNode, company.name, |matchingSkills|);
        labels := labels[(StudentNode, company.name) := matchingSkills];
      }
    }
    assert companies[..|companies|] == companies;
  }
}
