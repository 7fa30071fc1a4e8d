/**
 * What the two pages' edge loops leave behind: the weight of every undirected
 * edge of the graph and the `edge_labels` dictionary. Each loop visits its pairs
 * in order and, for a pair whose lower-cased skills overlap, writes the edge
 * weight (the overlap's size) and the label (the overlap); a later write to the
 * same edge or label key replaces the earlier one.
 */
module SkillEdges {
  import opened Text
  import opened Catalog

  /** The node of the job page that stands for the uploaded resume. */
  const StudentNode: string := "Student"

  /** An undirected edge: the set of its end points (a single one for a self-loop). */
  function Key(u: string, v: string): set<string> {
    {u, v}
  }

  /**
   * Edge weights keyed by undirected edge, and labels keyed by the ordered
   * pair (student, company) under which the loops store them. A label is the
   * set of shared skills; the order in which the page joins them is not modelled.
   */
  datatype Edges = Edges(weight: map<set<string>, nat>, labels: map<(string, string), set<string>>)

  const NoEdges: Edges := Edges(map[], map[])

  /** One pass of the inner loop body: link `student` to `c` when they share a skill. */
  function Link(e: Edges, student: string, have: set<string>, c: Company): Edges {
    var shared := Shared(have, c);
    if shared != {} then
      Edges(e.weight[Key(student, c.name) := |shared|], e.labels[(student, c.name) := shared])
    else
      e
  }

  /** The inner loop: `student`, whose lower-cased skills are `have`, against every company in order. */
  function Row(e: Edges, student: string, have: set<string>, companies: seq<Company>): Edges
    decreases |companies|
  {
    if companies == [] then e
    else Link(Row(e, student, have, companies[..|companies| - 1]), student, have, companies[|companies| - 1])
  }

  /** The interactive page's double loop over every student and every company. */
  function Rows(students: seq<Student>, companies: seq<Company>): Edges
    decreases |students|
  {
    if students == [] then NoEdges
    else
      var s := students[|students| - 1];
      Row(Rows(students[..|students| - 1], companies), s.name, LowerSet(s.skills), companies)
  }

  /** The job page's loop: the single resume node against every company. */
  function ResumeEdges(resumeText: string, companies: seq<Company>): Edges {
    Row(NoEdges, StudentNode, ResumeWords(resumeText), companies)
  }

  // ---------------------------------------------------------------------------
  // One row

  /** The weight under `k` was written by the `j`-th company of the row. */
  ghost predicate WeightFromRow(student: string, have: set<string>, companies: seq<Company>, k: set<string>, w: nat) {
    exists j :: 0 <= j < |companies| && k == Key(student, companies[j].name)
      && Shared(have, companies[j]) != {} && w == |Shared(have, companies[j])|
  }

  /** The label under `p` was written by the `j`-th company of the row. */
  ghost predicate LabelFromRow(student: string, have: set<string>, companies: seq<Company>, p: (string, string), l: set<string>) {
    exists j :: 0 <= j < |companies| && p == (student, companies[j].name)
      && Shared(have, companies[j]) != {} && l == Shared(have, companies[j])
  }

  /** A row keeps every earlier entry's key, and every entry is an earlier one or written by the row. */
  lemma {:induction false} RowOrigin(e: Edges, student: string, have: set<string>, companies: seq<Company>)
    ensures var r := Row(e, student, have, companies);
      && e.weight.Keys <= r.weight.Keys
      && e.labels.Keys <= r.labels.Keys
      && (forall k :: k in r.weight ==>
            (k in e.weight && r.weight[k] == e.weight[k]) || WeightFromRow(student, have, companies, k, r.weight[k]))
      && (forall p :: p in r.labels ==>
            (p in e.labels && r.labels[p] == e.labels[p]) || LabelFromRow(student, have, companies, p, r.labels[p]))
  {
    RowWeightOrigin(e, student, have, companies);
    RowLabelOrigin(e, student, have, companies);
  }

  /** The weights half of `RowOrigin`. */
  lemma {:induction false} RowWeightOrigin(e: Edges, student: string, have: set<string>, companies: seq<Company>)
    ensures var r := Row(e, student, have, companies);
      && e.weight.Keys <= r.weight.Keys
      && (forall k :: k in r.weight ==>
            (k in e.weight && r.weight[k] == e.weight[k]) || WeightFromRow(student, have, companies, k, r.weight[k]))
    decreases |companies|
  {
    if companies != [] {
      var n := |companies| - 1;
      var init := companies[..n];
      RowWeightOrigin(e, student, have, init);
      var mid := Row(e, student, have, init);
      var r := Row(e, student, have, companies);
      assert r == Link(mid, student, have, companies[n]);
      forall k | k in r.weight
        ensures (k in e.weight && r.weight[k] == e.weight[k]) || WeightFromRow(student, have, companies, k, r.weight[k])
      {
        if k in mid.weight && r.weight[k] == mid.weight[k] {
          if !(k in e.weight && mid.weight[k] == e.weight[k]) {
            var j :| 0 <= j < |init| && k == Key(student, init[j].name)
              && Shared(have, init[j]) != {} && mid.weight[k] == |Shared(have, init[j])|;
            assert companies[j] == init[j];
          }
        } else {
          assert k == Key(student, companies[n].name);
        }
      }
    }
  }

  /** The labels half of `RowOrigin`. */
  lemma {:induction false} RowLabelOrigin(e: Edges, student: string, have: set<string>, companies: seq<Company>)
    ensures var r := Row(e, student, have, companies);
      && e.labels.Keys <= r.labels.Keys
      && (forall p :: p in r.labels ==>
            (p in e.labels && r.labels[p] == e.labels[p]) || LabelFromRow(student, have, companies, p, r.labels[p]))
    decreases |companies|
  {
    if companies != [] {
      var n := |companies| - 1;
      var init := companies[..n];
      RowLabelOrigin(e, student, have, init);
      var mid := Row(e, student, have, init);
      var r := Row(e, student, have, companies);
      assert r == Link(mid, student, have, companies[n]);
      forall p | p in r.labels
        ensures (p in e.labels && r.labels[p] == e.labels[p]) || LabelFromRow(student, have, companies, p, r.labels[p])
      {
        if p in mid.labels && r.labels[p] == mid.labels[p] {
          if !(p in e.labels && mid.labels[p] == e.labels[p]) {
            var j :| 0 <= j < |init| && p == (student, init[j].name)
              && Shared(have, init[j]) != {} && mid.labels[p] == Shared(have, init[j]);
            assert companies[j] == init[j];
          }
        } else {
          assert p == (student, companies[n].name);
        }
      }
    }
  }

  /** Two edges out of the same node are the same edge only when their other ends agree. */
  lemma KeyInjective(student: string, a: string, b: string)
    ensures Key(student, a) == Key(student, b) <==> a == b
  {
    if Key(student, a) == Key(student, b) {
      assert a in Key(student, b);
      assert b in Key(student, a);
    }
  }

  /** Two edges are the same when they have the same two end points, in either order. */
  lemma KeyEqual(a: string, b: string, c: string, d: string)
    requires Key(a, b) == Key(c, d)
    ensures (a == c && b == d) || (a == d && b == c)
  {
    assert a in Key(c, d) && b in Key(c, d);
    assert c in Key(a, b) && d in Key(a, b);
  }

  /** A company sharing a skill with the row's student gets an edge and a label. */
  lemma {:induction false} RowWrites(e: Edges, student: string, have: set<string>, companies: seq<Company>, j: nat)
    requires j < |companies| && Shared(have, companies[j]) != {}
    ensures Key(student, companies[j].name) in Row(e, student, have, companies).weight
    ensures (student, companies[j].name) in Row(e, student, have, companies).labels
    decreases |companies|
  {
    var n := |companies| - 1;
    var init := companies[..n];
    var mid := Row(e, student, have, init);
    assert Row(e, student, have, companies) == Link(mid, student, have, companies[n]);
    if j < n {
      assert init[j] == companies[j];
      RowWrites(e, student, have, init, j);
    }
  }

  /** When no later company of the row has the same name, the edge and label hold that company's overlap. */
  lemma {:induction false} RowWritesLast(e: Edges, student: string, have: set<string>, companies: seq<Company>, j: nat)
    requires j < |companies| && Shared(have, companies[j]) != {}
    requires forall j' :: j < j' < |companies| ==> companies[j'].name != companies[j].name
    ensures Key(student, companies[j].name) in Row(e, student, have, companies).weight
      && Row(e, student, have, companies).weight[Key(student, companies[j].name)] == |Shared(have, companies[j])|
    ensures (student, companies[j].name) in Row(e, student, have, companies).labels
      && Row(e, student, have, companies).labels[(student, companies[j].name)] == Shared(have, companies[j])
    decreases |companies|
  {
    var n := |companies| - 1;
    var init := companies[..n];
    var mid := Row(e, student, have, init);
    assert Row(e, student, have, companies) == Link(mid, student, have, companies[n]);
    if j < n {
      assert init[j] == companies[j];
      RowWrites(e, student, have, init, j);
      RowWritesLast(e, student, have, init, j);
      KeyInjective(student, companies[j].name, companies[n].name);
    }
  }

  /** A row leaves alone every edge and label that no company sharing a skill writes. */
  lemma {:induction false} RowUntouched(e: Edges, student: string, have: set<string>, companies: seq<Company>,
                                        k: set<string>, p: (string, string))
    requires forall j :: 0 <= j < |companies| ==> Key(student, companies[j].name) != k || Shared(have, companies[j]) == {}
    requires forall j :: 0 <= j < |companies| ==> (student, companies[j].name) != p || Shared(have, companies[j]) == {}
    ensures var r := Row(e, student, have, companies);
      && (k in r.weight <==> k in e.weight) && (k in e.weight ==> r.weight[k] == e.weight[k])
      && (p in r.labels <==> p in e.labels) && (p in e.labels ==> r.labels[p] == e.labels[p])
    decreases |companies|
  {
    if companies != [] {
      var n := |companies| - 1;
      assert forall j :: 0 <= j < n ==> companies[..n][j] == companies[j];
      RowUntouched(e, student, have, companies[..n], k, p);
    }
  }

  /** Rows that differ only in the case of the companies' skills build the same edges. */
  lemma {:induction false} RowIgnoresCase(e: Edges, student: string, have: set<string>, a: seq<Company>, b: seq<Company>)
    requires |a| == |b|
    requires forall j :: 0 <= j < |a| ==> a[j].name == b[j].name && SameUpToCase(a[j].skills, b[j].skills)
    ensures Row(e, student, have, a) == Row(e, student, have, b)
    decreases |a|
  {
    if a != [] {
      var n := |a| - 1;
      RowIgnoresCase(e, student, have, a[..n], b[..n]);
      LowerSetIgnoresCase(a[n].skills, b[n].skills);
    }
  }

  // ---------------------------------------------------------------------------
  // The interactive page: every student against every company

  /** The weight under `k` is that of a listed student and a listed company that share a skill. */
  ghost predicate WeightFromPair(students: seq<Student>, companies: seq<Company>, k: set<string>, w: nat) {
    exists i, j :: 0 <= i < |students| && 0 <= j < |companies|
      && k == Key(students[i].name, companies[j].name)
      && Overlap(students[i], companies[j]) != {} && w == |Overlap(students[i], companies[j])|
  }

  /** The label under `p` is the overlap of the student and the company `p` names. */
  ghost predicate LabelFromPair(students: seq<Student>, companies: seq<Company>, p: (string, string), l: set<string>) {
    exists i, j :: 0 <= i < |students| && 0 <= j < |companies|
      && p == (students[i].name, companies[j].name)
      && Overlap(students[i], companies[j]) != {} && l == Overlap(students[i], companies[j])
  }

  /**
   * Every edge joins a student with a company whose lower-cased skills overlap,
   * and carries the size of that overlap as its weight; every label is stored
   * under (student, company) and is that overlap. No empty overlap is ever stored.
   */
  lemma {:induction false} EdgesComeFromOverlaps(students: seq<Student>, companies: seq<Company>)
    ensures forall k :: k in Rows(students, companies).weight ==>
      WeightFromPair(students, companies, k, Rows(students, companies).weight[k])
    ensures forall p :: p in Rows(students, companies).labels ==>
      LabelFromPair(students, companies, p, Rows(students, companies).labels[p])
    decreases |students|
  {
    if students != [] {
      var n := |students| - 1;
      var init := students[..n];
      var s := students[n];
      EdgesComeFromOverlaps(init, companies);
      var mid := Rows(init, companies);
      var r := Rows(students, companies);
      assert r == Row(mid, s.name, LowerSet(s.skills), companies);
      RowOrigin(mid, s.name, LowerSet(s.skills), companies);
      forall k | k in r.weight ensures WeightFromPair(students, companies, k, r.weight[k]) {
        if k in mid.weight && r.weight[k] == mid.weight[k] {
          WeightFromEarlierRow(students, companies, k, r.weight[k]);
        } else {
          WeightFromLastRow(students, companies, k, r.weight[k]);
        }
      }
      forall p | p in r.labels ensures LabelFromPair(students, companies, p, r.labels[p]) {
        if p in mid.labels && r.labels[p] == mid.labels[p] {
          LabelFromEarlierRow(students, companies, p, r.labels[p]);
        } else {
          LabelFromLastRow(students, companies, p, r.labels[p]);
        }
      }
    }
  }

  lemma WeightFromEarlierRow(students: seq<Student>, companies: seq<Company>, k: set<string>, w: nat)
    requires students != []
    requires WeightFromPair(students[..|students| - 1], companies, k, w)
    ensures WeightFromPair(students, companies, k, w)
  {
    var init := students[..|students| - 1];
    var i, j :| 0 <= i < |init| && 0 <= j < |companies|
      && k == Key(init[i].name, companies[j].name)
      && Overlap(init[i], companies[j]) != {} && w == |Overlap(init[i], companies[j])|;
    assert students[i] == init[i];
  }

  lemma WeightFromLastRow(students: seq<Student>, companies: seq<Company>, k: set<string>, w: nat)
    requires students != []
    requires var s := students[|students| - 1]; WeightFromRow(s.name, LowerSet(s.skills), companies, k, w)
    ensures WeightFromPair(students, companies, k, w)
  {
    var s := students[|students| - 1];
    var j :| 0 <= j < |companies| && k == Key(s.name, companies[j].name)
      && Shared(LowerSet(s.skills), companies[j]) != {} && w == |Shared(LowerSet(s.skills), companies[j])|;
    assert Overlap(students[|students| - 1], companies[j]) == Shared(LowerSet(s.skills), companies[j]);
  }

  lemma LabelFromEarlierRow(students: seq<Student>, companies: seq<Company>, p: (string, string), l: set<string>)
    requires students != []
    requires LabelFromPair(students[..|students| - 1], companies, p, l)
    ensures LabelFromPair(students, companies, p, l)
  {
    var init := students[..|students| - 1];
    var i, j :| 0 <= i < |init| && 0 <= j < |companies|
      && p == (init[i].name, companies[j].name)
      && Overlap(init[i], companies[j]) != {} && l == Overlap(init[i], companies[j]);
    assert students[i] == init[i];
  }

  lemma LabelFromLastRow(students: seq<Student>, companies: seq<Company>, p: (string, string), l: set<string>)
    requires students != []
    requires var s := students[|students| - 1]; LabelFromRow(s.name, LowerSet(s.skills), companies, p, l)
    ensures LabelFromPair(students, companies, p, l)
  {
    var s := students[|students| - 1];
    var j :| 0 <= j < |companies| && p == (s.name, companies[j].name)
      && Shared(LowerSet(s.skills), companies[j]) != {} && l == Shared(LowerSet(s.skills), companies[j]);
    assert Overlap(students[|students| - 1], companies[j]) == Shared(LowerSet(s.skills), companies[j]);
  }

  /** A student and a company that share a skill always end up joined by an edge and labelled. */
  lemma {:induction false} OverlapGivesEdge(students: seq<Student>, companies: seq<Company>, i: nat, j: nat)
    requires i < |students| && j < |companies|
    requires Overlap(students[i], companies[j]) != {}
    ensures Key(students[i].name, companies[j].name) in Rows(students, companies).weight
    ensures (students[i].name, companies[j].name) in Rows(students, companies).labels
    decreases |students|
  {
    var n := |students| - 1;
    var init := students[..n];
    var s := students[n];
    if i == n {
      RowWrites(Rows(init, companies), s.name, LowerSet(s.skills), companies, j);
    } else {
      assert init[i] == students[i];
      OverlapGivesEdge(init, companies, i, j);
      RowOrigin(Rows(init, companies), s.name, LowerSet(s.skills), companies);
    }
  }

  /**
   * With distinct names, the pair (student i, company j) has an edge exactly
   * when their lower-cased skills overlap, and then its weight is the size of
   * the overlap and its label is the overlap itself.
   */
  lemma {:induction false} EdgeIffOverlap(students: seq<Student>, companies: seq<Company>, i: nat, j: nat)
    requires DistinctNames(students, companies)
    requires i < |students| && j < |companies|
    ensures var e := Rows(students, companies);
      var key := Key(students[i].name, companies[j].name);
      && (key in e.weight <==> Overlap(students[i], companies[j]) != {})
      && ((students[i].name, companies[j].name) in e.labels <==> Overlap(students[i], companies[j]) != {})
      && (key in e.weight ==> e.weight[key] == |Overlap(students[i], companies[j])|)
      && (key in e.weight ==> e.labels[(students[i].name, companies[j].name)] == Overlap(students[i], companies[j]))
  {
    var e := Rows(students, companies);
    var a, b := students[i].name, companies[j].name;
    EdgesComeFromOverlaps(students, companies);
    if Key(a, b) in e.weight {
      var i', j' :| 0 <= i' < |students| && 0 <= j' < |companies|
        && Key(a, b) == Key(students[i'].name, companies[j'].name)
        && Overlap(students[i'], companies[j']) != {} && e.weight[Key(a, b)] == |Overlap(students[i'], companies[j'])|;
      SamePair(students, companies, i, j, i', j');
    }
    if (a, b) in e.labels {
      var i', j' :| 0 <= i' < |students| && 0 <= j' < |companies|
        && (a, b) == (students[i'].name, companies[j'].name)
        && Overlap(students[i'], companies[j']) != {} && e.labels[(a, b)] == Overlap(students[i'], companies[j']);
      SamePair(students, companies, i, j, i', j');
    }
    if Overlap(students[i], companies[j]) != {} {
      OverlapGivesEdge(students, companies, i, j);
    }
  }

  /** With distinct names, an edge key or label key determines the student and the company. */
  lemma SamePair(students: seq<Student>, companies: seq<Company>, i: nat, j: nat, i': nat, j': nat)
    requires DistinctNames(students, companies)
    requires i < |students| && j < |companies| && i' < |students| && j' < |companies|
    requires Key(students[i].name, companies[j].name) == Key(students[i'].name, companies[j'].name)
      || (students[i].name, companies[j].name) == (students[i'].name, companies[j'].name)
    ensures i == i' && j == j'
  {
    var a, b, a', b' := students[i].name, companies[j].name, students[i'].name, companies[j'].name;
    if Key(a, b) == Key(a', b') {
      assert a in Key(a', b') && b in Key(a', b');
    }
  }

  /**
   * Edges only join a student with a company: for every edge one end is a
   * student's name and the other a company's.
   */
  lemma EdgesAreBipartite(students: seq<Student>, companies: seq<Company>)
    ensures forall u, v :: Key(u, v) in Rows(students, companies).weight ==>
      (u in StudentNames(students) && v in CompanyNames(companies))
      || (u in CompanyNames(companies) && v in StudentNames(students))
  {
    EdgesComeFromOverlaps(students, companies);
    forall u, v | Key(u, v) in Rows(students, companies).weight
      ensures (u in StudentNames(students) && v in CompanyNames(companies))
        || (u in CompanyNames(companies) && v in StudentNames(students))
    {
      var i, j :| 0 <= i < |students| && 0 <= j < |companies|
        && Key(u, v) == Key(students[i].name, companies[j].name)
        && Overlap(students[i], companies[j]) != {}
        && Rows(students, companies).weight[Key(u, v)] == |Overlap(students[i], companies[j])|;
      assert students[i] in students && companies[j] in companies;
      assert u in Key(students[i].name, companies[j].name);
      assert v in Key(students[i].name, companies[j].name);
      assert students[i].name in Key(u, v);
    }
  }

  /**
   * Every edge weight is at least one and at most the size of either side's
   * skill list (or of its lower-cased skill set).
   */
  lemma WeightBounds(students: seq<Student>, companies: seq<Company>, k: set<string>)
    requires k in Rows(students, companies).weight
    ensures exists i, j :: (
      && 0 <= i < |students| && 0 <= j < |companies|
      && k == Key(students[i].name, companies[j].name)
      && 1 <= Rows(students, companies).weight[k]
      && Rows(students, companies).weight[k] <= |LowerSet(students[i].skills)| <= |students[i].skills|
      && Rows(students, companies).weight[k] <= |LowerSet(companies[j].skills)| <= |companies[j].skills|)
  {
    EdgesComeFromOverlaps(students, companies);
    var w := Rows(students, companies).weight[k];
    var i, j :| 0 <= i < |students| && 0 <= j < |companies|
      && k == Key(students[i].name, companies[j].name)
      && Overlap(students[i], companies[j]) != {} && w == |Overlap(students[i], companies[j])|;
    var a, b := LowerSet(students[i].skills), LowerSet(companies[j].skills);
    SubsetSize(a * b, a);
    SubsetSize(a * b, b);
    LowerSetSize(students[i].skills);
    LowerSetSize(companies[j].skills);
  }

  lemma {:induction false} SubsetSize(a: set<string>, b: set<string>)
    requires a <= b
    ensures |a| <= |b|
    decreases |b|
  {
    if a != {} {
      var x :| x in a;
      SubsetSize(a - {x}, b - {x});
    }
  }

  /** Two student lists that differ only in the case of their skills. */
  ghost predicate StudentsUpToCase(a: seq<Student>, b: seq<Student>) {
    |a| == |b| && forall i :: 0 <= i < |a| ==> a[i].name == b[i].name && SameUpToCase(a[i].skills, b[i].skills)
  }

  /** Two company lists that differ only in the case of their required skills. */
  ghost predicate CompaniesUpToCase(a: seq<Company>, b: seq<Company>) {
    |a| == |b| && forall j :: 0 <= j < |a| ==> a[j].name == b[j].name && SameUpToCase(a[j].skills, b[j].skills)
  }

  /** Changing the case of any skill leaves the edges, weights and labels of the interactive graph unchanged. */
  lemma {:induction false} RowsIgnoreCase(s: seq<Student>, s': seq<Student>, c: seq<Company>, c': seq<Company>)
    requires StudentsUpToCase(s, s') && CompaniesUpToCase(c, c')
    ensures Rows(s, c) == Rows(s', c')
    decreases |s|
  {
    if s != [] {
      var n := |s| - 1;
      RowsIgnoreCase(s[..n], s'[..n], c, c');
      LowerSetIgnoresCase(s[n].skills, s'[n].skills);
      RowIgnoresCase(Rows(s[..n], c), s[n].name, LowerSet(s[n].skills), c, c');
    }
  }

  // ---------------------------------------------------------------------------
  // The job page: the resume against every company

  /**
   * Every edge of the job graph joins the resume node with a company that
   * shares a resume token, weighted by the number of shared tokens, and its
   * label (stored under ("Student", company)) is that set of tokens.
   */
  lemma ResumeEdgesFromCompanies(resumeText: string, companies: seq<Company>)
    ensures var e := ResumeEdges(resumeText, companies);
      && (forall k :: k in e.weight ==> WeightFromRow(StudentNode, ResumeWords(resumeText), companies, k, e.weight[k]))
      && (forall p :: p in e.labels ==> LabelFromRow(StudentNode, ResumeWords(resumeText), companies, p, e.labels[p]))
  {
    RowOrigin(NoEdges, StudentNode, ResumeWords(resumeText), companies);
  }

  /**
   * Every skill in a job-page label is a resume token: non-empty, lower-case
   * and free of whitespace. So a required skill with a space in it, such as
   * "Machine Learning", is never reported as matched.
   */
  lemma ResumeLabelsAreTokens(resumeText: string, companies: seq<Company>)
    ensures var e := ResumeEdges(resumeText, companies);
      forall p, x :: p in e.labels && x in e.labels[p] ==>
        x in ResumeWords(resumeText) && x != [] && NoSpace(x) && IsLower(x)
  {
    ResumeEdgesFromCompanies(resumeText, companies);
    ResumeWordsShape(resumeText);
  }

  /** A required skill containing whitespace never appears in any job-page label. */
  lemma SpacedSkillNeverMatched(resumeText: string, companies: seq<Company>, skill: string, k: nat)
    requires k < |skill| && IsSpace(skill[k])
    ensures var e := ResumeEdges(resumeText, companies);
      forall p :: p in e.labels ==> Lower(skill) !in e.labels[p]
  {
    ResumeLabelsAreTokens(resumeText, companies);
    SpacedNeverAWord(resumeText, skill, k);
  }

  /**
   * With distinct company names, the resume is linked to company j exactly when
   * they share a token, with the number of shared tokens as weight and those
   * tokens as label.
   */
  lemma ResumeEdgeIffShared(resumeText: string, companies: seq<Company>, j: nat)
    requires j < |companies|
    requires UniqueCompanyNames(companies)
    ensures var e := ResumeEdges(resumeText, companies);
      var shared := Shared(ResumeWords(resumeText), companies[j]);
      && (Key(StudentNode, companies[j].name) in e.weight <==> shared != {})
      && ((StudentNode, companies[j].name) in e.labels <==> shared != {})
      && (shared != {} ==> (e.weight[Key(StudentNode, companies[j].name)] == |shared|
                            && e.labels[(StudentNode, companies[j].name)] == shared))
  {
    var words := ResumeWords(resumeText);
    var name := companies[j].name;
    if Shared(words, companies[j]) != {} {
      RowWrites(NoEdges, StudentNode, words, companies, j);
      RowWritesLast(NoEdges, StudentNode, words, companies, j);
    } else {
      forall j' | 0 <= j' < |companies|
        ensures Key(StudentNode, companies[j'].name) != Key(StudentNode, name) || Shared(words, companies[j']) == {}
      {
        KeyInjective(StudentNode, companies[j'].name, name);
      }
      RowUntouched(NoEdges, StudentNode, words, companies, Key(StudentNode, name), (StudentNode, name));
    }
  }

  /** The job graph depends on the resume and the skills only up to letter case. */
  lemma ResumeEdgesIgnoreCase(t: string, t': string, c: seq<Company>, c': seq<Company>)
    requires Lower(t) == Lower(t')
    requires CompaniesUpToCase(c, c')
    ensures ResumeEdges(t, c) == ResumeEdges(t', c')
  {
    RowIgnoresCase(NoEdges, StudentNode, ResumeWords(t), c, c');
  }
}
