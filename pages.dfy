/**
 * What the two pages report once the matching is known: the interactive page
 * shows the selected node's partner and the skills on their edge; the job page
 * shows, for every matched pair containing the resume node, the company's role
 * and the shared skills, or a warning when there is none.
 */
module Pages {
  import opened Wrappers
  import opened Text
  import opened Catalog
  import opened SkillEdges
  import opened Matching

  type Labels = map<(string, string), set<string>>

  /** `labels.get(p)` */
  function Get(labels: Labels, p: (string, string)): Option<set<string>> {
    if p in labels then Some(labels[p]) else None
  }

  /**
   * Whether the label text `", ".join(l)` is a non-empty string, which is what
   * Python's `or` tests: the join is empty exactly for {} and {""}.
   */
  predicate Truthy(l: set<string>) {
    !(l <= {""})
  }

  // ---------------------------------------------------------------------------
  // The interactive page

  /** `edge_labels.get((selected, match)) or edge_labels.get((match, selected))` */
  function InteractiveLabel(labels: Labels, selected: string, partner: string): Option<set<string>> {
    var first := Get(labels, (selected, partner));
    if first.Some? && Truthy(first.value) then first else Get(labels, (partner, selected))
  }

  /** `if match:` — a partner is announced only when there is one and its name is not empty. */
  predicate ShowsMatch(partner: Option<string>) {
    partner.Some? && partner.value != ""
  }

  /** In the interactive graph, labels are stored under (student, company) only, never the other way round. */
  lemma NoReversedLabel(students: seq<Student>, companies: seq<Company>, i: nat, j: nat)
    requires DistinctNames(students, companies)
    requires i < |students| && j < |companies|
    ensures (companies[j].name, students[i].name) !in Rows(students, companies).labels
  {
    var e := Rows(students, companies);
    var p := (companies[j].name, students[i].name);
    EdgesComeFromOverlaps(students, companies);
  }

  /**
   * The label fetch finds the skills a student and a company share whichever
   * of the two is the selected one, unless the label's text is empty.
   */
  lemma LabelEitherWay(students: seq<Student>, companies: seq<Company>, i: nat, j: nat)
    requires DistinctNames(students, companies)
    requires i < |students| && j < |companies|
    requires Truthy(Overlap(students[i], companies[j]))
    ensures var labels := Rows(students, companies).labels;
      var s, c := students[i].name, companies[j].name;
      && InteractiveLabel(labels, s, c) == Some(Overlap(students[i], companies[j]))
      && InteractiveLabel(labels, c, s) == Some(Overlap(students[i], companies[j]))
  {
    EdgeIffOverlap(students, companies, i, j);
    NoReversedLabel(students, companies, i, j);
  }

  /**
   * For a selected student or company with a partner in a matching of the
   * interactive graph, the two are a student and a company sharing skills, the
   * edge's weight is the number of shared skills, and the label found is that
   * set of skills whichever of the two is selected (unless the label's text is
   * empty, that is the only shared skill is "").
   */
  lemma InteractiveMatchReported(students: seq<Student>, companies: seq<Company>, m: seq<Pair>, x: string)
    requires DistinctNames(students, companies)
    requires IsMatching(m, Rows(students, companies).weight)
    requires PartnerOf(m, x).Some?
    ensures var e := Rows(students, companies);
      var p := PartnerOf(m, x).value;
      exists i, j :: (
        && 0 <= i < |students| && 0 <= j < |companies|
        && Key(x, p) == Key(students[i].name, companies[j].name)
        && Overlap(students[i], companies[j]) != {}
        && Key(x, p) in e.weight && e.weight[Key(x, p)] == |Overlap(students[i], companies[j])|
        && (Truthy(Overlap(students[i], companies[j])) ==>
              && InteractiveLabel(e.labels, x, p) == Some(Overlap(students[i], companies[j]))
              && InteractiveLabel(e.labels, p, x) == Some(Overlap(students[i], companies[j]))))
  {
    var e := Rows(students, companies);
    var p := PartnerOf(m, x).value;
    var i, j := PartnerPair(students, companies, m, x);
    var s, c := students[i].name, companies[j].name;
    KeyEqual(x, p, s, c);
    if Truthy(Overlap(students[i], companies[j])) {
      LabelEitherWay(students, companies, i, j);
      assert InteractiveLabel(e.labels, x, p) == Some(Overlap(students[i], companies[j]));
      assert InteractiveLabel(e.labels, p, x) == Some(Overlap(students[i], companies[j]));
    }
  }

  /** The selected node and its partner are a student and a company that share a skill. */
  lemma PartnerPair(students: seq<Student>, companies: seq<Company>, m: seq<Pair>, x: string) returns (i: nat, j: nat)
    requires IsMatching(m, Rows(students, companies).weight)
    requires PartnerOf(m, x).Some?
    ensures i < |students| && j < |companies|
    ensures var p := PartnerOf(m, x).value;
      && p != x
      && Key(x, p) == Key(students[i].name, companies[j].name)
      && Overlap(students[i], companies[j]) != {}
      && Key(x, p) in Rows(students, companies).weight
      && Rows(students, companies).weight[Key(x, p)] == |Overlap(students[i], companies[j])|
  {
    var e := Rows(students, companies);
    var p := PartnerOf(m, x).value;
    PartnerIsNeighbour(m, e.weight, x);
    EdgesComeFromOverlaps(students, companies);
    i, j :| 0 <= i < |students| && 0 <= j < |companies|
      && Key(x, p) == Key(students[i].name, companies[j].name)
      && Overlap(students[i], companies[j]) != {} && e.weight[Key(x, p)] == |Overlap(students[i], companies[j])|;
  }

  /**
   * In a matching of the interactive graph whose node names are all non-empty,
   * the page announces a match exactly when some pair contains the selected node.
   */
  lemma ShowsMatchIffMatched(students: seq<Student>, companies: seq<Company>, m: seq<Pair>, x: string)
    requires IsMatching(m, Rows(students, companies).weight)
    requires forall i :: 0 <= i < |students| ==> students[i].name != ""
    requires forall j :: 0 <= j < |companies| ==> companies[j].name != ""
    ensures ShowsMatch(PartnerOf(m, x)) <==> exists i :: 0 <= i < |m| && Contains(m[i], x)
  {
    PartnerIsFirst(m, x);
    if PartnerOf(m, x).Some? {
      var i, j := PartnerPair(students, companies, m, x);
    }
  }

  // ---------------------------------------------------------------------------
  // The job page

  /** `edge_labels.get((student_node, company), edge_labels.get((company, student_node), ""))`, with "" as {} */
  function JobLabel(labels: Labels, company: string): set<string> {
    if (StudentNode, company) in labels then labels[(StudentNode, company)]
    else if (company, StudentNode) in labels then labels[(company, StudentNode)]
    else {}
  }

  /** `next(c["role"] for c in companies if c["name"] == name)`, with None where `next` raises. */
  function FirstRole(companies: seq<Company>, name: string): (r: Option<string>)
    ensures r.None? <==> forall j :: 0 <= j < |companies| ==> companies[j].name != name
    ensures r.Some? ==> exists j :: (0 <= j < |companies| && companies[j].name == name
      && companies[j].role == r.value && forall j' :: 0 <= j' < j ==> companies[j'].name != name)
  {
    if companies == [] then None
    else if companies[0].name == name then Some(companies[0].role)
    else
      var r := FirstRole(companies[1..], name);
      assert forall j :: 1 <= j < |companies| ==> companies[j] == companies[1..][j - 1];
      r
  }

  /** One "role at company" line of the job page, with the skills shown under it. */
  datatype Recommendation = Recommendation(role: string, company: string, skills: set<string>)

  /**
   * What the job page's loop produces: the recommendations, in the order of
   * the pairs, and the partner name for which no company was found, where the
   * page stops with an error.
   */
  datatype JobReport = JobReport(shown: seq<Recommendation>, failedOn: Option<string>)

  function Recommend(m: seq<Pair>, companies: seq<Company>, labels: Labels): JobReport {
    if m == [] then JobReport([], None)
    else if !Contains(m[0], StudentNode) then Recommend(m[1..], companies, labels)
    else
      var company := Other(m[0], StudentNode);
      match FirstRole(companies, company)
      case None => JobReport([], Some(company))
      case Some(role) =>
        var rest := Recommend(m[1..], companies, labels);
        JobReport([Recommendation(role, company, JobLabel(labels, company))] + rest.shown, rest.failedOn)
  }

  /**
   * The job page's loop: every pair containing the resume node yields a
   * recommendation (there is no early exit), and `matchFound` records whether
   * any pair did; when it is false the page shows its warning.
   */
  method RecommendJobs(matching: seq<Pair>, companies: seq<Company>, labels: Labels)
    returns (shown: seq<Recommendation>, failedOn: Option<string>, matchFound: bool)
    ensures JobReport(shown, failedOn) == Recommend(matching, companies, labels)
    ensures matchFound <==> exists i :: 0 <= i < |matching| && Contains(matching[i], StudentNode)
  {
    shown, failedOn, matchFound := [], None, false;
    var i := 0;
    while i < |matching|
      invariant 0 <= i <= |matching|
      invariant Recommend(matching, companies, labels)
        == JobReport(shown + Recommend(matching[i..], companies, labels).shown,
                     Recommend(matching[i..], companies, labels).failedOn)
      invariant matchFound <==> exists k :: 0 <= k < i && Contains(matching[k], StudentNode)
    {
      assert matching[i..][1..] == matching[i + 1..];
      var (u, v) := matching[i];
      if StudentNode == u || StudentNode == v {
        var company := if u == StudentNode then v else u;
        matchFound := true;
        var role := FirstRole(companies, company);
        if role.None? {
          failedOn := Some(company);
          return;
        }
        shown := shown + [Recommendation(role.value, company, JobLabel(labels, company))];
      }
      i := i + 1;
    }
  }

  /** Every pair of a matching of the job graph contains the resume node, so there is at most one. */
  lemma JobMatchingHasOnePair(resumeText: string, companies: seq<Company>, m: seq<Pair>)
    requires IsMatching(m, ResumeEdges(resumeText, companies).weight)
    ensures |m| <= 1
    ensures forall i :: 0 <= i < |m| ==> Contains(m[i], StudentNode)
  {
    var e := ResumeEdges(resumeText, companies);
    ResumeEdgesFromCompanies(resumeText, companies);
    forall i | 0 <= i < |m| ensures Contains(m[i], StudentNode) {
      var k := Key(m[i].0, m[i].1);
      var j :| 0 <= j < |companies| && k == Key(StudentNode, companies[j].name)
        && Shared(ResumeWords(resumeText), companies[j]) != {}
        && e.weight[k] == |Shared(ResumeWords(resumeText), companies[j])|;
      assert StudentNode in k;
    }
    if |m| > 1 {
      OnePairPerNode(m, e.weight, StudentNode, 0, 1);
    }
  }

  /**
   * Given a matching of the job graph, the page stops on no error and shows at
   * most one recommendation; it shows none exactly when no pair contains the
   * resume node; and a recommendation names the resume node's partner, the role
   * of the first company with that name, and as skills the resume tokens shared
   * with a company of that name (the same company when names are unique).
   */
  lemma JobPageReportsPartner(resumeText: string, companies: seq<Company>, m: seq<Pair>)
    requires IsMatching(m, ResumeEdges(resumeText, companies).weight)
    ensures var e := ResumeEdges(resumeText, companies);
      var out := Recommend(m, companies, e.labels);
      && out.failedOn == None
      && |out.shown| <= 1
      && (out.shown == [] <==> PartnerOf(m, StudentNode).None?)
      && (out.shown != [] ==>
            && PartnerOf(m, StudentNode) == Some(out.shown[0].company)
            && FirstRole(companies, out.shown[0].company) == Some(out.shown[0].role)
            && LabelFromRow(StudentNode, ResumeWords(resumeText), companies,
                            (StudentNode, out.shown[0].company), out.shown[0].skills))
      && (out.shown != [] && UniqueCompanyNames(companies) ==>
            exists j :: (0 <= j < |companies| && companies[j].name == out.shown[0].company
              && out.shown[0].role == companies[j].role
              && out.shown[0].skills == Shared(ResumeWords(resumeText), companies[j])))
  {
    var e := ResumeEdges(resumeText, companies);
    JobMatchingHasOnePair(resumeText, companies, m);
    if |m| == 1 {
      var j := JobPairCompany(resumeText, companies, m, 0);
      var company := Other(m[0], StudentNode);
      JobLabelOfCompany(resumeText, companies, j);
      var role := FirstRole(companies, company);
      assert m[1..] == [];
      assert Recommend(m, companies, e.labels)
        == JobReport([Recommendation(role.value, company, JobLabel(e.labels, company))], None);
    }
  }

  /** The pair of a matching of the job graph joins the resume node with a company sharing a token. */
  lemma JobPairCompany(resumeText: string, companies: seq<Company>, m: seq<Pair>, i: nat) returns (j: nat)
    requires IsMatching(m, ResumeEdges(resumeText, companies).weight)
    requires i < |m|
    ensures j < |companies|
    ensures Contains(m[i], StudentNode) && Other(m[i], StudentNode) == companies[j].name
    ensures Shared(ResumeWords(resumeText), companies[j]) != {}
  {
    var e := ResumeEdges(resumeText, companies);
    var k := Key(m[i].0, m[i].1);
    ResumeEdgesFromCompanies(resumeText, companies);
    j :| 0 <= j < |companies| && k == Key(StudentNode, companies[j].name)
      && Shared(ResumeWords(resumeText), companies[j]) != {}
      && e.weight[k] == |Shared(ResumeWords(resumeText), companies[j])|;
    KeyEqual(m[i].0, m[i].1, StudentNode, companies[j].name);
  }

  /**
   * The job page's label fetch for a company sharing a token finds the label
   * stored under ("Student", company): tokens the resume shares with a company
   * of that name, and with this very company when names are unique.
   */
  lemma JobLabelOfCompany(resumeText: string, companies: seq<Company>, j: nat)
    requires j < |companies| && Shared(ResumeWords(resumeText), companies[j]) != {}
    ensures var labels := ResumeEdges(resumeText, companies).labels;
      && (StudentNode, companies[j].name) in labels
      && JobLabel(labels, companies[j].name) == labels[(StudentNode, companies[j].name)]
      && LabelFromRow(StudentNode, ResumeWords(resumeText), companies,
                      (StudentNode, companies[j].name), JobLabel(labels, companies[j].name))
      && (UniqueCompanyNames(companies) ==>
            JobLabel(labels, companies[j].name) == Shared(ResumeWords(resumeText), companies[j]))
  {
    RowWrites(NoEdges, StudentNode, ResumeWords(resumeText), companies, j);
    ResumeEdgesFromCompanies(resumeText, companies);
    if UniqueCompanyNames(companies) {
      ResumeEdgeIffShared(resumeText, companies, j);
    }
  }
}
