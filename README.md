# ForsaFinder matching core in Dafny

ForsaFinder is a Streamlit app that matches internship openings to
candidates. It has two pages with logic in them, both in `web.py`:

- **Interactive Matching.** Every student and every company becomes a node of
  a bipartite graph. A student and a company are joined by an edge when their
  lower-cased skill sets intersect. The edge weight is the size of the
  intersection, and a label dictionary records the shared skills. Given a
  maximum-weight matching of that graph, the page looks up the partner of a
  selected student or company and shows the skills on their edge.
- **Job Recommendation.** An uploaded resume becomes a single node `"Student"`
  whose skills are the resume's lower-cased whitespace-separated tokens. It is
  linked to every company with which it shares a token. The page walks the
  matching and, for the pair containing `"Student"`, shows the company's role
  and the shared skills, or a warning when there is no such pair.

The model has these modules:

| file | module | what it holds |
|---|---|---|
| `wrappers.dfy` | `Wrappers` | `Option` |
| `text.dfy` | `Text` | `str.lower()` (ASCII), `str.split()` (Python's whitespace set), the resume token set, how whitespace separates tokens, and a joining inverse of `Split` |
| `catalog.dfy` | `Catalog` | `Company`, `Student`, lower-cased skill sets, overlaps, and the distinct-names condition |
| `edges.dfy` | `SkillEdges` | The edge weights and labels each builder loop leaves behind, as a left fold over the loop's pairs, with the lemmas about them |
| `graph.dfy` | `Graph` | `SkillGraph`, the part of a networkx `Graph` the pages use (nodes, `bipartite` attributes, edge weights), and the two builder loops as methods that fill it in place |
| `matching.dfy` | `Matching` | Matchings, the partner of a node, and the interactive page's lookup loop |
| `pages.dfy` | `Pages` | Both pages' label fetches, the job page's role lookup and recommendation loop, and what each page reports for a valid matching |
| `samples.dfy` | `Samples` | The sample catalogues, with concrete facts about them |

The builders are specified by functions on values. `Link` is one loop-body
step, `Row` is the inner loop over the companies, `Rows` is the interactive
page's double loop, and `ResumeEdges` is the job page's loop. The methods
`BuildInteractiveGraph` and `BuildResumeGraph` are proved to leave exactly
those weights and labels behind. The lemmas then state what those weights
and labels are.

The code's guarantees are weaker than the design description in some places:

- Nothing rejects duplicate names or a name used on both sides. A later write
  to the same edge or label key replaces the earlier one. The model keeps that
  last-writer-wins behaviour.
- Where the code's behaviour is unconditional (an edge comes from some
  overlapping pair, the graph is bipartite, weights are bounded), the lemmas
  state it with no precondition. The exact "edge iff overlap, weight = overlap
  size, label = overlap" facts assume `DistinctNames`, and the sample
  catalogues are proved to meet it.
- A label is the joined set of shared skills in Python's set iteration order,
  not in sorted order. The model keeps the label as a set.

## Model

| member | source | states |
|---|---|---|
| Text.LowerChar | web.py:110 | A lower-cased character is never an ASCII capital. Non-capitals are unchanged, and whitespace is preserved. |
| Text.Lower | web.py:101 | `lower()` keeps the length and lower-cases each character. Its result has no capitals, and an already lower-case string is unchanged. |
| Text.WordEnd | web.py:101 | The end of the first word is the first whitespace character, or the end of the string. |
| Text.Split | web.py:101 | `split()` yields only non-empty words with no whitespace, and the words of a lower-case string are lower-case. |
| Text.SplitAtSpace | web.py:101 | `split()` breaks at every whitespace character: the words of `a`, one whitespace character and `b` are the words of `a` followed by those of `b`, whatever leading, trailing or repeated whitespace either has. |
| Text.SplitWord | web.py:101 | A non-empty run with no whitespace splits into itself alone. |
| Text.SplitBlank | web.py:101 | Text made only of whitespace has no words. |
| Text.LowerAppend | web.py:101 | `lower()` distributes over concatenation. |
| Text.ResumeWords | web.py:101 | `set(resume_text.lower().split())`: the set of the words of the lower-cased text. Its properties are the lemmas in the rows that follow. |
| Text.ResumeWordsAtSpace | web.py:101 | The tokens of `a`, a whitespace character and `b` are the tokens of `a` together with those of `b`, so every maximal non-whitespace run is tokenised on its own. |
| Text.ResumeWordsOfWord | web.py:101 | A non-empty run with no whitespace is exactly one token, its lower-cased form. |
| Text.ResumeWordsOfBlank | web.py:101 | A resume of whitespace only has no tokens. |
| Text.ResumeWordsShape | web.py:101 | Every resume token is non-empty, lower-case and whitespace-free. |
| Text.SpacedNeverAWord | web.py:101 | A string containing whitespace is never a resume token. |
| Text.SplitJoin | web.py:101 | `split()` undoes joining non-empty whitespace-free words with single spaces. |
| Text.ResumeWordsOfJoin | web.py:101 | The tokens of such a joined lower-case text are exactly the joined words. |
| Catalog.LowerSet | web.py:161-162 | `set(skill.lower() for skill in skills)`. Its properties are LowerSetSize and LowerSetIgnoresCase. |
| Catalog.Shared | web.py:110-111 | The lower-cased required skills of a company that also lie in a given set (`resume_words & required_skills`). |
| Catalog.Overlap | web.py:161-162 | The skills a student and a company share after lower-casing (`matching` on web.py:162). |
| Catalog.LowerSetSize | web.py:161-162 | The lower-cased skill set has at most as many elements as the skill list. |
| Catalog.LowerSetIgnoresCase | web.py:161-162 | Skill lists that differ only in letter case have the same lower-cased skill set. |
| SkillEdges.Link | web.py:163-165 | One pass of the inner loop body: when the overlap is non-empty, the edge weight is set to its size and the label to the overlap. Otherwise nothing changes. It specifies the methods in Graph. |
| SkillEdges.Row | web.py:160-165 | The inner loop: `Link` applied to each company in order. Its properties are RowOrigin, RowWrites, RowWritesLast, RowUntouched and RowIgnoresCase. |
| SkillEdges.Rows | web.py:159-165 | The interactive page's double loop: `Row` for each student in order, starting from no edges. BuildInteractiveGraph is proved equal to it, and the lemmas from EdgesComeFromOverlaps to RowsIgnoreCase state its properties. |
| SkillEdges.ResumeEdges | web.py:108-116 | The job page's loop: `Row` for the node "Student" with the resume tokens as its skills. BuildResumeGraph is proved equal to it, and the ResumeEdges lemmas state its properties. |
| SkillEdges.RowOrigin | web.py:160-165 | After the inner loop, each weight and label is either one it started with or was written for a company sharing a skill, with that overlap's size or that overlap. |
| SkillEdges.KeyInjective | web.py:164 | Edges from one student to two companies are the same edge only when the company names are equal. |
| SkillEdges.KeyEqual | web.py:164 | Two undirected edges are equal only when their end points are equal, in the same or the opposite order. |
| SkillEdges.RowWrites | web.py:163-165 | Every company sharing a skill with the student gets an edge and a label after the inner loop. |
| SkillEdges.RowWritesLast | web.py:163-165 | If no later company has the same name, that edge's weight is the overlap size and the label is the overlap. |
| SkillEdges.RowUntouched | web.py:163-165 | The inner loop leaves every edge and label unchanged that no overlapping company writes. |
| SkillEdges.RowIgnoresCase | web.py:161-162 | Changing the case of company skills leaves the inner loop's result unchanged. |
| SkillEdges.EdgesComeFromOverlaps | web.py:159-165 | Every edge of the interactive graph joins some student and company with a non-empty overlap, and has that overlap's size as its weight and the overlap as its label. |
| SkillEdges.OverlapGivesEdge | web.py:159-165 | Every student–company pair with a non-empty overlap has an edge and a label. |
| SkillEdges.EdgeIffOverlap | web.py:159-165 | With distinct names, there is an edge, and a label, exactly when the overlap is non-empty. Its weight is the overlap size and its label is the overlap. |
| SkillEdges.SamePair | web.py:164 | With distinct names, two student–company pairs with the same edge are the same pair. |
| SkillEdges.EdgesAreBipartite | web.py:155-165 | Every edge joins a student name to a company name. |
| SkillEdges.WeightBounds | web.py:161-164 | Every edge weight is at least 1 and at most the size of either side's lower-cased skill set, which is at most its skill list's length. |
| SkillEdges.RowsIgnoreCase | web.py:161-162 | Changing the case of any student's or company's skills leaves every edge and label unchanged. |
| SkillEdges.ResumeEdgesFromCompanies | web.py:108-116 | Every job-page edge and label comes from a company sharing a resume token, with that overlap's size or that overlap. |
| SkillEdges.ResumeLabelsAreTokens | web.py:101-116 | Every skill in a job-page label is a resume token: non-empty, lower-case and whitespace-free. |
| SkillEdges.SpacedSkillNeverMatched | web.py:110-111 | A required skill containing whitespace, such as "Machine Learning", never appears in a job-page label. |
| SkillEdges.ResumeEdgeIffShared | web.py:108-116 | With distinct company names, a company has an edge and a label exactly when it shares a token. Its weight is the shared set's size and its label is that set. |
| SkillEdges.ResumeEdgesIgnoreCase | web.py:101-111 | Resumes equal after lower-casing, and companies whose skills differ only in case, give the same edges and labels. |
| Graph.SkillGraph.constructor | web.py:152 | A new graph has no nodes, attributes or edges. |
| Graph.SkillGraph.AddNode | web.py:109 | Adds the node, sets its `bipartite` attribute, and leaves the edges alone. |
| Graph.SkillGraph.AddNodesFrom | web.py:155-156 | Adds all the nodes with one `bipartite` attribute, and leaves the edges alone. |
| Graph.SkillGraph.AddEdge | web.py:164 | Adds both end points as nodes and sets, or replaces, the weight of the undirected edge. |
| Graph.Sides | web.py:155-156 | The `bipartite` attributes after the student nodes and then the company nodes are added: 1 for a company name (the later call wins) and 0 for any other student name. |
| Graph.LinkStudent | web.py:160-165 | The inner loop updates the graph in place to the weights and labels `Row` specifies. It leaves the nodes and attributes unchanged. |
| Graph.BuildInteractiveGraph | web.py:152-165 | The graph's nodes are all student and company names with their `bipartite` sides. Its weights and its label dictionary are exactly `Rows`. |
| Graph.BuildResumeGraph | web.py:101-116 | The graph's nodes are "Student" and every company name with their sides. Its weights and labels are exactly `ResumeEdges` of the resume text. |
| Matching.Other | web.py:181 | The other node of a pair forms the same undirected edge with the selected node. |
| Matching.IsMatching | web.py:168 | What the matching returned by networkx guarantees and the lemmas assume: every pair is an edge between distinct nodes, and no node lies in two pairs. |
| Matching.PartnerOf | web.py:179-182 | The other node of the first pair containing the node, if any. PartnerIsFirst characterises it and FindMatch computes it. |
| Matching.PartnerIsFirst | web.py:179-182 | There is no partner exactly when no pair contains the node. Otherwise the partner is the other node of the first pair that does. |
| Matching.FindMatch | web.py:178-182 | The lookup loop returns `PartnerOf`: nothing exactly when no pair contains the selected node, else its partner in the first such pair. |
| Matching.OnePairPerNode | web.py:168 | In a valid matching at most one pair contains a given node. |
| Matching.PartnerIsNeighbour | web.py:178-182 | The partner found is a different node, joined to the selected one by an edge. |
| Matching.PartnerSymmetric | web.py:178-182 | In a valid matching, if y is x's partner then x is y's partner. |
| Pages.NoReversedLabel | web.py:165 | With distinct names, no label is stored under (company, student). |
| Pages.InteractiveLabel | web.py:186 | `edge_labels.get((selected, match)) or edge_labels.get((match, selected))`: the first fetch if it finds a label with non-empty text, else the second fetch. LabelEitherWay and InteractiveMatchReported state what it yields. |
| Pages.ShowsMatch | web.py:184 | `if match:`, true for a partner with a non-empty name. ShowsMatchIffMatched states when it holds. |
| Pages.LabelEitherWay | web.py:186 | With distinct names and a non-empty label text, the fetch yields the shared skills whether the student or the company is selected. |
| Pages.InteractiveMatchReported | web.py:178-186 | A matched partner and the selected node are a student and a company sharing skills. The edge weight is the overlap size, and the label shown is that overlap either way round unless its text is empty. |
| Pages.PartnerPair | web.py:179-181 | A partner found in a valid matching is the other end of an edge between some student and company that share skills. |
| Pages.ShowsMatchIffMatched | web.py:184-188 | When no node name is empty, the page announces a match exactly when some pair contains the selected node. |
| Pages.FirstRole | web.py:126 | `next(...)` finds nothing exactly when no company has the name. Otherwise it is the role of the first company with that name. |
| Pages.JobLabel | web.py:127 | `edge_labels.get((student_node, company), edge_labels.get((company, student_node), ""))`, with the empty set for "". JobLabelOfCompany states what it yields. |
| Pages.Recommend | web.py:121-131 | What the job page's loop shows: a recommendation for each pair containing "Student", in order, stopping at a partner with no company. RecommendJobs is proved equal to it, and JobPageReportsPartner states what it is for a valid matching. |
| Pages.RecommendJobs | web.py:121-131 | The loop shows one recommendation per pair containing "Student", in order, and stops where a partner names no company. `match_found` holds exactly when some pair contains "Student". |
| Pages.JobMatchingHasOnePair | web.py:118-123 | In a valid matching of the job graph, every pair contains "Student", so there is at most one pair. |
| Pages.JobPageReportsPartner | web.py:121-131 | For a valid matching, the page never fails and shows at most one recommendation. It shows none exactly when "Student" has no partner. A recommendation names the partner, the first role of that name, and the tokens shared with that company. |
| Pages.JobPairCompany | web.py:122-126 | The pair of a valid job matching joins "Student" to a company sharing a token. |
| Pages.JobLabelOfCompany | web.py:127 | For a company sharing a token, the job page's label fetch finds the label stored under ("Student", company). With distinct names, that label is exactly the shared tokens. |
| Samples.SampleNamesDistinct | web.py:9-34 | The sample student and company names are distinct and disjoint. |
| Samples.AliceGoogle | web.py:159-165 | In the sample graph, Alice and Google are joined by an edge of weight 2 labelled {"python", "machine learning"}. |
| Samples.BobGoogle | web.py:159-165 | In the sample graph, Bob and Google have no edge and no label. |
| Samples.MachineLearningWords | web.py:101 | The resume "machine learning" has the two tokens "machine" and "learning". |
| Samples.MachineLearningResume | web.py:108-116 | With the full ten-company sample catalogue, that resume gets no edge and no label for Google, although Google requires "Machine Learning". |
| Samples.ResumeWithLayout | web.py:101 | The resume " Python\n\tSQL " has exactly the tokens "python" and "sql": line breaks, tabs and leading or trailing spaces separate tokens like a single space. |
| Samples.EmptySkillLabelLost | web.py:186 | When the only shared skill is "", the pair has an edge. With the student selected, the label fetch yields nothing. With the company selected, it yields the label {""}, whose text is empty. |

## Left out

- The maximum-weight matching (`max_weight_matching`, web.py:118 and web.py:168) is a networkx call. The model takes the matching as an input sequence of pairs, in the order the page's loops visit them. Its validity (every pair is an edge with distinct ends, and no node is in two pairs) is a precondition of the lemmas. Its optimality is not modelled.
- PDF and DOCX text extraction (web.py:37-46) is file I/O through third-party libraries. The resume text is a parameter.
- The Streamlit UI (menus, upload, select boxes and messages) is left out. The values the pages print are modelled as results: the partner and label of the interactive page, and the `Recommendation`s, warning flag and failing partner of the job page.
- Graph layout and matplotlib drawing (web.py:133-145, web.py:190-204) are display only.
- The order of skills inside a label text: `", ".join` over a Python set has an unspecified order. A label is modelled as the set of skills. A label text is empty exactly when the set is {} or {""}.
- Text.Lower: models ASCII lower-casing only, not Python's full Unicode case mapping.
- Pages.RecommendJobs: the `StopIteration` that `next(...)` raises for a partner with no company is modelled as stopping with that partner in `failedOn`. Beyond that, the exception's propagation through Streamlit is not modelled.
- Graph.SkillGraph: only nodes, the `bipartite` attribute and edge weights are modelled. Labels live in the separate `edge_labels` map, as in the source. Other networkx graph features are not used by the pages.
- SkillEdges.EdgeIffOverlap: the exact weight and label hold only under `DistinctNames`. Without it, a later pair with the same names overwrites an earlier one, and only `RowOrigin`, `EdgesComeFromOverlaps` and `OverlapGivesEdge` apply.
- SkillEdges.ResumeEdgeIffShared: the exact weight and label hold only when company names are unique, for the same reason.
- Pages.LabelEitherWay: needs a non-empty label text. With {""} as the only shared skill, Python's `or` falls through and the page shows nothing (Samples.EmptySkillLabelLost).
- The Home page's company listing (web.py:63-71) is display only.
