/**
 * The two entity groups the pages match: company internship openings (a name,
 * a role and the required skills) and student applicants (a name and their
 * skills). Skills are compared after lower-casing each one.
 */
module Catalog {
  import opened Text

  datatype Company = Company(name: string, role: string, skills: seq<string>)

  /** One entry of the `students` dictionary: its key and its skill list. */
  datatype Student = Student(name: string, skills: seq<string>)

  /** `set(skill.lower() for skill in skills)` */
  function LowerSet(skills: seq<string>): set<string> {
    set s | s in skills :: Lower(s)
  }

  /** The lower-cased required skills of `c` that also lie in `have`: `have & required_skills`. */
  function Shared(have: set<string>, c: Company): set<string> {
    have * LowerSet(c.skills)
  }

  /** The skills a student and a company have in common, ignoring case. */
  function Overlap(s: Student, c: Company): set<string> {
    Shared(LowerSet(s.skills), c)
  }

  function StudentNames(students: seq<Student>): set<string> {
    set s | s in students :: s.name
  }

  function CompanyNames(companies: seq<Company>): set<string> {
    set c | c in companies :: c.name
  }

  /**
   * Student names are distinct (they are the keys of a dictionary), company
   * names are distinct, and no name is both a student's and a company's.
   */
  ghost predicate DistinctNames(students: seq<Student>, companies: seq<Company>) {
    && (forall i, j :: 0 <= i < j < |students| ==> students[i].name != students[j].name)
    && UniqueCompanyNames(companies)
    && (forall i, j :: 0 <= i < |students| && 0 <= j < |companies| ==> students[i].name != companies[j].name)
  }

  /** No two companies share a name. */
  ghost predicate UniqueCompanyNames(companies: seq<Company>) {
    forall i, j :: 0 <= i < j < |companies| ==> companies[i].name != companies[j].name
  }

  /** The lower-cased skill set has no more elements than the skill list. */
  lemma {:induction false} LowerSetSize(skills: seq<string>)
    ensures |LowerSet(skills)| <= |skills|
  {
    if skills != [] {
      var init := skills[..|skills| - 1];
      assert skills == init + [skills[|skills| - 1]];
      assert LowerSet(skills) == LowerSet(init) + {Lower(skills[|skills| - 1])};
      LowerSetSize(init);
    }
  }

  /** Two skill lists that differ only in the case of their letters. */
  ghost predicate SameUpToCase(a: seq<string>, b: seq<string>) {
    |a| == |b| && forall k :: 0 <= k < |a| ==> Lower(a[k]) == Lower(b[k])
  }

  /** Changing the case of any skill leaves the lower-cased skill set unchanged. */
  lemma LowerSetIgnoresCase(a: seq<string>, b: seq<string>)
    requires SameUpToCase(a, b)
    ensures LowerSet(a) == LowerSet(b)
  {
    forall x | x in LowerSet(a) ensures x in LowerSet(b) {
      var k :| 0 <= k < |a| && Lower(a[k]) == x;
      assert b[k] in b;
    }
    forall x | x in LowerSet(b) ensures x in LowerSet(a) {
      var k :| 0 <= k < |b| && Lower(b[k]) == x;
      assert a[k] in a;
    }
  }
}
