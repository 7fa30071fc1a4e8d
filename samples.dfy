/**
 * The sample catalogues both pages use, and what the model says about them.
 */
module Samples {
  import opened Wrappers
  import opened Text
  import opened Catalog
  import opened SkillEdges
  import opened Pages

  /** The sample company internship openings. */
  const Companies: seq<Company> := [
    Company("Google", "Software Engineering Intern", ["Python", "Machine Learning", "Data Structures"]),
    Company("Microsoft", "Cloud Computing Intern", ["Azure", "Networking", "Cybersecurity"]),
    Company("Amazon", "Data Science Intern", ["SQL", "Pandas", "AI/ML"]),
    Company("Tesla", "Embedded Systems Intern", ["C", "C++", "Microcontrollers"]),
    Company("Meta", "Frontend Development Intern", ["React", "JavaScript", "UI/UX Design"]),
    Company("IBM", "AI Research Intern", ["Deep Learning", "Python", "c"]),
    Company("Apple", "iOS Development Intern", ["Swift", "Objective-C", "Mobile Development"]),
    Company("Netflix", "Backend Developer Intern", ["Django", "Flask", "API Development"]),
    Company("SpaceX", "Aerospace Engineering Intern", ["MATLAB", "C++", "Control Systems"]),
    Company("Intel", "Chip Design Intern", ["VHDL", "Verilog", "Hardware Design"])
  ]

  /** The sample student applicants, in the dictionary's order. */
  const Students: seq<Student> := [
    Student("Alice", ["Python", "Machine Learning", "SQL"]),
    Student("Bob", ["Java", "Spring Boot", "Microservices"]),
    Student("Charlie", ["C++", "Data Structures", "Algorithms"]),
    Student("David", ["Python", "Django", "JavaScript"]),
    Student("Emma", ["React", "Node.js", "MongoDB"]),
    Student("Frank", ["Data Science", "R", "Python"]),
    Student("Grace", ["Cloud Computing", "AWS", "DevOps"]),
    Student("Hannah", ["Cybersecurity", "Penetration Testing", "Networking"]),
    Student("Ian", ["Game Development", "Unity", "C#"]),
    Student("Julia", ["AI", "Deep Learning", "TensorFlow"])
  ]

  /** The sample names meet the conditions under which edges and labels are exact. */
  lemma SampleNamesDistinct()
    ensures DistinctNames(Students, Companies)
  {
    SampleStudentsDistinct();
    SampleCompaniesDistinct();
    SampleSidesApart();
  }

  lemma SampleStudentsDistinct()
    ensures forall i, j :: 0 <= i < j < |Students| ==> Students[i].name != Students[j].name
  {
  }

  lemma SampleCompaniesDistinct()
    ensures UniqueCompanyNames(Companies)
  {
  }

  lemma SampleSidesApart()
    ensures forall i, j :: 0 <= i < |Students| && 0 <= j < |Companies| ==> Students[i].name != Companies[j].name
  {
  }

  /** The lower-cased skill set of a three-skill list. */
  lemma LowerSetOfThree(a: string, b: string, c: string)
    ensures LowerSet([a, b, c]) == {Lower(a), Lower(b), Lower(c)}
  {
    var xs := [a, b, c];
    assert forall x :: x in xs <==> x == a || x == b || x == c;
  }

  lemma LowerMachineLearning()
    ensures Lower("Machine Learning") == "machine learning"
  {
  }

  lemma LowerDataStructures()
    ensures Lower("Data Structures") == "data structures"
  {
  }

  lemma LowerSpringBoot()
    ensures Lower("Spring Boot") == "spring boot"
  {
  }

  lemma LowerMicroservices()
    ensures Lower("Microservices") == "microservices"
  {
  }

  lemma GoogleSkills()
    ensures LowerSet(Companies[0].skills) == {"python", "machine learning", "data structures"}
  {
    assert Lower("Python") == "python";
    LowerMachineLearning();
    LowerDataStructures();
    LowerSetOfThree("Python", "Machine Learning", "Data Structures");
  }

  lemma AliceSkills()
    ensures LowerSet(Students[0].skills) == {"python", "machine learning", "sql"}
  {
    assert Lower("Python") == "python";
    assert Lower("SQL") == "sql";
    LowerMachineLearning();
    LowerSetOfThree("Python", "Machine Learning", "SQL");
  }

  lemma BobSkills()
    ensures LowerSet(Students[1].skills) == {"java", "spring boot", "microservices"}
  {
    assert Lower("Java") == "java";
    LowerSpringBoot();
    LowerMicroservices();
    LowerSetOfThree("Java", "Spring Boot", "Microservices");
  }

  lemma AliceGoogleOverlap()
    ensures Overlap(Students[0], Companies[0]) == {"python", "machine learning"}
  {
    AliceSkills();
    GoogleSkills();
    assert "sql" != "python" && "sql" != "machine learning" && "sql" != "data structures";
  }

  /** Alice and Google share "python" and "machine learning": an edge of weight 2. */
  lemma AliceGoogle()
    ensures var e := Rows(Students, Companies);
      && Key("Alice", "Google") in e.weight
      && e.weight[Key("Alice", "Google")] == 2
      && ("Alice", "Google") in e.labels
      && e.labels[("Alice", "Google")] == {"python", "machine learning"}
  {
    SampleNamesDistinct();
    AliceGoogleOverlap();
    assert |{"python", "machine learning"}| == 2;
    assert Students[0].name == "Alice" && Companies[0].name == "Google";
    EdgeIffOverlap(Students, Companies, 0, 0);
  }

  lemma BobGoogleOverlap()
    ensures Overlap(Students[1], Companies[0]) == {}
  {
    BobSkills();
    GoogleSkills();
  }

  /** Bob shares nothing with Google: no edge and no label. */
  lemma BobGoogle()
    ensures var e := Rows(Students, Companies);
      Key("Bob", "Google") !in e.weight && ("Bob", "Google") !in e.labels
  {
    SampleNamesDistinct();
    BobGoogleOverlap();
    assert Students[1].name == "Bob" && Companies[0].name == "Google";
    EdgeIffOverlap(Students, Companies, 1, 0);
  }

  /** The lower-case resume "machine learning" has the two tokens "machine" and "learning". */
  lemma MachineLearningWords()
    ensures ResumeWords("machine learning") == {"machine", "learning"}
  {
    assert "machine learning" == "machine" + [' '] + "learning";
    ResumeWordsAtSpace("machine", ' ', "learning");
    MachineToken();
    LearningToken();
  }

  lemma MachineToken()
    ensures ResumeWords("machine") == {"machine"}
  {
    ResumeWordsOfWord("machine");
    assert IsLower("machine");
  }

  lemma LearningToken()
    ensures ResumeWords("learning") == {"learning"}
  {
    ResumeWordsOfWord("learning");
    assert IsLower("learning");
  }

  lemma MachineLearningMissesGoogle()
    ensures Shared(ResumeWords("machine learning"), Companies[0]) == {}
  {
    MachineLearningWords();
    GoogleSkills();
  }

  /**
   * A resume reading "machine learning" gets no edge to Google in the full
   * sample catalogue, although Google requires "Machine Learning": the
   * resume's tokens are single words.
   */
  lemma MachineLearningResume()
    ensures var e := ResumeEdges("machine learning", Companies);
      Key(StudentNode, "Google") !in e.weight && (StudentNode, "Google") !in e.labels
  {
    SampleCompaniesDistinct();
    MachineLearningMissesGoogle();
    assert Companies[0].name == "Google";
    ResumeEdgeIffShared("machine learning", Companies, 0);
  }

  /**
   * Line breaks, tabs and leading or trailing spaces separate tokens like a
   * single space: the resume " Python\n\tSQL " has the tokens "python" and "sql".
   */
  lemma ResumeWithLayout()
    ensures ResumeWords(" Python\n\tSQL ") == {"python", "sql"}
  {
    LayoutSeparates();
    PythonSqlTokens();
  }

  lemma LayoutSeparates()
    ensures ResumeWords(" Python\n\tSQL ") == ResumeWords("Python") + ResumeWords("SQL")
  {
    assert " Python\n\tSQL " == "" + [' '] + "Python\n\tSQL ";
    assert "Python\n\tSQL " == "Python" + ['\n'] + "\tSQL ";
    assert "\tSQL " == "" + ['\t'] + "SQL ";
    assert "SQL " == "SQL" + [' '] + "";
    ResumeWordsAtSpace("", ' ', "Python\n\tSQL ");
    ResumeWordsAtSpace("Python", '\n', "\tSQL ");
    ResumeWordsAtSpace("", '\t', "SQL ");
    ResumeWordsAtSpace("SQL", ' ', "");
    ResumeWordsOfBlank("");
  }

  lemma PythonSqlTokens()
    ensures ResumeWords("Python") == {"python"} && ResumeWords("SQL") == {"sql"}
  {
    PythonToken();
    SqlToken();
  }

  lemma PythonToken()
    ensures ResumeWords("Python") == {"python"}
  {
    ResumeWordsOfWord("Python");
    assert Lower("Python") == "python";
  }

  lemma SqlToken()
    ensures ResumeWords("SQL") == {"sql"}
  {
    ResumeWordsOfWord("SQL");
    assert Lower("SQL") == "sql";
  }

  /**
   * When the only skill a student and a company share is the empty string, the
   * label text is empty. With the student selected, Python's `or` falls
   * through to the absent reversed key and the page shows no skills for the
   * pair; with the company selected, the first fetch misses and the second
   * finds the label, whose text is empty.
   */
  lemma EmptySkillLabelLost()
    ensures var e := Rows([Student("Zoe", [""])], [Company("Acme", "Intern", [""])]);
      && Key("Zoe", "Acme") in e.weight
      && InteractiveLabel(e.labels, "Zoe", "Acme") == None
      && InteractiveLabel(e.labels, "Acme", "Zoe") == Some({""})
  {
    var students, companies := [Student("Zoe", [""])], [Company("Acme", "Intern", [""])];
    var xs: seq<string> := [""];
    assert forall x :: x in xs <==> x == "";
    assert Lower("") == "";
    assert LowerSet(xs) == {""};
    assert Overlap(students[0], companies[0]) == {""};
    EdgeIffOverlap(students, companies, 0, 0);
    NoReversedLabel(students, companies, 0, 0);
  }
}
