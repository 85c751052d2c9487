/**
 * A worked example: the job description "Requires Python and SQL skills"
 * against the resume "I know Python well", with the vocabulary
 * ["Python", "SQL"] and with the first three `SKILLS_DB` entries
 * ["Python", "R", "SQL"]. The second shows that the test has no word
 * boundaries: "r" is found inside "requires".
 */
module WorkedExample {
  import opened Text
  import opened Seqs
  import opened Vocabulary
  import opened SkillGap
  import opened SkillOverlap

  const Resume := "I know Python well"
  const Jd := "Requires Python and SQL skills"

  /** A term inside a text brings all its characters into the text. */
  lemma ContainsChars(text: string, term: string, c: char)
    requires Contains(text, term) && c in term
    ensures c in text
  {
    ContainsIff(text, term);
    var i :| OccursAt(text, term, i);
    var k :| 0 <= k < |term| && term[k] == c;
    assert text[i..i + |term|][k] == text[i + k];
  }

  lemma LoweredResume()
    ensures LowerStr(Resume) == "i know python well"
  {
    LowerStrPointwise(Resume, "i know python well");
  }

  lemma LoweredJd()
    ensures LowerStr(Jd) == "requires python and sql skills"
  {
    LowerStrPointwise(Jd, "requires python and sql skills");
  }

  lemma LoweredTerms()
    ensures LowerStr("Python") == "python" && LowerStr("R") == "r" && LowerStr("SQL") == "sql"
  {
  }

  /** A term that occurs somewhere in the text is found in it. */
  lemma FoundWhereItOccurs(skill: string, textLower: string, i: nat)
    requires OccursAt(textLower, LowerStr(skill), i)
    ensures FoundIn(skill, textLower)
  {
    ContainsIff(textLower, LowerStr(skill));
  }

  lemma JdHasPython()
    ensures FoundIn("Python", LowerStr(Jd))
  {
    LoweredJd();
    LoweredTerms();
    assert OccursAt("requires python and sql skills", "python", 9);
    FoundWhereItOccurs("Python", LowerStr(Jd), 9);
  }

  lemma JdHasR()
    ensures FoundIn("R", LowerStr(Jd))
  {
    LoweredJd();
    LoweredTerms();
    assert OccursAt("requires python and sql skills", "r", 0);
    FoundWhereItOccurs("R", LowerStr(Jd), 0);
  }

  lemma JdHasSql()
    ensures FoundIn("SQL", LowerStr(Jd))
  {
    LoweredJd();
    LoweredTerms();
    assert OccursAt("requires python and sql skills", "sql", 20);
    FoundWhereItOccurs("SQL", LowerStr(Jd), 20);
  }

  lemma JdMentions()
    ensures FoundIn("Python", LowerStr(Jd)) && FoundIn("R", LowerStr(Jd)) && FoundIn("SQL", LowerStr(Jd))
  {
    JdHasPython();
    JdHasR();
    JdHasSql();
  }

  /** A term with a character the text lacks is not found in the text. */
  lemma NotFoundWithoutChar(skill: string, textLower: string, c: char)
    requires c in LowerStr(skill) && c !in textLower
    ensures !FoundIn(skill, textLower)
  {
    if FoundIn(skill, textLower) {
      ContainsChars(textLower, LowerStr(skill), c);
    }
  }

  lemma ResumeHasPython()
    ensures FoundIn("Python", LowerStr(Resume))
  {
    LoweredResume();
    LoweredTerms();
    assert OccursAt("i know python well", "python", 7);
    FoundWhereItOccurs("Python", LowerStr(Resume), 7);
  }

  lemma ResumeLacksR()
    ensures !FoundIn("R", LowerStr(Resume))
  {
    LoweredResume();
    LoweredTerms();
    NotFoundWithoutChar("R", LowerStr(Resume), 'r');
  }

  lemma ResumeLacksSql()
    ensures !FoundIn("SQL", LowerStr(Resume))
  {
    LoweredResume();
    LoweredTerms();
    NotFoundWithoutChar("SQL", LowerStr(Resume), 'q');
  }

  lemma ResumeMentions()
    ensures FoundIn("Python", LowerStr(Resume)) && !FoundIn("R", LowerStr(Resume)) && !FoundIn("SQL", LowerStr(Resume))
  {
    ResumeHasPython();
    ResumeLacksR();
    ResumeLacksSql();
  }

  lemma MissingOfThree(db: seq<string>, resumeLower: string, jdLower: string)
    requires |db| == 3
    ensures Missing(db, resumeLower, jdLower)
         == (if IsGap(db[0], resumeLower, jdLower) then [db[0]] else [])
          + (if IsGap(db[1], resumeLower, jdLower) then [db[1]] else [])
          + (if IsGap(db[2], resumeLower, jdLower) then [db[2]] else [])
  {
    var one, two := db[..1], db[..2];
    assert one[..0] == [] && two[..1] == one && db[..2] == two;
    assert Missing(one, resumeLower, jdLower) == if IsGap(db[0], resumeLower, jdLower) then [db[0]] else [];
  }

  /** With ["Python", "SQL"] the report is ["SQL"]. */
  lemma TwoTermReport()
    ensures Missing(["Python", "SQL"], LowerStr(Resume), LowerStr(Jd)) == ["SQL"]
  {
    JdMentions();
    ResumeMentions();
    var db := ["Python", "SQL"];
    assert db[..1] == ["Python"];
    assert db[..1][..0] == [];
  }

  /** With ["Python", "R", "SQL"] the report is ["R", "SQL"]: "r" occurs in "requires". */
  lemma ThreeTermReport()
    ensures SkillsDb[..3] == ["Python", "R", "SQL"]
    ensures Missing(SkillsDb[..3], LowerStr(Resume), LowerStr(Jd)) == ["R", "SQL"]
  {
    JdMentions();
    ResumeMentions();
    MissingOfThree(SkillsDb[..3], LowerStr(Resume), LowerStr(Jd));
  }

  lemma TwoTermSkillLists()
    ensures SkillsIn(["Python", "SQL"], LowerStr(Jd)) == ["python", "sql"]
    ensures SkillsIn(["Python", "SQL"], LowerStr(Resume)) == ["python"]
  {
    JdMentions();
    ResumeMentions();
    LoweredTerms();
    var db := ["Python", "SQL"];
    assert db[..1] == ["Python"];
    assert db[..1][..0] == [];
  }

  /** With ["Python", "SQL"] the overlap ratio is 1/2. */
  lemma TwoTermRatio()
    ensures OverlapRatio(["Python", "SQL"], Resume, Jd) == 0.5
  {
    TwoTermSkillLists();
    var both := Elems(["python", "sql"]) * Elems(["python"]);
    assert both == {"python"};
    assert Overlap(["Python", "SQL"], Resume, Jd) == 1;
  }
}
