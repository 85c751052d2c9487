/**
 * `find_missing_skills`: the vocabulary terms a job description asks for
 * that a resume does not mention, in vocabulary order and casing.
 */
module SkillGap {
  import opened Text
  import opened Seqs
  import opened Vocabulary

  /** The test applied to each vocabulary term: found in the job description, not in the resume. */
  predicate IsGap(skill: string, resumeLower: string, jdLower: string) {
    FoundIn(skill, jdLower) && !FoundIn(skill, resumeLower)
  }

  /**
   * The terms of `db` that pass `IsGap`, in the order of `db`; defined on
   * the prefix so that it follows the loop that builds it.
   */
  function Missing(db: seq<string>, resumeLower: string, jdLower: string): (r: seq<string>)
    ensures |r| <= |db|
  {
    if db == [] then []
    else
      var rest := Missing(db[..|db| - 1], resumeLower, jdLower);
      var skill := db[|db| - 1];
      if IsGap(skill, resumeLower, jdLower) then rest + [skill] else rest
  }

  /** `find_missing_skills(resume_text, jd_text, skills_db)` */
  method FindMissingSkills(resumeText: string, jdText: string, skillsDb: seq<string>)
    returns (missing: seq<string>)
    ensures missing == Missing(skillsDb, LowerStr(resumeText), LowerStr(jdText))
    ensures forall s :: s in missing <==> s in skillsDb && IsGap(s, LowerStr(resumeText), LowerStr(jdText))
    ensures IsSubsequence(missing, skillsDb)
  {
    var resumeLower := LowerStr(resumeText);
    var jdLower := LowerStr(jdText);
    missing := [];
    for i := 0 to |skillsDb|
      invariant missing == Missing(skillsDb[..i], resumeLower, jdLower)
    {
      var skill := skillsDb[i];
      assert skillsDb[..i + 1][..i] == skillsDb[..i];
      if Contains(jdLower, LowerStr(skill)) && !Contains(resumeLower, LowerStr(skill)) {
        missing := missing + [skill];
      }
    }
    assert skillsDb[..|skillsDb|] == skillsDb;
    MissingMembership(skillsDb, resumeLower, jdLower);
    MissingSubsequence(skillsDb, resumeLower, jdLower);
  }

  /** A term is reported exactly when it is a vocabulary term that passes the test. */
  lemma {:induction false} MissingMembership(db: seq<string>, resumeLower: string, jdLower: string)
    ensures forall s :: s in Missing(db, resumeLower, jdLower) <==> s in db && IsGap(s, resumeLower, jdLower)
  {
    if db != [] {
      var init := db[..|db| - 1];
      assert db == init + [db[|db| - 1]];
      MissingMembership(init, resumeLower, jdLower);
    }
  }

  /**
   * A term that passes the test is reported as often as the vocabulary
   * lists it, and any other term not at all.
   */
  lemma {:induction false} MissingMultiplicity(db: seq<string>, resumeLower: string, jdLower: string, s: string)
    ensures multiset(Missing(db, resumeLower, jdLower))[s]
         == if IsGap(s, resumeLower, jdLower) then multiset(db)[s] else 0
  {
    if db != [] {
      var init := db[..|db| - 1];
      assert db == init + [db[|db| - 1]];
      MissingMultiplicity(init, resumeLower, jdLower, s);
    }
  }

  /** The report keeps the vocabulary's entries (casing included) and their order. */
  lemma {:induction false} MissingSubsequence(db: seq<string>, resumeLower: string, jdLower: string)
    ensures IsSubsequence(Missing(db, resumeLower, jdLower), db)
  {
    if db == [] {
      assert Embeds([], Missing(db, resumeLower, jdLower), db);
    } else {
      var init := db[..|db| - 1];
      var skill := db[|db| - 1];
      MissingSubsequence(init, resumeLower, jdLower);
      var rest := Missing(init, resumeLower, jdLower);
      var idx: seq<nat> :| Embeds(idx, rest, init);
      assert Embeds(idx, rest, db);
      if IsGap(skill, resumeLower, jdLower) {
        assert Embeds(idx + [|db| - 1], rest + [skill], db);
      }
    }
  }

  /** Changing the letter case of either text does not change the report. */
  lemma MissingIgnoresCase(db: seq<string>, resume1: string, resume2: string, jd1: string, jd2: string)
    requires SameIgnoringCase(resume1, resume2)
    requires SameIgnoringCase(jd1, jd2)
    ensures Missing(db, LowerStr(resume1), LowerStr(jd1)) == Missing(db, LowerStr(resume2), LowerStr(jd2))
  {
    LowerStrSameIgnoringCase(resume1, resume2);
    LowerStrSameIgnoringCase(jd1, jd2);
  }

  /**
   * Nothing is reported exactly when the resume mentions every vocabulary
   * term the job description mentions.
   */
  lemma MissingEmptyIff(db: seq<string>, resumeLower: string, jdLower: string)
    ensures Missing(db, resumeLower, jdLower) == []
        <==> forall s :: s in db && FoundIn(s, jdLower) ==> FoundIn(s, resumeLower)
  {
    MissingMembership(db, resumeLower, jdLower);
    if Missing(db, resumeLower, jdLower) != [] {
      assert Missing(db, resumeLower, jdLower)[0] in Missing(db, resumeLower, jdLower);
    }
  }

  /** A text compared with itself has no gap. */
  lemma MissingSameText(db: seq<string>, text: string)
    ensures Missing(db, LowerStr(text), LowerStr(text)) == []
  {
    MissingEmptyIff(db, LowerStr(text), LowerStr(text));
  }

  /**
   * An empty job description asks for nothing: a non-empty term is not in
   * it, and the empty term is in every resume.
   */
  lemma MissingEmptyJd(db: seq<string>, resumeText: string)
    ensures Missing(db, LowerStr(resumeText), LowerStr("")) == []
  {
    forall s | s in db && FoundIn(s, LowerStr("")) ensures FoundIn(s, LowerStr(resumeText)) {
      ContainsEmpty(LowerStr(""), LowerStr(s));
      ContainsEmpty(LowerStr(resumeText), LowerStr(s));
    }
    MissingEmptyIff(db, LowerStr(resumeText), LowerStr(""));
  }

  /** With `SKILLS_DB`, every term that passes the test is reported exactly once. */
  lemma SkillsDbGapsReportedOnce(resumeText: string, jdText: string, s: string)
    requires s in SkillsDb && IsGap(s, LowerStr(resumeText), LowerStr(jdText))
    ensures multiset(Missing(SkillsDb, LowerStr(resumeText), LowerStr(jdText)))[s] == 1
  {
    MissingMultiplicity(SkillsDb, LowerStr(resumeText), LowerStr(jdText), s);
    SkillsDbDistinct();
    NoDupsOccursOnce(SkillsDb, s);
  }
}
