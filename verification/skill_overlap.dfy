/**
 * The skill-overlap term of `compute_match_score`: the share of the
 * vocabulary terms found in the job description that the resume also
 * mentions. The embedding similarity it is blended with is not modelled.
 */
module SkillOverlap {
  import opened Text
  import opened Seqs
  import opened Vocabulary
  import opened SkillGap

  /** `[s.lower() for s in db if s.lower() in text_lower]` */
  function SkillsIn(db: seq<string>, textLower: string): (r: seq<string>)
    ensures |r| <= |db|
    ensures forall x :: x in r <==> x in Lowered(db) && Contains(textLower, x)
  {
    if db == [] then []
    else
      var init := db[..|db| - 1];
      var skill := db[|db| - 1];
      assert Lowered(db) == Lowered(init) + [LowerStr(skill)];
      var rest := SkillsIn(init, textLower);
      if FoundIn(skill, textLower) then rest + [LowerStr(skill)] else rest
  }

  /** `len(set(jd_skills) & set(resume_skills))` */
  function Overlap(db: seq<string>, resumeText: string, jdText: string): nat {
    |Elems(SkillsIn(db, LowerStr(jdText))) * Elems(SkillsIn(db, LowerStr(resumeText)))|
  }

  /** `overlap / len(jd_skills) if jd_skills else 0`, over the vocabulary `db`. */
  function OverlapRatio(db: seq<string>, resumeText: string, jdText: string): (ratio: real)
    ensures 0.0 <= ratio <= 1.0
  {
    var jdSkills := SkillsIn(db, LowerStr(jdText));
    var overlap := Overlap(db, resumeText, jdText);
    OverlapAtMostJdSkills(db, resumeText, jdText);
    if jdSkills != [] then
      FractionInUnitInterval(overlap, |jdSkills|);
      overlap as real / |jdSkills| as real
    else 0.0
  }

  /** The skill-overlap ratio `compute_match_score` computes with `SKILLS_DB`. */
  function SkillOverlapScore(resumeText: string, jdText: string): (ratio: real)
    ensures 0.0 <= ratio <= 1.0
  {
    OverlapRatio(SkillsDb, resumeText, jdText)
  }

  /** The intersection is no larger than `set(jd_skills)`, which is no larger than `jd_skills`. */
  lemma OverlapAtMostJdSkills(db: seq<string>, resumeText: string, jdText: string)
    ensures Overlap(db, resumeText, jdText) <= |SkillsIn(db, LowerStr(jdText))|
  {
    var jd := Elems(SkillsIn(db, LowerStr(jdText)));
    var resume := Elems(SkillsIn(db, LowerStr(resumeText)));
    assert jd * resume <= jd;
    SubsetCard(jd * resume, jd);
  }

  /** A count divided by a larger positive count lies in [0, 1], and is 1 only when the two are equal. */
  lemma FractionInUnitInterval(part: nat, whole: nat)
    requires part <= whole && 0 < whole
    ensures 0.0 <= part as real / whole as real <= 1.0
    ensures part as real / whole as real == 1.0 <==> part == whole
  {
    var q := part as real / whole as real;
    assert q * whole as real == part as real;
  }

  lemma SubsetCard<T>(a: set<T>, b: set<T>)
    requires a <= b
    ensures |a| <= |b|
  {
    assert b == a + (b - a);
  }

  /** A job description that mentions no vocabulary term scores 0, whatever the resume. */
  lemma RatioZeroWithoutJdSkills(db: seq<string>, resumeText: string, jdText: string)
    requires forall s :: s in db ==> !FoundIn(s, LowerStr(jdText))
    ensures OverlapRatio(db, resumeText, jdText) == 0.0
  {
    var jdSkills := SkillsIn(db, LowerStr(jdText));
    if jdSkills != [] {
      var x := jdSkills[0];
      assert x in Lowered(db);
      var i :| 0 <= i < |db| && Lowered(db)[i] == x;
      assert FoundIn(db[i], LowerStr(jdText));
    }
  }

  /** The ratio does not depend on the letter case of either text. */
  lemma RatioIgnoresCase(db: seq<string>, resume1: string, resume2: string, jd1: string, jd2: string)
    requires SameIgnoringCase(resume1, resume2)
    requires SameIgnoringCase(jd1, jd2)
    ensures OverlapRatio(db, resume1, jd1) == OverlapRatio(db, resume2, jd2)
  {
    LowerStrSameIgnoringCase(resume1, resume2);
    LowerStrSameIgnoringCase(jd1, jd2);
  }

  /** Terms with distinct lower-case forms are found once each. */
  lemma {:induction false} SkillsInNoDups(db: seq<string>, textLower: string)
    requires NoDups(Lowered(db))
    ensures NoDups(SkillsIn(db, textLower))
    ensures |Elems(SkillsIn(db, textLower))| == |SkillsIn(db, textLower)|
  {
    if db != [] {
      var init := db[..|db| - 1];
      var skill := db[|db| - 1];
      assert Lowered(db) == Lowered(init) + [LowerStr(skill)];
      assert Lowered(init) == Lowered(db)[..|db| - 1];
      SkillsInNoDups(init, textLower);
      forall i | 0 <= i < |init| ensures Lowered(init)[i] != LowerStr(skill) {
        assert Lowered(init)[i] == Lowered(db)[i];
        assert Lowered(db)[i] != Lowered(db)[|db| - 1];
      }
    }
    NoDupsElemsCard(SkillsIn(db, textLower));
  }

  /**
   * With `SKILLS_DB`, `len(jd_skills)` is the number of distinct terms found
   * in the job description, so the list and set readings of the ratio agree.
   */
  lemma SkillsDbJdSkillsDistinct(jdText: string)
    ensures NoDups(SkillsIn(SkillsDb, LowerStr(jdText)))
    ensures |Elems(SkillsIn(SkillsDb, LowerStr(jdText)))| == |SkillsIn(SkillsDb, LowerStr(jdText))|
  {
    SkillsDbDistinct();
    SkillsInNoDups(SkillsDb, LowerStr(jdText));
  }

  /** The lower-cased terms found in both texts, in vocabulary order. */
  function SkillsInBoth(db: seq<string>, resumeLower: string, jdLower: string): (r: seq<string>)
    ensures forall x :: x in r ==> x in Lowered(db) && Contains(jdLower, x) && Contains(resumeLower, x)
  {
    if db == [] then []
    else
      var init := db[..|db| - 1];
      var skill := db[|db| - 1];
      assert Lowered(db) == Lowered(init) + [LowerStr(skill)];
      var rest := SkillsInBoth(init, resumeLower, jdLower);
      if FoundIn(skill, jdLower) && FoundIn(skill, resumeLower) then rest + [LowerStr(skill)] else rest
  }

  /** Every vocabulary term found in both texts is listed by `SkillsInBoth`. */
  lemma {:induction false} SkillsInBothComplete(db: seq<string>, resumeLower: string, jdLower: string)
    ensures forall x :: x in Lowered(db) && Contains(jdLower, x) && Contains(resumeLower, x)
                    ==> x in SkillsInBoth(db, resumeLower, jdLower)
  {
    if db != [] {
      var init := db[..|db| - 1];
      assert Lowered(db) == Lowered(init) + [LowerStr(db[|db| - 1])];
      SkillsInBothComplete(init, resumeLower, jdLower);
    }
  }

  /** The set intersection of the two lists is the set of terms found in both texts. */
  lemma OverlapIsSkillsInBoth(db: seq<string>, resumeText: string, jdText: string)
    ensures Overlap(db, resumeText, jdText) == |Elems(SkillsInBoth(db, LowerStr(resumeText), LowerStr(jdText)))|
  {
    var resumeLower, jdLower := LowerStr(resumeText), LowerStr(jdText);
    SkillsInBothComplete(db, resumeLower, jdLower);
    assert Elems(SkillsIn(db, jdLower)) * Elems(SkillsIn(db, resumeLower))
        == Elems(SkillsInBoth(db, resumeLower, jdLower));
  }

  /**
   * Each term found in the job description is either found in the resume
   * or reported missing.
   */
  lemma {:induction false} JdSkillsSplit(db: seq<string>, resumeLower: string, jdLower: string)
    ensures |SkillsInBoth(db, resumeLower, jdLower)| + |Missing(db, resumeLower, jdLower)|
         == |SkillsIn(db, jdLower)|
  {
    if db != [] {
      JdSkillsSplit(db[..|db| - 1], resumeLower, jdLower);
    }
  }

  /** Terms with distinct lower-case forms are listed once each. */
  lemma {:induction false} SkillsInBothNoDups(db: seq<string>, resumeLower: string, jdLower: string)
    requires NoDups(Lowered(db))
    ensures NoDups(SkillsInBoth(db, resumeLower, jdLower))
  {
    if db != [] {
      var init := db[..|db| - 1];
      var skill := db[|db| - 1];
      assert Lowered(db) == Lowered(init) + [LowerStr(skill)];
      assert Lowered(init) == Lowered(db)[..|db| - 1];
      SkillsInBothNoDups(init, resumeLower, jdLower);
      forall i | 0 <= i < |init| ensures Lowered(init)[i] != LowerStr(skill) {
        assert Lowered(init)[i] == Lowered(db)[i];
        assert Lowered(db)[i] != Lowered(db)[|db| - 1];
      }
    }
  }

  /**
   * For a vocabulary whose lower-case forms are distinct, the overlap
   * count and the number of missing skills add up to the number of
   * vocabulary terms found in the job description.
   */
  lemma OverlapPlusMissing(db: seq<string>, resumeText: string, jdText: string)
    requires NoDups(Lowered(db))
    ensures Overlap(db, resumeText, jdText) + |Missing(db, LowerStr(resumeText), LowerStr(jdText))|
         == |SkillsIn(db, LowerStr(jdText))|
  {
    var resumeLower, jdLower := LowerStr(resumeText), LowerStr(jdText);
    OverlapIsSkillsInBoth(db, resumeText, jdText);
    SkillsInBothNoDups(db, resumeLower, jdLower);
    NoDupsElemsCard(SkillsInBoth(db, resumeLower, jdLower));
    JdSkillsSplit(db, resumeLower, jdLower);
  }

  /** The identity above, for `SKILLS_DB`. */
  lemma SkillsDbOverlapPlusMissing(resumeText: string, jdText: string)
    ensures Overlap(SkillsDb, resumeText, jdText) + |Missing(SkillsDb, LowerStr(resumeText), LowerStr(jdText))|
         == |SkillsIn(SkillsDb, LowerStr(jdText))|
  {
    SkillsDbDistinct();
    OverlapPlusMissing(SkillsDb, resumeText, jdText);
  }

  /**
   * With `SKILLS_DB` the ratio is 1 exactly when the job description
   * mentions some vocabulary term and no skill is reported missing.
   */
  lemma SkillsDbFullOverlapIff(resumeText: string, jdText: string)
    ensures SkillOverlapScore(resumeText, jdText) == 1.0
        <==> SkillsIn(SkillsDb, LowerStr(jdText)) != []
             && Missing(SkillsDb, LowerStr(resumeText), LowerStr(jdText)) == []
  {
    SkillsDbOverlapPlusMissing(resumeText, jdText);
    var n := |SkillsIn(SkillsDb, LowerStr(jdText))|;
    var overlap := Overlap(SkillsDb, resumeText, jdText);
    if n > 0 {
      assert SkillOverlapScore(resumeText, jdText) == overlap as real / n as real;
      FractionInUnitInterval(overlap, n);
    }
  }
}
