/**
 * The fixed skill vocabulary `SKILLS_DB` and the presence test shared by
 * the skill-gap report and the skill-overlap ratio.
 */
module Vocabulary {
  import opened Text
  import opened Seqs

  /** `SKILLS_DB`, in its original order and casing. */
  const SkillsDb: seq<string> := [
    "Python", "R", "SQL", "Excel", "Tableau", "Power BI",
    "Machine Learning", "Deep Learning", "NLP", "Computer Vision",
    "TensorFlow", "Keras", "PyTorch", "Scikit-learn",
    "Data Analysis", "Data Visualization", "Statistics", "Probability",
    "AWS", "Azure", "GCP", "BigQuery", "Hadoop", "Spark",
    "Communication", "Teamwork", "Problem Solving", "Critical Thinking"
  ]

  /** `[s.lower() for s in db]` */
  function Lowered(db: seq<string>): seq<string> {
    seq(|db|, i requires 0 <= i < |db| => LowerStr(db[i]))
  }

  /** `skill.lower() in text_lower`, where `textLower` is already lower-cased. */
  predicate FoundIn(skill: string, textLower: string) {
    Contains(textLower, LowerStr(skill))
  }

  /** The lower-cased forms of `SKILLS_DB`, written out in two halves. */
  const LoweredFirstHalf: seq<string> := [
    "python", "r", "sql", "excel", "tableau", "power bi",
    "machine learning", "deep learning", "nlp", "computer vision",
    "tensorflow", "keras", "pytorch", "scikit-learn"
  ]
  const LoweredSecondHalf: seq<string> := [
    "data analysis", "data visualization", "statistics", "probability",
    "aws", "azure", "gcp", "bigquery", "hadoop", "spark",
    "communication", "teamwork", "problem solving", "critical thinking"
  ]
  const LoweredSkillsDb: seq<string> := LoweredFirstHalf + LoweredSecondHalf

  /** A string is the lower-case form of another when it is so character by character. */
  lemma LowerStrPointwise(s: string, t: string)
    requires |s| == |t|
    requires forall k :: 0 <= k < |s| ==> Lower(s[k]) == t[k]
    ensures LowerStr(s) == t
  {
  }

  // The lower-casing of the 28 literals is checked in chunks of at most
  // three entries and about twenty characters, and the entry-wise facts
  // below in chunks of seven, so that each proof stays small for the solver.
  lemma LoweredSkillsDbPart1()
    ensures forall i :: 0 <= i < 3 ==> LowerStr(SkillsDb[i]) == LoweredFirstHalf[i]
  {
    LowerStrPointwise(SkillsDb[0], LoweredFirstHalf[0]);
    LowerStrPointwise(SkillsDb[1], LoweredFirstHalf[1]);
    LowerStrPointwise(SkillsDb[2], LoweredFirstHalf[2]);
  }

  lemma LoweredSkillsDbPart2()
    ensures forall i :: 3 <= i < 6 ==> LowerStr(SkillsDb[i]) == LoweredFirstHalf[i]
  {
    LowerStrPointwise(SkillsDb[3], LoweredFirstHalf[3]);
    LowerStrPointwise(SkillsDb[4], LoweredFirstHalf[4]);
    LowerStrPointwise(SkillsDb[5], LoweredFirstHalf[5]);
  }

  lemma LoweredSkillsDbPart3()
    ensures forall i :: 6 <= i < 7 ==> LowerStr(SkillsDb[i]) == LoweredFirstHalf[i]
  {
    LowerStrPointwise(SkillsDb[6], LoweredFirstHalf[6]);
  }

  lemma LoweredSkillsDbPart4()
    ensures forall i :: 7 <= i < 9 ==> LowerStr(SkillsDb[i]) == LoweredFirstHalf[i]
  {
    LowerStrPointwise(SkillsDb[7], LoweredFirstHalf[7]);
    LowerStrPointwise(SkillsDb[8], LoweredFirstHalf[8]);
  }

  lemma LoweredSkillsDbPart5()
    ensures forall i :: 9 <= i < 10 ==> LowerStr(SkillsDb[i]) == LoweredFirstHalf[i]
  {
    LowerStrPointwise(SkillsDb[9], LoweredFirstHalf[9]);
  }

  lemma LoweredSkillsDbPart6()
    ensures forall i :: 10 <= i < 13 ==> LowerStr(SkillsDb[i]) == LoweredFirstHalf[i]
  {
    LowerStrPointwise(SkillsDb[10], LoweredFirstHalf[10]);
    LowerStrPointwise(SkillsDb[11], LoweredFirstHalf[11]);
    LowerStrPointwise(SkillsDb[12], LoweredFirstHalf[12]);
  }

  lemma LoweredSkillsDbPart7()
    ensures forall i :: 13 <= i < 14 ==> LowerStr(SkillsDb[i]) == LoweredFirstHalf[i]
  {
    LowerStrPointwise(SkillsDb[13], LoweredFirstHalf[13]);
  }

  lemma LoweredSkillsDbPart8()
    ensures forall i :: 14 <= i < 15 ==> LowerStr(SkillsDb[i]) == LoweredSecondHalf[i - 14]
  {
    LowerStrPointwise(SkillsDb[14], LoweredSecondHalf[0]);
  }

  lemma LoweredSkillsDbPart9()
    ensures forall i :: 15 <= i < 16 ==> LowerStr(SkillsDb[i]) == LoweredSecondHalf[i - 14]
  {
    LowerStrPointwise(SkillsDb[15], LoweredSecondHalf[1]);
  }

  lemma LoweredSkillsDbPart10()
    ensures forall i :: 16 <= i < 18 ==> LowerStr(SkillsDb[i]) == LoweredSecondHalf[i - 14]
  {
    LowerStrPointwise(SkillsDb[16], LoweredSecondHalf[2]);
    LowerStrPointwise(SkillsDb[17], LoweredSecondHalf[3]);
  }

  lemma LoweredSkillsDbPart11()
    ensures forall i :: 18 <= i < 21 ==> LowerStr(SkillsDb[i]) == LoweredSecondHalf[i - 14]
  {
    LowerStrPointwise(SkillsDb[18], LoweredSecondHalf[4]);
    LowerStrPointwise(SkillsDb[19], LoweredSecondHalf[5]);
    LowerStrPointwise(SkillsDb[20], LoweredSecondHalf[6]);
  }

  lemma LoweredSkillsDbPart12()
    ensures forall i :: 21 <= i < 24 ==> LowerStr(SkillsDb[i]) == LoweredSecondHalf[i - 14]
  {
    LowerStrPointwise(SkillsDb[21], LoweredSecondHalf[7]);
    LowerStrPointwise(SkillsDb[22], LoweredSecondHalf[8]);
    LowerStrPointwise(SkillsDb[23], LoweredSecondHalf[9]);
  }

  lemma LoweredSkillsDbPart13()
    ensures forall i :: 24 <= i < 26 ==> LowerStr(SkillsDb[i]) == LoweredSecondHalf[i - 14]
  {
    LowerStrPointwise(SkillsDb[24], LoweredSecondHalf[10]);
    LowerStrPointwise(SkillsDb[25], LoweredSecondHalf[11]);
  }

  lemma LoweredSkillsDbPart14()
    ensures forall i :: 26 <= i < 27 ==> LowerStr(SkillsDb[i]) == LoweredSecondHalf[i - 14]
  {
    LowerStrPointwise(SkillsDb[26], LoweredSecondHalf[12]);
  }

  lemma LoweredSkillsDbPart15()
    ensures forall i :: 27 <= i < 28 ==> LowerStr(SkillsDb[i]) == LoweredSecondHalf[i - 14]
  {
    LowerStrPointwise(SkillsDb[27], LoweredSecondHalf[13]);
  }

  /** `LoweredSkillsDb` is indeed the lower-cased vocabulary. */
  lemma LoweredSkillsDbCorrect()
    ensures Lowered(SkillsDb) == LoweredSkillsDb
  {
    LoweredSkillsDbPart1();
    LoweredSkillsDbPart2();
    LoweredSkillsDbPart3();
    LoweredSkillsDbPart4();
    LoweredSkillsDbPart5();
    LoweredSkillsDbPart6();
    LoweredSkillsDbPart7();
    LoweredSkillsDbPart8();
    LoweredSkillsDbPart9();
    LoweredSkillsDbPart10();
    LoweredSkillsDbPart11();
    LoweredSkillsDbPart12();
    LoweredSkillsDbPart13();
    LoweredSkillsDbPart14();
    LoweredSkillsDbPart15();
  }

  lemma SkillsDbNonEmptyAsciiPart1()
    ensures forall i :: 0 <= i < 7 ==> SkillsDb[i] != [] && IsAscii(SkillsDb[i])
  {
    forall i | 0 <= i < 7 ensures SkillsDb[i] != [] && IsAscii(SkillsDb[i]) {
    }
  }

  lemma SkillsDbNonEmptyAsciiPart2()
    ensures forall i :: 7 <= i < 14 ==> SkillsDb[i] != [] && IsAscii(SkillsDb[i])
  {
    forall i | 7 <= i < 14 ensures SkillsDb[i] != [] && IsAscii(SkillsDb[i]) {
    }
  }

  lemma SkillsDbNonEmptyAsciiPart3()
    ensures forall i :: 14 <= i < 21 ==> SkillsDb[i] != [] && IsAscii(SkillsDb[i])
  {
    forall i | 14 <= i < 21 ensures SkillsDb[i] != [] && IsAscii(SkillsDb[i]) {
    }
  }

  lemma SkillsDbNonEmptyAsciiPart4()
    ensures forall i :: 21 <= i < 28 ==> SkillsDb[i] != [] && IsAscii(SkillsDb[i])
  {
    forall i | 21 <= i < 28 ensures SkillsDb[i] != [] && IsAscii(SkillsDb[i]) {
    }
  }

  /** Every vocabulary entry is a non-empty ASCII string. */
  lemma SkillsDbNonEmptyAscii()
    ensures |SkillsDb| == 28
    ensures forall i :: 0 <= i < |SkillsDb| ==> SkillsDb[i] != [] && IsAscii(SkillsDb[i])
  {
    SkillsDbNonEmptyAsciiPart1();
    SkillsDbNonEmptyAsciiPart2();
    SkillsDbNonEmptyAsciiPart3();
    SkillsDbNonEmptyAsciiPart4();
  }

  lemma LoweredFirstHalfNoDups()
    ensures NoDups(LoweredFirstHalf)
  {
  }

  lemma LoweredSecondHalfNoDups()
    ensures NoDups(LoweredSecondHalf)
  {
  }

  lemma LoweredHalvesDisjoint()
    ensures forall i, j :: 0 <= i < |LoweredFirstHalf| && 0 <= j < |LoweredSecondHalf|
                       ==> LoweredFirstHalf[i] != LoweredSecondHalf[j]
  {
  }

  /** Equal entries have equal lower-case forms. */
  lemma NoDupsOfLowered(db: seq<string>)
    requires NoDups(Lowered(db))
    ensures NoDups(db)
  {
    forall i, j | 0 <= i < j < |db| ensures db[i] != db[j] {
      assert Lowered(db)[i] != Lowered(db)[j];
    }
  }

  /**
   * No two vocabulary entries have the same lower-case form (so no two
   * are found by the same test), and hence no two are equal.
   */
  lemma SkillsDbDistinct()
    ensures NoDups(Lowered(SkillsDb))
    ensures NoDups(SkillsDb)
  {
    LoweredFirstHalfNoDups();
    LoweredSecondHalfNoDups();
    LoweredHalvesDisjoint();
    NoDupsConcat(LoweredFirstHalf, LoweredSecondHalf);
    LoweredSkillsDbCorrect();
    NoDupsOfLowered(SkillsDb);
  }
}
