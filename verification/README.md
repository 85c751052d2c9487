# Resume / job-description skill matching, modelled in Dafny

The job-application tracker compares an uploaded resume with a pasted job
description in two ways. Both use one fixed vocabulary of 28 skill terms,
`SKILLS_DB`. The comparison is case-insensitive and uses plain substring
search.

- `find_missing_skills` lists the vocabulary terms that the job
  description mentions and the resume does not. Terms keep their vocabulary
  order and casing.
- `compute_match_score` blends an embedding similarity with a skill-overlap
  ratio. The ratio is the number of distinct lower-cased terms found in both
  texts, divided by the number of terms found in the job description. It is
  0 when the job description mentions no term.

A PDF resume becomes text by joining what the PDF library extracts from each
page. A page that yields nothing counts as the empty string.

This project models those three pieces and proves what they promise.

- `Text` (text.dfy): `str.lower()` as ASCII lower-casing (`LowerStr`). The
  `in` operator on strings as substring containment (`Contains`), with a
  proof that it finds exactly the terms that occur at some position.
- `Seqs` (seqs.dfy): `set(xs)` as `Elems`, lists without repetitions, and
  subsequences given by increasing index lists.
- `Vocabulary` (vocabulary.dfy): `SKILLS_DB` as a literal, and the presence
  test `skill.lower() in text_lower` (`FoundIn`). It proves that every entry
  is non-empty ASCII and that no two entries share a lower-case form.
- `SkillGap` (skill_gap.dfy): `find_missing_skills` as a method with a loop
  (`FindMissingSkills`). It is proved against the filter function `Missing`,
  and the lemmas about `Missing` state membership, multiplicity, order,
  case-insensitivity and when the report is empty.
- `SkillOverlap` (skill_overlap.dfy): the overlap ratio (`OverlapRatio`,
  `SkillOverlapScore`) and its bounds. It also proves the identity linking it
  to the skill-gap report: for `SKILLS_DB`, overlap + number missing =
  number of job-description terms.
- `PdfText` (pdf_text.dfy): the page-joining loop of
  `extract_text_from_pdf` as a method (`ExtractText`) over the per-page
  extraction results, proved against `Concat`.
- `WorkedExample` (worked_example.dfy): one concrete job description and
  resume. The job description is "Requires Python and SQL skills" and the
  resume is "I know Python well". With the terms ["Python", "SQL"] the report
  is ["SQL"] and the ratio is 1/2. With ["Python", "R", "SQL"] the report is
  ["R", "SQL"], because "r" occurs inside "requires".

Read as sets, the ratio would divide by the number of distinct terms found
in the job description. The code divides by the length of the list
`jd_skills` (app/main.py:63), and the model follows the code. The two agree
whenever the vocabulary's lower-case forms are distinct
(`SkillOverlap.SkillsInNoDups`), which holds for `SKILLS_DB`
(`Vocabulary.SkillsDbDistinct`, `SkillOverlap.SkillsDbJdSkillsDistinct`).

## Model

| member | source | states |
|---|---|---|
| `Vocabulary.SkillsDbNonEmptyAscii` | app/main.py:32-39 | the vocabulary has 28 entries, each a non-empty ASCII string |
| `Vocabulary.SkillsDbDistinct` | app/main.py:32-39 | no two vocabulary entries have the same lower-case form, so no two entries are equal |
| `Vocabulary.LoweredSkillsDbCorrect` | app/main.py:32-39 | the lower-cased vocabulary is the list of 28 written-out lower-case terms |
| `Text.LowerStr` | app/main.py:49-50 | lower-casing keeps the length, leaves no upper-case letter, changes only upper-case letters (each to its lower-case partner) and keeps ASCII text ASCII |
| `Text.LowerStrSameIgnoringCase` | app/main.py:49-50 | two texts have the same lower-case form exactly when they differ only in letter case |
| `Text.LowerStrIdempotent` | app/main.py:49-50 | lower-casing an already lower-cased text changes nothing |
| `Text.CaseChangesAreSameIgnoringCase` | app/main.py:49-50 | upper-casing or lower-casing a text changes only its letter case |
| `Text.ContainsIff` | app/main.py:53 | `term in text` holds exactly when the term occurs at some position of the text (no word boundaries) |
| `Text.ContainsEmpty` | app/main.py:53 | the empty term is in every text; a non-empty term is in no empty text |
| `SkillGap.FindMissingSkills` | app/main.py:48-55 | the loop returns `Missing` of the lower-cased texts; a string is returned exactly when it is a vocabulary entry found in the job description and not in the resume; the result is a subsequence of the vocabulary |
| `SkillGap.Missing` | app/main.py:51-55 | the report is never longer than the vocabulary |
| `SkillGap.MissingMembership` | app/main.py:49-54 | a string is reported exactly when it is a vocabulary entry whose lower-case form is in the lower-cased job description and not in the lower-cased resume |
| `SkillGap.MissingMultiplicity` | app/main.py:52-54 | an entry that passes the test is reported as many times as the vocabulary lists it; any other string is not reported |
| `SkillGap.MissingSubsequence` | app/main.py:51-55 | the report is the vocabulary with some entries dropped; the kept entries have their original casing and order |
| `SkillGap.MissingIgnoresCase` | app/main.py:49-53 | changing the letter case of the resume or the job description does not change the report |
| `SkillGap.MissingEmptyIff` | app/main.py:53 | the report is empty exactly when the resume mentions every vocabulary term the job description mentions |
| `SkillGap.MissingSameText` | app/main.py:53 | comparing a text with itself reports nothing |
| `SkillGap.MissingEmptyJd` | app/main.py:53 | an empty job description reports nothing, for any vocabulary (an empty term is found in every resume) |
| `SkillGap.SkillsDbGapsReportedOnce` | app/main.py:52-54 | with `SKILLS_DB`, each term that passes the test is reported exactly once |
| `SkillOverlap.SkillsIn` | app/main.py:60-61 | the found list is no longer than the vocabulary and holds exactly the lower-cased vocabulary terms that occur in the text |
| `SkillOverlap.OverlapRatio` | app/main.py:60-63 | the overlap ratio lies in [0, 1] for any vocabulary and any texts |
| `SkillOverlap.SkillOverlapScore` | app/main.py:60-63 | the ratio computed with `SKILLS_DB` lies in [0, 1] |
| `SkillOverlap.OverlapAtMostJdSkills` | app/main.py:60-62 | the size of the set intersection is at most the length of `jd_skills` |
| `SkillOverlap.RatioZeroWithoutJdSkills` | app/main.py:60-63 | when no vocabulary term occurs in the job description the ratio is 0, whatever the resume |
| `SkillOverlap.RatioIgnoresCase` | app/main.py:60-61 | changing the letter case of either text does not change the ratio |
| `SkillOverlap.SkillsInNoDups` | app/main.py:60-63 | when the lower-case forms are distinct, no term is found twice, so `len(jd_skills)` is the number of distinct terms found |
| `SkillOverlap.SkillsDbJdSkillsDistinct` | app/main.py:60-63 | with `SKILLS_DB`, dividing by `len(jd_skills)` is dividing by the number of distinct job-description terms |
| `SkillOverlap.SkillsInBoth` | app/main.py:60-62 | every listed term is a lower-cased vocabulary term found in both texts |
| `SkillOverlap.SkillsInBothComplete` | app/main.py:60-62 | every lower-cased vocabulary term found in both texts is listed |
| `SkillOverlap.OverlapIsSkillsInBoth` | app/main.py:62 | the intersection of `set(jd_skills)` and `set(resume_skills)` is the set of terms found in both texts |
| `SkillOverlap.JdSkillsSplit` | app/main.py:53-60 | each job-description term is either found in the resume or reported missing, so the two counts add up to the length of `jd_skills` |
| `SkillOverlap.SkillsInBothNoDups` | app/main.py:60-62 | when the lower-case forms are distinct, no term is listed twice |
| `SkillOverlap.OverlapPlusMissing` | app/main.py:53-62 | when the vocabulary's lower-case forms are distinct, overlap + number of missing skills = length of `jd_skills` |
| `SkillOverlap.SkillsDbOverlapPlusMissing` | app/main.py:53-62 | the identity above holds for `SKILLS_DB` and any resume and job description |
| `SkillOverlap.SkillsDbFullOverlapIff` | app/main.py:48-63 | with `SKILLS_DB` the ratio is 1 exactly when the job description mentions some term and nothing is reported missing |
| `Seqs.Elems` | app/main.py:62 | `set(xs)` holds exactly the elements of `xs` and is no larger than `xs` |
| `Seqs.NoDupsElemsCard` | app/main.py:62 | a list without repetitions has as many distinct elements as entries |
| `PdfText.ExtractText` | app/main.py:43-46 | the loop returns the page texts joined in page order, with an absent page text counted as "" |
| `PdfText.ConcatAppend` | app/main.py:44-45 | joining two runs of pages gives the two joined texts one after the other |
| `PdfText.PageTextAtOffset` | app/main.py:44-45 | page k's text appears in the result right after the texts of pages 0..k-1 |
| `PdfText.NoneContributesNothing` | app/main.py:45 | a page whose extraction gives nothing adds nothing and does not cut off the pages after it |
| `WorkedExample.TwoTermReport` | app/main.py:48-55 | with terms ["Python", "SQL"], the job description "Requires Python and SQL skills" and the resume "I know Python well", the report is ["SQL"] |
| `WorkedExample.ThreeTermReport` | app/main.py:53 | with the first three `SKILLS_DB` terms the same texts report ["R", "SQL"], because "r" occurs inside "requires" |
| `WorkedExample.TwoTermRatio` | app/main.py:60-63 | with terms ["Python", "SQL"] and the same texts the overlap ratio is 1/2 |

## Left out

- The Streamlit pages (app/main.py:67-198): forms, selectboxes, buttons, reruns, HTML and chart rendering. They are presentation wiring.
- app/db.py: the four SQL statements run through SQLAlchemy. Their behaviour belongs to the database engine.
- Loading the classifier and feature columns, and `predict_interview` (app/main.py:12-30). These are calls into pandas and scikit-learn that return a float. The pie-chart rounding (app/main.py:115) is float arithmetic.
- The spaCy model (app/main.py:15) is loaded but never used.
- The embedding similarity, the weighting `0.7 * sim + 0.3 * overlap`, the scaling by 100 and `round(..., 2)` in `compute_match_score` (app/main.py:58-59, 64-65). These are pretrained-model inference and floating-point arithmetic. Only the overlap term is modelled, as an exact `real`.
- `PyPDF2.PdfReader` and `page.extract_text()`. This is a foreign library, so a document is given as the list of its per-page results.
- Reading and decoding a `.txt` upload (app/main.py:182-183). This is I/O.
- Text.LowerStr: models `str.lower()` on ASCII letters only. Python also lower-cases non-ASCII letters (some of which change length), and the model leaves every non-ASCII character unchanged.
- Python's float division is modelled as exact `real` division, so rounding in the last bit of the ratio is not represented.
