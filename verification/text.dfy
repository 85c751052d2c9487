/**
 * The two string operations the skill matcher is built on: Python's
 * `str.lower()`, modelled as ASCII lower-casing, and the `in` operator on
 * strings, which is plain substring containment (no word boundaries, and
 * the empty string is contained in every string).
 */
module Text {

  predicate IsUpper(c: char) { 'A' <= c <= 'Z' }

  predicate IsAscii(s: string) {
    forall i :: 0 <= i < |s| ==> (s[i] as int) < 128
  }

  /** The lower-case form of one character (ASCII letters only). */
  function Lower(c: char): char {
    if IsUpper(c) then (c as int + 32) as char else c
  }

  /** The upper-case form of one character (ASCII letters only). */
  function Upper(c: char): char {
    if 'a' <= c <= 'z' then (c as int - 32) as char else c
  }

  /** `s.lower()` */
  function LowerStr(s: string): (r: string)
    ensures |r| == |s|
    ensures forall i :: 0 <= i < |r| ==> !IsUpper(r[i])
    ensures forall i :: 0 <= i < |r| ==> r[i] == s[i] || (IsUpper(s[i]) && Upper(r[i]) == s[i])
    ensures IsAscii(s) ==> IsAscii(r)
  {
    seq(|s|, i requires 0 <= i < |s| => Lower(s[i]))
  }

  /** `s.upper()` (used only to state case-insensitivity) */
  function UpperStr(s: string): string {
    seq(|s|, i requires 0 <= i < |s| => Upper(s[i]))
  }

  /** `a` and `b` differ at most in the letter case of their characters. */
  predicate SameIgnoringCase(a: string, b: string) {
    |a| == |b| && forall i :: 0 <= i < |a| ==> Lower(a[i]) == Lower(b[i])
  }

  /** Lower-casing forgets exactly the letter case. */
  lemma LowerStrSameIgnoringCase(a: string, b: string)
    ensures SameIgnoringCase(a, b) <==> LowerStr(a) == LowerStr(b)
  {
    if LowerStr(a) == LowerStr(b) {
      assert |a| == |LowerStr(a)|;
      forall i | 0 <= i < |a| ensures Lower(a[i]) == Lower(b[i]) {
        assert LowerStr(a)[i] == LowerStr(b)[i];
      }
    }
  }

  /** Lower-casing twice is lower-casing once. */
  lemma LowerStrIdempotent(s: string)
    ensures LowerStr(LowerStr(s)) == LowerStr(s)
  {
  }

  /** Upper-casing and lower-casing only change letter case. */
  lemma CaseChangesAreSameIgnoringCase(s: string)
    ensures SameIgnoringCase(s, UpperStr(s))
    ensures SameIgnoringCase(s, LowerStr(s))
  {
  }

  /** `term` occurs in `text` starting at index `i`. */
  predicate OccursAt(text: string, term: string, i: int) {
    0 <= i && i + |term| <= |text| && text[i..i + |term|] == term
  }

  /** `term in text`: substring containment, tried at each start position in turn. */
  predicate Contains(text: string, term: string)
    decreases |text|
  {
    |term| <= |text| && (text[..|term|] == term || Contains(text[1..], term))
  }

  /** `Contains` finds exactly the terms that occur at some position. */
  lemma {:induction false} ContainsIff(text: string, term: string)
    ensures Contains(text, term) <==> exists i :: OccursAt(text, term, i)
    decreases |text|
  {
    if |term| <= |text| {
      if text[..|term|] == term {
        assert OccursAt(text, term, 0);
      } else {
        ContainsIff(text[1..], term);
        if Contains(text[1..], term) {
          var i :| OccursAt(text[1..], term, i);
          assert text[1..][i..i + |term|] == text[i + 1..i + 1 + |term|];
          assert OccursAt(text, term, i + 1);
        }
        if exists i :: OccursAt(text, term, i) {
          var i :| OccursAt(text, term, i);
          assert i != 0;
          assert text[1..][i - 1..i - 1 + |term|] == text[i..i + |term|];
          assert OccursAt(text[1..], term, i - 1);
        }
      }
    }
  }

  /** The empty term is in every text; a non-empty term is in no empty text. */
  lemma ContainsEmpty(text: string, term: string)
    ensures Contains(text, [])
    ensures term != [] ==> !Contains([], term)
  {
  }
}
