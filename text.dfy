/** The search match `question ILIKE '%term%'`, read as a case-insensitive
    substring test (ASCII letter case only; the wildcards `%` and `_` and the
    escape character `\` inside the term are not interpreted, so the term
    `a\b` is searched literally rather than as "ab"). */
module Text {

  function LowerChar(c: char): char {
    if 'A' <= c <= 'Z' then (c as int + 32) as char else c
  }

  function UpperChar(c: char): char {
    if 'a' <= c <= 'z' then (c as int - 32) as char else c
  }

  function Lower(s: string): (r: string)
    ensures |r| == |s|
  {
    seq(|s|, i requires 0 <= i < |s| => LowerChar(s[i]))
  }

  function Upper(s: string): (r: string)
    ensures |r| == |s|
  {
    seq(|s|, i requires 0 <= i < |s| => UpperChar(s[i]))
  }

  /** `pat` occurs in `text` starting at position `i`. */
  ghost predicate OccursAt(text: string, pat: string, i: int) {
    0 <= i && i + |pat| <= |text| && text[i..i + |pat|] == pat
  }

  /** Substring test: `pat` is a prefix of `text` or of one of its suffixes. */
  function Contains(text: string, pat: string): bool
    decreases |text|
  {
    pat <= text || (|text| > 0 && Contains(text[1..], pat))
  }

  lemma {:induction false} ContainsIff(text: string, pat: string)
    ensures Contains(text, pat) <==> exists i :: OccursAt(text, pat, i)
    decreases |text|
  {
    if pat <= text {
      assert OccursAt(text, pat, 0);
    } else if |text| == 0 {
    } else {
      ContainsIff(text[1..], pat);
      if Contains(text[1..], pat) {
        var i :| OccursAt(text[1..], pat, i);
        assert text[1..][i..i + |pat|] == text[i + 1..i + 1 + |pat|];
        assert OccursAt(text, pat, i + 1);
      }
      if i :| OccursAt(text, pat, i) {
        if i > 0 {
          assert text[1..][i - 1..i - 1 + |pat|] == text[i..i + |pat|];
          assert OccursAt(text[1..], pat, i - 1);
        }
      }
    }
  }

  /** The search's match of one question text against the term. */
  function ILike(text: string, term: string): bool {
    Contains(Lower(text), Lower(term))
  }

  lemma LowerOfUpper(s: string)
    ensures Lower(Upper(s)) == Lower(s)
  {
    forall i | 0 <= i < |s|
      ensures Lower(Upper(s))[i] == Lower(s)[i]
    {
      var c := s[i];
      if 'a' <= c <= 'z' {
        assert LowerChar(UpperChar(c)) == c == LowerChar(c);
      }
    }
  }

  lemma LowerOfLower(s: string)
    ensures Lower(Lower(s)) == Lower(s)
  {
    forall i | 0 <= i < |s|
      ensures Lower(Lower(s))[i] == Lower(s)[i]
    {
      var c := s[i];
      assert LowerChar(LowerChar(c)) == LowerChar(c);
    }
  }

  /** Letter case matters neither in the question text nor in the term. */
  lemma ILikeIgnoresCase(text: string, term: string)
    ensures ILike(Upper(text), term) == ILike(text, term) == ILike(Lower(text), term)
    ensures ILike(text, Upper(term)) == ILike(text, term) == ILike(text, Lower(term))
  {
    LowerOfUpper(text);
    LowerOfUpper(term);
    LowerOfLower(text);
    LowerOfLower(term);
  }

  /** The match holds exactly when the lower-cased term occurs somewhere in
      the lower-cased text. */
  lemma ILikeIff(text: string, term: string)
    ensures ILike(text, term) <==> exists i :: OccursAt(Lower(text), Lower(term), i)
  {
    ContainsIff(Lower(text), Lower(term));
  }

  /** An empty term matches every text (the pattern is then `%%`). */
  lemma {:induction false} EmptyTermMatchesAll(text: string)
    ensures ILike(text, "")
  {
    assert Lower("") == "";
  }
}
