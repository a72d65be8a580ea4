/**
 The confirmation step: the user's reply, lower-cased, must equal the keyword
 `gemmit` for the commit to go ahead. Lower-casing is modelled for ASCII
 letters only; every other character is left as it is.
 */
module Confirm {

  const Keyword := "gemmit"

  predicate IsUpper(c: char) {
    'A' <= c <= 'Z'
  }

  predicate IsLower(c: char) {
    'a' <= c <= 'z'
  }

  /** The lower-case form of one character. */
  function LowerChar(c: char): (r: char)
    ensures !IsUpper(r)
    ensures IsUpper(c) ==> IsLower(r) && r as int - c as int == 'a' as int - 'A' as int
    ensures !IsUpper(c) ==> r == c
  {
    if IsUpper(c) then (c as int - 'A' as int + 'a' as int) as char else c
  }

  /** The upper-case form of a lower-case ASCII letter; other characters are
      returned as they are. */
  function UpperChar(c: char): (r: char)
    ensures IsLower(c) ==> IsUpper(r) && LowerChar(r) == c
  {
    if IsLower(c) then (c as int - 'a' as int + 'A' as int) as char else c
  }

  /** The reply lower-cased character by character. */
  function Lower(s: string): (r: string)
    ensures |r| == |s|
    ensures forall i :: 0 <= i < |s| ==> r[i] == LowerChar(s[i])
  {
    seq(|s|, i requires 0 <= i < |s| => LowerChar(s[i]))
  }

  /** Whether the reply confirms the commit. */
  function Confirms(reply: string): (ok: bool)
    ensures ok ==> |reply| == |Keyword|
  {
    Lower(reply) == Keyword
  }

  /** `reply` spells `word` with each letter in either case. */
  ghost predicate IsCaseVariant(reply: string, word: string) {
    && |reply| == |word|
    && forall i :: 0 <= i < |word| ==> reply[i] == word[i] || reply[i] == UpperChar(word[i])
  }

  /** A character lower-cases to a lower-case letter exactly when it is that
      letter or its upper-case form. */
  lemma LowerCharTo(c: char, w: char)
    requires IsLower(w)
    ensures LowerChar(c) == w <==> c == w || c == UpperChar(w)
  {
  }

  /** A reply confirms exactly when it is `gemmit` in any mixture of cases:
      `GEMMIT` and `Gemmit` confirm, `gemmit ` and `yes` do not. */
  lemma {:induction false} ConfirmsIffCaseVariant(reply: string)
    ensures Confirms(reply) <==> IsCaseVariant(reply, Keyword)
  {
    if |reply| == |Keyword| {
      forall i | 0 <= i < |Keyword|
        ensures LowerChar(reply[i]) == Keyword[i] <==> reply[i] == Keyword[i] || reply[i] == UpperChar(Keyword[i])
      {
        LowerCharTo(reply[i], Keyword[i]);
      }
      if IsCaseVariant(reply, Keyword) {
        assert Lower(reply) == Keyword;
      }
    }
  }

  /** Concrete replies. */
  lemma ConfirmExamples()
    ensures Confirms("gemmit") && Confirms("GEMMIT") && Confirms("GeMmIt")
    ensures !Confirms("gemmit ") && !Confirms("yes") && !Confirms("")
  {
    assert Lower("GEMMIT") == Keyword;
    assert Lower("GeMmIt") == Keyword;
    assert Lower("gemmit") == Keyword;
  }
}
