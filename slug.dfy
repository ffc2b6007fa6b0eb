/** Slug format and generation (server/src/utils/slug.utils.ts). */
module SlugUtils {
  import opened Common

  /** Every slug the server accepts or generates has exactly this many characters. */
  const SlugLength: nat := 8

  const Digits: string := "0123456789"
  const LowerLetters: string := "abcdefghijklmnopqrstuvwxyz"
  const UpperLetters: string := "ABCDEFGHIJKLMNOPQRSTUVWXYZ"

  /** The custom alphabet given to nanoid: digits, lower-case, upper-case (62 characters). */
  const Alphabet: string := Digits + LowerLetters + UpperLetters

  /** The `k`-th character of the alphabet. */
  function AlphabetChar(k: nat): char
    requires k < 62
  {
    if k < 10 then ('0' as int + k) as char
    else if k < 36 then ('a' as int + k - 10) as char
    else ('A' as int + k - 36) as char
  }

  lemma AlphabetAt(k: nat)
    requires k < 62
    ensures |Alphabet| == 62 && Alphabet[k] == AlphabetChar(k)
  {
    if k < 10 {
      assert Alphabet[k] == Digits[k];
    } else if k < 36 {
      assert Alphabet[k] == LowerLetters[k - 10];
    } else {
      assert Alphabet[k] == UpperLetters[k - 36];
    }
  }

  /** `isValidSlug`: the regular expression `^[0-9a-zA-Z]{8}$`. */
  predicate IsValidSlug(s: string) {
    |s| == SlugLength && forall i :: 0 <= i < |s| ==> IsAlnum(s[i])
  }

  /** The generator's alphabet has 62 distinct characters, and they are
      exactly the characters `isValidSlug` admits. */
  lemma AlphabetIsAlnum()
    ensures |Alphabet| == 62 && Distinct(Alphabet)
    ensures forall c: char :: c in Alphabet <==> IsAlnum(c)
  {
    forall c: char | IsAlnum(c) ensures c in Alphabet {
      var k := if IsDigit(c) then c as int - '0' as int
               else if 'a' <= c <= 'z' then 10 + c as int - 'a' as int
               else 36 + c as int - 'A' as int;
      AlphabetAt(k);
    }
    forall c: char | c in Alphabet ensures IsAlnum(c) {
      var k :| 0 <= k < |Alphabet| && Alphabet[k] == c;
      AlphabetAt(k);
    }
    forall i, j | 0 <= i < j < |Alphabet| ensures Alphabet[i] != Alphabet[j] {
      AlphabetAt(i);
      AlphabetAt(j);
    }
  }

  /** A slug is valid exactly when it has eight characters, each drawn from
      the generator's alphabet; so `-`, `_` and every other length are refused. */
  lemma {:induction false} ValidSlugIsAlphabetWord(s: string)
    ensures IsValidSlug(s) <==> |s| == SlugLength && forall i :: 0 <= i < |s| ==> s[i] in Alphabet
    ensures '-' in s || '_' in s ==> !IsValidSlug(s)
  {
    AlphabetIsAlnum();
  }

  /** `generateSlug`: nanoid draws eight characters from the alphabet; which
      ones is left open (each draw is a nondeterministic choice). */
  method GenerateSlug() returns (s: string)
    ensures IsValidSlug(s)
    ensures forall i :: 0 <= i < |s| ==> s[i] in Alphabet
  {
    AlphabetIsAlnum();
    s := "";
    while |s| < SlugLength
      invariant |s| <= SlugLength
      invariant forall i :: 0 <= i < |s| ==> s[i] in Alphabet
    {
      var k :| 0 <= k < |Alphabet|;
      s := s + [Alphabet[k]];
    }
  }
}
