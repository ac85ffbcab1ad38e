/**
 * Validation of the payment transaction ID a user sends in a private chat:
 * whitespace is removed, then the result must be a 9-digit mobile-wallet
 * reference or a 20-digit bank-transfer reference.
 */
module TransactionId {
  import opened Text

  /** Whether the pattern `\d{n}` matches the whole of `s`, one digit at a time. */
  predicate DigitRun(s: string, n: nat)
    decreases n
  {
    if n == 0 then s == [] else s != [] && IsDigit(s[0]) && DigitRun(s[1..], n - 1)
  }

  /** `re.fullmatch(r"\d{9}|\d{20}", t)` succeeds: one of the two alternatives covers all of `t`. */
  predicate FullMatch(t: string) {
    DigitRun(t, 9) || DigitRun(t, 20)
  }

  /** The two accepted shapes, stated without the pattern. */
  predicate WellFormed(t: string) {
    (|t| == 9 || |t| == 20) && AllDigits(t)
  }

  /** `\d{n}` matches exactly the strings of n digits. */
  lemma {:induction false} DigitRunMeaning(s: string, n: nat)
    ensures DigitRun(s, n) <==> |s| == n && AllDigits(s)
    decreases n
  {
    if n > 0 && s != [] {
      DigitRunMeaning(s[1..], n - 1);
      assert AllDigits(s) <==> IsDigit(s[0]) && AllDigits(s[1..]) by {
        if IsDigit(s[0]) && AllDigits(s[1..]) {
          forall i | 0 <= i < |s| ensures IsDigit(s[i]) {
            if i > 0 { assert s[i] == s[1..][i - 1]; }
          }
        }
      }
    }
  }

  /** The pattern accepts a string if and only if it has one of the two shapes. */
  lemma FullMatchMeaning(t: string)
    ensures FullMatch(t) <==> WellFormed(t)
  {
    DigitRunMeaning(t, 9);
    DigitRunMeaning(t, 20);
  }

  /** A well-formed ID with whitespace around it is accepted as the ID itself. */
  lemma PaddedIdAccepted(pre: string, id: string, post: string)
    requires AllSpaces(pre) && AllSpaces(post) && WellFormed(id)
    ensures RemoveSpaces(pre + id + post) == id
    ensures FullMatch(RemoveSpaces(pre + id + post))
  {
    PaddingIgnored(pre, id, post);
    assert NoSpaces(id) by {
      forall i | 0 <= i < |id| ensures !IsSpace(id[i]) { assert IsDigit(id[i]); }
    }
    FullMatchMeaning(id);
  }

  /** Any character that is neither whitespace nor a digit makes the submission invalid. */
  lemma StrayCharacterRejected(text: string, c: char)
    requires c in text && !IsSpace(c) && !IsDigit(c)
    ensures !FullMatch(RemoveSpaces(text))
  {
    RemoveSpacesKeeps(text, c);
    FullMatchMeaning(RemoveSpaces(text));
  }
}
