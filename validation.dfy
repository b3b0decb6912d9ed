/** The three form validators of the registration page (script.py:401-413).
    Each returns the list of error messages to show; the empty list means
    the field is valid. */
module Validation {
  import opened Text

  const NameInvalid := "Nom complet invalide."
  const MemberRequired := "Numéro de membre requis."
  const MemberFormatInvalid := "Format du numéro de membre invalide."
  const FeeNotAcknowledged := "Tu dois confirmer que les frais sont compris."

  /** Minimum and maximum length of a member number in the pattern. */
  const MemberMinLength: nat := 3
  const MemberMaxLength: nat := 30

  /** The character class `[A-Za-z0-9\- ]` of the member-number pattern. */
  predicate MemberChar(c: char)
  {
    ('A' <= c <= 'Z') || ('a' <= c <= 'z') || ('0' <= c <= '9') || c == '-' || c == ' '
  }

  /** Full-match semantics of the bounded repetition `C{lo,hi}` of that
      class: `s` is consumed one character at a time, each step using up one
      of the at most `hi` repetitions and one of the at least `lo` owed. */
  predicate RepeatMatch(s: string, lo: nat, hi: nat)
    decreases |s|
  {
    if s == [] then lo == 0
    else hi > 0 && MemberChar(s[0]) && RepeatMatch(s[1..], if lo > 0 then lo - 1 else 0, hi - 1)
  }

  /** `re.fullmatch(r"[A-Za-z0-9\- ]{3,30}", s)` succeeds. */
  predicate MemberPattern(s: string)
  {
    RepeatMatch(s, MemberMinLength, MemberMaxLength)
  }

  /** The repetition matches exactly the strings of allowed characters whose
      length lies between the two bounds. */
  lemma {:induction false} RepeatMatchIff(s: string, lo: nat, hi: nat)
    ensures RepeatMatch(s, lo, hi) <==>
            lo <= |s| <= hi && forall i :: 0 <= i < |s| ==> MemberChar(s[i])
    decreases |s|
  {
    if s != [] {
      var lo' := if lo > 0 then lo - 1 else 0;
      if hi > 0 {
        RepeatMatchIff(s[1..], lo', hi - 1);
        if forall i :: 0 <= i < |s| ==> MemberChar(s[i]) {
          assert forall i :: 0 <= i < |s[1..]| ==> MemberChar(s[1..][i]) by {
            forall i | 0 <= i < |s[1..]| ensures MemberChar(s[1..][i]) {
              assert s[1..][i] == s[i + 1];
            }
          }
        } else if MemberChar(s[0]) {
          var j :| 0 <= j < |s| && !MemberChar(s[j]);
          assert s[1..][j - 1] == s[j];
        }
      }
    }
  }

  /** The member-number pattern in plain terms: 3 to 30 characters, each a
      letter, a digit, a hyphen or a space. */
  lemma MemberPatternIff(s: string)
    ensures MemberPattern(s) <==>
            MemberMinLength <= |s| <= MemberMaxLength && forall i :: 0 <= i < |s| ==> MemberChar(s[i])
  {
    RepeatMatchIff(s, MemberMinLength, MemberMaxLength);
  }

  /** `validate_full_name`: the test `not name` is subsumed by the length
      test, so the name is rejected exactly when its trimmed form is shorter
      than three characters. */
  function ValidateFullName(name: string): (errors: seq<string>)
    ensures errors == (if |Trim(name)| < 3 then [NameInvalid] else [])
  {
    if name == [] || |Trim(name)| < 3 then [NameInvalid] else []
  }

  /** `validate_member_number`: an empty input is "required"; any other input
      is checked, once trimmed, against the member-number pattern. */
  function ValidateMemberNumber(number: string): (errors: seq<string>)
    ensures errors == [] || errors == [MemberRequired] || errors == [MemberFormatInvalid]
    ensures errors == [MemberRequired] <==> number == []
    ensures errors == [MemberFormatInvalid] <==> number != [] && !MemberPattern(Trim(number))
    ensures errors == [] <==> number != [] && MemberPattern(Trim(number))
  {
    if number == [] then [MemberRequired]
    else
      var trimmed := Trim(number);
      if !MemberPattern(trimmed) then [MemberFormatInvalid] else []
  }

  /** `validate_fee_ack`. */
  function ValidateFeeAck(ack: bool): (errors: seq<string>)
    ensures errors == [] <==> ack
    ensures !ack ==> errors == [FeeNotAcknowledged]
  {
    if ack then [] else [FeeNotAcknowledged]
  }

  /** A member number is accepted exactly when, once trimmed, it has 3 to 30
      characters drawn from letters, digits, hyphen and space. */
  lemma MemberNumberAcceptedIff(number: string)
    ensures ValidateMemberNumber(number) == [] <==>
            var t := Trim(number);
            MemberMinLength <= |t| <= MemberMaxLength && forall i :: 0 <= i < |t| ==> MemberChar(t[i])
  {
    MemberPatternIff(Trim(number));
    if ValidateMemberNumber(number) != [] && number == [] {
      assert Trim(number) == [];
    }
  }

  /** A non-empty input made only of white space passes the "required" test
      and fails the format test. */
  lemma BlankMemberNumber(number: string)
    requires number != [] && AllSpace(number)
    ensures ValidateMemberNumber(number) == [MemberFormatInvalid]
  {
    TrimFacts(number);
  }

  /** An accepted member number, once trimmed, is unchanged by a second trim
      and begins and ends with a letter, a digit or a hyphen. */
  lemma AcceptedMemberNumberShape(number: string)
    requires ValidateMemberNumber(number) == []
    ensures var t := Trim(number);
            Trim(t) == t && |t| >= MemberMinLength && t[0] != ' ' && t[|t| - 1] != ' '
            && MemberChar(t[0]) && MemberChar(t[|t| - 1])
  {
    MemberNumberAcceptedIff(number);
    TrimFacts(number);
    TrimIdempotent(number);
  }

  /** The accepted names are those with at least three characters between
      their first and last non-space characters, so a name may carry as few
      as two characters that are not white space. */
  lemma ShortestAcceptedName()
    ensures ValidateFullName("a b") == []
  {
    assert Trim("a b") == "a b" by { TrimUnpadded("a b"); }
  }
}
