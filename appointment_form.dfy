/**
 * Patient details form (src/components/AppointmentForm.tsx): the phone pattern
 * /^\+?[0-9\s\-()]{7,15}$/, the name length rule and the Patient record it submits.
 */
module AppointmentForm {
  import opened Wrappers
  import opened Api

  /** JavaScript's \s: the whitespace and line-terminator characters of ECMAScript. */
  predicate IsJsWhitespace(c: char) {
    ('\t' <= c <= '\r') || c == ' ' || c == '\U{00A0}' || c == '\U{1680}'
    || ('\U{2000}' <= c <= '\U{200A}') || c == '\U{2028}' || c == '\U{2029}'
    || c == '\U{202F}' || c == '\U{205F}' || c == '\U{3000}' || c == '\U{FEFF}'
  }

  /** The character class [0-9\s\-()]. */
  predicate InPhoneClass(c: char) {
    ('0' <= c <= '9') || IsJsWhitespace(c) || c == '-' || c == '(' || c == ')'
  }

  /** Matches s against the class repeated {lo,hi} times, consuming all of s. */
  predicate MatchesRepeat(s: string, lo: nat, hi: nat)
  {
    if s == [] then lo == 0
    else hi > 0 && InPhoneClass(s[0]) && MatchesRepeat(s[1..], if lo > 0 then lo - 1 else 0, hi - 1)
  }

  /** The anchored pattern: `\+?` tried with and without the sign, then the class {7,15}.
      A match has at least seven characters, and every one after the first is in the class. */
  predicate PhoneMatches(s: string): (r: bool)
    ensures r ==> 7 <= |s| && forall i :: 0 < i < |s| ==> InPhoneClass(s[i])
  {
    MatchesRepeatIff(s, 7, 15);
    if |s| > 0 && s[0] == '+' && MatchesRepeat(s[1..], 7, 15) then
      ClassAfterFirst(s);
      true
    else
      MatchesRepeat(s, 7, 15)
  }

  /** A class match of s[1..] puts every character of s after the first in the class. */
  lemma ClassAfterFirst(s: string)
    requires |s| > 0 && MatchesRepeat(s[1..], 7, 15)
    ensures 8 <= |s| && forall i :: 0 < i < |s| ==> InPhoneClass(s[i])
  {
    MatchesRepeatIff(s[1..], 7, 15);
    forall i | 0 < i < |s| ensures InPhoneClass(s[i]) {
      assert s[i] == s[1..][i - 1];
    }
  }

  lemma {:induction false} MatchesRepeatIff(s: string, lo: nat, hi: nat)
    ensures MatchesRepeat(s, lo, hi) <==>
      lo <= |s| <= hi && forall i :: 0 <= i < |s| ==> InPhoneClass(s[i])
  {
    if s != [] && hi > 0 {
      MatchesRepeatIff(s[1..], if lo > 0 then lo - 1 else 0, hi - 1);
      if hi > 0 && InPhoneClass(s[0]) && forall i :: 0 <= i < |s| - 1 ==> InPhoneClass(s[1..][i]) {
        forall i | 0 <= i < |s| ensures InPhoneClass(s[i]) {
          if i > 0 {
            assert s[i] == s[1..][i - 1];
          }
        }
      }
    }
  }

  /** A phone is accepted iff it is an optional single leading "+" followed by 7 to 15
      characters, each a digit, whitespace, "-", "(" or ")". */
  lemma PhoneAcceptedIff(s: string)
    ensures PhoneMatches(s) <==>
      var body := if |s| > 0 && s[0] == '+' then s[1..] else s;
      7 <= |body| <= 15 && forall i :: 0 <= i < |body| ==> InPhoneClass(body[i])
  {
    MatchesRepeatIff(s, 7, 15);
    if |s| > 0 {
      MatchesRepeatIff(s[1..], 7, 15);
    }
  }

  /** Every accepted phone has 7 to 16 characters and can hold "+" only at position 0. */
  lemma AcceptedPhoneShape(s: string)
    requires PhoneMatches(s)
    ensures 7 <= |s| <= 16
    ensures forall i :: 0 < i < |s| ==> s[i] != '+'
  {
    PhoneAcceptedIff(s);
    if |s| > 0 && s[0] == '+' {
      forall i | 0 < i < |s| ensures s[i] != '+' {
        assert s[i] == s[1..][i - 1];
      }
    }
  }

  /** Six digits are too few. */
  lemma ShortPhoneRejected()
    ensures !PhoneMatches("123456")
  {
    PhoneAcceptedIff("123456");
  }

  /** Sixteen characters are too many without a leading "+". */
  lemma LongPhoneRejected()
    ensures !PhoneMatches("1234567890123456")
  {
    PhoneAcceptedIff("1234567890123456");
  }

  /** The form's own placeholder is accepted. */
  lemma PlaceholderPhoneAccepted()
    ensures PhoneMatches("+1 234 567 8901")
  {
    var body := "1 234 567 8901";
    assert "+1 234 567 8901"[1..] == body;
    assert forall i :: 0 <= i < |body| ==> InPhoneClass(body[i]);
    PhoneAcceptedIff("+1 234 567 8901");
  }

  /** z.string().min(2): at least two characters, no trimming. */
  predicate NameAccepted(name: string): (r: bool)
    ensures r <==> name != [] && name[1..] != []
  {
    |name| >= 2
  }

  /** What the three inputs hold when the form is submitted. */
  datatype FormValues = FormValues(name: string, email: string, phone: string)

  /** The schema check followed by handleSubmit: the library's email verdict is an input.
      A Patient is submitted exactly when all three rules pass, and it carries the three
      field values unchanged. */
  function Submit(values: FormValues, emailAccepted: bool): (r: Option<Patient>)
    ensures r.Some? <==> NameAccepted(values.name) && emailAccepted && PhoneMatches(values.phone)
    ensures r.Some? ==> r.value == Patient(values.name, values.email, values.phone)
  {
    if NameAccepted(values.name) && emailAccepted && PhoneMatches(values.phone) then
      Some(Patient(values.name, values.email, values.phone))
    else
      None
  }

  /** Two blanks pass the name rule: the rule counts characters and does not trim. */
  lemma BlankNameAccepted()
    ensures NameAccepted("  ") && !NameAccepted(" ")
  {
  }
}
