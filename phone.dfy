/**
 * Phone-number check of the payment form (`validatePhone`): the number must
 * match the regular expression `^07\d{8}$`. The expression is modelled as a
 * sequence of terms, each a character class repeated a fixed number of times,
 * matched against the whole string as the anchors `^` and `$` require.
 */
module Phone {
  import opened Decimal

  /** `0`, `7` (a literal) or `\d` (an ASCII digit, as JavaScript defines it). */
  datatype CharClass = Exactly(c: char) | AnyDigit

  /** A class repeated exactly `count` times: `\d{8}`, or a literal with count 1. */
  datatype Term = Term(cls: CharClass, count: nat)

  predicate ClassMatches(cls: CharClass, c: char) {
    match cls
    case Exactly(x) => c == x
    case AnyDigit => IsAsciiDigit(c)
  }

  /** The whole of `s` matches the anchored pattern. */
  predicate Matches(pattern: seq<Term>, s: string)
    decreases |pattern|
  {
    if pattern == [] then s == []
    else
      var t := pattern[0];
      && t.count <= |s|
      && (forall i :: 0 <= i < t.count ==> ClassMatches(t.cls, s[i]))
      && Matches(pattern[1..], s[t.count..])
  }

  /** Number of characters every match of the pattern has. */
  function Width(pattern: seq<Term>): nat
    decreases |pattern|
  {
    if pattern == [] then 0 else pattern[0].count + Width(pattern[1..])
  }

  lemma {:induction false} MatchesWidth(pattern: seq<Term>, s: string)
    requires Matches(pattern, s)
    ensures |s| == Width(pattern)
  {
    if pattern != [] {
      MatchesWidth(pattern[1..], s[pattern[0].count..]);
    }
  }

  /** `^07\d{8}$` */
  const PhonePattern: seq<Term> := [Term(Exactly('0'), 1), Term(Exactly('7'), 1), Term(AnyDigit, 8)]

  /** `validatePhone`: the whole string matches `^07\d{8}$`. */
  predicate ValidPhone(phone: string)
    ensures ValidPhone(phone) ==> |phone| == Width(PhonePattern) == 10
    ensures ValidPhone(phone) ==> phone[0] == '0' && phone[1] == '7'
  {
    Matches(PhonePattern, phone)
  }

  /** The regular expression accepts exactly the ten-character strings `07` followed by eight digits. */
  lemma ValidPhoneIff(phone: string)
    ensures ValidPhone(phone) <==>
      && |phone| == 10
      && phone[..2] == "07"
      && forall i :: 2 <= i < 10 ==> IsAsciiDigit(phone[i])
  {
  }
}
