/** `getStatusColor` of components/FlightCard.tsx: a free-text flight status, lower-cased,
    is classified by keyword into one of five colour classes, the first keyword group
    that matches deciding. */
module FlightCard {
  import opened Strings

  const Green: string := "text-green-400 bg-green-500/20"
  const Yellow: string := "text-yellow-400 bg-yellow-500/20"
  const Blue: string := "text-blue-400 bg-blue-500/20"
  const Red: string := "text-red-400 bg-red-500/20"
  const Gray: string := "text-gray-400 bg-gray-500/20"

  /** ASCII lower-casing of one character. */
  function LowerChar(c: char): (r: char)
    ensures !('A' <= r <= 'Z')
    ensures 'A' <= c <= 'Z' ==> r as int == c as int + 32
    ensures !('A' <= c <= 'Z') ==> r == c
  {
    if 'A' <= c <= 'Z' then (c as int + 32) as char else c
  }

  /** `toLowerCase`, restricted to ASCII letters. */
  function ToLower(s: string): (r: string)
    ensures |r| == |s|
    ensures forall i :: 0 <= i < |s| ==> r[i] == LowerChar(s[i])
  {
    if s == [] then [] else [LowerChar(s[0])] + ToLower(s[1..])
  }

  /** The lower-cased status mentions `keyword`. */
  ghost predicate Mentions(status: string, keyword: string) {
    Occurs(ToLower(status), keyword)
  }

  /** `getStatusColor`. */
  function StatusColor(status: string): (r: string)
    ensures r == Green <==> Mentions(status, "en route") || Mentions(status, "on time")
    ensures r == Yellow <==>
      !Mentions(status, "en route") && !Mentions(status, "on time") && Mentions(status, "delayed")
    ensures r == Blue <==>
      !Mentions(status, "en route") && !Mentions(status, "on time") && !Mentions(status, "delayed")
      && Mentions(status, "landed")
    ensures r == Red <==>
      !Mentions(status, "en route") && !Mentions(status, "on time") && !Mentions(status, "delayed")
      && !Mentions(status, "landed") && Mentions(status, "cancelled")
    ensures r == Gray <==>
      !Mentions(status, "en route") && !Mentions(status, "on time") && !Mentions(status, "delayed")
      && !Mentions(status, "landed") && !Mentions(status, "cancelled")
  {
    var lowerStatus := ToLower(status);
    if Includes(lowerStatus, "en route") || Includes(lowerStatus, "on time") then Green
    else if Includes(lowerStatus, "delayed") then Yellow
    else if Includes(lowerStatus, "landed") then Blue
    else if Includes(lowerStatus, "cancelled") then Red
    else Gray
  }

  /** The colour is always one of the five classes. */
  lemma StatusColorIsOneOfFive(status: string)
    ensures StatusColor(status) in {Green, Yellow, Blue, Red, Gray}
  {
  }

  /** `a` and `b` differ at most in the case of ASCII letters. */
  predicate SameIgnoringCase(a: string, b: string) {
    |a| == |b| && forall i :: 0 <= i < |a| ==> LowerChar(a[i]) == LowerChar(b[i])
  }

  /** Statuses that differ only in ASCII case get the same colour. */
  lemma StatusColorIgnoresCase(a: string, b: string)
    requires SameIgnoringCase(a, b)
    ensures StatusColor(a) == StatusColor(b)
  {
    assert ToLower(a) == ToLower(b);
  }

  /** Lower-casing twice changes nothing more. */
  lemma ToLowerIdempotent(s: string)
    ensures ToLower(ToLower(s)) == ToLower(s)
  {
  }

  /** The colour depends only on the lower-cased status. */
  lemma StatusColorOfLowered(status: string)
    ensures StatusColor(ToLower(status)) == StatusColor(status)
  {
    ToLowerIdempotent(status);
  }

  /** A keyword with a character the text lacks does not occur in it. */
  lemma AbsentWithoutChar(s: string, keyword: string, i: nat)
    requires i < |keyword| && keyword[i] !in s
    ensures !Occurs(s, keyword)
  {
    forall k
      ensures !OccursAt(s, keyword, k)
    {
      if 0 <= k && k + |keyword| <= |s| {
        assert s[k..k + |keyword|][i] == s[k + i];
      }
    }
  }

  /** A keyword whose first character appears nowhere it could start does not occur. */
  lemma AbsentWithoutStart(s: string, keyword: string)
    requires |keyword| > 0
    requires forall k :: 0 <= k && k + |keyword| <= |s| ==> s[k] != keyword[0]
    ensures !Occurs(s, keyword)
  {
    forall k
      ensures !OccursAt(s, keyword, k)
    {
      if 0 <= k && k + |keyword| <= |s| {
        assert s[k..k + |keyword|][0] == s[k];
      }
    }
  }

  lemma LowerCanceled()
    ensures ToLower("Canceled") == "canceled"
  {
  }

  /** "canceled" holds none of the five keywords. */
  lemma CanceledHasNoKeyword()
    ensures !Occurs("canceled", "en route") && !Occurs("canceled", "on time")
    ensures !Occurs("canceled", "delayed") && !Occurs("canceled", "landed")
    ensures !Occurs("canceled", "cancelled")
  {
    var l := "canceled";
    AbsentWithoutChar(l, "en route", 3);
    AbsentWithoutChar(l, "on time", 0);
    AbsentWithoutChar(l, "delayed", 4);
    AbsentWithoutStart(l, "landed");
  }

  /** The single-l spelling "Canceled" matches no keyword and falls through to gray. */
  lemma CanceledIsGray()
    ensures StatusColor("Canceled") == Gray
  {
    LowerCanceled();
    CanceledHasNoKeyword();
  }
}
