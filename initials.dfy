/**
 * `getInitials(name)`: the name is split on the space character and the first
 * character of each part, upper-cased, is kept; an empty part contributes
 * nothing. The user list and the conversation view define the same helper.
 */
module Initials {
  import opened JsText

  /** `part.charAt(0).toUpperCase()`. */
  function InitialOf(part: string): (r: string)
    ensures r == "" <==> part == ""
    ensures r != "" ==> |r| == 1 && r[0] == ToUpperAscii(part[0])
    ensures forall i :: 0 <= i < |r| ==> !IsLowerCase(r[i])
  {
    if part == "" then "" else [ToUpperAscii(part[0])]
  }

  /** `parts.map(part => part.charAt(0).toUpperCase()).join('')`. */
  function InitialsOfParts(parts: seq<string>): (r: string)
    ensures |r| <= |parts|
    ensures forall i :: 0 <= i < |r| ==> !IsLowerCase(r[i])
  {
    if parts == [] then "" else InitialOf(parts[0]) + InitialsOfParts(parts[1..])
  }

  /** `getInitials(name)`: at most one initial per space-separated part. */
  function GetInitials(name: string): (r: string)
    ensures |r| <= Occurrences(name, ' ') + 1
  {
    SplitCount(name, ' ');
    InitialsOfParts(Split(name, ' '))
  }

  /** The initials of consecutive parts are the concatenated initials, so their order is kept. */
  lemma {:induction false} InitialsConcat(a: seq<string>, b: seq<string>)
    ensures InitialsOfParts(a + b) == InitialsOfParts(a) + InitialsOfParts(b)
  {
    if a == [] {
      assert a + b == b;
    } else {
      assert (a + b)[0] == a[0] && (a + b)[1..] == a[1..] + b;
      InitialsConcat(a[1..], b);
    }
  }

  /** Non-empty parts give exactly one initial each, in order. */
  lemma {:induction false} InitialsOfNonEmptyParts(parts: seq<string>)
    requires forall k :: 0 <= k < |parts| ==> parts[k] != ""
    ensures |InitialsOfParts(parts)| == |parts|
    ensures forall k :: 0 <= k < |parts| ==> InitialsOfParts(parts)[k] == ToUpperAscii(parts[k][0])
  {
    if parts != [] {
      InitialsOfNonEmptyParts(parts[1..]);
    }
  }

  /** Words joined by single spaces give the upper-cased first letter of each word. */
  lemma InitialsOfWords(words: seq<string>)
    requires |words| >= 1
    requires forall k :: 0 <= k < |words| ==> words[k] != "" && ' ' !in words[k]
    ensures |GetInitials(Join(words, ' '))| == |words|
    ensures forall k :: 0 <= k < |words| ==> GetInitials(Join(words, ' '))[k] == ToUpperAscii(words[k][0])
  {
    JoinSplit(words, ' ');
    InitialsOfNonEmptyParts(words);
  }
}
