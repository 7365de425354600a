/**
 * The validator that refuses two whitespace characters in a row (the regular
 * expression `\s\s`), whatever the whitespace characters are.
 */
module NoConsecutiveSpaces {
  import opened Wrappers
  import opened ValidationErrors
  import opened JsText

  /** Positions `i` where `s[i]` and `s[i + 1]` are both whitespace. */
  ghost predicate WhitespacePairAt(s: string, i: int) {
    0 <= i < |s| - 1 && IsWhitespace(s[i]) && IsWhitespace(s[i + 1])
  }

  ghost predicate HasWhitespacePair(s: string) {
    exists i :: WhitespacePairAt(s, i)
  }

  /** `/\s\s/.test(s)`: scans `s` for two adjacent whitespace characters. */
  function TestWhitespacePair(s: string): (found: bool)
    ensures found <==> HasWhitespacePair(s)
  {
    if |s| < 2 then false
    else if IsWhitespace(s[0]) && IsWhitespace(s[1]) then
      assert WhitespacePairAt(s, 0);
      true
    else
      var found := TestWhitespacePair(s[1..]);
      assert forall i :: WhitespacePairAt(s[1..], i) <==> WhitespacePairAt(s, i + 1);
      assert found <==> HasWhitespacePair(s) by {
        if found {
          var i :| WhitespacePairAt(s[1..], i);
          assert WhitespacePairAt(s, i + 1);
        }
        if HasWhitespacePair(s) {
          var i :| WhitespacePairAt(s, i);
          assert i != 0;
          assert WhitespacePairAt(s[1..], i - 1);
        }
      }
      found
  }

  /** `NoConsecutiveSpaces.noConsecutiveSpaces`: `None` is the `null` of an accepted value. */
  function NoConsecutiveSpaces(value: string): (r: Option<ValidationError>)
    ensures r.Some? <==> HasWhitespacePair(value)
    ensures r.Some? ==> r.value == ConsecutiveSpaces
  {
    if TestWhitespacePair(value) then Some(ConsecutiveSpaces) else None
  }

  /** Any whitespace counts, not only the space character: a space then a tab is refused. */
  lemma SpaceThenTabRejected()
    ensures NoConsecutiveSpaces(" \t") == Some(ConsecutiveSpaces)
  {
    assert WhitespacePairAt(" \t", 0);
  }

  /** Strings shorter than two characters are accepted. */
  lemma ShortAccepted(s: string)
    requires |s| < 2
    ensures NoConsecutiveSpaces(s) == None
  {
  }

  /** A word: non-empty and free of whitespace. */
  predicate IsWord(w: string) {
    w != [] && forall i :: 0 <= i < |w| ==> !IsWhitespace(w[i])
  }

  /** Words joined by single spaces are accepted. */
  lemma {:induction false} SingleSpacedWordsAccepted(words: seq<string>)
    requires |words| >= 1
    requires forall k :: 0 <= k < |words| ==> IsWord(words[k])
    ensures NoConsecutiveSpaces(Join(words, ' ')) == None
    ensures Join(words, ' ') != [] && !IsWhitespace(Join(words, ' ')[0])
  {
    var w := words[0];
    assert IsWord(w);
    if |words| > 1 {
      var rest := Join(words[1..], ' ');
      SingleSpacedWordsAccepted(words[1..]);
      var s := Join(words, ' ');
      assert s == w + [' '] + rest;
      assert s[0] == w[0];
      forall i | 0 <= i < |s| - 1 ensures !WhitespacePairAt(s, i) {
        if i < |w| {
          assert s[i] == w[i];
        } else if i == |w| {
          assert s[i + 1] == rest[0];
        } else {
          assert s[i] == rest[i - |w| - 1] && s[i + 1] == rest[i - |w|];
          assert !WhitespacePairAt(rest, i - |w| - 1);
        }
      }
    } else {
      assert Join(words, ' ') == w;
      forall i | 0 <= i < |w| - 1 ensures !WhitespacePairAt(w, i) {
        assert !IsWhitespace(w[i]);
      }
    }
  }

  /** Refusal is monotone: a string with a refused string inside it is refused. */
  lemma RejectedInContext(a: string, s: string, b: string)
    requires NoConsecutiveSpaces(s).Some?
    ensures NoConsecutiveSpaces(a + s + b).Some?
  {
    var i :| WhitespacePairAt(s, i);
    var t := a + s + b;
    assert t[|a| + i] == s[i] && t[|a| + i + 1] == s[i + 1];
    assert WhitespacePairAt(t, |a| + i);
  }
}
