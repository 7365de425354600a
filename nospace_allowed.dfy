/**
 * The validator that refuses a value containing the space character U+0020;
 * a `null` value is accepted.
 */
module NoSpaceAllowed {
  import opened Wrappers
  import opened ValidationErrors
  import opened JsText

  /** `NoSpaceAllowed.noSpaceAllowed`: `value` is `None` for a `null` control value. */
  function NoSpaceAllowed(value: Option<string>): (r: Option<ValidationError>)
    ensures r.Some? <==> value.Some? && ' ' in value.value
    ensures r.Some? ==> r.value == ValidationError.NoSpaceAllowed
  {
    if value.Some? && IndexOf(value.value, ' ') != -1 then Some(ValidationError.NoSpaceAllowed) else None
  }

  /** A `null` value is accepted. */
  lemma NullAccepted()
    ensures NoSpaceAllowed(None) == None
  {
  }

  /** Only U+0020 counts: other whitespace such as a tab passes. */
  lemma OtherWhitespaceAccepted(s: string)
    requires ' ' !in s
    ensures NoSpaceAllowed(Some(s)) == None
    ensures NoSpaceAllowed(Some(s + "\t")) == None
  {
    assert ' ' !in s + "\t" by {
      forall i | 0 <= i < |s| + 1 ensures (s + "\t")[i] != ' ' {
        if i < |s| { assert (s + "\t")[i] == s[i]; }
      }
    }
  }

  /** A concatenation is refused exactly when one of its halves is. */
  lemma ConcatenationRejected(s: string, t: string)
    ensures NoSpaceAllowed(Some(s + t)).Some?
        <==> NoSpaceAllowed(Some(s)).Some? || NoSpaceAllowed(Some(t)).Some?
  {
    if ' ' in s + t {
      var i :| 0 <= i < |s + t| && (s + t)[i] == ' ';
      if i < |s| { assert s[i] == ' '; } else { assert t[i - |s|] == ' '; }
    }
    if ' ' in t {
      var j :| 0 <= j < |t| && t[j] == ' ';
      assert (s + t)[|s| + j] == ' ';
    }
  }
}
