/** The `max-age=<seconds>` directive that both the Strict-Transport-Security
    and the Expect-CT rules write, and its reader. */
module MaxAgeDirectives {
  import opened Shared
  import opened Strings

  /** `max-age=${age}`. */
  function MaxAgeDirective(age: int): string
  {
    "max-age=" + IntToString(age)
  }

  /** Reads a `max-age=<integer>` directive. */
  function ParseMaxAge(directive: string): Option<int>
  {
    if HasPrefix(directive, "max-age=") then ParseInt(directive[8..]) else None
  }

  /** Reading a written directive gives back its number of seconds. */
  lemma MaxAgeRoundTrip(age: int)
    ensures ParseMaxAge(MaxAgeDirective(age)) == Some(age)
  {
    assert MaxAgeDirective(age)[8..] == IntToString(age);
    IntRoundTrip(age);
  }

  /** Each number of seconds is read from exactly one directive, the one
      written for it. */
  lemma MaxAgeReadsOnlyWritten(directive: string, age: int)
    requires ParseMaxAge(directive) == Some(age)
    ensures directive == MaxAgeDirective(age)
  {
    ParseIntOnlyCanonical(directive[8..], age);
    assert directive == directive[..8] + directive[8..];
  }

  /** The directive contains neither of the separators the two rules join
      directives with, nor a space. */
  lemma MaxAgeDirectiveHasNoSeparator(age: int)
    ensures !Contains(MaxAgeDirective(age), "; ")
    ensures !Contains(MaxAgeDirective(age), ", ")
    ensures !Contains(MaxAgeDirective(age), " ")
  {
    IntToStringChars(age);
    var d := MaxAgeDirective(age);
    assert forall k :: 0 <= k < |d| ==> d[k] != ';' && d[k] != ',' && d[k] != ' ' by {
      forall k | 0 <= k < |d| ensures d[k] != ';' && d[k] != ',' && d[k] != ' ' {
        if k >= 8 {
          assert d[k] == IntToString(age)[k - 8];
        }
      }
    }
    MissingCharNoContains(d, "; ");
    MissingCharNoContains(d, ", ");
    MissingCharNoContains(d, " ");
  }
}
