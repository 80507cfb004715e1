/** The JavaScript string operations the rules build header values with
    (`Array.prototype.join`, template-literal rendering of integers,
    `String.prototype.trim`) and the inverses the header decoders use
    (`split`, integer parsing). */
module Strings {
  import opened Shared

  // ---------------------------------------------------------------- join

  /** `parts.join(sep)`. */
  function Join(parts: seq<string>, sep: string): string
  {
    if |parts| == 0 then ""
    else if |parts| == 1 then parts[0]
    else parts[0] + sep + Join(parts[1..], sep)
  }

  /** Joining one more part appends the separator and the part. */
  lemma {:induction false} JoinAppend(parts: seq<string>, x: string, sep: string)
    requires parts != []
    ensures Join(parts + [x], sep) == Join(parts, sep) + sep + x
  {
    if |parts| == 1 {
      assert parts + [x] == [parts[0], x];
      assert [parts[0], x][1..] == [x];
    } else {
      assert (parts + [x])[1..] == parts[1..] + [x];
      JoinAppend(parts[1..], x, sep);
    }
  }

  /** A join starts with its first part. */
  lemma {:induction false} JoinStartsWithFirst(parts: seq<string>, sep: string)
    requires parts != []
    ensures HasPrefix(Join(parts, sep), parts[0])
  {
  }

  /** Joining two non-empty lists is joining each and putting the
      separator between them. */
  lemma {:induction false} JoinConcat(a: seq<string>, b: seq<string>, sep: string)
    requires a != [] && b != []
    ensures Join(a + b, sep) == Join(a, sep) + sep + Join(b, sep)
  {
    if |a| == 1 {
      assert (a + b)[1..] == b;
    } else {
      assert (a + b)[1..] == a[1..] + b;
      JoinConcat(a[1..], b, sep);
    }
  }

  /** The character `c` does not occur in `s`. */
  predicate Avoids(s: string, c: char)
  {
    forall k :: 0 <= k < |s| ==> s[k] != c
  }

  /** A join avoids every character that its parts and its separator avoid. */
  lemma {:induction false} JoinAvoids(parts: seq<string>, sep: string, c: char)
    requires Avoids(sep, c)
    requires forall k :: 0 <= k < |parts| ==> Avoids(parts[k], c)
    ensures Avoids(Join(parts, sep), c)
  {
    if |parts| > 1 {
      JoinAvoids(parts[1..], sep, c);
      assert Avoids(parts[0], c);
      var rest := Join(parts[1..], sep);
      assert Avoids(rest, c);
      assert forall k :: 0 <= k < |parts[0] + sep + rest| ==>
        (parts[0] + sep + rest)[k] == (if k < |parts[0]| then parts[0][k]
                                       else if k < |parts[0]| + |sep| then sep[k - |parts[0]|]
                                       else rest[k - |parts[0]| - |sep|]);
    } else if |parts| == 1 {
      assert Avoids(parts[0], c);
    }
  }

  // ------------------------------------------------------------- prefixes

  predicate HasPrefix(s: string, p: string)
  {
    |p| <= |s| && s[..|p|] == p
  }

  // ---------------------------------------------------------------- split

  /** `pat` occurs in `s` starting at index `i`. */
  predicate OccursAt(s: string, pat: string, i: nat)
  {
    i + |pat| <= |s| && s[i..i + |pat|] == pat
  }

  predicate Contains(s: string, pat: string)
  {
    exists i | 0 <= i <= |s| :: OccursAt(s, pat, i)
  }

  /** No proper non-empty prefix of `sep` is also a suffix of it, so an
      occurrence of `sep` cannot start inside the text before another. */
  predicate BorderFree(sep: string)
  {
    forall k :: 0 < k < |sep| ==> sep[k..] != sep[..|sep| - k]
  }

  /** `s.split(sep)` for a non-empty separator, looking for the next
      occurrence of `sep` from index `i` on. */
  function SplitFrom(s: string, sep: string, i: nat): (r: seq<string>)
    requires |sep| > 0 && i <= |s|
    ensures |r| > 0 && Join(r, sep) == s
    ensures HasPrefix(s, r[0])
    decreases |s|, |s| - i
  {
    if i + |sep| > |s| then [s]
    else if s[i..i + |sep|] == sep then
      var rest := SplitFrom(s[i + |sep|..], sep, 0);
      assert s == s[..i] + sep + s[i + |sep|..];
      [s[..i]] + rest
    else SplitFrom(s, sep, i + 1)
  }

  /** `s.split(sep)`: the pieces between the occurrences of `sep`; joining
      them again gives back `s`. */
  function Split(s: string, sep: string): (r: seq<string>)
    requires |sep| > 0
    ensures |r| > 0 && Join(r, sep) == s
    ensures HasPrefix(s, r[0])
  {
    SplitFrom(s, sep, 0)
  }

  /** A string without the character `pat[0]` does not contain `pat`. */
  lemma MissingCharNoContains(s: string, pat: string)
    requires |pat| > 0
    requires forall k :: 0 <= k < |s| ==> s[k] != pat[0]
    ensures !Contains(s, pat)
  {
    forall i: nat ensures !OccursAt(s, pat, i) {
      if i + |pat| <= |s| {
        assert s[i..i + |pat|][0] == s[i];
      }
    }
  }

  lemma {:induction false} SplitFromNoOccurrence(s: string, sep: string, i: nat)
    requires |sep| > 0 && i <= |s| && !Contains(s, sep)
    ensures SplitFrom(s, sep, i) == [s]
    decreases |s| - i
  {
    if i + |sep| <= |s| {
      assert !OccursAt(s, sep, i);
      SplitFromNoOccurrence(s, sep, i + 1);
    }
  }

  /** In `p + sep + rest`, with `p` free of `sep`, the first occurrence of
      a border-free `sep` is the one after `p`. */
  lemma NoOccurrenceInsideFirst(p: string, sep: string, rest: string, i: nat)
    requires |sep| > 0 && BorderFree(sep) && !Contains(p, sep) && i < |p|
    ensures !OccursAt(p + sep + rest, sep, i)
  {
    var s := p + sep + rest;
    if i + |sep| <= |p| {
      assert s[i..i + |sep|] == p[i..i + |sep|];
      assert !OccursAt(p, sep, i);
    } else if i + |sep| <= |s| {
      var k := |p| - i;
      assert s[i..i + |sep|][k..] == sep[..|sep| - k];
      assert sep[k..] != sep[..|sep| - k];
    }
  }

  lemma {:induction false} SplitFromSkip(p: string, sep: string, rest: string, i: nat)
    requires |sep| > 0 && BorderFree(sep) && !Contains(p, sep) && i <= |p|
    ensures SplitFrom(p + sep + rest, sep, i) == [p] + Split(rest, sep)
    decreases |p| - i
  {
    var s := p + sep + rest;
    if i == |p| {
      assert s[i..i + |sep|] == sep;
      assert s[..i] == p;
      assert s[i + |sep|..] == rest;
    } else {
      NoOccurrenceInsideFirst(p, sep, rest, i);
      SplitFromSkip(p, sep, rest, i + 1);
    }
  }

  /** Splitting stops at the first separator when the text before it is
      free of the separator. */
  lemma SplitCons(p: string, sep: string, rest: string)
    requires |sep| > 0 && BorderFree(sep) && !Contains(p, sep)
    ensures Split(p + sep + rest, sep) == [p] + Split(rest, sep)
  {
    SplitFromSkip(p, sep, rest, 0);
  }

  /** Split undoes Join when no part contains the (border-free) separator. */
  lemma {:induction false} SplitJoin(parts: seq<string>, sep: string)
    requires |parts| > 0 && |sep| > 0 && BorderFree(sep)
    requires forall k :: 0 <= k < |parts| ==> !Contains(parts[k], sep)
    ensures Split(Join(parts, sep), sep) == parts
  {
    if |parts| == 1 {
      SplitFromNoOccurrence(parts[0], sep, 0);
    } else {
      SplitCons(parts[0], sep, Join(parts[1..], sep));
      SplitJoin(parts[1..], sep);
    }
  }

  /** Splitting a join followed by more text gives back the joined parts,
      then the pieces of that text. */
  lemma {:induction false} SplitAfterJoin(parts: seq<string>, sep: string, rest: string)
    requires |parts| > 0 && |sep| > 0 && BorderFree(sep)
    requires forall k :: 0 <= k < |parts| ==> !Contains(parts[k], sep)
    ensures Split(Join(parts, sep) + sep + rest, sep) == parts + Split(rest, sep)
  {
    if |parts| == 1 {
      SplitCons(parts[0], sep, rest);
    } else {
      var tail := parts[1..];
      var more := Join(tail, sep) + sep + rest;
      assert Join(parts, sep) == parts[0] + sep + Join(tail, sep);
      assert Join(parts, sep) + sep + rest == parts[0] + sep + more;
      assert Split(parts[0] + sep + more, sep) == [parts[0]] + Split(more, sep) by {
        SplitCons(parts[0], sep, more);
      }
      assert Split(more, sep) == tail + Split(rest, sep) by {
        assert forall k :: 0 <= k < |tail| ==> tail[k] == parts[k + 1];
        SplitAfterJoin(tail, sep, rest);
      }
      assert parts == [parts[0]] + tail;
    }
  }

  /** The separators the rules use have no border. */
  lemma SeparatorsBorderFree()
    ensures BorderFree("; ") && BorderFree(", ") && BorderFree(" ")
  {
    assert "; "[1..] == " " != ";" == "; "[..1];
    assert ", "[1..] == " " != "," == ", "[..1];
  }

  // -------------------------------------------------------------- numbers

  predicate IsDigit(c: char) { '0' <= c <= '9' }

  predicate AllDigits(s: string) { forall k :: 0 <= k < |s| ==> IsDigit(s[k]) }

  function DigitValue(c: char): nat
    requires IsDigit(c)
  {
    c as int - '0' as int
  }

  function DigitChar(d: nat): (c: char)
    requires d < 10
    ensures IsDigit(c) && DigitValue(c) == d
  {
    ('0' as int + d) as char
  }

  /** The value of a string of decimal digits. */
  function DigitsValue(s: string): nat
    requires AllDigits(s)
  {
    if s == [] then 0 else DigitsValue(s[..|s| - 1]) * 10 + DigitValue(s[|s| - 1])
  }

  /** The decimal digits of `n`, most significant first: what a template
      literal writes for a non-negative integer. */
  function NatToString(n: nat): (r: string)
    ensures Canonical(r) && DigitsValue(r) == n
  {
    if n < 10 then [DigitChar(n)]
    else
      var prefix := NatToString(n / 10);
      var r := prefix + [DigitChar(n % 10)];
      assert r[..|r| - 1] == prefix;
      r
  }

  /** `${n}` for an integer `n`. */
  function IntToString(n: int): string
  {
    if n < 0 then "-" + NatToString(-n) else NatToString(n)
  }

  /** One or more decimal digits without a leading zero (except "0" itself). */
  predicate Canonical(s: string)
  {
    s != [] && AllDigits(s) && (s[0] == '0' ==> |s| == 1)
  }

  /** An integer as `${n}` writes it: an optional minus sign (never before
      "0") followed by canonical digits. */
  function ParseInt(s: string): Option<int>
  {
    if |s| > 1 && s[0] == '-' && Canonical(s[1..]) && s[1..] != "0" then Some(-(DigitsValue(s[1..]) as int))
    else if Canonical(s) then Some(DigitsValue(s))
    else None
  }

  /** Canonical digits start with a non-zero digit unless they are "0". */
  lemma CanonicalPositive(s: string)
    requires Canonical(s) && s != "0"
    ensures DigitsValue(s) > 0
  {
    if |s| == 1 {
      assert s == [s[0]];
    } else {
      var p := s[..|s| - 1];
      assert p[0] == s[0];
      CanonicalPositive(p);
    }
  }

  /** Canonical digits are the rendering of their value. */
  lemma {:induction false} CanonicalDigits(s: string)
    requires Canonical(s)
    ensures s == NatToString(DigitsValue(s))
  {
    if |s| == 1 {
      assert s == [s[0]];
    } else {
      var p := s[..|s| - 1];
      assert p[0] == s[0];
      assert Canonical(p);
      CanonicalPositive(p);
      CanonicalDigits(p);
      var m, d := DigitsValue(p), DigitValue(s[|s| - 1]);
      assert DigitsValue(s) == m * 10 + d;
      assert (m * 10 + d) / 10 == m && (m * 10 + d) % 10 == d;
      assert DigitChar(d) == s[|s| - 1];
      assert s == p + [s[|s| - 1]];
    }
  }

  /** Only `${n}` parses to `n`: the parser reads each integer from exactly
      one text. */
  lemma ParseIntOnlyCanonical(s: string, n: int)
    requires ParseInt(s) == Some(n)
    ensures s == IntToString(n)
  {
    if |s| > 1 && s[0] == '-' && Canonical(s[1..]) && s[1..] != "0" {
      CanonicalDigits(s[1..]);
      CanonicalPositive(s[1..]);
      assert s == "-" + s[1..];
    } else {
      CanonicalDigits(s);
    }
  }

  /** Rendering an integer and parsing it back gives the integer. */
  lemma IntRoundTrip(n: int)
    ensures ParseInt(IntToString(n)) == Some(n)
  {
    if n < 0 {
      assert IntToString(n)[1..] == NatToString(-n);
    } else {
      assert IsDigit(IntToString(n)[0]);
    }
  }

  /** A rendered integer holds only digits and a minus sign. */
  lemma IntToStringChars(n: int)
    ensures forall k :: 0 <= k < |IntToString(n)| ==> IsDigit(IntToString(n)[k]) || IntToString(n)[k] == '-'
  {
  }

  // ----------------------------------------------------------------- trim

  /** The characters `String.prototype.trim` removes: white space and line
      terminators. */
  predicate IsJsWhitespace(c: char)
  {
    || c == ' ' || c == '\t' || c == '\n' || c == '\r'
    || c == '\U{000B}' || c == '\U{000C}' || c == '\U{00A0}' || c == '\U{1680}'
    || ('\U{2000}' <= c <= '\U{200A}')
    || c == '\U{2028}' || c == '\U{2029}' || c == '\U{202F}' || c == '\U{205F}'
    || c == '\U{3000}' || c == '\U{FEFF}'
  }

  function TrimStart(s: string): string
  {
    if s != [] && IsJsWhitespace(s[0]) then TrimStart(s[1..]) else s
  }

  function TrimEnd(s: string): string
  {
    if s != [] && IsJsWhitespace(s[|s| - 1]) then TrimEnd(s[..|s| - 1]) else s
  }

  /** `s.trim()`. */
  function Trim(s: string): string
  {
    TrimEnd(TrimStart(s))
  }

  /** Trimming text that begins and ends with visible characters and is
      followed by one space removes exactly that space. */
  lemma TrimTrailingSpace(x: string)
    requires x != [] && !IsJsWhitespace(x[0]) && !IsJsWhitespace(x[|x| - 1])
    ensures Trim(x + " ") == x
  {
    assert TrimStart(x + " ") == x + " ";
    assert (x + " ")[..|x|] == x;
    assert TrimEnd(x + " ") == TrimEnd(x) == x;
  }
}
