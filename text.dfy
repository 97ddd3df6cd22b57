/** The two string operations the program relies on: `str.split(sep)` and the whitespace stripping inside `float()`. */
module Text {

  /**
   * Python's `str.split(sep)` with an explicit one-character separator: the
   * pieces between consecutive separators, empty pieces kept, at least one piece.
   */
  function Split(s: string, sep: char): (fields: seq<string>)
    ensures |fields| >= 1
  {
    if s == [] then [""]
    else if s[0] == sep then [""] + Split(s[1..], sep)
    else
      var rest := Split(s[1..], sep);
      [[s[0]] + rest[0]] + rest[1..]
  }

  /** Python's `sep.join(fields)`: the inverse of `Split`. */
  function Join(fields: seq<string>, sep: char): string
    requires |fields| >= 1
  {
    if |fields| == 1 then fields[0] else fields[0] + [sep] + Join(fields[1..], sep)
  }

  /** Splitting loses nothing: joining the pieces back gives the original string. */
  lemma {:induction false} JoinSplit(s: string, sep: char)
    ensures Join(Split(s, sep), sep) == s
  {
    if s != [] {
      JoinSplit(s[1..], sep);
      var rest := Split(s[1..], sep);
      if s[0] != sep && |rest| > 1 {
        assert ([[s[0]] + rest[0]] + rest[1..])[1..] == rest[1..];
      }
    }
  }

  /** A string without the separator is a single piece. */
  lemma {:induction false} SplitNoSeparator(s: string, sep: char)
    requires forall i :: 0 <= i < |s| ==> s[i] != sep
    ensures Split(s, sep) == [s]
  {
    if s != [] {
      SplitNoSeparator(s[1..], sep);
      assert [s[0]] + s[1..] == s;
    }
  }

  /** The separator after a separator-free prefix ends the first piece there. */
  lemma {:induction false} SplitAtFirst(a: string, sep: char, b: string)
    requires forall i :: 0 <= i < |a| ==> a[i] != sep
    ensures Split(a + [sep] + b, sep) == [a] + Split(b, sep)
  {
    if a == [] {
      assert a + [sep] + b == [sep] + b;
      assert ([sep] + b)[1..] == b;
    } else {
      var s := a + [sep] + b;
      assert s[1..] == a[1..] + [sep] + b;
      SplitAtFirst(a[1..], sep, b);
      assert [a[0]] + a[1..] == a;
    }
  }

  /** The whitespace `float()` strips from its argument (CPython's `Py_ISSPACE`): space and `\t` to `\r`. */
  predicate IsSpace(c: char) {
    c == ' ' || '\t' <= c <= '\r'
  }

  function TrimStart(s: string): (r: string)
    ensures |r| <= |s| && r == s[|s| - |r|..]
    ensures r == [] || !IsSpace(r[0])
    ensures forall i :: 0 <= i < |s| - |r| ==> IsSpace(s[i])
  {
    if s != [] && IsSpace(s[0]) then TrimStart(s[1..]) else s
  }

  function TrimEnd(s: string): (r: string)
    ensures |r| <= |s| && r == s[..|r|]
    ensures r == [] || !IsSpace(r[|r| - 1])
    ensures forall i :: |r| <= i < |s| ==> IsSpace(s[i])
  {
    if s != [] && IsSpace(s[|s| - 1]) then TrimEnd(s[..|s| - 1]) else s
  }

  /** The stripping `float()` applies to its argument: `IsSpace` characters removed from both ends. */
  function Strip(s: string): string {
    TrimEnd(TrimStart(s))
  }

  predicate AllSpace(s: string) {
    forall i :: 0 <= i < |s| ==> IsSpace(s[i])
  }

  /** Whitespace around a string that neither starts nor ends with whitespace is exactly what `Strip` removes. */
  lemma {:induction false} StripPadded(lead: string, s: string, trail: string)
    requires AllSpace(lead) && AllSpace(trail)
    requires s != [] && !IsSpace(s[0]) && !IsSpace(s[|s| - 1])
    ensures Strip(lead + s + trail) == s
  {
    TrimStartPadded(lead, s + trail);
    assert lead + s + trail == lead + (s + trail);
    TrimEndPadded(s, trail);
  }

  lemma {:induction false} TrimStartPadded(lead: string, s: string)
    requires AllSpace(lead)
    requires s != [] && !IsSpace(s[0])
    ensures TrimStart(lead + s) == s
  {
    var t := lead + s;
    if lead != [] {
      assert t[0] == lead[0] && IsSpace(t[0]);
      assert t[1..] == lead[1..] + s;
      TrimStartPadded(lead[1..], s);
    } else {
      assert t == s;
    }
  }

  lemma {:induction false} TrimEndPadded(s: string, trail: string)
    requires AllSpace(trail)
    requires s != [] && !IsSpace(s[|s| - 1])
    ensures TrimEnd(s + trail) == s
  {
    if trail != [] {
      var t := s + trail;
      assert t[..|t| - 1] == s + trail[..|trail| - 1];
      TrimEndPadded(s, trail[..|trail| - 1]);
    } else {
      assert s + trail == s;
    }
  }
}
