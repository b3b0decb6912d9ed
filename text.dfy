/** Python's `str.strip()` with no argument, the only string operation the
    registration code relies on besides comparison and length. */
module Text {

  /** The characters for which Python's `str.isspace()` holds: the set that
      `strip()` removes from both ends. */
  predicate IsSpace(c: char)
  {
    ('\t' <= c <= '\r') || ('\U{1C}' <= c <= '\U{1F}') || c == ' '
    || c == '\U{85}' || c == '\U{A0}' || c == '\U{1680}'
    || ('\U{2000}' <= c <= '\U{200A}') || c == '\U{2028}' || c == '\U{2029}'
    || c == '\U{202F}' || c == '\U{205F}' || c == '\U{3000}'
  }

  /** True when every character of `s` is white space (also when `s` is empty). */
  predicate AllSpace(s: string)
  {
    forall i :: 0 <= i < |s| ==> IsSpace(s[i])
  }

  /** True when `s` neither starts nor ends with white space. */
  predicate Unpadded(s: string)
  {
    s == [] || (!IsSpace(s[0]) && !IsSpace(s[|s| - 1]))
  }

  /** `s.lstrip()`. */
  function TrimStart(s: string): string
  {
    if s != [] && IsSpace(s[0]) then TrimStart(s[1..]) else s
  }

  /** `s.rstrip()`. */
  function TrimEnd(s: string): string
  {
    if s != [] && IsSpace(s[|s| - 1]) then TrimEnd(s[..|s| - 1]) else s
  }

  /** `s.strip()`. Its properties are stated by the lemmas below, so that
      every comparison of trimmed strings elsewhere does not carry them. */
  function Trim(s: string): string
  {
    TrimEnd(TrimStart(s))
  }

  /** `lstrip()` leaves a suffix whose dropped prefix is all white space and
      which does not itself start with white space. */
  lemma {:induction false} TrimStartFacts(s: string)
    ensures var r := TrimStart(s);
            |r| <= |s| && r == s[|s| - |r|..] && AllSpace(s[..|s| - |r|])
            && (r != [] ==> !IsSpace(r[0]))
    decreases |s|
  {
    if s != [] && IsSpace(s[0]) {
      TrimStartFacts(s[1..]);
      var r := TrimStart(s);
      assert s[1..][..|s| - 1 - |r|] == s[1..|s| - |r|];
      assert s[..|s| - |r|] == [s[0]] + s[1..|s| - |r|];
    }
  }

  /** `rstrip()` leaves a prefix whose dropped suffix is all white space and
      which does not itself end with white space. */
  lemma {:induction false} TrimEndFacts(s: string)
    ensures var r := TrimEnd(s);
            |r| <= |s| && r == s[..|r|] && AllSpace(s[|r|..])
            && (r != [] ==> !IsSpace(r[|r| - 1]))
    decreases |s|
  {
    if s != [] && IsSpace(s[|s| - 1]) {
      var s' := s[..|s| - 1];
      TrimEndFacts(s');
      var r := TrimEnd(s);
      assert s'[..|r|] == s[..|r|];
      assert s[|r|..] == s'[|r|..] + [s[|s| - 1]];
    }
  }

  /** The result of `strip()` is the slice of `s` left once the white space
      at both ends is gone: it is empty exactly when `s` is all white space,
      and otherwise starts and ends with a character that is not space. */
  lemma TrimFacts(s: string)
    ensures |Trim(s)| <= |s|
    ensures Unpadded(Trim(s))
    ensures Trim(s) == [] <==> AllSpace(s)
    ensures |TrimStart(s)| <= |s|
    ensures var k := |s| - |TrimStart(s)|;
            k + |Trim(s)| <= |s| && Trim(s) == s[k..k + |Trim(s)|]
            && AllSpace(s[..k]) && AllSpace(s[k + |Trim(s)|..])
  {
    var t := TrimStart(s);
    var k := |s| - |t|;
    var r := TrimEnd(t);
    TrimStartFacts(s);
    TrimEndFacts(t);
    assert t == s[k..];
    assert t[..|r|] == s[k..k + |r|];
    assert s[k + |r|..] == t[|r|..];
    if r == [] {
      assert s == s[..k] + t;
    }
  }

  /** A string that already has no white space at its ends is left alone. */
  lemma TrimUnpadded(s: string)
    requires Unpadded(s)
    ensures Trim(s) == s
  {
  }

  /** `strip()` is idempotent. */
  lemma TrimIdempotent(s: string)
    ensures Trim(Trim(s)) == Trim(s)
  {
    TrimFacts(s);
    TrimUnpadded(Trim(s));
  }

  /** `[c.strip() for c in row]`. */
  function TrimAll(row: seq<string>): (r: seq<string>)
    ensures |r| == |row|
    ensures forall i :: 0 <= i < |row| ==> r[i] == Trim(row[i])
  {
    seq(|row|, i requires 0 <= i < |row| => Trim(row[i]))
  }

  /** Stripping every cell leaves a row unchanged exactly when no cell has
      white space at either end. */
  lemma TrimAllFixedIff(row: seq<string>)
    ensures TrimAll(row) == row <==> forall i :: 0 <= i < |row| ==> Unpadded(row[i])
  {
    if TrimAll(row) == row {
      forall i | 0 <= i < |row| ensures Unpadded(row[i]) {
        TrimFacts(row[i]);
        assert Trim(row[i]) == TrimAll(row)[i];
      }
    }
    if forall i :: 0 <= i < |row| ==> Unpadded(row[i]) {
      forall i | 0 <= i < |row| ensures TrimAll(row)[i] == row[i] {
        TrimUnpadded(row[i]);
      }
    }
  }
}
