/**
 The string trimming the generator applies to whatever the input field holds
 (`String.prototype.trim` in the component). Whitespace is the set of code
 points ECMAScript counts as WhiteSpace or LineTerminator; `Trim` strips every
 such code point from both ends and nothing else.
 */
module Text {

  /** ECMAScript WhiteSpace (TAB, VT, FF, ZWNBSP and the Unicode "Zs" space
      separators) together with its LineTerminators (LF, CR, LS, PS). */
  predicate IsWhitespace(c: char) {
    || c == '\t' || c == '\U{B}' || c == '\U{C}' || c == ' ' || c == '\U{FEFF}'
    || c == '\U{A0}' || c == '\U{1680}' || ('\U{2000}' <= c <= '\U{200A}')
    || c == '\U{202F}' || c == '\U{205F}' || c == '\U{3000}'
    || c == '\n' || c == '\r' || c == '\U{2028}' || c == '\U{2029}'
  }

  /** A string the component treats as empty once trimmed. */
  predicate AllWhitespace(s: string) {
    forall i :: 0 <= i < |s| ==> IsWhitespace(s[i])
  }

  /** Neither end of `r` is whitespace. */
  predicate IsTrimmed(r: string) {
    r == [] || (!IsWhitespace(r[0]) && !IsWhitespace(r[|r| - 1]))
  }

  /** `r` is what remains of `s` after removing `k` whitespace characters at
      the front and only whitespace characters at the back. */
  predicate StripsTo(s: string, k: nat, r: string) {
    && k + |r| <= |s|
    && s[k..k + |r|] == r
    && AllWhitespace(s[..k])
    && AllWhitespace(s[k + |r|..])
  }

  /** Removes leading whitespace. */
  function TrimStart(s: string): string {
    if s == [] || !IsWhitespace(s[0]) then s else TrimStart(s[1..])
  }

  /** Removes trailing whitespace. */
  function TrimEnd(s: string): string {
    if s == [] || !IsWhitespace(s[|s| - 1]) then s else TrimEnd(s[..|s| - 1])
  }

  /** `TrimStart` keeps a suffix that does not start with whitespace, and
      everything it drops is whitespace. */
  lemma {:induction false} TrimStartSpec(s: string)
    ensures var r := TrimStart(s);
      && |r| <= |s| && r == s[|s| - |r|..]
      && AllWhitespace(s[..|s| - |r|])
      && (r == [] || !IsWhitespace(r[0]))
  {
    if s != [] && IsWhitespace(s[0]) {
      TrimStartSpec(s[1..]);
      var r := TrimStart(s[1..]);
      assert s[..|s| - |r|] == [s[0]] + s[1..][..|s| - 1 - |r|];
    }
  }

  /** `TrimEnd` keeps a prefix that does not end with whitespace, and
      everything it drops is whitespace. */
  lemma {:induction false} TrimEndSpec(s: string)
    ensures var r := TrimEnd(s);
      && |r| <= |s| && r == s[..|r|]
      && AllWhitespace(s[|r|..])
      && (r == [] || !IsWhitespace(r[|r| - 1]))
  {
    if s != [] && IsWhitespace(s[|s| - 1]) {
      TrimEndSpec(s[..|s| - 1]);
      var r := TrimEnd(s[..|s| - 1]);
      assert s[|r|..] == s[..|s| - 1][|r|..] + [s[|s| - 1]];
    }
  }

  /** When what survives trimming has non-whitespace ends, it is empty
      exactly when the whole string was whitespace. */
  lemma StripsToEmptyIff(s: string, k: nat, r: string)
    requires StripsTo(s, k, r) && IsTrimmed(r)
    ensures r == [] <==> AllWhitespace(s)
  {
    if r == [] {
      assert s == s[..k] + s[k..];
    }
  }

  /** `String.prototype.trim`: whitespace removed from both ends. */
  function Trim(s: string): (r: string)
    ensures r == [] <==> AllWhitespace(s)
  {
    TrimSpec(s);
    TrimEnd(TrimStart(s))
  }

  /** The trimmed result is the middle of `s`, both ends of it are
      non-whitespace, and everything cut off was whitespace. */
  lemma TrimSpec(s: string)
    ensures var r := TrimEnd(TrimStart(s));
      && IsTrimmed(r) && (exists k: nat :: StripsTo(s, k, r))
      && (r == [] <==> AllWhitespace(s))
  {
    var a := TrimStart(s);
    TrimStartSpec(s);
    var r := TrimEnd(a);
    TrimEndSpec(a);
    var k := |s| - |a|;
    assert a == s[k..];
    assert s[k..k + |r|] == a[..|r|];
    assert s[k + |r|..] == a[|r|..];
    assert StripsTo(s, k, r);
    StripsToEmptyIff(s, k, r);
  }

  /** Two ways of cutting whitespace off the ends of `s` that both leave
      non-whitespace ends agree on what is left. */
  lemma TrimmedStripIsUnique(s: string, k1: nat, r1: string, k2: nat, r2: string)
    requires StripsTo(s, k1, r1) && IsTrimmed(r1)
    requires StripsTo(s, k2, r2) && IsTrimmed(r2)
    ensures r1 == r2
  {
    StripsToEmptyIff(s, k1, r1);
    StripsToEmptyIff(s, k2, r2);
    if r1 != [] {
      assert s[k1] == r1[0] && s[k2] == r2[0];
      var e1, e2 := k1 + |r1|, k2 + |r2|;
      assert s[e1 - 1] == r1[|r1| - 1] && s[e2 - 1] == r2[|r2| - 1];
    }
  }

  /** Independent characterisation of `Trim`: any whitespace-only cut from
      both ends that leaves non-whitespace ends is the trim. */
  lemma TrimCharacterized(s: string, k: nat, r: string)
    requires StripsTo(s, k, r) && IsTrimmed(r)
    ensures Trim(s) == r
  {
    var t := Trim(s);
    TrimSpec(s);
    var j: nat :| StripsTo(s, j, t);
    TrimmedStripIsUnique(s, j, t, k, r);
  }

  /** Trimming twice is trimming once. */
  lemma TrimIdempotent(s: string)
    ensures Trim(Trim(s)) == Trim(s)
  {
    var t := Trim(s);
    TrimSpec(s);
    assert t[0..0 + |t|] == t && t[..0] == [] && t[|t|..] == [];
    TrimCharacterized(t, 0, t);
  }
}
