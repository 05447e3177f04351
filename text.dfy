/**
  String helpers shared by the file tree and the editor window: the
  OrdinalIgnoreCase ordering used to sort tree entries, case-insensitive
  suffix tests used for the Markdown extensions, .NET's whitespace class with
  Trim / IsNullOrWhiteSpace, decimal rendering and parsing of counters
  ("heading-7", a row count typed into a dialog), and an optional value.
*/
module Text {

  /** A value that may be absent: an optional regex group, a number that failed to parse. */
  datatype Option<T> = None | Some(value: T)

  // ---------------------------------------------------------------------
  // Case folding and OrdinalIgnoreCase comparison
  // ---------------------------------------------------------------------

  /** Upper-case mapping used by ordinal case-insensitive comparison (ASCII letters only). */
  function FoldChar(c: char): (u: char)
    ensures 'a' <= c <= 'z' ==> u as int == c as int - 32
    ensures !('a' <= c <= 'z') ==> u == c
    ensures !('a' <= u <= 'z')
  {
    if 'a' <= c <= 'z' then (c as int - 32) as char else c
  }

  /** Two characters are equal under OrdinalIgnoreCase. */
  predicate SameIgnoreCase(a: char, b: char)
  {
    FoldChar(a) == FoldChar(b)
  }

  /**
    `a` sorts at or before `b` under StringComparer.OrdinalIgnoreCase:
    character codes of the folded strings compared left to right, a proper
    prefix first.
  */
  predicate LessEqIgnoreCase(a: string, b: string)
    decreases |a|
  {
    if a == [] then true
    else if b == [] then false
    else if FoldChar(a[0]) < FoldChar(b[0]) then true
    else if FoldChar(a[0]) > FoldChar(b[0]) then false
    else LessEqIgnoreCase(a[1..], b[1..])
  }

  lemma {:induction false} LessEqIgnoreCaseReflexive(a: string)
    ensures LessEqIgnoreCase(a, a)
    decreases |a|
  {
    if a != [] {
      LessEqIgnoreCaseReflexive(a[1..]);
    }
  }

  lemma {:induction false} LessEqIgnoreCaseTotal(a: string, b: string)
    ensures LessEqIgnoreCase(a, b) || LessEqIgnoreCase(b, a)
    decreases |a|
  {
    if a != [] && b != [] && FoldChar(a[0]) == FoldChar(b[0]) {
      LessEqIgnoreCaseTotal(a[1..], b[1..]);
    }
  }

  lemma {:induction false} LessEqIgnoreCaseTransitive(a: string, b: string, c: string)
    requires LessEqIgnoreCase(a, b) && LessEqIgnoreCase(b, c)
    ensures LessEqIgnoreCase(a, c)
    decreases |a|
  {
    if a != [] && b != [] && c != []
       && FoldChar(a[0]) == FoldChar(b[0]) && FoldChar(b[0]) == FoldChar(c[0]) {
      LessEqIgnoreCaseTransitive(a[1..], b[1..], c[1..]);
    }
  }

  /** Two strings that sort at or before each other differ only in letter case. */
  lemma {:induction false} LessEqIgnoreCaseAntisymmetric(a: string, b: string)
    requires LessEqIgnoreCase(a, b) && LessEqIgnoreCase(b, a)
    ensures |a| == |b|
    ensures forall i :: 0 <= i < |a| ==> SameIgnoreCase(a[i], b[i])
    decreases |a|
  {
    if a != [] {
      LessEqIgnoreCaseAntisymmetric(a[1..], b[1..]);
      assert forall i :: 1 <= i < |a| ==> a[i] == a[1..][i - 1] && b[i] == b[1..][i - 1];
    }
  }

  /** `s` ends with `suffix`, letters compared case-insensitively (the OS wildcard `*<suffix>`). */
  predicate EndsWithIgnoreCase(s: string, suffix: string)
  {
    |suffix| <= |s| &&
    forall i :: 0 <= i < |suffix| ==> SameIgnoreCase(s[|s| - |suffix| + i], suffix[i])
  }

  /** String.StartsWith under ordinal comparison. */
  predicate StartsWith(s: string, prefix: string)
  {
    |prefix| <= |s| && s[..|prefix|] == prefix
  }

  /** String.Contains under ordinal comparison: `sub` occurs somewhere in `s`. */
  predicate Contains(s: string, sub: string)
    decreases |s|
  {
    StartsWith(s, sub) || (s != [] && Contains(s[1..], sub))
  }

  /** `sub` occurs in `s` starting at position `i`. */
  predicate OccursAt(s: string, sub: string, i: int)
  {
    0 <= i && i + |sub| <= |s| && s[i..i + |sub|] == sub
  }

  /** Contains means an occurrence at some position, and every occurrence counts. */
  lemma {:induction false} ContainsIffOccurs(s: string, sub: string)
    ensures Contains(s, sub) <==> exists i :: OccursAt(s, sub, i)
    decreases |s|
  {
    if s == [] {
      if Contains(s, sub) {
        assert OccursAt(s, sub, 0);
      }
      if exists i :: OccursAt(s, sub, i) {
        var i :| OccursAt(s, sub, i);
        assert i == 0 && s[..|sub|] == sub;
      }
    } else {
      ContainsIffOccurs(s[1..], sub);
      if Contains(s[1..], sub) {
        var i :| OccursAt(s[1..], sub, i);
        assert s[i + 1..i + 1 + |sub|] == s[1..][i..i + |sub|];
        assert OccursAt(s, sub, i + 1);
      }
      if StartsWith(s, sub) {
        assert OccursAt(s, sub, 0);
      }
      if exists i :: OccursAt(s, sub, i) {
        var i :| OccursAt(s, sub, i);
        if i > 0 {
          assert s[1..][i - 1..i - 1 + |sub|] == s[i..i + |sub|];
          assert OccursAt(s[1..], sub, i - 1);
        } else {
          assert s[..|sub|] == s[0..|sub|];
        }
      }
    }
  }

  // ---------------------------------------------------------------------
  // Whitespace, Trim and IsNullOrWhiteSpace
  // ---------------------------------------------------------------------

  /** Char.IsWhiteSpace: the Unicode White_Space characters. */
  predicate IsWhiteSpace(c: char)
  {
    ('\U{0009}' <= c <= '\U{000D}') || c == ' ' || c == '\U{0085}' || c == '\U{00A0}'
    || c == '\U{1680}' || ('\U{2000}' <= c <= '\U{200A}') || c == '\U{2028}' || c == '\U{2029}'
    || c == '\U{202F}' || c == '\U{205F}' || c == '\U{3000}'
  }

  /** String.IsNullOrWhiteSpace: empty, or whitespace only. */
  predicate IsNullOrWhiteSpace(s: string)
  {
    forall i :: 0 <= i < |s| ==> IsWhiteSpace(s[i])
  }

  /** String.TrimStart: `s` without its leading whitespace. */
  function TrimStart(s: string): string
  {
    if s != [] && IsWhiteSpace(s[0]) then TrimStart(s[1..]) else s
  }

  /** String.TrimEnd: `s` without its trailing whitespace. */
  function TrimEnd(s: string): string
  {
    if s != [] && IsWhiteSpace(s[|s| - 1]) then TrimEnd(s[..|s| - 1]) else s
  }

  /** TrimStart keeps a suffix that does not start with whitespace and cuts only whitespace. */
  lemma {:induction false} TrimStartCuts(s: string)
    ensures |TrimStart(s)| <= |s| && TrimStart(s) == s[|s| - |TrimStart(s)|..]
    ensures TrimStart(s) == [] || !IsWhiteSpace(TrimStart(s)[0])
    ensures forall i :: 0 <= i < |s| - |TrimStart(s)| ==> IsWhiteSpace(s[i])
  {
    if s != [] && IsWhiteSpace(s[0]) {
      TrimStartCuts(s[1..]);
      assert forall i :: 1 <= i < |s| ==> s[i] == s[1..][i - 1];
    }
  }

  /** TrimEnd keeps a prefix that does not end with whitespace and cuts only whitespace. */
  lemma {:induction false} TrimEndCuts(s: string)
    ensures |TrimEnd(s)| <= |s| && TrimEnd(s) == s[..|TrimEnd(s)|]
    ensures TrimEnd(s) == [] || !IsWhiteSpace(TrimEnd(s)[|TrimEnd(s)| - 1])
    ensures forall i :: |TrimEnd(s)| <= i < |s| ==> IsWhiteSpace(s[i])
  {
    if s != [] && IsWhiteSpace(s[|s| - 1]) {
      TrimEndCuts(s[..|s| - 1]);
      assert forall i :: 0 <= i < |s| - 1 ==> s[i] == s[..|s| - 1][i];
    }
  }

  /** String.Trim: `s` without its leading and trailing whitespace. */
  function Trim(s: string): string
  {
    TrimEnd(TrimStart(s))
  }

  /** Trim keeps a contiguous piece of `s` and cuts only whitespace around it. */
  lemma TrimCutsWhiteSpace(s: string)
    ensures var t, r := TrimStart(s), Trim(s);
            var k := |s| - |t|;
            0 <= k && k + |r| <= |s| && r == s[k..k + |r|] &&
            (forall i :: 0 <= i < k ==> IsWhiteSpace(s[i])) &&
            (forall i :: k + |r| <= i < |s| ==> IsWhiteSpace(s[i]))
  {
    var t := TrimStart(s);
    var r := TrimEnd(t);
    var k := |s| - |t|;
    TrimStartCuts(s);
    TrimEndCuts(t);
    forall i | k + |r| <= i < |s| ensures IsWhiteSpace(s[i]) {
      assert s[i] == t[i - k];
    }
  }

  /**
    The piece Trim keeps neither starts nor ends with whitespace, and it is
    empty exactly when `s` is blank.
  */
  lemma TrimEmptyIffBlank(s: string)
    ensures Trim(s) == [] || (!IsWhiteSpace(Trim(s)[0]) && !IsWhiteSpace(Trim(s)[|Trim(s)| - 1]))
    ensures Trim(s) == [] <==> IsNullOrWhiteSpace(s)
  {
    var t := TrimStart(s);
    var r := TrimEnd(t);
    var k := |s| - |t|;
    TrimStartCuts(s);
    TrimEndCuts(t);
    if r == [] {
      assert t == [];
      assert IsNullOrWhiteSpace(s);
    } else {
      assert !IsWhiteSpace(s[k]) by { assert s[k] == t[0]; }
    }
  }

  lemma TrimIdempotent(s: string)
    ensures Trim(Trim(s)) == Trim(s)
  {
    var r := Trim(s);
    TrimEmptyIffBlank(s);
    assert TrimStart(r) == r;
    assert TrimEnd(r) == r;
  }

  // ---------------------------------------------------------------------
  // Decimal rendering of a counter (C# string interpolation of an int)
  // ---------------------------------------------------------------------

  predicate IsDigit(c: char)
  {
    '0' <= c <= '9'
  }

  function DigitChar(d: nat): (c: char)
    requires d < 10
    ensures IsDigit(c) && c as int - '0' as int == d
  {
    ('0' as int + d) as char
  }

  /** The decimal digits of `n`, without leading zeros. */
  function NatToString(n: nat): (s: string)
    ensures s != []
    ensures forall i :: 0 <= i < |s| ==> IsDigit(s[i])
    ensures |s| > 1 ==> s[0] != '0'
  {
    if n < 10 then [DigitChar(n)] else NatToString(n / 10) + [DigitChar(n % 10)]
  }

  /** The value of a string of decimal digits. */
  function ParseNat(s: string): nat
    requires forall i :: 0 <= i < |s| ==> IsDigit(s[i])
  {
    if s == [] then 0
    else
      assert IsDigit(s[|s| - 1]);
      ParseNat(s[..|s| - 1]) * 10 + (s[|s| - 1] as int - '0' as int)
  }

  lemma {:induction false} ParseNatToString(n: nat)
    ensures ParseNat(NatToString(n)) == n
  {
    if n >= 10 {
      var s := NatToString(n);
      assert s[..|s| - 1] == NatToString(n / 10);
      ParseNatToString(n / 10);
    }
  }

  /** Distinct counters render as distinct strings. */
  lemma NatToStringInjective(m: nat, n: nat)
    requires m != n
    ensures NatToString(m) != NatToString(n)
  {
    ParseNatToString(m);
    ParseNatToString(n);
  }
}
