// Option type and the string helpers shared by the browser-side core and the
// catalog builder: decimal rendering of naturals, first-occurrence search and
// replace (JavaScript String.prototype.replace with a string pattern),
// splitting on a separator character and newline-terminated line blocks.

module Options {
  datatype Option<+T> = None | Some(value: T)
}

module Text {
  import opened Options

  predicate IsDigitChar(c: char) {
    '0' <= c <= '9'
  }

  predicate AllDigits(s: string) {
    forall k :: 0 <= k < |s| ==> IsDigitChar(s[k])
  }

  function DigitChar(d: nat): (c: char)
    requires d < 10
    ensures IsDigitChar(c)
  {
    (48 + d) as char
  }

  function DigitValue(c: char): (d: nat)
    requires IsDigitChar(c)
    ensures d < 10
  {
    (c as int) - 48
  }

  /** The value of a string of decimal digits (most significant first). */
  function DigitsValue(s: string): nat
    requires AllDigits(s)
  {
    if s == [] then 0 else DigitsValue(s[..|s| - 1]) * 10 + DigitValue(s[|s| - 1])
  }

  /** Number of decimal digits JavaScript's String(n) prints for a natural n. */
  function NumDigits(n: nat): (k: nat)
    ensures k >= 1
  {
    if n < 10 then 1 else NumDigits(n / 10) + 1
  }

  /** String(n) for a non-negative integer n: no leading zeros, "0" for zero. */
  function NatToString(n: nat): (s: string)
    ensures |s| == NumDigits(n)
    ensures AllDigits(s)
  {
    if n < 10 then [DigitChar(n)] else NatToString(n / 10) + [DigitChar(n % 10)]
  }

  /** String(n) for any integer n. */
  function IntToString(n: int): (s: string)
    ensures s != []
    ensures n >= 0 ==> AllDigits(s)
    ensures n < 0 ==> s[0] == '-' && AllDigits(s[1..])
  {
    if n < 0 then "-" + NatToString(-n) else NatToString(n)
  }

  lemma {:induction false} NatToStringValue(n: nat)
    ensures DigitsValue(NatToString(n)) == n
    ensures n > 0 || NatToString(n) == "0"
    ensures NatToString(n)[0] != '0' || n == 0
    decreases n
  {
    var s := NatToString(n);
    if n < 10 {
      assert DigitsValue(s) == DigitsValue(s[..0]) * 10 + DigitValue(s[0]);
    } else {
      NatToStringValue(n / 10);
      var p := NatToString(n / 10);
      assert s[..|s| - 1] == p;
      assert s[0] == p[0];
    }
  }

  lemma NumDigitsSmall(n: nat)
    ensures n < 10 ==> NumDigits(n) == 1
    ensures 10 <= n < 100 ==> NumDigits(n) == 2
    ensures 1000 <= n < 10000 ==> NumDigits(n) == 4
  {
    if 10 <= n < 100 {
      assert NumDigits(n / 10) == 1;
    } else if 1000 <= n < 10000 {
      assert 1 <= n / 10 / 10 / 10 < 10;
      assert NumDigits(n / 10 / 10) == 2;
    }
  }

  // ---------------------------------------------------------------------------
  // First-occurrence search and replace
  // ---------------------------------------------------------------------------

  predicate OccursAt(s: string, pat: string, i: nat) {
    i + |pat| <= |s| && s[i..i + |pat|] == pat
  }

  /** Index of the first occurrence of pat in s, as String.prototype.indexOf. */
  function FindFirst(s: string, pat: string): (r: Option<nat>)
    ensures r.Some? ==> OccursAt(s, pat, r.value)
    ensures r.Some? ==> forall j: nat :: j < r.value ==> !OccursAt(s, pat, j)
    ensures r.None? ==> forall j: nat :: !OccursAt(s, pat, j)
    decreases |s|
  {
    if |pat| > |s| then None
    else if s[..|pat|] == pat then Some(0)
    else
      var rest := FindFirst(s[1..], pat);
      OccursAfterFirst(s, pat);
      match rest
      case None => None
      case Some(i) => Some(i + 1)
  }

  lemma OccursAfterFirst(s: string, pat: string)
    requires |pat| <= |s| && s[..|pat|] != pat
    ensures forall j: nat :: OccursAt(s, pat, j) <==> j > 0 && OccursAt(s[1..], pat, j - 1)
  {
    forall j: nat ensures OccursAt(s, pat, j) <==> j > 0 && OccursAt(s[1..], pat, j - 1) {
      if j > 0 && j + |pat| <= |s| {
        assert s[1..][j - 1..j - 1 + |pat|] == s[j..j + |pat|];
      }
    }
  }

  /** String.prototype.replace(pat, rep) with a string pattern and a
      replacement holding no '$' pattern: only the first occurrence is
      replaced; without an occurrence the string is returned unchanged. */
  function ReplaceFirst(s: string, pat: string, rep: string): (r: string)
  {
    match FindFirst(s, pat)
    case None => s
    case Some(i) => s[..i] + rep + s[i + |pat|..]
  }

  lemma ReplaceFirstSpec(s: string, pat: string, rep: string, i: nat)
    requires OccursAt(s, pat, i)
    requires forall j: nat :: j < i ==> !OccursAt(s, pat, j)
    ensures ReplaceFirst(s, pat, rep) == s[..i] + rep + s[i + |pat|..]
  {
    var f := FindFirst(s, pat);
    assert f.Some?;
    assert !(f.value < i) && !(i < f.value);
  }

  /** Replacing the first occurrence of pat by pat followed by more text
      inserts that text right after the occurrence. */
  lemma ReplaceFirstInserts(s: string, pat: string, x: string, y: string, z: string, i: nat)
    requires FindFirst(s, pat) == Some(i)
    ensures ReplaceFirst(s, pat, pat + x + y + z) == s[..i + |pat|] + x + y + z + s[i + |pat|..]
  {
    assert s[..i + |pat|] == s[..i] + pat;
    assert s[..i] + (pat + x + y + z) + s[i + |pat|..] == s[..i] + pat + x + y + z + s[i + |pat|..];
  }

  // ---------------------------------------------------------------------------
  // Splitting on a separator, joining, newline-terminated blocks
  // ---------------------------------------------------------------------------

  /** Python's s.split(sep) and JavaScript's s.split(sep) for a one-character
      separator: always at least one part, empty parts kept. */
  function Split(s: string, sep: char): (parts: seq<string>)
    ensures |parts| >= 1
    ensures forall k :: 0 <= k < |parts| ==> sep !in parts[k]
  {
    if s == [] then [""]
    else
      var rest := Split(s[1..], sep);
      if s[0] == sep then [""] + rest else [[s[0]] + rest[0]] + rest[1..]
  }

  /** sep.join(parts). */
  function Join(parts: seq<string>, sep: char): string
  {
    if parts == [] then ""
    else if |parts| == 1 then parts[0]
    else parts[0] + [sep] + Join(parts[1..], sep)
  }

  lemma {:induction false} SplitJoin(s: string, sep: char)
    ensures Join(Split(s, sep), sep) == s
    decreases |s|
  {
    if s != [] {
      SplitJoin(s[1..], sep);
      var rest := Split(s[1..], sep);
      if s[0] == sep {
        assert Split(s, sep) == [""] + rest;
        assert ([""] + rest)[1..] == rest;
      } else {
        var parts := [[s[0]] + rest[0]] + rest[1..];
        assert Split(s, sep) == parts;
        if |rest| == 1 {
          assert Join(rest, sep) == rest[0];
        } else {
          assert parts[1..] == rest[1..];
          assert Join(rest, sep) == rest[0] + [sep] + Join(rest[1..], sep);
        }
      }
    }
  }

  lemma {:induction false} SplitAfterPrefix(a: string, b: string, sep: char)
    requires sep !in a
    ensures Split(a + [sep] + b, sep) == [a] + Split(b, sep)
    decreases |a|
  {
    if a == [] {
      assert [sep] + b == [sep] + b;
      assert ([sep] + b)[1..] == b;
    } else {
      var s := a + [sep] + b;
      assert s[1..] == a[1..] + [sep] + b;
      SplitAfterPrefix(a[1..], b, sep);
      assert [a[0]] + a[1..] == a;
    }
  }

  /** The text made of each line followed by "\n". */
  function Unlines(lines: seq<string>): string
  {
    if lines == [] then "" else Unlines(lines[..|lines| - 1]) + lines[|lines| - 1] + "\n"
  }

  lemma {:induction false} UnlinesAppend(a: seq<string>, b: seq<string>)
    ensures Unlines(a + b) == Unlines(a) + Unlines(b)
    decreases |b|
  {
    if b == [] {
      assert a + b == a;
    } else {
      UnlinesAppend(a, b[..|b| - 1]);
      assert (a + b)[..|a + b| - 1] == a + b[..|b| - 1];
    }
  }

  /** A newline-terminated block splits back into its lines, plus the empty
      remainder after the final "\n". */
  lemma {:induction false} SplitUnlines(lines: seq<string>)
    requires forall k :: 0 <= k < |lines| ==> '\n' !in lines[k]
    ensures Split(Unlines(lines), '\n') == lines + [""]
    decreases |lines|
  {
    if lines != [] {
      var rest := lines[1..];
      SplitUnlines(rest);
      UnlinesAppend([lines[0]], rest);
      assert [lines[0]] + rest == lines;
      assert Unlines([lines[0]]) == lines[0] + "\n" by {
        assert [lines[0]][..0] == [];
      }
      SplitAfterPrefix(lines[0], Unlines(rest), '\n');
      assert lines[0] + "\n" + Unlines(rest) == lines[0] + ['\n'] + Unlines(rest);
    }
  }
}
