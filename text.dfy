/**
 * The JavaScript string operations the core relies on (`trim`, `split`, `includes`,
 * `toLowerCase`, `toString`, `padStart`), written for `string == seq<char>`.
 */
module Text {
  import opened Wrappers

  /** The characters of JavaScript's `\s` class, which are also the ones `trim()` removes. */
  predicate IsWhitespace(c: char) {
    c == ' ' || c == '\t' || c == '\n' || c == '\U{000B}' || c == '\U{000C}' || c == '\r'
    || c == '\U{00A0}' || c == '\U{1680}' || ('\U{2000}' <= c <= '\U{200A}')
    || c == '\U{2028}' || c == '\U{2029}' || c == '\U{202F}' || c == '\U{205F}'
    || c == '\U{3000}' || c == '\U{FEFF}'
  }

  /** The characters a regular-expression `.` refuses to match. */
  predicate IsLineTerminator(c: char) {
    c == '\n' || c == '\r' || c == '\U{2028}' || c == '\U{2029}'
  }

  predicate AllWhitespace(s: string) {
    forall i | 0 <= i < |s| :: IsWhitespace(s[i])
  }

  predicate IsUpperAscii(c: char) {
    'A' <= c <= 'Z'
  }

  /** `toLowerCase` restricted to ASCII letters. */
  function LowerChar(c: char): char {
    if IsUpperAscii(c) then (c as int + 32) as char else c
  }

  function UpperChar(c: char): char {
    if 'a' <= c <= 'z' then (c as int - 32) as char else c
  }

  function Lower(s: string): string {
    seq(|s|, i requires 0 <= i < |s| => LowerChar(s[i]))
  }

  /** Text without upper-case ASCII letters is its own lower-case form. */
  lemma LowerNoUpper(s: string)
    requires forall i | 0 <= i < |s| :: !IsUpperAscii(s[i])
    ensures Lower(s) == s
  {
  }

  /** `s.includes(p)`: `p` occurs in `s` at some position. */
  predicate Contains(s: string, p: string) {
    exists i | 0 <= i <= |s| :: p <= s[i..]
  }

  lemma ContainsSplice(a: string, b: string, c: string)
    ensures Contains(a + b + c, b)
  {
    assert b <= (a + b + c)[|a|..];
  }

  /** A phrase that holds an upper-case letter never occurs in lower-cased text. */
  lemma LowerExcludesUpper(s: string, p: string, k: nat)
    requires k < |p| && IsUpperAscii(p[k])
    ensures !Contains(Lower(s), p)
  {
    forall i | 0 <= i <= |Lower(s)| ensures !(p <= Lower(s)[i..]) {
      if i + k < |s| {
        assert Lower(s)[i..][k] == LowerChar(s[i + k]);
      }
    }
  }

  lemma LowerAppend(a: string, b: string)
    ensures Lower(a + b) == Lower(a) + Lower(b)
  {
  }

  /** Lower-casing neither creates nor removes whitespace. */
  lemma LowerWhitespace(s: string)
    ensures forall i | 0 <= i < |s| :: IsWhitespace(Lower(s)[i]) <==> IsWhitespace(s[i])
  {
  }

  /** A phrase with a non-blank character occurs only in a text with a non-blank character. */
  lemma ContainsNotBlank(s: string, p: string, k: nat)
    requires k < |p| && !IsWhitespace(p[k]) && Contains(s, p)
    ensures !AllWhitespace(s)
  {
    var i :| 0 <= i <= |s| && p <= s[i..];
    assert s[i + k] == p[k];
  }

  // ---------------------------------------------------------------- trimming

  function TrimStart(s: string): (r: string)
    ensures |r| <= |s| && r == s[|s| - |r|..]
    ensures AllWhitespace(s[..|s| - |r|])
    ensures r == [] || !IsWhitespace(r[0])
  {
    if s != [] && IsWhitespace(s[0]) then
      WhitespacePrefixStep(s, |s| - |TrimStart(s[1..])|);
      TrimStart(s[1..])
    else s
  }

  lemma WhitespacePrefixStep(s: string, n: nat)
    requires 1 <= n <= |s| && IsWhitespace(s[0]) && AllWhitespace(s[1..][..n - 1])
    ensures AllWhitespace(s[..n])
  {
    forall i | 1 <= i < n
      ensures IsWhitespace(s[i])
    {
      assert s[i] == s[1..][..n - 1][i - 1];
    }
  }

  function TrimEnd(s: string): (r: string)
    ensures |r| <= |s| && r == s[..|r|]
    ensures AllWhitespace(s[|r|..])
    ensures r == [] || !IsWhitespace(r[|r| - 1])
  {
    if s != [] && IsWhitespace(s[|s| - 1]) then TrimEnd(s[..|s| - 1]) else s
  }

  /** `s.trim()`: the text between the leading and the trailing whitespace. */
  function Trim(s: string): (r: string)
    ensures r == [] <==> AllWhitespace(s)
    ensures r == [] || (!IsWhitespace(r[0]) && !IsWhitespace(r[|r| - 1]))
  {
    var t := TrimStart(s);
    TrimEmpty(s);
    TrimEnd(t)
  }

  /** Trimming text that starts and ends with a visible character drops only the trailing blanks. */
  lemma {:induction false} TrimKeepsText(s: string, tail: string)
    requires s != [] && !IsWhitespace(s[0]) && !IsWhitespace(s[|s| - 1])
    requires AllWhitespace(tail)
    ensures Trim(s + tail) == s
    decreases |tail|
  {
    assert (s + tail)[0] == s[0];
    assert TrimStart(s + tail) == s + tail;
    if tail == [] {
      assert s + tail == s;
    } else {
      var shorter := tail[..|tail| - 1];
      assert AllWhitespace(shorter) by {
        forall k | 0 <= k < |shorter| ensures IsWhitespace(shorter[k]) {
          assert shorter[k] == tail[k];
        }
      }
      assert IsWhitespace(tail[|tail| - 1]);
      assert (s + tail)[..|s + tail| - 1] == s + shorter;
      TrimKeepsText(s, shorter);
      assert TrimStart(s + shorter) == s + shorter by {
        assert (s + shorter)[0] == s[0];
      }
    }
  }

  lemma TrimEmpty(s: string)
    ensures TrimEnd(TrimStart(s)) == [] <==> AllWhitespace(s)
  {
    var t := TrimStart(s);
    if TrimEnd(t) == [] {
      assert AllWhitespace(t[0..]);
      assert t == [];
      assert s[..|s|] == s;
    }
  }

  /** The last character of `s` that is not whitespace. */
  function LastNonSpace(s: string): (r: Option<char>)
    ensures r == None <==> AllWhitespace(s)
  {
    if s == [] then None
    else if !IsWhitespace(s[|s| - 1]) then Some(s[|s| - 1])
    else LastNonSpace(s[..|s| - 1])
  }

  lemma LastNonSpaceAppendSpace(s: string, c: char)
    requires IsWhitespace(c)
    ensures LastNonSpace(s + [c]) == LastNonSpace(s)
  {
    assert (s + [c])[..|s|] == s;
  }

  lemma LastNonSpaceLower(s: string)
    ensures LastNonSpace(Lower(s)) == match LastNonSpace(s) case None => None case Some(c) => Some(LowerChar(c))
    decreases |s|
  {
    if s != [] {
      assert Lower(s)[..|s| - 1] == Lower(s[..|s| - 1]);
      LastNonSpaceLower(s[..|s| - 1]);
    }
  }

  /** A non-blank character followed only by whitespace is the last non-blank character. */
  lemma {:induction false} LastNonSpaceAt(s: string, k: nat)
    requires k < |s| && !IsWhitespace(s[k]) && AllWhitespace(s[k + 1..])
    ensures LastNonSpace(s) == Some(s[k])
    decreases |s|
  {
    if k < |s| - 1 {
      assert IsWhitespace(s[|s| - 1]) by { assert s[k + 1..][|s| - 1 - (k + 1)] == s[|s| - 1]; }
      var p := s[..|s| - 1];
      assert p[k + 1..] == s[k + 1..|s| - 1];
      assert AllWhitespace(p[k + 1..]) by {
        var t := p[k + 1..];
        forall j | 0 <= j < |t| ensures IsWhitespace(t[j]) {
          assert t[j] == s[k + 1..][j];
        }
      }
      LastNonSpaceAt(p, k);
    }
  }

  lemma {:induction false} LastNonSpaceWitness(s: string)
    requires LastNonSpace(s).Some?
    ensures exists k | 0 <= k < |s| :: s[k] == LastNonSpace(s).value && AllWhitespace(s[k + 1..])
    decreases |s|
  {
    if IsWhitespace(s[|s| - 1]) {
      var p := s[..|s| - 1];
      LastNonSpaceWitness(p);
      var k :| 0 <= k < |p| && p[k] == LastNonSpace(p).value && AllWhitespace(p[k + 1..]);
      assert s[k + 1..] == p[k + 1..] + [s[|s| - 1]];
      WhitespaceAppend(p[k + 1..], s[|s| - 1]);
      assert s[k] == p[k] && LastNonSpace(s) == LastNonSpace(p);
    } else {
      assert s[|s| - 1 + 1..] == [];
    }
  }

  lemma AppendAssoc(a: string, b: string, c: string)
    ensures a + (b + c) == (a + b) + c
  {
  }

  lemma WhitespaceAppend(a: string, c: char)
    requires AllWhitespace(a) && IsWhitespace(c)
    ensures AllWhitespace(a + [c])
  {
    assert forall i | 0 <= i < |a| :: (a + [c])[i] == a[i];
  }

  /** `s.includes(p)` survives lower-casing both sides. */
  lemma ContainsLower(s: string, p: string)
    requires Contains(s, p)
    ensures Contains(Lower(s), Lower(p))
  {
    var i :| 0 <= i <= |s| && p <= s[i..];
    assert Lower(p) <= Lower(s)[i..];
  }

  // ---------------------------------------------------------------- split and join

  /** `s.split(sep)` for a one-character separator: always at least one field. */
  function Split(s: string, sep: char): (r: seq<string>)
    ensures |r| >= 1
  {
    if s == [] then [[]]
    else
      var rest := Split(s[1..], sep);
      if s[0] == sep then [[]] + rest else [[s[0]] + rest[0]] + rest[1..]
  }

  /** `fields.join(sep)`. */
  function Join(fields: seq<string>, sep: char): string {
    if |fields| == 0 then []
    else if |fields| == 1 then fields[0]
    else fields[0] + [sep] + Join(fields[1..], sep)
  }

  /** `s.split(sep)[0]`: the text before the first separator, or all of `s`. */
  lemma {:induction false} SplitFirstField(s: string, sep: char)
    ensures Split(s, sep)[0] <= s && sep !in Split(s, sep)[0]
    ensures |Split(s, sep)[0]| < |s| ==> s[|Split(s, sep)[0]|] == sep
    decreases |s|
  {
    if s != [] {
      SplitFirstField(s[1..], sep);
      var rest := Split(s[1..], sep);
      if s[0] != sep {
        assert Split(s, sep)[0] == [s[0]] + rest[0];
        assert s == [s[0]] + s[1..];
      }
    }
  }

  /** A separator right after a separator-free field ends that field. */
  lemma SplitAfterField(a: string, b: string, sep: char)
    requires sep !in a
    ensures Split(a + [sep] + b, sep) == [a] + Split(b, sep)
  {
    assert a + [sep] + b == a + ([sep] + b);
    SplitPrefix(a, [sep] + b, sep);
    assert ([sep] + b)[0] == sep && ([sep] + b)[1..] == b;
    assert a + [] == a;
  }

  /** Joining splits at any field boundary. */
  lemma {:induction false} JoinAt(fields: seq<string>, k: nat, sep: char)
    requires 0 < k < |fields|
    ensures Join(fields, sep) == Join(fields[..k], sep) + [sep] + Join(fields[k..], sep)
    decreases k
  {
    if k == 1 {
      assert fields[..1] == [fields[0]];
    } else {
      JoinAt(fields[1..], k - 1, sep);
      assert fields[1..][..k - 1] == fields[1..k];
      assert fields[1..][k - 1..] == fields[k..];
      assert fields[..k][1..] == fields[1..k];
      assert fields[..k][0] == fields[0];
    }
  }

  lemma {:induction false} SplitFieldsFree(s: string, sep: char)
    ensures forall k | 0 <= k < |Split(s, sep)| :: sep !in Split(s, sep)[k]
  {
    if s != [] {
      SplitFieldsFree(s[1..], sep);
    }
  }

  lemma {:induction false} JoinSplit(s: string, sep: char)
    ensures Join(Split(s, sep), sep) == s
  {
    if s != [] {
      var rest := Split(s[1..], sep);
      JoinSplit(s[1..], sep);
      if s[0] == sep {
        assert Split(s, sep)[1..] == rest;
      } else if |rest| == 1 {
        assert Join(rest, sep) == rest[0];
      } else {
        var r, j := Split(s, sep), Join(rest[1..], sep);
        assert r[1..] == rest[1..];
        assert Join(rest, sep) == rest[0] + [sep] + j;
        assert Join(r, sep) == [s[0]] + rest[0] + [sep] + j;
        AppendAssoc([s[0]], rest[0] + [sep], j);
        AppendAssoc([s[0]], rest[0], [sep]);
        assert s == [s[0]] + s[1..];
      }
    }
  }

  lemma {:induction false} SplitJoin(fields: seq<string>, sep: char)
    requires |fields| >= 1
    requires forall k | 0 <= k < |fields| :: sep !in fields[k]
    ensures Split(Join(fields, sep), sep) == fields
  {
    if |fields| == 1 {
      SplitNoSeparator(fields[0], sep);
    } else {
      SplitJoin(fields[1..], sep);
      var j := Join(fields[1..], sep);
      SplitPrefix(fields[0], [sep] + j, sep);
      assert fields[0] + [sep] + j == fields[0] + ([sep] + j);
      assert ([sep] + j)[1..] == j;
      assert Split([sep] + j, sep) == [[]] + fields[1..];
      assert Split([sep] + j, sep)[0] == [];
      assert Split([sep] + j, sep)[1..] == fields[1..];
      assert fields[0] + [] == fields[0];
      assert Join(fields, sep) == fields[0] + [sep] + j;
      assert fields == [fields[0]] + fields[1..];
    }
  }

  lemma {:induction false} SplitNoSeparator(s: string, sep: char)
    requires sep !in s
    ensures Split(s, sep) == [s]
  {
    if s != [] {
      SplitNoSeparator(s[1..], sep);
      assert s == [s[0]] + s[1..];
    }
  }

  /** A separator-free prefix goes entirely into the first field. */
  lemma {:induction false} SplitPrefix(a: string, b: string, sep: char)
    requires sep !in a
    ensures Split(a + b, sep) == [a + Split(b, sep)[0]] + Split(b, sep)[1..]
  {
    var f := Split(b, sep);
    if a == [] {
      assert a + b == b;
      assert a + f[0] == f[0];
      assert f == [f[0]] + f[1..];
    } else {
      assert (a + b)[1..] == a[1..] + b;
      assert (a + b)[0] == a[0] != sep;
      SplitPrefix(a[1..], b, sep);
      var rest := Split(a[1..] + b, sep);
      assert rest[0] == a[1..] + f[0];
      assert rest[1..] == f[1..];
      assert [a[0]] + (a[1..] + f[0]) == a + f[0];
    }
  }

  /** The fields of `s + [c]`, computed from the fields of `s`. */
  function AppendToFields(f: seq<string>, c: char, sep: char): seq<string>
    requires |f| >= 1
  {
    if c == sep then f + [[]] else f[..|f| - 1] + [f[|f| - 1] + [c]]
  }

  /** How appending one character changes the fields, read from the back. */
  lemma {:induction false} SplitSnoc(s: string, c: char, sep: char)
    ensures Split(s + [c], sep) == AppendToFields(Split(s, sep), c, sep)
  {
    if s == [] {
      assert s + [c] == [c] && [c][1..] == [];
      assert Split(s, sep) == [[]];
      assert [c] + [] == [c];
      assert [] + [c] == [c];
      assert Split(s, sep)[..0] == [];
    } else {
      assert (s + [c])[1..] == s[1..] + [c];
      assert (s + [c])[0] == s[0];
      SplitSnoc(s[1..], c, sep);
      if s[0] == sep {
        SplitSnocAfterSeparator(Split(s[1..], sep), c, sep);
      } else {
        SplitSnocAfterChar(s[0], Split(s[1..], sep), c, sep);
      }
    }
  }

  lemma SplitSnocAfterSeparator(f: seq<string>, c: char, sep: char)
    requires |f| >= 1
    ensures [[]] + AppendToFields(f, c, sep) == AppendToFields([[]] + f, c, sep)
  {
    if c != sep {
      assert ([[]] + f)[..|f|] == [[]] + f[..|f| - 1];
    }
  }

  lemma SplitSnocAfterChar(x: char, f: seq<string>, c: char, sep: char)
    requires |f| >= 1
    ensures var g := AppendToFields(f, c, sep);
            [[x] + g[0]] + g[1..] == AppendToFields([[x] + f[0]] + f[1..], c, sep)
  {
    var m := |f|;
    var g := AppendToFields(f, c, sep);
    var h := [[x] + f[0]] + f[1..];
    if c == sep {
      assert g[0] == f[0];
      assert g[1..] == f[1..] + [[]];
    } else if m == 1 {
      assert g == [f[0] + [c]];
      assert [x] + (f[0] + [c]) == ([x] + f[0]) + [c];
    } else {
      assert g[0] == f[0];
      assert g[1..] == f[1..m - 1] + [f[m - 1] + [c]];
      assert h[..|h| - 1] == [[x] + f[0]] + f[1..m - 1];
      assert h[|h| - 1] == f[m - 1];
    }
  }

  // ---------------------------------------------------------------- numbers

  function DigitChar(d: nat): char
    requires d < 10
  {
    ('0' as int + d) as char
  }

  predicate IsDigit(c: char) {
    '0' <= c <= '9'
  }

  /** Decimal rendering of a non-negative integer, as `String(n)` gives it. */
  function NatToString(n: nat): (r: string)
    ensures |r| >= 1 && forall k | 0 <= k < |r| :: IsDigit(r[k])
  {
    if n < 10 then [DigitChar(n)] else NatToString(n / 10) + [DigitChar(n % 10)]
  }

  function IntToString(i: int): string {
    if i < 0 then "-" + NatToString(-i) else NatToString(i)
  }

  /** The value of a string of decimal digits. */
  function DigitsValue(s: string): nat
    requires forall k | 0 <= k < |s| :: IsDigit(s[k])
  {
    if s == [] then 0
    else
      assert IsDigit(s[|s| - 1]);
      DigitsValue(s[..|s| - 1]) * 10 + (s[|s| - 1] as int - '0' as int)
  }

  lemma {:induction false} DigitsRoundTrip(n: nat)
    ensures DigitsValue(NatToString(n)) == n
  {
    if n >= 10 {
      var s := NatToString(n);
      assert s[..|s| - 1] == NatToString(n / 10);
      DigitsRoundTrip(n / 10);
    }
  }

  predicate AllDigits(s: string) {
    forall k | 0 <= k < |s| :: IsDigit(s[k])
  }

  /** A decimal numeral as `String(i)` writes an integer: digits, after a `-` when negative. */
  predicate IsNumeral(s: string) {
    if s != [] && s[0] == '-' then |s| >= 2 && AllDigits(s[1..]) else s != [] && AllDigits(s)
  }

  /** The integer a numeral stands for. */
  function NumeralValue(s: string): int
    requires IsNumeral(s)
  {
    if s[0] == '-' then -(DigitsValue(s[1..]) as int) else DigitsValue(s)
  }

  /** `String(i)` is a numeral that reads back as `i`. */
  lemma IntToStringValue(i: int)
    ensures IsNumeral(IntToString(i)) && NumeralValue(IntToString(i)) == i
  {
    var s := IntToString(i);
    if i < 0 {
      DigitsRoundTrip(-i);
      assert s[1..] == NatToString(-i);
    } else {
      DigitsRoundTrip(i);
      assert s[0] != '-' by { assert IsDigit(s[0]); }
    }
  }

  function Repeat(c: char, n: nat): (r: string)
    ensures |r| == n && forall k | 0 <= k < n :: r[k] == c
  {
    if n == 0 then [] else [c] + Repeat(c, n - 1)
  }

  /** `s.padStart(width, fill)` for a one-character fill. */
  function PadStart(s: string, width: nat, fill: char): (r: string)
    ensures |r| == if |s| >= width then |s| else width
    ensures s <= r[|r| - |s|..] && forall k | 0 <= k < |r| - |s| :: r[k] == fill
  {
    if |s| >= width then s else Repeat(fill, width - |s|) + s
  }
}
