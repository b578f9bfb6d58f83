/** The JavaScript string operations the services rely on, over `seq<char>`. */
module Text {
  import opened Wrappers

  predicate IsDigit(c: char) {
    '0' <= c <= '9'
  }

  predicate IsDigits(s: string) {
    forall i :: 0 <= i < |s| ==> IsDigit(s[i])
  }

  /** The characters `String.prototype.trim` removes: WhiteSpace and LineTerminator of ECMA-262. */
  predicate IsSpace(c: char) {
    var n := c as int;
    n == 0x09 || n == 0x0A || n == 0x0B || n == 0x0C || n == 0x0D || n == 0x20 ||
    n == 0xA0 || n == 0x1680 || (0x2000 <= n <= 0x200A) || n == 0x2028 ||
    n == 0x2029 || n == 0x202F || n == 0x205F || n == 0x3000 || n == 0xFEFF
  }

  /** `s.split(sep)` for a one-character separator: never empty, and no piece holds `sep`. */
  function Split(s: string, sep: char): (parts: seq<string>)
    ensures |parts| >= 1
    ensures forall i :: 0 <= i < |parts| ==> sep !in parts[i]
    decreases |s|
  {
    if |s| == 0 then [""]
    else
      var rest := Split(s[1..], sep);
      if s[0] == sep then [""] + rest
      else [[s[0]] + rest[0]] + rest[1..]
  }

  /** `parts.join(sep)`. */
  function Join(parts: seq<string>, sep: string): string
    decreases |parts|
  {
    if |parts| == 0 then ""
    else if |parts| == 1 then parts[0]
    else parts[0] + sep + Join(parts[1..], sep)
  }

  /** Splitting and joining back with the same separator gives the original string. */
  lemma {:induction false} JoinSplit(s: string, sep: char)
    ensures Join(Split(s, sep), [sep]) == s
    decreases |s|
  {
    if |s| > 0 {
      var rest := Split(s[1..], sep);
      JoinSplit(s[1..], sep);
      if s[0] == sep {
        assert Split(s, sep) == [""] + rest;
        assert ([""] + rest)[1..] == rest;
      } else {
        var parts := Split(s, sep);
        assert parts == [[s[0]] + rest[0]] + rest[1..];
        if |rest| == 1 {
          assert parts == [[s[0]] + rest[0]];
        } else {
          assert parts[1..] == rest[1..];
          assert Join(rest, [sep]) == rest[0] + [sep] + Join(rest[1..], [sep]);
        }
      }
    }
  }

  /** A string without the separator is a single piece. */
  lemma {:induction false} SplitNoSeparator(a: string, sep: char)
    requires sep !in a
    ensures Split(a, sep) == [a]
    decreases |a|
  {
    if |a| > 0 {
      assert sep !in a[1..];
      SplitNoSeparator(a[1..], sep);
      assert [a[0]] + a[1..] == a;
      assert [a[1..]][1..] == [];
    }
  }

  /** The first separator ends the first piece. */
  lemma {:induction false} SplitAtSeparator(a: string, sep: char, b: string)
    requires sep !in a
    ensures Split(a + [sep] + b, sep) == [a] + Split(b, sep)
    decreases |a|
  {
    if |a| == 0 {
      assert a + [sep] + b == [sep] + b;
      assert ([sep] + b)[1..] == b;
    } else {
      var s := a + [sep] + b;
      assert s[0] == a[0] && s[1..] == a[1..] + [sep] + b;
      assert sep !in a[1..];
      SplitAtSeparator(a[1..], sep, b);
      assert [a[0]] + a[1..] == a;
    }
  }

  /** `s.startsWith(prefix)`. */
  predicate StartsWith(s: string, prefix: string) {
    |prefix| <= |s| && s[..|prefix|] == prefix
  }

  /** `s.includes(sub)`. */
  predicate Contains(s: string, sub: string) {
    exists i | 0 <= i <= |s| :: OccursAt(s, sub, i)
  }

  /** `sub` occurs in `s` starting at position `i`. */
  predicate OccursAt(s: string, sub: string, i: nat) {
    i + |sub| <= |s| && s[i..i + |sub|] == sub
  }

  /**
   * Equality of two texts under the database's case-insensitive collation, which MySQL's
   * default collations are: `=` in a WHERE clause and a unique index compare this way.
   */
  predicate SameText(a: string, b: string): (r: bool)
    ensures a == b ==> r
    ensures r ==> |a| == |b| && forall i :: 0 <= i < |a| ==> SameChar(a[i], b[i])
  {
    ToLower(a) == ToLower(b)
  }

  /** Two characters compare equal under the case-insensitive collation. */
  predicate SameChar(a: char, b: char) {
    LowerChar(a) == LowerChar(b)
  }

  /**
   * SQL `text LIKE pattern` under the case-insensitive collation: '%' matches any run of
   * characters, '_' any one character, and '\' makes the character after it literal.
   */
  predicate LikePattern(text: string, pattern: string): (r: bool)
    ensures pattern == [] ==> (r <==> text == [])
    ensures |pattern| > 0 && pattern[0] == '_' && text == [] ==> !r
    decreases |text| + |pattern|
  {
    if |pattern| == 0 then |text| == 0
    else if pattern[0] == '%' then LikePattern(text, pattern[1..]) || (|text| > 0 && LikePattern(text[1..], pattern))
    else if |text| == 0 then false
    else if pattern[0] == '_' then LikePattern(text[1..], pattern[1..])
    else if pattern[0] == '\\' && |pattern| >= 2 then SameChar(text[0], pattern[1]) && LikePattern(text[1..], pattern[2..])
    else SameChar(text[0], pattern[0]) && LikePattern(text[1..], pattern[1..])
  }

  /**
   * The search filters' `LIKE '%q%'` (and PostgreSQL's `ILIKE`), with `q` pasted into the
   * pattern as given: any '%', '_' or '\' in it keeps its pattern meaning.
   */
  predicate Like(text: string, q: string) {
    LikePattern(text, "%" + q + "%")
  }

  /** `q` holds none of the characters LIKE gives a meaning to. */
  predicate PlainText(q: string) {
    forall i :: 0 <= i < |q| ==> q[i] != '%' && q[i] != '_' && q[i] != '\\'
  }

  /** '%' matches every text. */
  lemma {:induction false} PercentMatchesAll(t: string)
    ensures LikePattern(t, "%")
    decreases |t|
  {
    if |t| > 0 {
      PercentMatchesAll(t[1..]);
    }
  }

  /** A pattern starting with '%' matches a text when the rest matches some suffix of it. */
  lemma {:induction false} LeadingPercent(t: string, rest: string)
    ensures LikePattern(t, "%" + rest) <==> exists k :: 0 <= k <= |t| && LikePattern(t[k..], rest)
    decreases |t|
  {
    var p := "%" + rest;
    assert p[0] == '%' && p[1..] == rest;
    assert t[0..] == t;
    if |t| > 0 {
      LeadingPercent(t[1..], rest);
      if exists k :: 0 <= k <= |t| && LikePattern(t[k..], rest) {
        var k :| 0 <= k <= |t| && LikePattern(t[k..], rest);
        if k > 0 {
          assert t[1..][k - 1..] == t[k..];
        }
      }
      if exists k :: 0 <= k <= |t[1..]| && LikePattern(t[1..][k..], rest) {
        var k :| 0 <= k <= |t[1..]| && LikePattern(t[1..][k..], rest);
        assert t[1..][k..] == t[k + 1..];
      }
    }
  }

  /** A plain text followed by '%' matches exactly the texts that start with it, case aside. */
  lemma {:induction false} PlainPrefix(t: string, q: string)
    requires PlainText(q)
    ensures LikePattern(t, q + "%") <==> |q| <= |t| && ToLower(t[..|q|]) == ToLower(q)
    decreases |q|
  {
    if |q| == 0 {
      assert q + "%" == "%";
      PercentMatchesAll(t);
    } else {
      var p := q + "%";
      assert p[0] == q[0] && p[1..] == q[1..] + "%";
      assert PlainText(q[1..]);
      if |t| > 0 {
        PlainPrefix(t[1..], q[1..]);
        if |q| <= |t| {
          var a := ToLower(t[..|q|]);
          var b := ToLower(q);
          assert a == [a[0]] + a[1..] && b == [b[0]] + b[1..];
          assert a[1..] == ToLower(t[1..][..|q| - 1]);
          assert b[1..] == ToLower(q[1..]);
        }
      }
    }
  }

  /**
   * For a search text without '%', '_' or '\', the LIKE filter is the plain substring test
   * with letter case ignored.
   */
  lemma LikeOfPlainText(t: string, q: string)
    requires PlainText(q)
    ensures Like(t, q) <==> Contains(ToLower(t), ToLower(q))
  {
    if Like(t, q) {
      LikeFindsOccurrence(t, q);
    }
    if Contains(ToLower(t), ToLower(q)) {
      OccurrenceIsLike(t, q);
    }
  }

  /** A plain search that matches occurs, lower-cased, in the lower-cased text. */
  lemma LikeFindsOccurrence(t: string, q: string)
    requires PlainText(q) && Like(t, q)
    ensures Contains(ToLower(t), ToLower(q))
  {
    assert "%" + q + "%" == "%" + (q + "%");
    LeadingPercent(t, q + "%");
    var k :| 0 <= k <= |t| && LikePattern(t[k..], q + "%");
    PlainPrefix(t[k..], q);
    LowerWindow(t, k, |q|);
    assert OccursAt(ToLower(t), ToLower(q), k);
  }

  /** A plain search that occurs, lower-cased, in the lower-cased text matches it. */
  lemma OccurrenceIsLike(t: string, q: string)
    requires PlainText(q) && Contains(ToLower(t), ToLower(q))
    ensures Like(t, q)
  {
    var k :| 0 <= k <= |ToLower(t)| && OccursAt(ToLower(t), ToLower(q), k);
    LowerWindow(t, k, |q|);
    PlainPrefix(t[k..], q);
    assert "%" + q + "%" == "%" + (q + "%");
    LeadingPercent(t, q + "%");
  }

  /** Lower-casing commutes with taking a window of the text. */
  lemma LowerWindow(t: string, k: nat, n: nat)
    requires k + n <= |t|
    ensures ToLower(t)[k..k + n] == ToLower(t[k..][..n])
  {
    var a := ToLower(t)[k..k + n];
    var b := ToLower(t[k..][..n]);
    forall i | 0 <= i < n
      ensures a[i] == b[i]
    {
      assert t[k..][..n][i] == t[k + i];
    }
  }

  /** The wildcard '_' as a search text matches every non-empty text. */
  lemma UnderscoreSearchMatchesAnyText(t: string)
    ensures Like(t, "_") <==> |t| > 0
  {
    assert "%" + "_" + "%" == "%" + "_%";
    LeadingPercent(t, "_%");
    var p := "_%";
    assert p[0] == '_' && p[1..] == "%";
    if |t| > 0 {
      PercentMatchesAll(t[1..]);
      assert t[0..] == t;
    }
  }

  /** JavaScript truthiness of an optional string: present and not empty. */
  predicate TruthyText(s: Option<string>) {
    s.Some? && s.value != ""
  }

  function UpperChar(c: char): char {
    if 'a' <= c <= 'z' then (c as int - 32) as char else c
  }

  function LowerChar(c: char): char {
    if 'A' <= c <= 'Z' then (c as int + 32) as char else c
  }

  /** `s.toUpperCase()` on the ASCII letters. */
  function ToUpper(s: string): (r: string)
    ensures |r| == |s|
    ensures forall i :: 0 <= i < |s| ==> r[i] == UpperChar(s[i])
  {
    seq(|s|, i requires 0 <= i < |s| => UpperChar(s[i]))
  }

  /** `s.toLowerCase()` on the ASCII letters. */
  function ToLower(s: string): (r: string)
    ensures |r| == |s|
    ensures forall i :: 0 <= i < |s| ==> r[i] == LowerChar(s[i])
    ensures forall i :: 0 <= i < |r| ==> !('A' <= r[i] <= 'Z')
  {
    seq(|s|, i requires 0 <= i < |s| => LowerChar(s[i]))
  }

  /** Lower-casing twice is lower-casing once. */
  lemma ToLowerIdempotent(s: string)
    ensures ToLower(ToLower(s)) == ToLower(s)
  {
  }

  /** `s.trimStart()`: drops the leading whitespace and nothing else. */
  function TrimStart(s: string): (r: string)
    ensures |r| <= |s| && r == s[|s| - |r|..]
    ensures r == "" || !IsSpace(r[0])
    ensures forall i :: 0 <= i < |s| - |r| ==> IsSpace(s[i])
  {
    if |s| == 0 || !IsSpace(s[0]) then s else TrimStart(s[1..])
  }

  /** `s.trimEnd()`: drops the trailing whitespace and nothing else. */
  function TrimEnd(s: string): (r: string)
    ensures |r| <= |s| && r == s[..|r|]
    ensures r == "" || !IsSpace(r[|r| - 1])
    ensures forall i :: |r| <= i < |s| ==> IsSpace(s[i])
  {
    if |s| == 0 || !IsSpace(s[|s| - 1]) then s else TrimEnd(s[..|s| - 1])
  }

  /** `s.trim()`: the longest slice of `s` that neither starts nor ends with whitespace. */
  function Trim(s: string): (r: string)
    ensures exists k :: 0 <= k <= |s| && OccursAt(s, r, k)
    ensures r == "" || (!IsSpace(r[0]) && !IsSpace(r[|r| - 1]))
  {
    TrimShape(s, TrimStart(s), TrimEnd(TrimStart(s)));
    TrimEnd(TrimStart(s))
  }

  /** A leading-space-free suffix, cut down to a trailing-space-free prefix, is a slice without either. */
  lemma TrimShape(s: string, t: string, r: string)
    requires |t| <= |s| && t == s[|s| - |t|..] && (t == "" || !IsSpace(t[0]))
    requires |r| <= |t| && r == t[..|r|] && (r == "" || !IsSpace(r[|r| - 1]))
    ensures exists k :: 0 <= k <= |s| && OccursAt(s, r, k)
    ensures r == "" || (!IsSpace(r[0]) && !IsSpace(r[|r| - 1]))
  {
    var k := |s| - |t|;
    assert r != "" ==> r[0] == t[0];
    forall i | 0 <= i < |r| ensures s[k..k + |r|][i] == r[i] {
      assert r[i] == t[i] && t[i] == s[k + i];
    }
    assert OccursAt(s, r, k);
  }

  /** Trimming whitespace-free text changes nothing. */
  lemma {:induction false} TrimNoSpace(s: string)
    requires forall i :: 0 <= i < |s| ==> !IsSpace(s[i])
    ensures Trim(s) == s
  {
  }

  /** `xs.indexOf(x)`: the first position of `x`, or -1. */
  function IndexOf<T(==)>(xs: seq<T>, x: T): (r: int)
    ensures -1 <= r < |xs|
    ensures r == -1 <==> x !in xs
    ensures r >= 0 ==> xs[r] == x && x !in xs[..r]
  {
    if |xs| == 0 then -1
    else if xs[0] == x then 0
    else
      var k := IndexOf(xs[1..], x);
      if k == -1 then -1 else k + 1
  }

  /** `s.lastIndexOf(c)`: the last position of `c`, or -1. */
  function LastIndexOf(s: string, c: char): (r: int)
    ensures -1 <= r < |s|
    ensures r == -1 <==> c !in s
    ensures r >= 0 ==> s[r] == c && c !in s[r + 1..]
  {
    if |s| == 0 then -1
    else if s[|s| - 1] == c then |s| - 1
    else
      var k := LastIndexOf(s[..|s| - 1], c);
      LastIndexOfStep(s, c, k);
      k
  }

  /** The last position of `c` in all but the last character is its last position in `s` when that character differs. */
  lemma LastIndexOfStep(s: string, c: char, k: int)
    requires |s| > 0 && s[|s| - 1] != c && -1 <= k < |s| - 1
    requires k == -1 <==> c !in s[..|s| - 1]
    requires k >= 0 ==> s[..|s| - 1][k] == c && c !in s[..|s| - 1][k + 1..]
    ensures k == -1 <==> c !in s
    ensures k >= 0 ==> s[k] == c && c !in s[k + 1..]
  {
    var init := s[..|s| - 1];
    assert s == init + [s[|s| - 1]];
    if k >= 0 {
      assert s[k + 1..] == init[k + 1..] + [s[|s| - 1]];
    }
  }

  function DigitChar(d: nat): char
    requires d < 10
  {
    ('0' as int + d) as char
  }

  /** The decimal rendering of a natural number, as template literals print an integer. */
  function NatToString(n: nat): (s: string)
    ensures |s| >= 1 && IsDigits(s)
    ensures |s| > 1 ==> s[0] != '0'
  {
    if n < 10 then [DigitChar(n)] else NatToString(n / 10) + [DigitChar(n % 10)]
  }

  /** The decimal rendering of an integer, with a leading '-' when negative. */
  function IntToString(n: int): string {
    if n < 0 then "-" + NatToString(-n) else NatToString(n)
  }

  /** The value of a string of decimal digits. */
  function DigitsValue(s: string): nat
    requires IsDigits(s)
  {
    if |s| == 0 then 0 else DigitsValue(s[..|s| - 1]) * 10 + (s[|s| - 1] as int - '0' as int)
  }

  /** Reading back a rendered number gives the number: the rendering loses nothing. */
  lemma {:induction false} NatToStringRoundTrip(n: nat)
    ensures DigitsValue(NatToString(n)) == n
  {
    if n >= 10 {
      NatToStringRoundTrip(n / 10);
      var s := NatToString(n);
      assert s[..|s| - 1] == NatToString(n / 10);
    }
  }

  /** Different numbers render differently. */
  lemma NatToStringInjective(m: nat, n: nat)
    requires NatToString(m) == NatToString(n)
    ensures m == n
  {
    NatToStringRoundTrip(m);
    NatToStringRoundTrip(n);
  }
}
