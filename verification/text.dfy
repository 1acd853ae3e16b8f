/** The string operations of Rust's standard library that the review tool
    relies on, written out: `trim_end_matches`, `split_once`,
    `trim_start_matches`, `split`/`join`, the decimal `Display` of an
    integer and `u32::from_str`. */
module Text {
  import opened Base

  predicate IsDigit(c: char) { '0' <= c <= '9' }

  predicate AllDigits(s: string) { forall i :: 0 <= i < |s| ==> IsDigit(s[i]) }

  /** A decimal numeral as `Display` writes it: digits only, no leading zero
      except in "0" itself. */
  predicate Canonical(s: string) { |s| > 0 && AllDigits(s) && (s[0] != '0' || |s| == 1) }

  function DigitValue(c: char): (d: int)
    requires IsDigit(c)
    ensures 0 <= d < 10
  {
    c as int - '0' as int
  }

  function DigitChar(d: int): (c: char)
    requires 0 <= d < 10
    ensures IsDigit(c) && DigitValue(c) == d
  {
    (d + '0' as int) as char
  }

  /** The value of a digit string, most significant digit first. */
  function DigitsValue(s: string): nat
    requires AllDigits(s)
    decreases |s|
  {
    if s == [] then 0 else 10 * DigitsValue(s[..|s| - 1]) + DigitValue(s[|s| - 1])
  }

  /** `format!("{n}")` for an unsigned integer. */
  function Decimal(n: nat): (s: string)
    ensures Canonical(s)
    ensures (s[0] == '0') == (n == 0)
    ensures '#' !in s
    decreases n
  {
    if n < 10 then [DigitChar(n)] else Decimal(n / 10) + [DigitChar(n % 10)]
  }

  lemma {:induction false} DecimalValue(n: nat)
    ensures DigitsValue(Decimal(n)) == n
    decreases n
  {
    if n >= 10 {
      var s := Decimal(n);
      assert s[..|s| - 1] == Decimal(n / 10);
      DecimalValue(n / 10);
    }
  }

  lemma {:induction false} LeadingDigitNonZero(s: string)
    requires |s| > 0 && AllDigits(s) && s[0] != '0'
    ensures DigitsValue(s) >= 1
    decreases |s|
  {
    if |s| > 1 {
      LeadingDigitNonZero(s[..|s| - 1]);
    }
  }

  /** Every canonical numeral is the decimal form of its value: `Decimal`
      is onto the canonical numerals, and with `DecimalValue` a bijection. */
  lemma {:induction false} CanonicalIsDecimal(s: string)
    requires Canonical(s)
    ensures Decimal(DigitsValue(s)) == s
    decreases |s|
  {
    var p := s[..|s| - 1];
    var d := DigitValue(s[|s| - 1]);
    if |s| == 1 {
      assert DigitChar(d) == s[0];
    } else {
      LeadingDigitNonZero(p);
      CanonicalIsDecimal(p);
      var v := DigitsValue(s);
      assert v == 10 * DigitsValue(p) + d;
      assert v / 10 == DigitsValue(p) && v % 10 == d;
      assert DigitChar(d) == s[|s| - 1];
      assert p + [s[|s| - 1]] == s;
    }
  }

  lemma {:induction false} LeadingZeroValue(s: string)
    requires AllDigits(s)
    ensures AllDigits("0" + s) && DigitsValue("0" + s) == DigitsValue(s)
    decreases |s|
  {
    if s != [] {
      var t := "0" + s;
      assert t[..|t| - 1] == "0" + s[..|s| - 1];
      LeadingZeroValue(s[..|s| - 1]);
    }
  }

  /** `<u32 as FromStr>::from_str`: an optional single '+', then at least
      one ASCII digit, and a value that fits in 32 bits. */
  function ParseU32(s: string): (r: Option<U32>)
    ensures r.Some? ==> |s| > 0 && (IsDigit(s[0]) || s[0] == '+')
  {
    var digits := if |s| > 0 && s[0] == '+' then s[1..] else s;
    if |digits| > 0 && AllDigits(digits) && DigitsValue(digits) <= U32_MAX
    then Some(DigitsValue(digits))
    else None
  }

  /** Parsing the decimal form of a `u32`, with or without a '+', gives it back. */
  lemma ParseDecimal(n: U32)
    ensures ParseU32(Decimal(n)) == Some(n)
    ensures ParseU32("+" + Decimal(n)) == Some(n)
  {
    DecimalValue(n);
    assert ("+" + Decimal(n))[1..] == Decimal(n);
  }

  /** A canonical numeral is accepted only as the decimal form of its value. */
  lemma ParseCanonical(s: string, n: U32)
    requires Canonical(s) && ParseU32(s) == Some(n)
    ensures s == Decimal(n)
  {
    CanonicalIsDecimal(s);
  }

  /** Leading zeros do not change what is parsed ("#007" is PR 7). */
  lemma ParseLeadingZero(s: string)
    requires |s| > 0 && AllDigits(s)
    ensures ParseU32("0" + s) == ParseU32(s)
  {
    LeadingZeroValue(s);
    assert ("0" + s)[0] == '0';
  }

  /** A sign other than '+', a lone '+' and the empty string are refused. */
  lemma ParseRejects(s: string)
    ensures ParseU32("-" + s) == None
    ensures ParseU32("+") == None && ParseU32("") == None
    ensures ParseU32("++" + s) == None
  {
    assert ("-" + s)[0] == '-';
    assert ("++" + s)[1..][0] == '+';
  }

  /** `s.trim_end_matches(',')`: every trailing comma removed. */
  function TrimEndCommas(s: string): (r: string)
    ensures |r| <= |s| && r == s[..|r|]
    ensures r == [] || r[|r| - 1] != ','
    ensures forall i :: |r| <= i < |s| ==> s[i] == ','
    decreases |s|
  {
    if |s| > 0 && s[|s| - 1] == ',' then TrimEndCommas(s[..|s| - 1]) else s
  }

  /** `s.trim_start_matches("./")`: every leading "./" removed. */
  function TrimLeadingDotSlash(s: string): string
    decreases |s|
  {
    if |s| >= 2 && s[0] == '.' && s[1] == '/' then TrimLeadingDotSlash(s[2..]) else s
  }

  /** `k` copies of "./". */
  function DotSlashes(k: nat): (s: string)
    ensures |s| == 2 * k
  {
    if k == 0 then [] else "./" + DotSlashes(k - 1)
  }

  /** How many leading "./" pairs `TrimLeadingDotSlash` removes. */
  function DotSlashCount(s: string): nat
    decreases |s|
  {
    if |s| >= 2 && s[0] == '.' && s[1] == '/' then 1 + DotSlashCount(s[2..]) else 0
  }

  /** What `TrimLeadingDotSlash` removes is a run of whole "./" pairs, and
      nothing else: the input is those pairs followed by the result, and
      the result does not start with "./". */
  lemma {:induction false} TrimmedDotSlashes(s: string)
    ensures s == DotSlashes(DotSlashCount(s)) + TrimLeadingDotSlash(s)
    ensures var r := TrimLeadingDotSlash(s); !(|r| >= 2 && r[0] == '.' && r[1] == '/')
    decreases |s|
  {
    if |s| >= 2 && s[0] == '.' && s[1] == '/' {
      var rest := s[2..];
      TrimmedDotSlashes(rest);
      var k := DotSlashCount(rest);
      assert DotSlashes(k + 1) == "./" + DotSlashes(k);
      assert s == "./" + rest;
    } else {
      assert DotSlashes(0) == [];
    }
  }

  /** `s.split_once(sep)`: the text before and after the FIRST separator. */
  function SplitOnce(s: string, sep: char): (r: Option<(string, string)>)
    ensures r.None? <==> sep !in s
    ensures r.Some? ==> s == r.value.0 + [sep] + r.value.1 && sep !in r.value.0
    decreases |s|
  {
    if s == [] then None
    else if s[0] == sep then Some(([], s[1..]))
    else match SplitOnce(s[1..], sep)
      case None => None
      case Some((a, b)) => Some(([s[0]] + a, b))
  }

  /** Two splits at a separator absent from the first parts are the same split. */
  lemma FirstSeparator(a: string, b: string, a': string, b': string, sep: char)
    requires a + [sep] + b == a' + [sep] + b'
    requires sep !in a && sep !in a'
    ensures a == a' && b == b'
  {
    var s := a + [sep] + b;
    assert s[|a|] == sep && s[|a'|] == sep;
    assert forall i :: 0 <= i < |a| ==> s[i] == a[i];
    assert forall i :: 0 <= i < |a'| ==> s[i] == a'[i];
    assert |a| == |a'|;
    assert a == s[..|a|] && a' == s[..|a'|];
    assert b == s[|a| + 1..] && b' == s[|a'| + 1..];
  }

  /** The same, for a separator absent from the last parts. */
  lemma LastSeparator(a: string, b: string, a': string, b': string, sep: char)
    requires a + [sep] + b == a' + [sep] + b'
    requires sep !in b && sep !in b'
    ensures a == a' && b == b'
  {
    var s := a + [sep] + b;
    assert s[|a|] == sep && s[|a'|] == sep;
    assert forall i :: |a| < i < |s| ==> s[i] == b[i - |a| - 1];
    assert forall i :: |a'| < i < |s| ==> s[i] == b'[i - |a'| - 1];
    assert |a| == |a'|;
    assert a == s[..|a|] && a' == s[..|a'|];
    assert b == s[|a| + 1..] && b' == s[|a'| + 1..];
  }

  /** `split_once` recovers the parts around the first separator. */
  lemma SplitOnceOf(a: string, b: string, sep: char)
    requires sep !in a
    ensures SplitOnce(a + [sep] + b, sep) == Some((a, b))
  {
    var r := SplitOnce(a + [sep] + b, sep);
    assert (a + [sep] + b)[|a|] == sep;
    FirstSeparator(a, b, r.value.0, r.value.1, sep);
  }

  /** `s.split(sep)`: the pieces between separators; `n` separators give
      `n + 1` pieces, some of them possibly empty. */
  function SplitOn(s: string, sep: char): (r: seq<string>)
    ensures |r| > 0
    ensures forall i :: 0 <= i < |r| ==> sep !in r[i]
    decreases |s|
  {
    if s == [] then [[]]
    else
      var rest := SplitOn(s[1..], sep);
      if s[0] == sep then [[]] + rest else [[s[0]] + rest[0]] + rest[1..]
  }

  /** `xs.join(sep)` */
  function Join(xs: seq<string>, sep: char): string
  {
    if xs == [] then []
    else if |xs| == 1 then xs[0]
    else xs[0] + [sep] + Join(xs[1..], sep)
  }

  function Concat(xs: seq<string>): string
  {
    if xs == [] then [] else xs[0] + Concat(xs[1..])
  }

  /** `s` with every occurrence of `c` deleted. */
  function Without(s: string, c: char): string
  {
    if s == [] then [] else (if s[0] == c then [] else [s[0]]) + Without(s[1..], c)
  }

  lemma {:induction false} SplitWithoutSeparator(s: string, sep: char)
    requires sep !in s
    ensures SplitOn(s, sep) == [s]
    decreases |s|
  {
    if s != [] {
      SplitWithoutSeparator(s[1..], sep);
      assert [s[0]] + s[1..] == s;
    }
  }

  lemma {:induction false} SplitAtSeparator(x: string, y: string, sep: char)
    ensures SplitOn(x + [sep] + y, sep) == SplitOn(x, sep) + SplitOn(y, sep)
    decreases |x|
  {
    var s := x + [sep] + y;
    if x == [] {
      assert s[1..] == y;
    } else {
      assert s[1..] == x[1..] + [sep] + y;
      SplitAtSeparator(x[1..], y, sep);
    }
  }

  /** `split` undoes `join` when no piece holds the separator. */
  lemma {:induction false} SplitJoin(xs: seq<string>, sep: char)
    requires |xs| > 0
    requires forall i :: 0 <= i < |xs| ==> sep !in xs[i]
    ensures SplitOn(Join(xs, sep), sep) == xs
    decreases |xs|
  {
    SplitWithoutSeparator(xs[0], sep);
    if |xs| > 1 {
      SplitAtSeparator(xs[0], Join(xs[1..], sep), sep);
      SplitJoin(xs[1..], sep);
      assert [xs[0]] + xs[1..] == xs;
    }
  }

  /** `join` undoes `split`: the pieces, rejoined at the separator, are
      the text again. */
  lemma {:induction false} JoinSplit(s: string, sep: char)
    ensures Join(SplitOn(s, sep), sep) == s
    decreases |s|
  {
    if s != [] {
      JoinSplit(s[1..], sep);
      var rest := SplitOn(s[1..], sep);
      if s[0] == sep {
        assert ([[]] + rest)[1..] == rest;
        assert Join([[]] + rest, sep) == [] + [sep] + Join(rest, sep);
        assert [sep] + s[1..] == s;
      } else if |rest| == 1 {
        assert [s[0]] + s[1..] == s;
      } else {
        var r := [[s[0]] + rest[0]] + rest[1..];
        assert r[1..] == rest[1..];
        assert Join(rest, sep) == rest[0] + [sep] + Join(rest[1..], sep);
        assert Join(r, sep) == [s[0]] + (rest[0] + [sep] + Join(rest[1..], sep));
        assert [s[0]] + s[1..] == s;
      }
    }
  }

  lemma {:induction false} WithoutAppend(a: string, b: string, c: char)
    ensures Without(a + b, c) == Without(a, c) + Without(b, c)
    decreases |a|
  {
    if a != [] {
      assert (a + b)[0] == a[0] && (a + b)[1..] == a[1..] + b;
      WithoutAppend(a[1..], b, c);
      var h := if a[0] == c then [] else [a[0]];
      calc {
        Without(a + b, c);
        h + Without(a[1..] + b, c);
        h + (Without(a[1..], c) + Without(b, c));
        (h + Without(a[1..], c)) + Without(b, c);
      }
    } else {
      assert a + b == b;
    }
  }

  /** Splitting loses exactly the separators. */
  lemma {:induction false} ConcatSplit(s: string, sep: char)
    ensures Concat(SplitOn(s, sep)) == Without(s, sep)
    decreases |s|
  {
    if s != [] {
      ConcatSplit(s[1..], sep);
      var rest := SplitOn(s[1..], sep);
      if s[0] != sep {
        assert Concat(rest) == rest[0] + Concat(rest[1..]);
      }
    }
  }

  /** Joining adds nothing but separators. */
  lemma {:induction false} WithoutJoin(xs: seq<string>, c: char)
    ensures Without(Join(xs, c), c) == Without(Concat(xs), c)
    decreases |xs|
  {
    if |xs| == 1 {
      assert xs[1..] == [] && Concat(xs) == xs[0] + Concat(xs[1..]);
      assert Concat(xs) == xs[0] && Join(xs, c) == xs[0];
    } else if |xs| > 1 {
      WithoutAppend(xs[0] + [c], Join(xs[1..], c), c);
      WithoutAppend(xs[0], [c], c);
      WithoutAppend(xs[0], Concat(xs[1..]), c);
      WithoutJoin(xs[1..], c);
    }
  }

  /** Appending a piece to a non-empty join adds a separator and the piece. */
  lemma {:induction false} JoinSnoc(xs: seq<string>, x: string, sep: char)
    requires |xs| > 0
    ensures Join(xs + [x], sep) == Join(xs, sep) + [sep] + x
    decreases |xs|
  {
    if |xs| > 1 {
      assert (xs + [x])[1..] == xs[1..] + [x];
      JoinSnoc(xs[1..], x, sep);
    } else {
      assert (xs + [x])[1..] == [x];
    }
  }

  /** A join is at least as long as its first piece. */
  lemma JoinStartsWithFirst(xs: seq<string>, sep: char)
    requires |xs| > 0
    ensures |Join(xs, sep)| >= |xs[0]|
  {
  }

  /** `k` commas. */
  function Commas(k: nat): (s: string)
    ensures |s| == k && forall i :: 0 <= i < k ==> s[i] == ','
  {
    seq(k, _ => ',')
  }

  /** Trimming removes exactly the commas appended to a text that does not
      itself end in a comma. */
  lemma {:induction false} TrimAppendedCommas(u: string, k: nat)
    requires u == [] || u[|u| - 1] != ','
    ensures TrimEndCommas(u + Commas(k)) == u
    decreases k
  {
    if k > 0 {
      var s := u + Commas(k);
      assert s[..|s| - 1] == u + Commas(k - 1);
      TrimAppendedCommas(u, k - 1);
    } else {
      assert u + Commas(0) == u;
    }
  }
}
