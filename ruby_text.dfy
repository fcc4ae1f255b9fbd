/** The parts of Ruby's String and Integer behaviour that the ledger validator
    relies on, stated on Dafny strings (sequences of Unicode scalar values). */
module RubyText {

  /** Ruby's `nil` for an index past the end of an array: `v[i]` is Nil or Val. */
  datatype Nilable<T> = Nil | Val(value: T)

  /** The outcome of a Ruby expression that may raise instead of returning. */
  datatype Eval<T> = Returns(value: T) | Raises

  predicate IsDigit(c: char) { '0' <= c <= '9' }

  predicate AllDigits(s: string) { forall i :: 0 <= i < |s| ==> IsDigit(s[i]) }

  function DigitValue(c: char): nat
    requires IsDigit(c)
  {
    c as int - '0' as int
  }

  /** The character that renders d in base 10. */
  function DigitChar(d: nat): (c: char)
    requires d < 10
    ensures IsDigit(c) && DigitValue(c) == d
  {
    ('0' as int + d) as char
  }

  // ---------------------------------------------------------------------------
  // String#split with a one-character separator

  /** Joins fields with sep between them (the inverse of Fields). */
  function Join(fs: seq<string>, sep: char): string
  {
    if |fs| == 0 then []
    else if |fs| == 1 then fs[0]
    else fs[0] + [sep] + Join(fs[1..], sep)
  }

  /** Every field of s between occurrences of sep, empty ones included. */
  function Fields(s: string, sep: char): (r: seq<string>)
    ensures |r| >= 1
    ensures forall k :: 0 <= k < |r| ==> sep !in r[k]
    ensures Join(r, sep) == s
    decreases |s|
  {
    if s == [] then [[]]
    else
      var rest := Fields(s[1..], sep);
      if s[0] == sep then
        assert ([[]] + rest)[1..] == rest;
        [[]] + rest
      else
        var r := [[s[0]] + rest[0]] + rest[1..];
        assert r[1..] == rest[1..];
        assert |rest| > 1 ==> Join(rest, sep) == rest[0] + [sep] + Join(rest[1..], sep);
        r
  }

  /** Removes the empty fields at the end of fs. */
  function DropTrailingEmpty(fs: seq<string>): (r: seq<string>)
    ensures |r| <= |fs| && r == fs[..|r|]
    ensures |r| > 0 ==> r[|r| - 1] != []
    ensures forall k :: |r| <= k < |fs| ==> fs[k] == []
  {
    if |fs| == 0 then fs
    else if fs[|fs| - 1] == [] then DropTrailingEmpty(fs[..|fs| - 1])
    else fs
  }

  /** Ruby's `s.split(sep)` for a one-character, non-space separator: the
      fields between separators, with the trailing empty ones removed (so the
      empty string splits into no fields at all). */
  function Split(s: string, sep: char): (r: seq<string>)
    ensures forall k :: 0 <= k < |r| ==> sep !in r[k]
    ensures |r| > 0 ==> r[|r| - 1] != []
    ensures |r| <= |Fields(s, sep)| && r == Fields(s, sep)[..|r|]
    ensures forall k :: |r| <= k < |Fields(s, sep)| ==> Fields(s, sep)[k] == []
  {
    DropTrailingEmpty(Fields(s, sep))
  }

  /** A string without the separator is a single field. */
  lemma {:induction false} FieldsOfPlain(a: string, sep: char)
    requires sep !in a
    ensures Fields(a, sep) == [a]
    decreases |a|
  {
    if a != [] {
      FieldsOfPlain(a[1..], sep);
    }
  }

  /** A field without the separator, the separator, then the rest. */
  lemma {:induction false} FieldsOfCons(a: string, b: string, sep: char)
    requires sep !in a
    ensures Fields(a + [sep] + b, sep) == [a] + Fields(b, sep)
    decreases |a|
  {
    var s := a + [sep] + b;
    if a == [] {
      assert s[1..] == b;
    } else {
      assert s[0] == a[0] && s[0] != sep;
      assert s[1..] == a[1..] + [sep] + b;
      FieldsOfCons(a[1..], b, sep);
      var rest := Fields(s[1..], sep);
      assert rest[0] == a[1..] && rest[1..] == Fields(b, sep);
      assert [s[0]] + rest[0] == a;
    }
  }

  /** Fields splits exactly what Join assembled. */
  lemma {:induction false} FieldsOfJoin(fs: seq<string>, sep: char)
    requires |fs| >= 1
    requires forall k :: 0 <= k < |fs| ==> sep !in fs[k]
    ensures Fields(Join(fs, sep), sep) == fs
    decreases |fs|
  {
    if |fs| == 1 {
      FieldsOfPlain(fs[0], sep);
    } else {
      assert Join(fs, sep) == fs[0] + [sep] + Join(fs[1..], sep);
      FieldsOfJoin(fs[1..], sep);
      FieldsOfCons(fs[0], Join(fs[1..], sep), sep);
      assert [fs[0]] + fs[1..] == fs;
    }
  }

  /** Split gives back the joined fields when the last one is not empty. */
  lemma SplitOfJoin(fs: seq<string>, sep: char)
    requires |fs| >= 1 && fs[|fs| - 1] != []
    requires forall k :: 0 <= k < |fs| ==> sep !in fs[k]
    ensures Split(Join(fs, sep), sep) == fs
  {
    FieldsOfJoin(fs, sep);
  }

  /** Ruby's `s[0..-2]`: everything but the last character. */
  function DropLast(s: string): (r: string)
    ensures |s| > 0 ==> s == r + [s[|s| - 1]]
    ensures |s| == 0 ==> r == []
  {
    if |s| == 0 then s else s[..|s| - 1]
  }

  // ---------------------------------------------------------------------------
  // String#to_i and Integer#to_s in base 10

  /** The white space that `to_i` skips: space, tab, line feed, vertical tab,
      form feed, carriage return. */
  predicate IsSpace(c: char) { c == ' ' || '\t' <= c <= '\r' }

  /** s without its leading white space. */
  function SkipSpace(s: string): (r: string)
    ensures |r| <= |s| && r == s[|s| - |r|..]
    ensures |r| > 0 ==> !IsSpace(r[0])
  {
    if |s| > 0 && IsSpace(s[0]) then SkipSpace(s[1..]) else s
  }

  /** What SkipSpace removes is white space. */
  lemma {:induction false} SkipSpaceRemovesSpace(s: string)
    ensures forall i :: 0 <= i < |s| - |SkipSpace(s)| ==> IsSpace(s[i])
    decreases |s|
  {
    if |s| > 0 && IsSpace(s[0]) {
      SkipSpaceRemovesSpace(s[1..]);
      assert forall i :: 1 <= i < |s| - |SkipSpace(s)| ==> s[i] == s[1..][i - 1];
    }
  }

  /** The digits of the longest prefix of s of the form digit (['_'] digit)*,
      underscores removed. */
  function DigitRun(s: string): (r: string)
    ensures AllDigits(r) && |r| <= |s|
    ensures |s| > 0 && IsDigit(s[0]) <==> |r| > 0
  {
    if |s| == 0 || !IsDigit(s[0]) then []
    else if |s| >= 3 && s[1] == '_' && IsDigit(s[2]) then [s[0]] + DigitRun(s[2..])
    else [s[0]] + DigitRun(s[1..])
  }

  /** The digit run of a string of digits followed by text that cannot
      continue the run is exactly those digits. */
  lemma {:induction false} DigitRunPrefix(ds: string, rest: string)
    requires AllDigits(ds)
    requires rest == [] || !IsDigit(rest[0])
    requires !(|rest| >= 2 && rest[0] == '_' && IsDigit(rest[1]))
    ensures DigitRun(ds + rest) == ds
    decreases |ds|
  {
    if ds == [] {
      assert ds + rest == rest;
    } else {
      var s := ds + rest;
      assert s[0] == ds[0];
      assert |ds| >= 2 ==> s[1] == ds[1];
      assert |ds| == 1 && |rest| >= 1 ==> s[1] == rest[0];
      assert |ds| == 1 && |rest| >= 2 ==> s[2] == rest[1];
      assert s[1..] == ds[1..] + rest;
      DigitRunPrefix(ds[1..], rest);
      assert [ds[0]] + ds[1..] == ds;
    }
  }

  /** The value of a string of decimal digits, most significant first. */
  function DecimalValue(ds: string): nat
    requires AllDigits(ds)
  {
    if ds == [] then 0 else 10 * DecimalValue(ds[..|ds| - 1]) + DigitValue(ds[|ds| - 1])
  }

  /** The unsigned part of `to_i`: an optional "0d"/"0D" radix prefix, then a
      digit run; no digits at all read as 0. */
  function Magnitude(s: string): nat
  {
    var body := if |s| >= 2 && s[0] == '0' && (s[1] == 'd' || s[1] == 'D') then s[2..] else s;
    DecimalValue(DigitRun(body))
  }

  /** Ruby's `String#to_i` in base 10: skip leading white space, read an
      optional sign, then the magnitude; never fails, and a string without a
      leading number reads as 0. */
  function ToI(s: string): int
  {
    var t := SkipSpace(s);
    if |t| > 0 && t[0] == '-' then -(Magnitude(t[1..]) as int)
    else if |t| > 0 && t[0] == '+' then Magnitude(t[1..])
    else Magnitude(t)
  }

  /** Integer#to_s for a non-negative integer: decimal, no leading zeros. */
  function NatToString(n: nat): (r: string)
    ensures |r| > 0 && AllDigits(r)
    ensures DecimalValue(r) == n
    ensures |r| > 1 ==> r[0] != '0'
  {
    if n < 10 then [DigitChar(n)]
    else
      var r := NatToString(n / 10) + [DigitChar(n % 10)];
      assert r[..|r| - 1] == NatToString(n / 10);
      r
  }

  /** Integer#to_s, the rendering of `"#{n}"`. */
  function IntToString(n: int): string
  {
    if n < 0 then "-" + NatToString(-n) else NatToString(n)
  }

  /** `"#{n}"` is the decimal digits of n without leading zeros, after a
      minus sign when n is negative; it holds no '|'. */
  lemma IntToStringDigits(n: int)
    ensures var r := IntToString(n);
      && (n >= 0 ==> |r| > 0 && AllDigits(r) && DecimalValue(r) == n && (|r| > 1 ==> r[0] != '0'))
      && (n < 0 ==> |r| >= 2 && r[0] == '-' && AllDigits(r[1..]) && DecimalValue(r[1..]) == -n && r[1] != '0')
      && '|' !in r
  {
    var ds := NatToString(if n < 0 then -n else n);
    assert forall k :: 0 <= k < |ds| ==> IsDigit(ds[k]);
    if n < 0 {
      assert |ds| == 1 ==> DecimalValue(ds) == DigitValue(ds[0]);
      assert IntToString(n)[1..] == ds;
    }
  }

  /** The unsigned part of `to_i` reads a leading run of digits. */
  lemma MagnitudeOfDigits(ds: string, rest: string)
    requires |ds| > 0 && AllDigits(ds)
    requires rest == [] || !IsDigit(rest[0])
    requires !(|rest| >= 2 && rest[0] == '_' && IsDigit(rest[1]))
    requires !(ds == "0" && |rest| > 0 && (rest[0] == 'd' || rest[0] == 'D'))
    ensures Magnitude(ds + rest) == DecimalValue(ds)
  {
    var u := ds + rest;
    DigitRunPrefix(ds, rest);
    assert u[0] == ds[0];
    assert |ds| >= 2 ==> u[1] == ds[1];
    assert |ds| == 1 && |rest| > 0 ==> u[1] == rest[0];
  }

  /** `to_i` reads the leading number of a string: white space, an optional
      sign, a run of digits, then anything that cannot continue the run. */
  lemma ToIOfLeadingDigits(sp: string, sign: string, ds: string, rest: string)
    requires forall i :: 0 <= i < |sp| ==> IsSpace(sp[i])
    requires sign == "" || sign == "+" || sign == "-"
    requires |ds| > 0 && AllDigits(ds)
    requires rest == [] || !IsDigit(rest[0])
    requires !(|rest| >= 2 && rest[0] == '_' && IsDigit(rest[1]))
    requires !(ds == "0" && |rest| > 0 && (rest[0] == 'd' || rest[0] == 'D'))
    ensures ToI(sp + sign + ds + rest) == if sign == "-" then -(DecimalValue(ds) as int) else DecimalValue(ds)
  {
    var u := ds + rest;
    var t := sign + u;
    Regroup(sp, sign, ds, rest);
    MagnitudeOfDigits(ds, rest);
    SignedMagnitude(sign, u);
    ToIAfterSpace(sp, t);
  }

  lemma Regroup(a: string, b: string, c: string, d: string)
    ensures a + b + c + d == a + (b + (c + d))
    ensures |c| > 0 ==> (c + d)[0] == c[0]
  {
  }

  /** Leading white space does not change what `to_i` reads. */
  lemma ToIAfterSpace(sp: string, t: string)
    requires forall i :: 0 <= i < |sp| ==> IsSpace(sp[i])
    requires |t| > 0 && !IsSpace(t[0])
    ensures var m := if t[0] == '-' then -(Magnitude(t[1..]) as int)
                     else if t[0] == '+' then Magnitude(t[1..]) as int
                     else Magnitude(t) as int;
      ToI(sp + t) == m
  {
    SkipSpaceOf(sp, t);
  }

  /** With the white space gone, the sign decides how the magnitude is read. */
  lemma SignedMagnitude(sign: string, u: string)
    requires sign == "" || sign == "+" || sign == "-"
    requires |u| > 0 && IsDigit(u[0])
    ensures var t := sign + u;
      && |t| > 0 && !IsSpace(t[0])
      && (if t[0] == '-' then -(Magnitude(t[1..]) as int)
          else if t[0] == '+' then Magnitude(t[1..]) as int
          else Magnitude(t) as int) == (if sign == "-" then -(Magnitude(u) as int) else Magnitude(u))
  {
    var t := sign + u;
    if sign == "" {
      assert t == u;
    } else {
      assert t[0] == sign[0] && t[1..] == u;
    }
  }

  /** A string whose first character after the white space and an optional
      sign is not a digit reads as 0. */
  lemma ToIOfNoNumber(s: string)
    requires var t := SkipSpace(s);
      || |t| == 0
      || (t[0] != '-' && t[0] != '+' && !IsDigit(t[0]))
      || ((t[0] == '-' || t[0] == '+') && (|t| == 1 || !IsDigit(t[1])))
    ensures ToI(s) == 0
  {
  }

  /** Leading white space is skipped up to the first other character. */
  lemma {:induction false} SkipSpaceOf(sp: string, t: string)
    requires forall i :: 0 <= i < |sp| ==> IsSpace(sp[i])
    requires |t| > 0 && !IsSpace(t[0])
    ensures SkipSpace(sp + t) == t
    decreases |sp|
  {
    if sp == [] {
      assert sp + t == t;
    } else {
      assert (sp + t)[1..] == sp[1..] + t;
      SkipSpaceOf(sp[1..], t);
    }
  }

  lemma {:induction false} DigitRunOfDigits(ds: string)
    requires AllDigits(ds)
    ensures DigitRun(ds) == ds
    decreases |ds|
  {
    if |ds| > 0 {
      DigitRunOfDigits(ds[1..]);
    }
  }

  /** On a non-empty string of digits, `to_i` is the plain decimal value. */
  lemma ToIOfDigits(ds: string)
    requires |ds| > 0 && AllDigits(ds)
    ensures ToI(ds) == DecimalValue(ds)
  {
    ToIOfLeadingDigits("", "", ds, "");
    assert "" + "" + ds + "" == ds;
  }

  /** `to_i` reads back what `to_s` renders. */
  lemma ToIOfIntToString(n: int)
    ensures ToI(IntToString(n)) == n
  {
    if n < 0 {
      var ds := NatToString(-n);
      DigitRunOfDigits(ds);
      var s := "-" + ds;
      assert s[0] == '-' && !IsSpace(s[0]);
      assert SkipSpace(s) == s;
      assert s[1..] == ds;
      assert Magnitude(ds) == -n;
    } else {
      ToIOfDigits(NatToString(n));
    }
  }

  /** A string of k digits has a value below 10^k; stated for the widths used. */
  lemma {:induction false} DecimalValueBound(ds: string, bound: nat)
    requires AllDigits(ds) && bound == Pow10(|ds|)
    ensures DecimalValue(ds) < bound
    decreases |ds|
  {
    if |ds| > 0 {
      DecimalValueBound(ds[..|ds| - 1], Pow10(|ds| - 1));
    }
  }

  function Pow10(k: nat): nat
  {
    if k == 0 then 1 else 10 * Pow10(k - 1)
  }

  // ---------------------------------------------------------------------------
  // String#> : byte-wise comparison, which for UTF-8 is code-point order

  /** The order of Ruby's `String#>`, stated without recursion: b is a proper
      prefix of a, or at the first position where they differ a has the
      larger character. */
  predicate Above(a: string, b: string)
  {
    || (|b| < |a| && a[..|b|] == b)
    || exists k :: 0 <= k < |a| && k < |b| && a[..k] == b[..k] && a[k] > b[k]
  }

  lemma AboveHead(a: string, b: string)
    requires |a| > 0 && |b| > 0 && a[0] != b[0]
    ensures Above(a, b) <==> a[0] > b[0]
  {
    if a[0] > b[0] {
      assert a[..0] == b[..0];
    } else {
      forall k | 0 <= k < |a| && k < |b| && a[..k] == b[..k]
        ensures !(a[k] > b[k])
      {
        assert k == 0;
      }
    }
  }

  lemma AboveTail(a: string, b: string)
    requires |a| > 0 && |b| > 0 && a[0] == b[0]
    ensures Above(a, b) <==> Above(a[1..], b[1..])
  {
    var a', b' := a[1..], b[1..];
    if |b| < |a| && a[..|b|] == b {
      assert a'[..|b'|] == a[..|b|][1..];
    }
    if |b'| < |a'| && a'[..|b'|] == b' {
      assert a[..|b|] == [a[0]] + a'[..|b'|];
      assert b == [b[0]] + b';
    }
    forall k | 0 <= k < |a| && k < |b| && a[..k] == b[..k] && a[k] > b[k]
      ensures Above(a', b')
    {
      assert k > 0;
      assert a'[..k - 1] == a[..k][1..] && b'[..k - 1] == b[..k][1..];
      assert a'[k - 1] == a[k] && b'[k - 1] == b[k];
    }
    forall k | 0 <= k < |a'| && k < |b'| && a'[..k] == b'[..k] && a'[k] > b'[k]
      ensures Above(a, b)
    {
      assert a[..k + 1] == [a[0]] + a'[..k] && b[..k + 1] == [b[0]] + b'[..k];
      assert a[k + 1] == a'[k] && b[k + 1] == b'[k];
    }
  }

  /** Ruby's `a > b` on strings, compared character by character. */
  predicate StrGreater(a: string, b: string)
    decreases |a|
  {
    if |b| == 0 then |a| > 0
    else if |a| == 0 then false
    else if a[0] != b[0] then a[0] > b[0]
    else StrGreater(a[1..], b[1..])
  }

  /** The character-by-character comparison is the order Above. */
  lemma {:induction false} StrGreaterIsAbove(a: string, b: string)
    ensures StrGreater(a, b) <==> Above(a, b)
    decreases |a|
  {
    if |b| == 0 {
      assert |a| > 0 ==> a[..0] == b;
    } else if |a| == 0 {
    } else if a[0] != b[0] {
      AboveHead(a, b);
    } else {
      AboveTail(a, b);
      StrGreaterIsAbove(a[1..], b[1..]);
    }
  }

  lemma {:induction false} StrGreaterIrreflexive(a: string)
    ensures !StrGreater(a, a)
    decreases |a|
  {
    if |a| > 0 {
      StrGreaterIrreflexive(a[1..]);
    }
  }

  lemma {:induction false} StrGreaterAsymmetric(a: string, b: string)
    requires StrGreater(a, b)
    ensures !StrGreater(b, a)
    decreases |a|
  {
    if |a| > 0 && |b| > 0 && a[0] == b[0] {
      StrGreaterAsymmetric(a[1..], b[1..]);
    }
  }
}
