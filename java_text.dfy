/**
 * The parts of java.lang.String and java.lang.Integer that the feature-id-map
 * loader relies on: String.trim, String.split with a one-character separator,
 * and Integer.parseInt, together with Integer.toString as the inverse that
 * pins down what parseInt accepts.
 */
module JavaText {
  import opened Wrappers

  /** The range of a Java int. */
  const MinInt: int := -0x8000_0000
  const MaxInt: int := 0x7fff_ffff

  // ---------------------------------------------------------------- trim

  /** String.trim removes every character whose code is at most U+0020. */
  predicate IsTrimmable(c: char) {
    c <= ' '
  }

  /**
   * The first loop of String.trim: from i, the index of the first character
   * above U+0020, or |s| when there is none.
   */
  function SkipLeading(s: string, i: nat): (st: nat)
    requires i <= |s|
    ensures i <= st <= |s|
    ensures forall k :: i <= k < st ==> IsTrimmable(s[k])
    ensures st == |s| || !IsTrimmable(s[st])
    decreases |s| - i
  {
    if i < |s| && IsTrimmable(s[i]) then SkipLeading(s, i + 1) else i
  }

  /**
   * The second loop of String.trim: moves the end len down past characters at
   * most U+0020, but not below st.
   */
  function SkipTrailing(s: string, st: nat, len: nat): (r: nat)
    requires st <= len <= |s|
    ensures st <= r <= len
    ensures forall k :: r <= k < len ==> IsTrimmable(s[k])
    ensures r == st || !IsTrimmable(s[r - 1])
    decreases len
  {
    if st < len && IsTrimmable(s[len - 1]) then SkipTrailing(s, st, len - 1) else len
  }

  /**
   * String.trim: the substring between the two indices. It neither starts nor
   * ends with a character at most U+0020, and a string already in that form
   * comes back unchanged.
   */
  function Trim(s: string): (r: string)
    ensures r == [] || (!IsTrimmable(r[0]) && !IsTrimmable(r[|r| - 1]))
    ensures (s == [] || (!IsTrimmable(s[0]) && !IsTrimmable(s[|s| - 1]))) ==> r == s
  {
    var st := SkipLeading(s, 0);
    s[st..SkipTrailing(s, st, |s|)]
  }

  /**
   * String.trim keeps an infix of s and removes only characters at most
   * U+0020: every character before and after the infix is one.
   */
  lemma TrimIsInfix(s: string)
    ensures var st := SkipLeading(s, 0);
            && st + |Trim(s)| <= |s| && Trim(s) == s[st..st + |Trim(s)|]
            && (forall i :: 0 <= i < st ==> IsTrimmable(s[i]))
            && (forall i :: st + |Trim(s)| <= i < |s| ==> IsTrimmable(s[i]))
  {
  }

  // ---------------------------------------------------------------- split

  /**
   * Every field of s between occurrences of sep, empty ones included: a string
   * with k separators has k + 1 fields.
   */
  function Fields(s: string, sep: char): (r: seq<string>)
    ensures |r| >= 1
    ensures forall i :: 0 <= i < |r| ==> sep !in r[i]
    decreases |s|
  {
    if |s| == 0 then [""]
    else if s[0] == sep then [""] + Fields(s[1..], sep)
    else
      var rest := Fields(s[1..], sep);
      [[s[0]] + rest[0]] + rest[1..]
  }

  /** The fields glued back together with the separator between them. */
  function Join(fields: seq<string>, sep: char): string
    requires |fields| >= 1
    decreases |fields|
  {
    if |fields| == 1 then fields[0] else fields[0] + [sep] + Join(fields[1..], sep)
  }

  /** Drops the empty strings at the end of a list of fields. */
  function DropTrailingEmpty(fields: seq<string>): (r: seq<string>)
    ensures |r| <= |fields| && r == fields[..|r|]
    ensures r == [] || r[|r| - 1] != ""
    ensures forall i :: |r| <= i < |fields| ==> fields[i] == ""
  {
    if |fields| > 0 && fields[|fields| - 1] == "" then DropTrailingEmpty(fields[..|fields| - 1])
    else fields
  }

  /**
   * String.split(regex) with a regex that is one ordinary character and the
   * default limit 0: a string without the separator comes back as the only
   * field (even when it is empty); otherwise the fields are kept, interior
   * empty ones included, and the trailing empty ones are removed.
   */
  function JavaSplit(s: string, sep: char): (r: seq<string>)
    ensures sep !in s ==> r == [s]
    ensures |r| <= |Fields(s, sep)| && r == Fields(s, sep)[..|r|]
    ensures forall i :: |r| <= i < |Fields(s, sep)| ==> Fields(s, sep)[i] == ""
    ensures sep in s ==> r == [] || r[|r| - 1] != ""
  {
    if sep !in s then FieldsNoSep(s, sep); [s] else DropTrailingEmpty(Fields(s, sep))
  }

  lemma {:induction false} JoinCons(first: string, rest: seq<string>, sep: char)
    requires |rest| >= 1
    ensures Join([first] + rest, sep) == first + [sep] + Join(rest, sep)
  {
    assert ([first] + rest)[1..] == rest;
  }

  /** Splitting and joining again gives back the original string. */
  lemma {:induction false} JoinFields(s: string, sep: char)
    ensures Join(Fields(s, sep), sep) == s
    decreases |s|
  {
    if |s| == 0 {
    } else if s[0] == sep {
      JoinFields(s[1..], sep);
      JoinCons("", Fields(s[1..], sep), sep);
      assert s == [sep] + s[1..];
    } else {
      var rest := Fields(s[1..], sep);
      JoinFields(s[1..], sep);
      if |rest| == 1 {
        assert Fields(s, sep) == [[s[0]] + rest[0]];
        assert s == [s[0]] + s[1..];
      } else {
        JoinCons([s[0]] + rest[0], rest[1..], sep);
        JoinCons(rest[0], rest[1..], sep);
        assert [rest[0]] + rest[1..] == rest;
        assert s == [s[0]] + s[1..];
      }
    }
  }

  /** A string free of the separator is a single field. */
  lemma {:induction false} FieldsNoSep(s: string, sep: char)
    requires sep !in s
    ensures Fields(s, sep) == [s]
    decreases |s|
  {
    if |s| > 0 {
      assert sep !in s[1..] by {
        forall i | 0 <= i < |s[1..]| ensures s[1..][i] != sep {
          assert s[1..][i] == s[i + 1];
        }
      }
      FieldsNoSep(s[1..], sep);
      assert s == [s[0]] + s[1..];
    }
  }

  /** The text before the first separator is the first field. */
  lemma {:induction false} FieldsAppend(a: string, b: string, sep: char)
    requires sep !in a
    ensures Fields(a + [sep] + b, sep) == [a] + Fields(b, sep)
    decreases |a|
  {
    var s := a + [sep] + b;
    if |a| == 0 {
      assert s == [sep] + b;
      assert s[1..] == b;
    } else {
      assert s[0] == a[0];
      assert s[1..] == a[1..] + [sep] + b;
      assert sep !in a[1..] by {
        forall i | 0 <= i < |a[1..]| ensures a[1..][i] != sep {
          assert a[1..][i] == a[i + 1];
        }
      }
      FieldsAppend(a[1..], b, sep);
      assert [a[0]] + a[1..] == a;
    }
  }

  /** When s is non-empty and does not end with sep, its last field is non-empty. */
  lemma {:induction false} LastFieldNonEmpty(s: string, sep: char)
    requires |s| > 0 && s[|s| - 1] != sep
    ensures var f := Fields(s, sep); f[|f| - 1] != ""
    decreases |s|
  {
    var rest := Fields(s[1..], sep);
    if s[0] == sep {
      LastFieldNonEmpty(s[1..], sep);
    } else if |rest| > 1 {
      LastFieldNonEmpty(s[1..], sep);
    }
  }

  /**
   * A string that does not end with the separator splits into all of its
   * fields: String.split removes nothing from it. Every trimmed line is such a
   * string for a tab separator.
   */
  lemma SplitKeepsAllFields(s: string, sep: char)
    requires s == [] || s[|s| - 1] != sep
    ensures JavaSplit(s, sep) == Fields(s, sep)
  {
    if sep !in s {
      FieldsNoSep(s, sep);
    } else {
      LastFieldNonEmpty(s, sep);
    }
  }

  // ---------------------------------------------------------------- parseInt

  predicate IsDigit(c: char) {
    '0' <= c <= '9'
  }

  predicate AllDigits(s: string) {
    forall i :: 0 <= i < |s| ==> IsDigit(s[i])
  }

  function DigitValue(c: char): (d: nat)
    requires IsDigit(c)
    ensures d < 10
  {
    c as int - '0' as int
  }

  /** The value of a string of decimal digits, most significant first. */
  function DigitsValue(ds: string): nat
    requires AllDigits(ds)
    decreases |ds|
  {
    if ds == [] then 0 else 10 * DigitsValue(ds[..|ds| - 1]) + DigitValue(ds[|ds| - 1])
  }

  /**
   * Integer.parseInt in radix 10: an optional '-' or '+', then one or more
   * decimal digits, with a value in the range of a Java int; anything else is
   * a NumberFormatException, here None.
   */
  function ParseInt(s: string): (r: Option<int>)
    ensures r.Some? ==> |s| > 0 && MinInt <= r.value <= MaxInt
  {
    if |s| == 0 then None
    else
      var signed := s[0] == '-' || s[0] == '+';
      var digits := if signed then s[1..] else s;
      if |digits| == 0 || !AllDigits(digits) then None
      else
        var magnitude: int := DigitsValue(digits);
        var v := if s[0] == '-' then -magnitude else magnitude;
        if MinInt <= v <= MaxInt then Some(v) else None
  }

  function DigitChar(d: nat): (c: char)
    requires d < 10
    ensures IsDigit(c) && DigitValue(c) == d
  {
    ('0' as int + d) as char
  }

  /** The decimal digits of n without leading zeros. */
  function Decimal(n: nat): (r: string)
    ensures |r| >= 1 && AllDigits(r)
  {
    if n < 10 then [DigitChar(n)] else Decimal(n / 10) + [DigitChar(n % 10)]
  }

  /** Integer.toString: a '-' for negative numbers, then the decimal digits. */
  function Show(i: int): string {
    if i < 0 then "-" + Decimal(-i) else Decimal(i)
  }

  lemma {:induction false} DecimalValue(n: nat)
    ensures DigitsValue(Decimal(n)) == n
  {
    var ds := Decimal(n);
    if n >= 10 {
      DecimalValue(n / 10);
      assert ds[..|ds| - 1] == Decimal(n / 10);
    }
  }

  /** The digits left after removing leading zeros, keeping at least one digit. */
  function StripLeadingZeros(ds: string): (r: string)
    ensures |r| <= |ds| && r == ds[|ds| - |r|..]
    ensures forall i :: 0 <= i < |ds| - |r| ==> ds[i] == '0'
    ensures |ds| > 0 ==> |r| > 0 && (|r| == 1 || r[0] != '0')
  {
    if |ds| > 1 && ds[0] == '0' then StripLeadingZeros(ds[1..]) else ds
  }

  /** A leading zero does not change the value of a digit string. */
  lemma {:induction false} LeadingZeroValue(ds: string)
    requires AllDigits(ds) && |ds| > 0 && ds[0] == '0'
    ensures AllDigits(ds[1..]) && DigitsValue(ds) == DigitsValue(ds[1..])
    decreases |ds|
  {
    var n := |ds|;
    if n > 1 {
      var p := ds[..n - 1];
      LeadingZeroValue(p);
      assert ds[1..][..n - 2] == p[1..];
      assert ds[1..][n - 2] == ds[n - 1];
    }
  }

  lemma {:induction false} StripValue(ds: string)
    requires AllDigits(ds)
    ensures AllDigits(StripLeadingZeros(ds)) && DigitsValue(StripLeadingZeros(ds)) == DigitsValue(ds)
    decreases |ds|
  {
    if |ds| > 1 && ds[0] == '0' {
      LeadingZeroValue(ds);
      StripValue(ds[1..]);
    }
  }

  /** A digit string that starts with a non-zero digit has a positive value. */
  lemma {:induction false} PositiveValue(ds: string)
    requires AllDigits(ds) && |ds| > 0 && ds[0] != '0'
    ensures DigitsValue(ds) >= 1
    decreases |ds|
  {
    if |ds| > 1 {
      PositiveValue(ds[..|ds| - 1]);
    }
  }

  /** A digit string without leading zeros is the decimal text of its value. */
  lemma {:induction false} CanonicalDigits(ds: string)
    requires AllDigits(ds) && |ds| > 0 && (|ds| == 1 || ds[0] != '0')
    ensures Decimal(DigitsValue(ds)) == ds
    decreases |ds|
  {
    var n := |ds|;
    var last := ds[n - 1];
    var p := ds[..n - 1];
    assert DigitChar(DigitValue(last)) == last;
    if n > 1 {
      PositiveValue(p);
      CanonicalDigits(p);
      var v := DigitsValue(ds);
      assert v == 10 * DigitsValue(p) + DigitValue(last);
      assert v / 10 == DigitsValue(p) && v % 10 == DigitValue(last);
      assert ds == p + [last];
    }
  }

  /** The text after an optional leading sign. */
  function Unsigned(s: string): (r: string)
    requires |s| > 0
    ensures r == s || (r == s[1..] && (s[0] == '-' || s[0] == '+'))
  {
    if s[0] == '-' || s[0] == '+' then s[1..] else s
  }

  lemma ParseIntShape(s: string, v: int)
    requires ParseInt(s) == Some(v)
    ensures |s| > 0 && |Unsigned(s)| > 0 && AllDigits(Unsigned(s))
    ensures s[0] == '-' || s[0] == '+' || IsDigit(s[0])
    ensures v == if s[0] == '-' then -(DigitsValue(Unsigned(s)) as int) else DigitsValue(Unsigned(s))
  {
    assert s[0] == '-' || s[0] == '+' || Unsigned(s)[0] == s[0];
  }

  /** Without its leading zeros a digit string is the decimal text of its value. */
  lemma CanonicalOf(ds: string)
    requires AllDigits(ds) && |ds| > 0
    ensures Decimal(DigitsValue(ds)) == StripLeadingZeros(ds)
  {
    StripValue(ds);
    CanonicalDigits(StripLeadingZeros(ds));
  }

  lemma ShowSign(v: int)
    ensures Show(v) == (if v < 0 then "-" else "") + Decimal(if v < 0 then -v else v)
  {
    if v >= 0 {
      assert "" + Decimal(v) == Decimal(v);
    }
  }

  /**
   * What parseInt accepts: an optional '-' or '+' followed by one or more
   * ASCII digits. The text is toString of the value up to a leading '+', a
   * '-' before zero, and leading zeros.
   */
  lemma ParseIntAccepted(s: string, v: int)
    requires ParseInt(s) == Some(v)
    ensures |s| > 0 && (s[0] == '-' || s[0] == '+' || IsDigit(s[0]))
    ensures |Unsigned(s)| > 0 && AllDigits(Unsigned(s))
    ensures StripLeadingZeros(Unsigned(s)) == Decimal(if v < 0 then -v else v)
    ensures Show(v) == (if v < 0 then "-" else "") + StripLeadingZeros(Unsigned(s))
    ensures v < 0 ==> s[0] == '-'
    ensures s[0] == '-' ==> v <= 0
  {
    ParseIntShape(s, v);
    CanonicalOf(Unsigned(s));
    ShowSign(v);
    assert (if v < 0 then -v else v) == DigitsValue(Unsigned(s));
  }

  /** Different numbers have different decimal texts. */
  lemma DecimalInjective(a: nat, b: nat)
    requires Decimal(a) == Decimal(b)
    ensures a == b
  {
    DecimalValue(a);
    DecimalValue(b);
  }

  /**
   * The converse of ParseIntAccepted: every text of that shape whose value is
   * in the int range is accepted, a leading '+' and leading zeros included.
   */
  lemma ParseIntWellFormed(s: string, v: int)
    requires MinInt <= v <= MaxInt
    requires |s| > 0 && |Unsigned(s)| > 0 && AllDigits(Unsigned(s))
    requires StripLeadingZeros(Unsigned(s)) == Decimal(if v < 0 then -v else v)
    requires v < 0 ==> s[0] == '-'
    requires s[0] == '-' ==> v <= 0
    ensures ParseInt(s) == Some(v)
  {
    CanonicalOf(Unsigned(s));
    DecimalInjective(DigitsValue(Unsigned(s)), if v < 0 then -v else v);
  }

  /** parseInt reads back every int that toString writes. */
  lemma ParseShow(i: int)
    requires MinInt <= i <= MaxInt
    ensures ParseInt(Show(i)) == Some(i)
  {
    var s := Show(i);
    if i < 0 {
      var d := Decimal(-i);
      DecimalValue(-i);
      assert s == "-" + d;
      assert s[0] == '-' && s[1..] == d;
    } else {
      var d := Decimal(i);
      DecimalValue(i);
      assert s == d;
      assert IsDigit(d[0]);
      assert !(s[0] == '-' || s[0] == '+');
    }
  }
}
