/** The string operations the scripts take from Python, with Python's meaning:
    `str.split` on a one-character separator, `str.join`, `startswith`,
    `endswith`, `replace` of one character by another, the ordering `<` of
    strings, and `int()` on a decimal field. */
module Strings {
  import opened Results

  predicate StartsWith(s: string, prefix: string) {
    |prefix| <= |s| && s[..|prefix|] == prefix
  }

  predicate EndsWith(s: string, suffix: string) {
    |suffix| <= |s| && s[|s| - |suffix|..] == suffix
  }

  // ---------------------------------------------------------------------------
  // sequence steps, stated once so that proofs about strings need not compare
  // them character by character

  lemma AppendAssoc<T>(x: seq<T>, y: seq<T>, z: seq<T>)
    ensures x + (y + z) == (x + y) + z
  {
  }

  lemma SliceCons<T>(s: seq<T>, k: nat)
    requires 0 < k <= |s|
    ensures s[..k] == [s[0]] + s[1..][..k - 1]
  {
  }

  lemma EndsWithAppended(x: string, y: string)
    ensures EndsWith(x + y, y)
  {
    assert (x + y)[|x + y| - |y|..] == y;
  }

  // ---------------------------------------------------------------------------
  // split and join

  /** `s.split(sep)`: the maximal separator-free runs of `s`, in order, with an
      empty field before a leading, after a trailing and between two adjacent
      separators. There is always at least one field. */
  function Split(s: string, sep: char): (parts: seq<string>)
    ensures |parts| >= 1
    ensures forall i :: 0 <= i < |parts| ==> sep !in parts[i]
    decreases |s|
  {
    if |s| == 0 then [""]
    else if s[0] == sep then [""] + Split(s[1..], sep)
    else
      var rest := Split(s[1..], sep);
      [[s[0]] + rest[0]] + rest[1..]
  }

  /** `sep.join(parts)`: the first part, then, when there are more, the
      separator right after it. */
  function Join(parts: seq<string>, sep: char): (r: string)
    ensures |parts| == 0 ==> r == ""
    ensures |parts| >= 1 ==> StartsWith(r, parts[0])
  {
    if |parts| == 0 then ""
    else if |parts| == 1 then parts[0]
    else parts[0] + [sep] + Join(parts[1..], sep)
  }

  /** Five parts joined, spelled out one separator at a time. */
  lemma JoinFive(a: string, b: string, c: string, d: string, e: string, sep: char)
    ensures Join([a, b, c, d, e], sep) == a + [sep] + (b + [sep] + (c + [sep] + (d + [sep] + e)))
  {
    assert [d, e][1..] == [e];
    assert Join([d, e], sep) == d + [sep] + e;
    assert [c, d, e][1..] == [d, e];
    assert Join([c, d, e], sep) == c + [sep] + (d + [sep] + e);
    assert [b, c, d, e][1..] == [c, d, e];
    assert Join([b, c, d, e], sep) == b + [sep] + (c + [sep] + (d + [sep] + e));
    assert [a, b, c, d, e][1..] == [b, c, d, e];
  }

  lemma {:induction false} SplitWithoutSeparator(s: string, sep: char)
    requires sep !in s
    ensures Split(s, sep) == [s]
    decreases |s|
  {
    if |s| > 0 {
      assert s[0] != sep;
      assert sep !in s[1..] by {
        forall i | 0 <= i < |s[1..]| ensures s[1..][i] != sep {
          assert s[1..][i] == s[i + 1];
        }
      }
      SplitWithoutSeparator(s[1..], sep);
      assert [s[0]] + s[1..] == s;
    }
  }

  /** A separator-free field followed by the separator splits off as a field
      of its own. */
  lemma {:induction false} SplitAfterField(a: string, sep: char, b: string)
    requires sep !in a
    ensures Split(a + [sep] + b, sep) == [a] + Split(b, sep)
    decreases |a|
  {
    var t := a + [sep] + b;
    if |a| == 0 {
      assert t == [sep] + b;
      assert t[1..] == b;
    } else {
      assert t[0] == a[0];
      assert t[1..] == a[1..] + [sep] + b;
      assert sep !in a[1..] by {
        forall i | 0 <= i < |a[1..]| ensures a[1..][i] != sep {
          assert a[1..][i] == a[i + 1];
        }
      }
      SplitAfterField(a[1..], sep, b);
      assert [a[0]] + a[1..] == a;
    }
  }

  /** Joining separator-free fields and splitting again gives the fields back. */
  lemma {:induction false} SplitJoin(parts: seq<string>, sep: char)
    requires |parts| >= 1
    requires forall i :: 0 <= i < |parts| ==> sep !in parts[i]
    ensures Split(Join(parts, sep), sep) == parts
    decreases |parts|
  {
    if |parts| == 1 {
      SplitWithoutSeparator(parts[0], sep);
    } else {
      SplitJoin(parts[1..], sep);
      SplitAfterField(parts[0], sep, Join(parts[1..], sep));
      assert [parts[0]] + parts[1..] == parts;
    }
  }

  /** Splitting and joining again gives the string back. */
  lemma {:induction false} JoinSplit(s: string, sep: char)
    ensures Join(Split(s, sep), sep) == s
    decreases |s|
  {
    if |s| > 0 {
      JoinSplit(s[1..], sep);
      var rest := Split(s[1..], sep);
      if s[0] == sep {
        assert Split(s, sep)[1..] == rest;
        assert [s[0]] + s[1..] == s;
      } else {
        var parts := Split(s, sep);
        assert parts[1..] == rest[1..];
        if |rest| == 1 {
          assert [s[0]] + s[1..] == s;
        } else {
          assert Join(rest, sep) == rest[0] + [sep] + Join(rest[1..], sep);
          assert [s[0]] + s[1..] == s;
        }
      }
    }
  }

  /** The last field of a join is what follows the last separator. */
  lemma {:induction false} JoinEndsWithLast(parts: seq<string>, sep: char)
    requires |parts| >= 1
    ensures EndsWith(Join(parts, sep), parts[|parts| - 1])
    ensures |parts| >= 2 ==>
      Join(parts, sep) == Join(parts[..|parts| - 1], sep) + [sep] + parts[|parts| - 1]
    decreases |parts|
  {
    var last := parts[|parts| - 1];
    if |parts| == 2 {
      assert parts[..1] == [parts[0]];
      EndsWithAppended(parts[0] + [sep], last);
    } else if |parts| > 2 {
      var t := parts[1..];
      var init := parts[..|parts| - 1];
      JoinEndsWithLast(t, sep);
      assert init[0] == parts[0] && init[1..] == t[..|t| - 1] && t[|t| - 1] == last;
      var a := parts[0] + [sep];
      var b := Join(t[..|t| - 1], sep);
      AppendAssoc(a, b + [sep], last);
      AppendAssoc(a, b, [sep]);
      EndsWithAppended(Join(init, sep) + [sep], last);
    }
  }

  // ---------------------------------------------------------------------------
  // replace

  /** `s.replace(c, d)` for single characters. */
  function Replace(s: string, c: char, d: char): (r: string)
    ensures |r| == |s|
    ensures c != d ==> c !in r
    ensures forall i :: 0 <= i < |s| && s[i] != c ==> r[i] == s[i]
    ensures forall i :: 0 <= i < |s| && s[i] == c ==> r[i] == d
  {
    seq(|s|, i requires 0 <= i < |s| => if s[i] == c then d else s[i])
  }

  // ---------------------------------------------------------------------------
  // ordering

  /** Python's `a < b` on strings: lexicographic by character code, a proper
      prefix before its extensions. */
  predicate Less(a: string, b: string)
    decreases |a|
  {
    if |a| == 0 then |b| > 0
    else |b| > 0 && (a[0] < b[0] || (a[0] == b[0] && Less(a[1..], b[1..])))
  }

  /** `Less` is a strict total order: irreflexive, asymmetric and connected. */
  lemma {:induction false} LessStrictTotal(a: string, b: string)
    ensures !Less(a, a)
    ensures !(Less(a, b) && Less(b, a))
    ensures a == b || Less(a, b) || Less(b, a)
    decreases |a|
  {
    if |a| > 0 {
      LessStrictTotal(a[1..], a[1..]);
      if |b| > 0 {
        LessStrictTotal(a[1..], b[1..]);
        if a[0] == b[0] && a[1..] == b[1..] {
          assert a == [a[0]] + a[1..];
          assert b == [b[0]] + b[1..];
        }
      }
    }
  }

  // ---------------------------------------------------------------------------
  // int()

  /** The characters `str.strip()` removes from both ends. */
  predicate IsSpace(c: char) {
    c == ' ' || c == '\t' || c == '\n' || c == '\r' || c == '\U{B}' || c == '\U{C}'
  }

  function StripLeading(s: string): (r: string)
    decreases |s|
  {
    if |s| > 0 && IsSpace(s[0]) then StripLeading(s[1..]) else s
  }

  function StripTrailing(s: string): (r: string)
    decreases |s|
  {
    if |s| > 0 && IsSpace(s[|s| - 1]) then StripTrailing(s[..|s| - 1]) else s
  }

  function Strip(s: string): string {
    StripTrailing(StripLeading(s))
  }

  predicate IsDigit(c: char) {
    '0' <= c <= '9'
  }

  predicate AllDigits(s: string) {
    forall i :: 0 <= i < |s| ==> IsDigit(s[i])
  }

  /** The number a non-empty run of decimal digits spells, most significant first. */
  function DigitsValue(ds: string): nat
    requires AllDigits(ds)
    decreases |ds|
  {
    if |ds| == 0 then 0
    else DigitsValue(ds[..|ds| - 1]) * 10 + (ds[|ds| - 1] as int - '0' as int)
  }

  /** Python `int(s)` in base ten: surrounding whitespace is ignored, one
      optional sign, then at least one decimal digit; anything else is `None`
      (the `ValueError`). */
  function ParseInt(s: string): (r: Option<int>)
    ensures r.Some? ==> exists i :: 0 <= i < |s| && IsDigit(s[i])
  {
    StripKeepsDigit(s);
    var t := Strip(s);
    if |t| > 0 && (t[0] == '-' || t[0] == '+') then
      var body := t[1..];
      if |body| > 0 && AllDigits(body) then
        assert IsDigit(t[1]);
        var magnitude: int := DigitsValue(body);
        Some(if t[0] == '-' then -magnitude else magnitude)
      else None
    else if |t| > 0 && AllDigits(t) then
      assert IsDigit(t[0]);
      Some(DigitsValue(t))
    else None
  }

  /** Every character left by `Strip` was in the input. */
  lemma {:induction false} StripKeepsDigit(s: string)
    ensures forall i :: 0 <= i < |Strip(s)| && IsDigit(Strip(s)[i]) ==>
      exists j :: 0 <= j < |s| && IsDigit(s[j])
  {
    StripLeadingIsSuffix(s);
    StripTrailingIsPrefix(StripLeading(s));
    var l := StripLeading(s);
    var k := |s| - |l|;
    forall i | 0 <= i < |Strip(s)| && IsDigit(Strip(s)[i])
      ensures exists j :: 0 <= j < |s| && IsDigit(s[j])
    {
      assert Strip(s)[i] == l[i] == s[k + i];
    }
  }

  lemma {:induction false} StripLeadingIsSuffix(s: string)
    ensures |StripLeading(s)| <= |s| && StripLeading(s) == s[|s| - |StripLeading(s)|..]
    decreases |s|
  {
    if |s| > 0 && IsSpace(s[0]) {
      StripLeadingIsSuffix(s[1..]);
    }
  }

  lemma {:induction false} StripTrailingIsPrefix(s: string)
    ensures |StripTrailing(s)| <= |s| && StripTrailing(s) == s[..|StripTrailing(s)|]
    decreases |s|
  {
    if |s| > 0 && IsSpace(s[|s| - 1]) {
      StripTrailingIsPrefix(s[..|s| - 1]);
    }
  }

  function DigitChar(d: nat): (c: char)
    requires d < 10
    ensures IsDigit(c) && c as int - '0' as int == d
  {
    ('0' as int + d) as char
  }

  /** The shortest decimal spelling of a natural number. */
  function ShowNat(n: nat): (s: string)
    ensures |s| >= 1 && AllDigits(s)
    decreases n
  {
    if n < 10 then [DigitChar(n)] else ShowNat(n / 10) + [DigitChar(n % 10)]
  }

  /** `str(n)` for an integer. */
  function ShowInt(n: int): string {
    if n < 0 then "-" + ShowNat(-n) else ShowNat(n)
  }

  lemma {:induction false} DigitsValueShowNat(n: nat)
    ensures DigitsValue(ShowNat(n)) == n
    decreases n
  {
    if n >= 10 {
      DigitsValueShowNat(n / 10);
      var s := ShowNat(n);
      assert s[..|s| - 1] == ShowNat(n / 10);
    }
  }

  /** `int()` reads back every integer's decimal spelling. */
  lemma ParseShowInt(n: int)
    ensures ParseInt(ShowInt(n)) == Some(n)
  {
    var s := ShowInt(n);
    var digits := if n < 0 then ShowNat(-n) else ShowNat(n);
    assert !IsSpace(s[0]) && !IsSpace(s[|s| - 1]);
    assert Strip(s) == s;
    if n < 0 {
      assert s[1..] == digits;
      DigitsValueShowNat(-n);
    } else {
      DigitsValueShowNat(n);
    }
  }
}
