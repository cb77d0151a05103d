/**
 * The JavaScript string operations the pages rely on: `String.prototype.trim`
 * (and its truthiness test), `String.prototype.split` with a one-character
 * separator, reading a run of decimal digits as `Number`/`parseInt` do, and
 * rendering a number inside a template literal.
 */
module Text {

  /**
   * The characters `trim` removes: the WhiteSpace (TAB, VT, FF, the space
   * separators of category Zs, ZWNBSP) and LineTerminator (LF, CR, LS, PS)
   * code points of ECMAScript.
   */
  predicate IsWhitespace(c: char)
  {
    var n := c as int;
    n == 0x09 || n == 0x0A || n == 0x0B || n == 0x0C || n == 0x0D || n == 0x20
    || n == 0xA0 || n == 0x1680 || (0x2000 <= n <= 0x200A) || n == 0x2028 || n == 0x2029
    || n == 0x202F || n == 0x205F || n == 0x3000 || n == 0xFEFF
  }

  /** Drops the leading whitespace. */
  function TrimStart(s: string): (r: string)
    ensures |r| <= |s| && r == s[|s| - |r|..]
    ensures forall k :: 0 <= k < |s| - |r| ==> IsWhitespace(s[k])
    ensures r == [] || !IsWhitespace(r[0])
  {
    if s != [] && IsWhitespace(s[0]) then TrimStart(s[1..]) else s
  }

  /** Drops the trailing whitespace. */
  function TrimEnd(s: string): (r: string)
    ensures |r| <= |s| && r == s[..|r|]
    ensures forall k :: |r| <= k < |s| ==> IsWhitespace(s[k])
    ensures r == [] || !IsWhitespace(r[|r| - 1])
  {
    if s != [] && IsWhitespace(s[|s| - 1]) then TrimEnd(s[..|s| - 1]) else s
  }

  /** Every character is whitespace. */
  predicate AllWhitespace(s: string)
  {
    forall k :: 0 <= k < |s| ==> IsWhitespace(s[k])
  }

  /**
   * `s.trim()`: the slice of `s` left after removing whitespace at both ends;
   * it neither starts nor ends with whitespace.
   */
  function Trim(s: string): (r: string)
    ensures exists i :: 0 <= i <= |s| && |r| <= |s| - i && r == s[i..][..|r|]
                        && AllWhitespace(s[..i]) && AllWhitespace(s[i..][|r|..])
    ensures r == [] || (!IsWhitespace(r[0]) && !IsWhitespace(r[|r| - 1]))
  {
    var t := TrimStart(s);
    var r := TrimEnd(t);
    var i := |s| - |t|;
    assert s[i..] == t;
    r
  }

  /** `!s.trim()`: the string is empty once trimmed. */
  predicate IsBlank(s: string)
  {
    Trim(s) == []
  }

  /** A string is blank exactly when every character of it is whitespace. */
  lemma BlankIffAllWhitespace(s: string)
    ensures IsBlank(s) <==> AllWhitespace(s)
  {
    var t := TrimStart(s);
  }

  /** Trimming twice is trimming once. */
  lemma TrimIdempotent(s: string)
    ensures Trim(Trim(s)) == Trim(s)
  {
    var r := Trim(s);
    assert TrimStart(r) == r;
    assert TrimEnd(r) == r;
  }

  /** Glues pieces back together with `sep` between neighbours: `pieces.join(sep)`. */
  function Join(pieces: seq<string>, sep: char): string
    requires |pieces| >= 1
  {
    if |pieces| == 1 then pieces[0] else pieces[0] + [sep] + Join(pieces[1..], sep)
  }

  /**
   * `s.split(sep)` for a one-character separator: the maximal runs between
   * separators, including empty ones; the empty string yields `[""]`.
   */
  function Split(s: string, sep: char): (r: seq<string>)
    ensures |r| >= 1
    ensures forall i :: 0 <= i < |r| ==> sep !in r[i]
    ensures Join(r, sep) == s
  {
    if s == [] then [[]]
    else
      var rest := Split(s[1..], sep);
      assert s == [s[0]] + s[1..];
      if s[0] == sep then
        assert ([[]] + rest)[1..] == rest;
        [[]] + rest
      else
        var r := [[s[0]] + rest[0]] + rest[1..];
        assert r[1..] == rest[1..];
        assert |rest| > 1 ==>
          ([s[0]] + rest[0] + [sep] + Join(rest[1..], sep) == [s[0]] + (rest[0] + [sep] + Join(rest[1..], sep)));
        r
  }

  lemma {:induction false} SplitAfterPrefix(p: string, q: string, sep: char)
    requires sep !in p
    ensures Split(p + q, sep) == [p + Split(q, sep)[0]] + Split(q, sep)[1..]
  {
    var r := Split(q, sep);
    if p != [] {
      assert (p + q)[1..] == p[1..] + q;
      assert (p + q)[0] == p[0] != sep;
      SplitAfterPrefix(p[1..], q, sep);
      assert [p[0]] + (p[1..] + r[0]) == p + r[0];
    } else {
      assert p + q == q;
      assert p + r[0] == r[0];
      assert [r[0]] + r[1..] == r;
    }
  }

  /** Splitting undoes joining whenever no piece contains the separator. */
  lemma {:induction false} SplitJoin(pieces: seq<string>, sep: char)
    requires |pieces| >= 1
    requires forall i :: 0 <= i < |pieces| ==> sep !in pieces[i]
    ensures Split(Join(pieces, sep), sep) == pieces
  {
    if |pieces| == 1 {
      SplitAfterPrefix(pieces[0], [], sep);
      assert pieces[0] + [] == pieces[0];
      assert Split([], sep) == [[]];
    } else {
      var rest := Join(pieces[1..], sep);
      SplitJoin(pieces[1..], sep);
      assert Join(pieces, sep) == pieces[0] + ([sep] + rest);
      SplitAfterPrefix(pieces[0], [sep] + rest, sep);
      assert ([sep] + rest)[1..] == rest;
      assert Split([sep] + rest, sep) == [[]] + pieces[1..];
      assert pieces[0] + [] == pieces[0];
      assert pieces == [pieces[0]] + pieces[1..];
    }
  }

  predicate IsDigit(c: char)
  {
    '0' <= c <= '9'
  }

  predicate AllDigits(s: string)
  {
    forall k :: 0 <= k < |s| ==> IsDigit(s[k])
  }

  function DigitValue(c: char): nat
    requires IsDigit(c)
  {
    c as int - '0' as int
  }

  function DigitChar(d: nat): (c: char)
    requires d < 10
    ensures IsDigit(c) && DigitValue(c) == d
  {
    ('0' as int + d) as char
  }

  /** `Number(ds)` / `parseInt(ds)` for a string of decimal digits (leading zeros are insignificant). */
  function DecimalValue(ds: string): nat
    requires AllDigits(ds)
  {
    if ds == [] then 0 else DecimalValue(ds[..|ds| - 1]) * 10 + DigitValue(ds[|ds| - 1])
  }

  /** `${n}` for a natural number: its shortest decimal representation. */
  function NatToString(n: nat): (r: string)
    ensures |r| >= 1 && AllDigits(r)
    ensures r[0] != '0' || n == 0
    ensures DecimalValue(r) == n
  {
    if n < 10 then [DigitChar(n)]
    else
      var r := NatToString(n / 10) + [DigitChar(n % 10)];
      assert r[..|r| - 1] == NatToString(n / 10);
      r
  }

  /** `${i}` for an integer: a minus sign before the digits of a negative one. */
  function IntToString(i: int): (r: string)
    ensures i >= 0 ==> |r| >= 1 && AllDigits(r) && (r[0] != '0' || i == 0) && DecimalValue(r) == i
    ensures i < 0 ==> |r| >= 2 && r[0] == '-' && AllDigits(r[1..]) && r[1] != '0' && DecimalValue(r[1..]) == -i
  {
    if i < 0 then
      var digits := NatToString(-i);
      assert ("-" + digits)[1..] == digits;
      "-" + digits
    else NatToString(i)
  }

  /** What remains once the insignificant leading zeros are dropped ("07" becomes "7", "00" becomes "0"). */
  function StripLeadingZeros(ds: string): (r: string)
    ensures |r| <= |ds| && r == ds[|ds| - |r|..]
    ensures forall k :: 0 <= k < |ds| - |r| ==> ds[k] == '0'
    ensures |ds| >= 1 ==> |r| >= 1 && (r[0] != '0' || |r| == 1)
  {
    if |ds| > 1 && ds[0] == '0' then StripLeadingZeros(ds[1..]) else ds
  }

  lemma {:induction false} LeadingZeroInsignificant(ds: string)
    requires AllDigits(ds) && |ds| > 1 && ds[0] == '0'
    ensures DecimalValue(ds) == DecimalValue(ds[1..])
  {
    var init := ds[..|ds| - 1];
    assert ds[1..][..|ds[1..]| - 1] == init[1..];
    if |ds| > 2 {
      LeadingZeroInsignificant(init);
    }
  }

  lemma {:induction false} StripPreservesValue(ds: string)
    requires AllDigits(ds)
    ensures AllDigits(StripLeadingZeros(ds))
    ensures DecimalValue(StripLeadingZeros(ds)) == DecimalValue(ds)
  {
    if |ds| > 1 && ds[0] == '0' {
      LeadingZeroInsignificant(ds);
      StripPreservesValue(ds[1..]);
    }
  }

  lemma {:induction false} PositiveWithoutLeadingZero(ds: string)
    requires AllDigits(ds) && |ds| >= 1 && ds[0] != '0'
    ensures DecimalValue(ds) >= 1
  {
    if |ds| > 1 {
      PositiveWithoutLeadingZero(ds[..|ds| - 1]);
    }
  }

  /** A digit string without leading zeros is the rendering of its own value. */
  lemma {:induction false} CanonicalDigitsRoundTrip(ds: string)
    requires AllDigits(ds) && |ds| >= 1 && (ds[0] != '0' || |ds| == 1)
    ensures NatToString(DecimalValue(ds)) == ds
  {
    if |ds| > 1 {
      var init := ds[..|ds| - 1];
      PositiveWithoutLeadingZero(init);
      CanonicalDigitsRoundTrip(init);
      assert ds == init + [ds[|ds| - 1]];
    }
  }

  /**
   * Reading a digit string as a number and rendering it again gives the
   * string without its leading zeros.
   */
  lemma RenderDropsLeadingZeros(ds: string)
    requires AllDigits(ds) && |ds| >= 1
    ensures NatToString(DecimalValue(ds)) == StripLeadingZeros(ds)
  {
    StripPreservesValue(ds);
    CanonicalDigitsRoundTrip(StripLeadingZeros(ds));
  }

  /**
   * Character-by-character comparison of the `YYYY-MM-DD` date and `HH:MM`
   * time strings: on such strings it orders them as the instants they name.
   */
  predicate LexLe(a: string, b: string)
  {
    a == [] || (b != [] && (a[0] < b[0] || (a[0] == b[0] && LexLe(a[1..], b[1..]))))
  }

  /** Of two strings, one is `LexLe` the other. */
  lemma {:induction false} LexLeTotal(a: string, b: string)
    ensures LexLe(a, b) || LexLe(b, a)
  {
    if a != [] && b != [] && a[0] == b[0] {
      LexLeTotal(a[1..], b[1..]);
    }
  }

  lemma {:induction false} LexLeTransitive(a: string, b: string, c: string)
    requires LexLe(a, b) && LexLe(b, c)
    ensures LexLe(a, c)
  {
    if a != [] && b != [] && c != [] && a[0] == b[0] && b[0] == c[0] {
      LexLeTransitive(a[1..], b[1..], c[1..]);
    }
  }

  /** Strings that are `LexLe` each other are equal. */
  lemma {:induction false} LexLeAntisymmetric(a: string, b: string)
    requires LexLe(a, b) && LexLe(b, a)
    ensures a == b
  {
    if a != [] && b != [] {
      LexLeAntisymmetric(a[1..], b[1..]);
      assert a == [a[0]] + a[1..] && b == [b[0]] + b[1..];
    }
  }
}
