/**
 * The numbered extension of a new binlog name: find_uniq_filename lists
 * the directory, reads the extension of every "base.<number>" entry with
 * test_if_number, and names the new log "base." followed by the largest
 * number plus one, printed with "%06ld".
 *
 * `long` is 64 bits wide; atol is modelled as glibc's strtol, which
 * saturates at LONG_MAX and LONG_MIN.
 */
module FileNames {
  import opened Common

  const LONG_MAX: int := 0x7fff_ffff_ffff_ffff

  predicate IsDigit(c: char)
  {
    '0' <= c <= '9'
  }

  /** The value of a decimal digit. */
  function Digit(c: char): (d: nat)
    requires IsDigit(c)
    ensures d < 10
  {
    c as int - '0' as int
  }

  /** The end of the run of spaces that starts at i. */
  function SpacesEnd(s: string, i: nat): (n: nat)
    requires i <= |s|
    ensures i <= n <= |s| && (forall j :: i <= j < n ==> s[j] == ' ') && (n < |s| ==> s[n] != ' ')
    decreases |s| - i
  {
    if i < |s| && s[i] == ' ' then SpacesEnd(s, i + 1) else i
  }

  /** The end of the run of digits that starts at i. */
  function DigitsEnd(s: string, i: nat): (n: nat)
    requires i <= |s|
    ensures i <= n <= |s| && (forall j :: i <= j < n ==> IsDigit(s[j])) && (n < |s| ==> !IsDigit(s[n]))
    decreases |s| - i
  {
    if i < |s| && IsDigit(s[i]) then DigitsEnd(s, i + 1) else i
  }

  /** The length of an optional sign at i. */
  function SignLen(s: string, i: nat): (n: nat)
    ensures n <= 1 && (n == 1 <==> i < |s| && (s[i] == '-' || s[i] == '+'))
  {
    if i < |s| && (s[i] == '-' || s[i] == '+') then 1 else 0
  }

  /** Where the optional sign after the leading spaces ends. */
  function SignEnd(s: string): (n: nat)
    ensures SpacesEnd(s, 0) <= n <= |s|
  {
    SpacesEnd(s, 0) + SignLen(s, SpacesEnd(s, 0))
  }

  /** Where the integer digits after the sign end. */
  function IntEnd(s: string): (n: nat)
    ensures SignEnd(s) <= n <= |s|
  {
    DigitsEnd(s, SignEnd(s))
  }

  /**
   * What test_if_number accepts: spaces, an optional sign, digits, then
   * optionally a dot and more digits, up to the end of the string, with at
   * least one digit in all.
   */
  predicate Accepts(s: string)
  {
    var b := SignEnd(s);
    var c := IntEnd(s);
    if c < |s| && s[c] == '.' then DigitsEnd(s, c + 1) == |s| && (b < c || c + 1 < |s|)
    else c == |s| && b < c
  }

  /** The value of a string of decimal digits. */
  function DigitsValue(ds: string): nat
    requires forall j :: 0 <= j < |ds| ==> IsDigit(ds[j])
  {
    if |ds| == 0 then 0 else 10 * DigitsValue(ds[..|ds| - 1]) + Digit(ds[|ds| - 1])
  }

  /** A magnitude clamped to cap. */
  function Clamp(v: nat, cap: nat): (r: nat)
    ensures r <= cap && (v <= cap ==> r == v) && (v > cap ==> r == cap)
  {
    if v <= cap then v else cap
  }

  /** strtol's clamp of a magnitude to `long`. */
  function Saturate(neg: bool, v: nat): (r: int)
    ensures -LONG_MAX - 1 <= r <= LONG_MAX
    ensures !neg && v <= LONG_MAX ==> r == v
    ensures neg && v <= LONG_MAX + 1 ==> r == -(v as int)
    ensures !neg && v > LONG_MAX ==> r == LONG_MAX
    ensures neg && v > LONG_MAX + 1 ==> r == -LONG_MAX - 1
  {
    if neg then -(Clamp(v, LONG_MAX + 1) as int) else Clamp(v, LONG_MAX)
  }

  /** atol of s: leading spaces, an optional sign, then the digits up to the first other character. */
  function LongValue(s: string): int
  {
    var a := SpacesEnd(s, 0);
    Saturate(a < |s| && s[a] == '-', DigitsValue(s[SignEnd(s)..IntEnd(s)]))
  }

  /** One more digit on a clamped magnitude is the clamp of the longer magnitude. */
  lemma ClampStep(cap: nat, v: nat, d: nat)
    ensures Clamp(10 * Clamp(v, cap) + d, cap) == Clamp(10 * v + d, cap)
  {
  }

  /** A digit read extends a digit string by one. */
  lemma DigitsValueStep(s: string, b: nat, i: nat)
    requires b <= i < |s| && forall j :: b <= j <= i ==> IsDigit(s[j])
    ensures DigitsValue(s[b..i + 1]) == 10 * DigitsValue(s[b..i]) + Digit(s[i])
  {
    assert s[b..i + 1][..i - b] == s[b..i];
  }

  /** The loop over leading spaces. */
  method SkipSpaces(s: string) returns (i: nat)
    ensures i == SpacesEnd(s, 0)
  {
    i := 0;
    while i < |s| && s[i] == ' '
      invariant i <= SpacesEnd(s, 0)
    {
      i := i + 1;
    }
  }

  /** strtol's digit loop from b: the digits read and their value, clamped to cap. */
  method ReadDigits(s: string, b: nat, cap: nat) returns (i: nat, m: nat)
    requires b <= |s|
    ensures i == DigitsEnd(s, b) && m == Clamp(DigitsValue(s[b..i]), cap)
  {
    i := b;
    m := 0;
    while i < |s| && IsDigit(s[i])
      invariant b <= i <= DigitsEnd(s, b)
      invariant m == Clamp(DigitsValue(s[b..i]), cap)
    {
      DigitsValueStep(s, b, i);
      ClampStep(cap, DigitsValue(s[b..i]), Digit(s[i]));
      m := Clamp(10 * m + Digit(s[i]), cap);
      i := i + 1;
    }
  }

  /**
   * atol, restricted to strings whose leading white space is spaces: the
   * digits are accumulated with strtol's saturation.
   */
  method AtoL(s: string) returns (v: int)
    ensures v == LongValue(s)
  {
    var a := SkipSpaces(s);
    var neg := a < |s| && s[a] == '-';
    var b := a + SignLen(s, a);
    var cap := if neg then LONG_MAX + 1 else LONG_MAX;
    var i, m := ReadDigits(s, b, cap);
    v := if neg then -(m as int) else m;
  }

  /** test_if_number without wildcards: whether s is a number and, if so, its atol value. */
  method TestIfNumber(s: string) returns (ok: bool, value: int)
    ensures ok == Accepts(s)
    ensures ok ==> value == LongValue(s)
    ensures !ok ==> value == 0
  {
    var flag := false;
    var i := SkipSpaces(s);
    if i < |s| && (s[i] == '-' || s[i] == '+') {
      i := i + 1;
    }
    ghost var b := i;
    assert b == SignEnd(s);
    while i < |s| && IsDigit(s[i])
      invariant b <= i <= DigitsEnd(s, b) && flag == (b < i)
    {
      flag := true;
      i := i + 1;
    }
    ghost var c := i;
    assert c == IntEnd(s);
    if i < |s| && s[i] == '.' {
      i := i + 1;
      while i < |s| && IsDigit(s[i])
        invariant c + 1 <= i <= DigitsEnd(s, c + 1) && flag == (b < c || c + 1 < i)
      {
        i := i + 1;
        flag := true;
      }
    }
    if i != |s| || !flag {
      return false, 0;
    }
    ok := true;
    value := AtoL(s);
  }

  /** The pieces of a number: spaces, a sign, integer digits, and the fraction after a dot, if any. */
  predicate Numeral(sp: string, sign: string, ip: string, fp: Option<string>)
  {
    (forall j :: 0 <= j < |sp| ==> sp[j] == ' ')
    && (sign == "" || sign == "-" || sign == "+")
    && (forall j :: 0 <= j < |ip| ==> IsDigit(ip[j]))
    && (fp.Some? ==> forall j :: 0 <= j < |fp.value| ==> IsDigit(fp.value[j]))
    && (|ip| > 0 || (fp.Some? && |fp.value| > 0))
  }

  function NumeralText(sp: string, sign: string, ip: string, fp: Option<string>): string
  {
    sp + sign + ip + (if fp.Some? then "." + fp.value else "")
  }

  /** The run functions stop exactly at the end of a known run. */
  lemma RunEnds(s: string, sp: nat, b: nat, c: nat)
    requires sp <= b <= c <= |s|
    requires (forall j :: 0 <= j < sp ==> s[j] == ' ') && (sp < |s| ==> s[sp] != ' ')
    requires (forall j :: b <= j < c ==> IsDigit(s[j])) && (c < |s| ==> !IsDigit(s[c]))
    ensures SpacesEnd(s, 0) == sp && DigitsEnd(s, b) == c
  {
    SpacesEndAt(s, 0, sp);
    DigitsEndAt(s, b, c);
  }

  lemma {:induction false} SpacesEndAt(s: string, i: nat, n: nat)
    requires i <= n <= |s| && (forall j :: i <= j < n ==> s[j] == ' ') && (n < |s| ==> s[n] != ' ')
    ensures SpacesEnd(s, i) == n
    decreases n - i
  {
    if i < n {
      SpacesEndAt(s, i + 1, n);
    }
  }

  lemma {:induction false} DigitsEndAt(s: string, i: nat, n: nat)
    requires i <= n <= |s| && (forall j :: i <= j < n ==> IsDigit(s[j])) && (n < |s| ==> !IsDigit(s[n]))
    ensures DigitsEnd(s, i) == n
    decreases n - i
  {
    if i < n {
      DigitsEndAt(s, i + 1, n);
    }
  }

  /** Where the runs of a numeral's text end, for any tail that starts with the dot. */
  lemma NumeralLayout(sp: string, sign: string, ip: string, tail: string)
    requires forall j :: 0 <= j < |sp| ==> sp[j] == ' '
    requires sign == "" || sign == "-" || sign == "+"
    requires forall j :: 0 <= j < |ip| ==> IsDigit(ip[j])
    requires |tail| > 0 ==> tail[0] == '.'
    ensures var s := sp + sign + ip + tail;
            var b := |sp| + |sign|;
            SpacesEnd(s, 0) == |sp| && SignEnd(s) == b && IntEnd(s) == b + |ip|
            && s[b..b + |ip|] == ip && ((|sp| < |s| && s[|sp|] == '-') <==> sign == "-")
  {
    var s := sp + sign + ip + tail;
    var b := |sp| + |sign|;
    var c := b + |ip|;
    assert forall j :: 0 <= j < |sp| ==> s[j] == sp[j];
    assert forall j :: b <= j < c ==> s[j] == ip[j - b];
    assert c < |s| ==> s[c] == tail[0];
    assert |sign| == 1 ==> s[|sp|] == sign[0];
    assert |sign| == 0 && |ip| > 0 ==> s[|sp|] == ip[0];
    assert |sign| == 0 && |ip| == 0 && |sp| < |s| ==> s[|sp|] == tail[0];
    RunEnds(s, |sp|, b, c);
    assert s[b..c] == ip;
  }

  /** The digits after a dot run to the end of the text. */
  lemma FractionLayout(prefix: string, ds: string)
    requires forall j :: 0 <= j < |ds| ==> IsDigit(ds[j])
    ensures var s := prefix + ("." + ds);
            s[|prefix|] == '.' && DigitsEnd(s, |prefix| + 1) == |s|
  {
    var s := prefix + ("." + ds);
    assert forall j :: |prefix| + 1 <= j < |s| ==> s[j] == ds[j - |prefix| - 1];
    DigitsEndAt(s, |prefix| + 1, |s|);
  }

  /**
   * Every numeral is accepted, and atol reads its signed integer part.
   * With AcceptsOnlyNumerals: test_if_number accepts exactly the numerals.
   */
  lemma NumeralAccepted(sp: string, sign: string, ip: string, fp: Option<string>)
    requires Numeral(sp, sign, ip, fp)
    ensures Accepts(NumeralText(sp, sign, ip, fp))
    ensures LongValue(NumeralText(sp, sign, ip, fp)) == Saturate(sign == "-", DigitsValue(ip))
  {
    var tail := if fp.Some? then "." + fp.value else "";
    NumeralLayout(sp, sign, ip, tail);
    if fp.Some? {
      FractionLayout(sp + sign + ip, fp.value);
      assert sp + sign + ip + tail == (sp + sign + ip) + ("." + fp.value);
    }
  }

  /** The fraction digits test_if_number reads after a dot, if there is one. */
  function Fraction(s: string): Option<string>
  {
    var c := IntEnd(s);
    if c < |s| && s[c] == '.' then Some(s[c + 1..]) else None
  }

  /** A string is its pieces put back together. */
  lemma Reassemble(s: string, a: nat, b: nat, c: nat, dot: bool)
    requires a <= b <= c <= |s| && (dot ==> c < |s| && s[c] == '.') && (!dot ==> c == |s|)
    ensures s == s[..a] + s[a..b] + s[b..c] + (if dot then "." + s[c + 1..] else "")
  {
    if dot {
      assert s[c..] == "." + s[c + 1..];
    }
    assert s == s[..a] + s[a..b] + s[b..c] + s[c..];
  }

  /** The pieces test_if_number reads in an accepted string have the numeral's shapes. */
  lemma SplitNumeral(s: string)
    requires Accepts(s)
    ensures Numeral(s[..SpacesEnd(s, 0)], s[SpacesEnd(s, 0)..SignEnd(s)], s[SignEnd(s)..IntEnd(s)], Fraction(s))
  {
    var a, b, c := SpacesEnd(s, 0), SignEnd(s), IntEnd(s);
    assert forall j :: 0 <= j < a ==> s[..a][j] == s[j];
    assert forall j :: 0 <= j < c - b ==> s[b..c][j] == s[b + j];
    assert b == a + 1 ==> s[a..b] == [s[a]];
    var fp := Fraction(s);
    if fp.Some? {
      assert forall j :: 0 <= j < |fp.value| ==> fp.value[j] == s[c + 1 + j];
    }
  }

  /** Everything test_if_number accepts is a numeral, in the pieces it reads. */
  lemma AcceptsOnlyNumerals(s: string)
    requires Accepts(s)
    ensures Numeral(s[..SpacesEnd(s, 0)], s[SpacesEnd(s, 0)..SignEnd(s)], s[SignEnd(s)..IntEnd(s)], Fraction(s))
    ensures s == NumeralText(s[..SpacesEnd(s, 0)], s[SpacesEnd(s, 0)..SignEnd(s)], s[SignEnd(s)..IntEnd(s)], Fraction(s))
  {
    SplitNumeral(s);
    Reassemble(s, SpacesEnd(s, 0), SignEnd(s), IntEnd(s), Fraction(s).Some?);
  }

  /** The character of a decimal digit. */
  function DigitChar(d: nat): (c: char)
    requires d < 10
    ensures IsDigit(c) && Digit(c) == d
  {
    ('0' as int + d) as char
  }

  /** The digits of n, most significant first, without leading zeros. */
  function Decimal(n: nat): (ds: string)
    ensures |ds| > 0 && forall j :: 0 <= j < |ds| ==> IsDigit(ds[j])
    ensures (n < 10 ==> |ds| == 1) && (ds[0] == '0' <==> n == 0)
  {
    if n < 10 then [DigitChar(n)] else Decimal(n / 10) + [DigitChar(n % 10)]
  }

  /** 10^k. */
  function Pow10(k: nat): (p: nat)
    ensures p >= 1
  {
    if k == 0 then 1 else 10 * Pow10(k - 1)
  }

  /** A number below 10^k has at most k digits. */
  lemma {:induction false} DecimalShort(n: nat, k: nat)
    requires 1 <= k && n < Pow10(k)
    ensures |Decimal(n)| <= k
  {
    if n >= 10 {
      assert Pow10(1) == 10;
      DecimalShort(n / 10, k - 1);
    }
  }

  function Zeros(k: nat): (z: string)
    ensures |z| == k && forall j :: 0 <= j < k ==> z[j] == '0'
  {
    if k == 0 then "" else Zeros(k - 1) + "0"
  }

  /** The digits of n, left-padded with zeros to `width`. */
  function Padded(n: nat, width: nat): (ds: string)
    ensures |ds| >= width && forall j :: 0 <= j < |ds| ==> IsDigit(ds[j])
  {
    var d := Decimal(n);
    if |d| < width then Zeros(width - |d|) + d else d
  }

  /**
   * sprintf("%06ld", v): at least six characters, the sign counting toward
   * the width, exactly six for a value that fits; the digits read back as
   * the magnitude of v, and a longer result has no leading zero.
   */
  function Format06(v: int): (r: string)
    ensures |r| >= 6
    ensures -99999 <= v <= 999999 ==> |r| == 6
    ensures |r| > 6 ==> r[if v < 0 then 1 else 0] != '0'
    ensures v >= 0 ==> (forall j :: 0 <= j < |r| ==> IsDigit(r[j])) && DigitsValue(r) == v
    ensures v < 0 ==> r[0] == '-' && (forall j :: 1 <= j < |r| ==> IsDigit(r[j]))
    ensures v < 0 ==> DigitsValue(r[1..]) == -v
  {
    if v >= 0 then
      PaddedValue(v, 6);
      PaddedShape(v, 6);
      assert Pow10(6) == 1000000;
      Padded(v, 6)
    else
      PaddedValue(-v, 5);
      PaddedShape(-v, 5);
      assert Pow10(5) == 100000;
      var ds := Padded(-v, 5);
      assert ("-" + ds)[1..] == ds;
      "-" + ds
  }

  lemma {:induction false} DecimalValue(n: nat)
    ensures DigitsValue(Decimal(n)) == n
  {
    if n >= 10 {
      DecimalValue(n / 10);
      var d := Decimal(n);
      assert d[..|d| - 1] == Decimal(n / 10);
    }
  }

  lemma {:induction false} LeadingZeros(k: nat, ds: string)
    requires forall j :: 0 <= j < |ds| ==> IsDigit(ds[j])
    ensures DigitsValue(Zeros(k) + ds) == DigitsValue(ds)
    decreases k + |ds|
  {
    var s := Zeros(k) + ds;
    if |ds| == 0 {
      assert s == Zeros(k);
      if k > 0 {
        assert s[..|s| - 1] == Zeros(k - 1) + "";
        LeadingZeros(k - 1, "");
      }
    } else {
      assert s[..|s| - 1] == Zeros(k) + ds[..|ds| - 1];
      LeadingZeros(k, ds[..|ds| - 1]);
    }
  }

  /**
   * Padding to width w gives exactly w characters for a number of at most w
   * digits; a longer result is the plain decimal, with no leading zero.
   */
  lemma PaddedShape(n: nat, w: nat)
    requires w >= 1
    ensures n < Pow10(w) ==> |Padded(n, w)| == w
    ensures |Padded(n, w)| > w ==> Padded(n, w)[0] != '0'
  {
    if n < Pow10(w) {
      DecimalShort(n, w);
    }
  }

  /** Printing with zero padding keeps the value. */
  lemma PaddedValue(n: nat, width: nat)
    ensures DigitsValue(Padded(n, width)) == n
  {
    DecimalValue(n);
    var d := Decimal(n);
    if |d| < width {
      LeadingZeros(width - |d|, d);
    }
  }

  /** The round trip of a new log's extension: test_if_number reads back what "%06ld" printed. */
  lemma FormatRoundTrip(v: int)
    requires -LONG_MAX - 1 <= v <= LONG_MAX
    ensures Accepts(Format06(v)) && LongValue(Format06(v)) == v
  {
    if v >= 0 {
      var ds := Padded(v, 6);
      assert NumeralText("", "", ds, None) == ds;
      NumeralAccepted("", "", ds, None);
      PaddedValue(v, 6);
    } else {
      assert Format06(v) == "-" + Padded(-v, 5);
      SignedRoundTrip(-v, 5);
    }
  }

  /** A minus sign and the padded digits of n are read back as -n. */
  lemma SignedRoundTrip(n: nat, w: nat)
    requires n <= LONG_MAX + 1
    ensures Accepts("-" + Padded(n, w)) && LongValue("-" + Padded(n, w)) == -(n as int)
  {
    var ds := Padded(n, w);
    assert NumeralText("", "-", ds, None) == "-" + ds;
    NumeralAccepted("", "-", ds, None);
    PaddedValue(n, w);
  }

  /** The extension of a directory entry for base, when it has the "base." prefix. */
  function Extension(entry: string, base: string): Option<string>
  {
    if |entry| >= |base| + 1 && entry[..|base| + 1] == base + "." then Some(entry[|base| + 1..]) else None
  }

  /** The ulong value of a numbered entry for base: (ulong) of the long test_if_number read. */
  function EntryNumber(entry: string, base: string): Option<nat>
  {
    var ext := Extension(entry, base);
    if ext.Some? && Accepts(ext.value) then Some(ULong(LongValue(ext.value))) else None
  }

  /** max_found after the directory loop: the largest number among the entries, 0 when none. */
  function MaxFound(entries: seq<string>, base: string): (m: nat)
    ensures forall j :: 0 <= j < |entries| && EntryNumber(entries[j], base).Some? ==>
              EntryNumber(entries[j], base).value <= m
    ensures m == 0 || exists j :: 0 <= j < |entries| && EntryNumber(entries[j], base) == Some(m)
  {
    if |entries| == 0 then 0
    else
      var m := MaxFound(entries[..|entries| - 1], base);
      var e := EntryNumber(entries[|entries| - 1], base);
      assert forall j :: 0 <= j < |entries| - 1 ==> entries[..|entries| - 1][j] == entries[j];
      if e.Some? && e.value > m then e.value else m
  }

  /** The cast of a long to ulong. */
  function ULong(v: int): (u: nat)
    requires -LONG_MAX - 1 <= v <= LONG_MAX
    ensures u < U64 && (v >= 0 ==> u == v) && (v < 0 ==> u == v + U64)
  {
    if v >= 0 then v else v + U64
  }

  /** The signed reading of a ulong that "%ld" prints: the inverse of the cast. */
  function AsLong(u: nat): (v: int)
    requires u < U64
    ensures -LONG_MAX - 1 <= v <= LONG_MAX && ULong(v) == u
  {
    if u <= LONG_MAX then u else u - U64
  }

  /** ulong increment, wrapping to 0. */
  function Succ(u: nat): (r: nat)
    requires u < U64
    ensures r < U64 && (u + 1 < U64 ==> r == u + 1) && (u + 1 == U64 ==> r == 0)
  {
    if u + 1 < U64 then u + 1 else 0
  }

  /** The name find_uniq_filename produces from the directory entries. */
  function UniqName(entries: seq<string>, base: string): string
  {
    base + "." + Format06(AsLong(Succ(MaxFound(entries, base))))
  }

  /** One more entry in the directory loop. */
  lemma MaxFoundStep(entries: seq<string>, base: string, i: nat)
    requires i < |entries|
    ensures var m := MaxFound(entries[..i], base);
            var e := EntryNumber(entries[i], base);
            MaxFound(entries[..i + 1], base) == if e.Some? && e.value > m then e.value else m
  {
    assert entries[..i + 1][..i] == entries[..i];
  }

  /** The prefix test and test_if_number for one directory entry. */
  method ReadEntry(entry: string, base: string) returns (number: Option<nat>)
    ensures number == EntryNumber(entry, base)
  {
    number := None;
    if |entry| >= |base| + 1 && entry[..|base| + 1] == base + "." {
      var ok, value := TestIfNumber(entry[|base| + 1..]);
      if ok {
        number := Some(ULong(value));
      }
    }
  }

  /**
   * find_uniq_filename, as corrected: with no directory listing, "base.1"
   * and a failure; otherwise "base." and the largest numbered extension
   * plus one, which is a new name, and a failure exactly when that sum
   * wraps and no new name is found.
   */
  method FindUniqFilename(dir: Option<seq<string>>, base: string) returns (failed: bool, name: string)
    ensures dir.None? ==> failed && name == base + ".1"
    ensures dir.Some? ==> name == UniqName(dir.value, base)
    ensures dir.Some? ==> (failed <==> MaxFound(dir.value, base) == U64 - 1)
    ensures dir.Some? && !failed ==> name !in dir.value
  {
    if dir.None? {
      return true, base + ".1";
    }
    var entries := dir.value;
    var maxFound := 0;
    var i := 0;
    while i < |entries|
      invariant i <= |entries| && maxFound == MaxFound(entries[..i], base)
    {
      var number := ReadEntry(entries[i], base);
      MaxFoundStep(entries, base, i);
      if number.Some? && number.value > maxFound {
        maxFound := number.value;
      }
      i := i + 1;
    }
    assert entries[..i] == entries;
    failed := Succ(maxFound) == 0;
    name := base + "." + Format06(AsLong(Succ(maxFound)));
    if !failed {
      UniqNameIsNew(entries, base);
    }
  }

  /**
   * The new name is not in the directory unless max_found + 1 wraps: an
   * entry with that name would have been read back as max_found + 1 (a
   * negative extension as that ulong too).
   */
  lemma UniqNameIsNew(entries: seq<string>, base: string)
    requires MaxFound(entries, base) < U64 - 1
    ensures UniqName(entries, base) !in entries
  {
    var m := MaxFound(entries, base);
    var name := UniqName(entries, base);
    var v := AsLong(Succ(m));
    assert ULong(v) == m + 1;
    FormatRoundTrip(v);
    assert name[..|base| + 1] == base + ".";
    assert Extension(name, base) == Some(Format06(v));
    assert EntryNumber(name, base) == Some(m + 1);
  }

  /**
   * As written, max_found + 1 wraps to 0 when an entry reads as -1, and the
   * "unique" name is then an entry that is already there.
   */
  lemma WrapCollides()
    ensures MaxFound(["b.-1", "b.000000"], "b") == U64 - 1
    ensures UniqName(["b.-1", "b.000000"], "b") == "b.000000"
    ensures UniqName(["b.-1", "b.000000"], "b") in ["b.-1", "b.000000"]
  {
    EntryMinusOne();
    var es := ["b.-1", "b.000000"];
    assert MaxFound(es[..1], "b") == U64 - 1 by {
      assert es[..1][..0] == [];
    }
    assert es[..2][..1] == es[..1];
    assert es[..2] == es;
    FormatZero();
  }

  /** The entry "b.-1" is read as the long -1, that is the ulong 2^64 - 1. */
  lemma EntryMinusOne()
    ensures EntryNumber("b.-1", "b") == Some(U64 - 1)
  {
    assert Padded(1, 0) == "1";
    SignedRoundTrip(1, 0);
    assert "-" + Padded(1, 0) == "-1";
    assert "b.-1"[..2] == "b." && "b.-1"[2..] == "-1";
    assert Extension("b.-1", "b") == Some("-1");
  }

  /** "%06ld" of 0. */
  lemma FormatZero()
    ensures Format06(0) == "000000"
  {
    assert Decimal(0) == "0";
    assert Zeros(5) == "00000";
  }
}
