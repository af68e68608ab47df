/**
  Text primitives the recorder and the rename tool rely on, each written after
  the Python built-in it stands for: `str(int)`, `bin(int)`, the `{n:06d}`
  format, `str.split('\n')` / `'\n'.join`, `str.strip()`, `str.find` and
  `str.count` of a single character.  Every printer has a parser partner and
  a round-trip lemma.
*/
module Text {
  import opened Wrappers

  // ---------------------------------------------------------------------------
  // Digits

  predicate IsDigit(c: char) {
    '0' <= c <= '9'
  }

  predicate AllDigits(s: string) {
    forall i :: 0 <= i < |s| ==> IsDigit(s[i])
  }

  function DigitValue(c: char): (d: nat)
    requires IsDigit(c)
    ensures d < 10
  {
    c as int - '0' as int
  }

  function DigitChar(d: nat): (c: char)
    requires d < 10
    ensures IsDigit(c) && DigitValue(c) == d
  {
    ('0' as int + d) as char
  }

  /** The number a string of decimal digits denotes (leading zeros allowed). */
  function DigitsValue(s: string): nat
    requires AllDigits(s)
  {
    if |s| == 0 then 0 else 10 * DigitsValue(s[..|s| - 1]) + DigitValue(s[|s| - 1])
  }

  // ---------------------------------------------------------------------------
  // str(int)

  /** Python's `str(n)` for a non-negative int: the shortest decimal text. */
  function Decimal(n: nat): (s: string)
    ensures |s| >= 1 && AllDigits(s)
    ensures |s| > 1 ==> s[0] != '0'
  {
    if n < 10 then [DigitChar(n)] else Decimal(n / 10) + [DigitChar(n % 10)]
  }

  lemma {:induction false} DecimalRoundTrip(n: nat)
    ensures DigitsValue(Decimal(n)) == n
  {
    if n >= 10 {
      var s := Decimal(n);
      assert s[..|s| - 1] == Decimal(n / 10);
      DecimalRoundTrip(n / 10);
    }
  }

  /** Python's `str(i)` for any int. */
  function IntText(i: int): (s: string)
    ensures |s| >= 1
  {
    if i < 0 then "-" + Decimal(-i) else Decimal(i)
  }

  /** Python's `int(s)` restricted to an optional minus sign followed by digits. */
  function ParseInt(s: string): Option<int> {
    if |s| > 1 && s[0] == '-' && AllDigits(s[1..]) then Some(-(DigitsValue(s[1..]) as int))
    else if |s| > 0 && AllDigits(s) then Some(DigitsValue(s))
    else None
  }

  lemma IntTextRoundTrip(i: int)
    ensures ParseInt(IntText(i)) == Some(i)
  {
    var s := IntText(i);
    if i < 0 {
      var d := Decimal(-i);
      assert s[1..] == d;
      assert |s| > 1 && s[0] == '-' && AllDigits(s[1..]);
      DecimalRoundTrip(-i);
      assert ParseInt(s) == Some(-(DigitsValue(d) as int));
    } else {
      assert s == Decimal(i);
      assert IsDigit(s[0]);
      DecimalRoundTrip(i);
      assert ParseInt(s) == Some(DigitsValue(s));
    }
  }

  /** Distinct ints print to distinct texts. */
  lemma IntTextInjective(a: int, b: int)
    ensures IntText(a) == IntText(b) ==> a == b
  {
    IntTextRoundTrip(a);
    IntTextRoundTrip(b);
  }

  // ---------------------------------------------------------------------------
  // "{n:06d}" and the recorder's frame file names

  function Zeros(k: nat): (z: string)
    ensures |z| == k && AllDigits(z)
    ensures forall i :: 0 <= i < k ==> z[i] == '0'
  {
    if k == 0 then "" else "0" + Zeros(k - 1)
  }

  /** `format(n, '06d')`: the decimal text, left-padded with zeros to six characters. */
  function Pad6(n: nat): (s: string)
    ensures |s| >= 6 && AllDigits(s)
  {
    var d := Decimal(n);
    if |d| >= 6 then d else Zeros(6 - |d|) + d
  }

  lemma {:induction false} LeadingZeros(k: nat, s: string)
    requires AllDigits(s)
    ensures DigitsValue(Zeros(k) + s) == DigitsValue(s)
    decreases |s|
  {
    if |s| == 0 {
      ZerosValue(k);
      assert Zeros(k) + s == Zeros(k);
    } else {
      var t := Zeros(k) + s;
      assert t[..|t| - 1] == Zeros(k) + s[..|s| - 1];
      LeadingZeros(k, s[..|s| - 1]);
    }
  }

  lemma {:induction false} ZerosValue(k: nat)
    ensures DigitsValue(Zeros(k)) == 0
  {
    if k > 0 {
      var z := Zeros(k);
      assert z[..k - 1] == Zeros(k - 1);
      ZerosValue(k - 1);
    }
  }

  const FramePrefix := "frame_"
  const PngSuffix := ".png"

  /** The recorder's image name `frame_{n:06d}.png`. */
  function FrameName(n: nat): (s: string)
    ensures |s| >= 16
    ensures s[..6] == FramePrefix && s[|s| - 4..] == PngSuffix
    ensures AllDigits(s[6..|s| - 4])
  {
    var s := FramePrefix + Pad6(n) + PngSuffix;
    assert s[6..|s| - 4] == Pad6(n);
    s
  }

  /** Reads the counter back out of a name of the form `frame_<digits>.png`. */
  function ParseFrameName(s: string): Option<nat> {
    if |s| >= 16 && s[..6] == FramePrefix && s[|s| - 4..] == PngSuffix && AllDigits(s[6..|s| - 4])
    then Some(DigitsValue(s[6..|s| - 4]))
    else None
  }

  lemma FrameNameRoundTrip(n: nat)
    ensures ParseFrameName(FrameName(n)) == Some(n)
  {
    var s := FrameName(n);
    var d := Decimal(n);
    assert s[6..|s| - 4] == Pad6(n);
    DecimalRoundTrip(n);
    if |d| < 6 {
      LeadingZeros(6 - |d|, d);
    }
  }

  /** Two counters never share a file name. */
  lemma FrameNameInjective(a: nat, b: nat)
    ensures FrameName(a) == FrameName(b) ==> a == b
  {
    FrameNameRoundTrip(a);
    FrameNameRoundTrip(b);
  }

  // ---------------------------------------------------------------------------
  // bin(int)

  predicate IsBit(c: char) {
    c == '0' || c == '1'
  }

  function BitChar(b: nat): (c: char)
    requires b < 2
    ensures IsBit(c)
  {
    if b == 0 then '0' else '1'
  }

  function BitsText(n: nat): (s: string)
    ensures |s| >= 1 && forall i :: 0 <= i < |s| ==> IsBit(s[i])
  {
    if n < 2 then [BitChar(n)] else BitsText(n / 2) + [BitChar(n % 2)]
  }

  function BitsValue(s: string): nat
    requires forall i :: 0 <= i < |s| ==> IsBit(s[i])
  {
    if |s| == 0 then 0 else 2 * BitsValue(s[..|s| - 1]) + (if s[|s| - 1] == '1' then 1 else 0)
  }

  /** Python's `bin(n)` for a non-negative int: `0b` followed by the binary digits. */
  function Binary(n: nat): (s: string)
    ensures |s| >= 3 && s[..2] == "0b"
  {
    "0b" + BitsText(n)
  }

  function ParseBinary(s: string): Option<nat> {
    if |s| >= 3 && s[..2] == "0b" && (forall i :: 2 <= i < |s| ==> IsBit(s[i]))
    then Some(BitsValue(s[2..]))
    else None
  }

  lemma {:induction false} BitsRoundTrip(n: nat)
    ensures BitsValue(BitsText(n)) == n
  {
    if n >= 2 {
      var s := BitsText(n);
      assert s[..|s| - 1] == BitsText(n / 2);
      BitsRoundTrip(n / 2);
    }
  }

  lemma BinaryRoundTrip(n: nat)
    ensures ParseBinary(Binary(n)) == Some(n)
  {
    var s := Binary(n);
    assert s[2..] == BitsText(n);
    BitsRoundTrip(n);
  }

  // ---------------------------------------------------------------------------
  // str.split(sep) and sep.join(parts) for a one-character separator

  /** Python's `s.split(sep)`: never empty, and no part contains the separator. */
  function Split(s: string, sep: char): (parts: seq<string>)
    ensures |parts| >= 1
    ensures forall i :: 0 <= i < |parts| ==> sep !in parts[i]
  {
    if |s| == 0 then [""]
    else
      var rest := Split(s[1..], sep);
      if s[0] == sep then [""] + rest else [[s[0]] + rest[0]] + rest[1..]
  }

  /** Python's `sep.join(parts)`. */
  function Join(parts: seq<string>, sep: char): string {
    if |parts| == 0 then ""
    else if |parts| == 1 then parts[0]
    else parts[0] + [sep] + Join(parts[1..], sep)
  }

  lemma {:induction false} JoinSplit(s: string, sep: char)
    ensures Join(Split(s, sep), sep) == s
  {
    if |s| > 0 {
      var rest := Split(s[1..], sep);
      JoinSplit(s[1..], sep);
      if s[0] == sep {
        assert ([""] + rest)[1..] == rest;
      } else {
        var parts := [[s[0]] + rest[0]] + rest[1..];
        if |rest| > 1 {
          assert parts[1..] == rest[1..];
        }
      }
    }
  }

  lemma {:induction false} SplitJoin(parts: seq<string>, sep: char)
    requires |parts| >= 1
    requires forall i :: 0 <= i < |parts| ==> sep !in parts[i]
    ensures Split(Join(parts, sep), sep) == parts
    decreases |parts|, |parts[0]|
  {
    var p := parts[0];
    if |p| == 0 {
      if |parts| > 1 {
        var j := Join(parts, sep);
        assert j == [sep] + Join(parts[1..], sep);
        assert j[1..] == Join(parts[1..], sep);
        SplitJoin(parts[1..], sep);
      }
    } else {
      var shorter := [p[1..]] + parts[1..];
      assert sep !in shorter[0] by {
        assert forall c :: c in p[1..] ==> c in p;
      }
      SplitJoin(shorter, sep);
      var j := Join(parts, sep);
      assert j[1..] == Join(shorter, sep) by {
        if |parts| > 1 {
          assert shorter[1..] == parts[1..];
        }
      }
      assert |j| > 0 && j[0] == p[0];
      assert p[0] != sep by {
        assert p[0] in p;
      }
      assert [p[0]] + p[1..] == p;
      assert Split(j, sep) == [[j[0]] + Split(j[1..], sep)[0]] + Split(j[1..], sep)[1..];
    }
  }

  // ---------------------------------------------------------------------------
  // str.strip()

  /** Python's `str.isspace()` for one character. */
  predicate IsSpace(c: char) {
    || c == ' '
    || ('\t' <= c <= '\r')
    || ('\U{1C}' <= c <= '\U{1F}')
    || c == '\U{85}' || c == '\U{A0}' || c == '\U{1680}'
    || ('\U{2000}' <= c <= '\U{200A}')
    || c == '\U{2028}' || c == '\U{2029}' || c == '\U{202F}' || c == '\U{205F}' || c == '\U{3000}'
  }

  function LStrip(s: string): (r: string)
    ensures |r| <= |s| && r == s[|s| - |r|..]
    ensures forall i :: 0 <= i < |s| - |r| ==> IsSpace(s[i])
    ensures |r| > 0 ==> !IsSpace(r[0])
  {
    if |s| > 0 && IsSpace(s[0]) then LStrip(s[1..]) else s
  }

  function RStrip(s: string): (r: string)
    ensures |r| <= |s| && r == s[..|r|]
    ensures forall i :: |r| <= i < |s| ==> IsSpace(s[i])
    ensures |r| > 0 ==> !IsSpace(r[|r| - 1])
  {
    if |s| > 0 && IsSpace(s[|s| - 1]) then RStrip(s[..|s| - 1]) else s
  }

  /** Python's `s.strip()`: `s` is the result framed by whitespace only. */
  function Strip(s: string): (r: string)
    ensures exists a, b :: 0 <= a <= b <= |s| && r == s[a..b]
                           && (forall i :: 0 <= i < a ==> IsSpace(s[i]))
                           && (forall i :: b <= i < |s| ==> IsSpace(s[i]))
    ensures |r| > 0 ==> !IsSpace(r[0]) && !IsSpace(r[|r| - 1])
  {
    var l := LStrip(s);
    var r := RStrip(l);
    var a := |s| - |l|;
    assert r == s[a..a + |r|];
    r
  }

  // ---------------------------------------------------------------------------
  // str.find, `in` and str.startswith

  predicate OccursAt(s: string, t: string, k: int) {
    0 <= k && k + |t| <= |s| && s[k..k + |t|] == t
  }

  function FindFrom(s: string, t: string, from: nat): (r: Option<nat>)
    ensures r.Some? ==> from <= r.value && OccursAt(s, t, r.value)
                        && forall k :: from <= k < r.value ==> !OccursAt(s, t, k)
    ensures r.None? ==> forall k :: from <= k ==> !OccursAt(s, t, k)
    decreases |s| - from
  {
    if from + |t| > |s| then None
    else if s[from..from + |t|] == t then Some(from)
    else FindFrom(s, t, from + 1)
  }

  /** Python's `s.find(t)`: the first index where `t` occurs, or None for -1. */
  function Find(s: string, t: string): (r: Option<nat>)
    ensures r.Some? ==> OccursAt(s, t, r.value) && forall k :: 0 <= k < r.value ==> !OccursAt(s, t, k)
    ensures r.None? ==> forall k :: !OccursAt(s, t, k)
  {
    FindFrom(s, t, 0)
  }

  /** Python's `t in s` for strings. */
  predicate Contains(s: string, t: string) {
    Find(s, t).Some?
  }

  predicate StartsWith(s: string, p: string) {
    |p| <= |s| && s[..|p|] == p
  }

  /** Python's `s.count(c)` for a one-character `c`. */
  function Occurrences(s: string, c: char): nat {
    multiset(s)[c]
  }
}
