/** Text helpers standing for the .NET library calls the finder makes on strings:
    character replacement, ordinal prefix and substring tests, ASCII lower-casing,
    the regex word-character class and `Int32.TryParse`. */
module Text {

  datatype Option<+T> = None | Some(value: T)

  /** `string.Replace(char, char)`: every occurrence of `from` becomes `to`. */
  function ReplaceChar(s: string, from: char, to: char): (r: string)
    ensures |r| == |s|
    ensures forall i :: 0 <= i < |s| ==> r[i] == (if s[i] == from then to else s[i])
  {
    if s == [] then [] else [if s[0] == from then to else s[0]] + ReplaceChar(s[1..], from, to)
  }

  /** Ordinal `StartsWith`, i.e. `IndexOf(prefix, Ordinal) == 0` for a non-empty prefix. */
  predicate StartsWith(s: string, prefix: string) {
    |prefix| <= |s| && s[..|prefix|] == prefix
  }

  /** Ordinal `string.Contains`. */
  predicate Contains(s: string, t: string) { OccursFrom(s, t, 0) }

  /** `t` occurs in `s` at position i or later. */
  predicate OccursFrom(s: string, t: string, i: nat)
    decreases |s| - i
  {
    i + |t| <= |s| && (s[i..i + |t|] == t || OccursFrom(s, t, i + 1))
  }

  lemma {:induction false} OccursAt(s: string, t: string, i: nat, j: nat)
    requires j <= i && i + |t| <= |s| && s[i..i + |t|] == t
    ensures OccursFrom(s, t, j)
    decreases i - j
  {
    if j < i {
      OccursAt(s, t, i, j + 1);
    }
  }

  predicate IsDigit(c: char) { '0' <= c <= '9' }

  predicate AllDigits(s: string) { forall i :: 0 <= i < |s| ==> IsDigit(s[i]) }

  /** The regex class `\w`, restricted to ASCII: letters, digits and the underscore. */
  predicate IsWordChar(c: char) { 'a' <= c <= 'z' || 'A' <= c <= 'Z' || IsDigit(c) || c == '_' }

  function LowerChar(c: char): char {
    if 'A' <= c <= 'Z' then (c as int + 32) as char else c
  }

  /** `string.ToLower()` on ASCII letters; every other character is kept. */
  function Lower(s: string): (r: string)
    ensures |r| == |s|
    ensures forall i :: 0 <= i < |s| ==> r[i] == LowerChar(s[i])
  {
    if s == [] then [] else [LowerChar(s[0])] + Lower(s[1..])
  }

  // ---------------------------------------------------------------------------
  // Int32.TryParse(string) with NumberStyles.Integer: optional white space on
  // both sides, an optional sign, one or more ASCII digits, and a value that fits
  // in 32 bits; a run of NUL characters may end the text.

  const Int32Min: int := -0x8000_0000
  const Int32Max: int := 0x7FFF_FFFF

  /** White space accepted around a number: U+0009 to U+000D and the space. */
  predicate IsNumberWhite(c: char) { c == ' ' || '\t' <= c <= '\r' }

  function TrimStart(s: string): (r: string)
    ensures |r| <= |s| && r == s[|s| - |r|..]
    ensures forall k :: 0 <= k < |s| - |r| ==> IsNumberWhite(s[k])
    ensures r != [] ==> !IsNumberWhite(r[0])
  {
    if s != [] && IsNumberWhite(s[0]) then TrimStart(s[1..]) else s
  }

  function TrimEnd(s: string): (r: string)
    ensures |r| <= |s| && r == s[..|r|]
    ensures forall k :: |r| <= k < |s| ==> IsNumberWhite(s[k])
    ensures r != [] ==> !IsNumberWhite(r[|r| - 1])
  {
    if s != [] && IsNumberWhite(s[|s| - 1]) then TrimEnd(s[..|s| - 1]) else s
  }

  function DigitValue(c: char): nat requires IsDigit(c) { c as int - '0' as int }

  /** The value of a run of decimal digits, most significant first. */
  function DigitsValue(ds: string): nat
    requires AllDigits(ds)
  {
    if ds == [] then 0 else DigitsValue(ds[..|ds| - 1]) * 10 + DigitValue(ds[|ds| - 1])
  }

  function ParseInt32(s: string): (r: Option<int>)
    ensures r.Some? ==> Int32Min <= r.value <= Int32Max
  {
    ParseSigned(TrimEnd(TrimNuls(TrimStart(s))))
  }

  /** The run of NUL characters at the end, which `TryParse` accepts after the number and
      its trailing white space. */
  function TrimNuls(s: string): (r: string)
    ensures |r| <= |s| && r == s[..|r|]
    ensures forall k :: |r| <= k < |s| ==> s[k] == '\0'
    ensures r != [] ==> r[|r| - 1] != '\0'
  {
    if s != [] && s[|s| - 1] == '\0' then TrimNuls(s[..|s| - 1]) else s
  }

  /** The trimmed text: an optional sign, then one or more digits, within 32 bits. */
  function ParseSigned(t: string): (r: Option<int>)
    ensures r.Some? ==> Int32Min <= r.value <= Int32Max
  {
    var signed := |t| > 0 && (t[0] == '-' || t[0] == '+');
    var body := if signed then t[1..] else t;
    if body == [] || !AllDigits(body) then None
    else
      var v: int := if signed && t[0] == '-' then -(DigitsValue(body) as int) else DigitsValue(body);
      if Int32Min <= v <= Int32Max then Some(v) else None
  }

  /** `Int32.TryParse(g, out v)`, with -1 written on failure as the finder does. */
  function NumberOrUnknown(g: string): int {
    match ParseInt32(g)
    case Some(v) => v
    case None => -1
  }

  // ---------------------------------------------------------------------------
  // Decimal rendering, used for dates and for the parse round trip.

  function DigitChar(d: nat): char requires d < 10 { ('0' as int + d) as char }

  /** The shortest decimal rendering of `n`. */
  function Decimal(n: nat): (r: string)
    ensures r != [] && AllDigits(r)
    decreases n
  {
    if n < 10 then [DigitChar(n)] else Decimal(n / 10) + [DigitChar(n % 10)]
  }

  function Zeros(k: nat): (r: string)
    ensures |r| == k && AllDigits(r)
  {
    if k == 0 then [] else Zeros(k - 1) + ['0']
  }

  /** `n` rendered with at least `width` digits, padded with leading zeros. */
  function Padded(n: nat, width: nat): (r: string)
    ensures AllDigits(r) && |r| >= width
  {
    var d := Decimal(n);
    if |d| < width then Zeros(width - |d|) + d else d
  }

  lemma {:induction false} DecimalValue(n: nat)
    ensures DigitsValue(Decimal(n)) == n
    decreases n
  {
    if n >= 10 {
      DecimalValue(n / 10);
      var d := Decimal(n);
      assert d[..|d| - 1] == Decimal(n / 10);
    }
  }

  lemma {:induction false} LeadingZerosValue(k: nat, ds: string)
    requires AllDigits(ds)
    ensures AllDigits(Zeros(k) + ds) && DigitsValue(Zeros(k) + ds) == DigitsValue(ds)
  {
    var z := Zeros(k) + ds;
    if ds == [] {
      assert z == Zeros(k);
      ZerosValue(k);
    } else {
      var init := ds[..|ds| - 1];
      LeadingZerosValue(k, init);
      assert z[..|z| - 1] == Zeros(k) + init;
    }
  }

  lemma {:induction false} ZerosValue(k: nat)
    ensures DigitsValue(Zeros(k)) == 0
  {
    if k > 0 {
      ZerosValue(k - 1);
      assert Zeros(k)[..k - 1] == Zeros(k - 1);
    }
  }

  /** A group such as "08" or "0003" reads back as its value: leading zeros do not matter,
      and any value that fits in 32 bits survives the round trip. */
  lemma ParseZeroPaddedDecimal(k: nat, n: nat)
    requires n <= Int32Max
    ensures ParseInt32(Zeros(k) + Decimal(n)) == Some(n)
  {
    var d := Decimal(n);
    DecimalValue(n);
    LeadingZerosValue(k, d);
    ParseDigits(Zeros(k) + d);
  }

  lemma {:induction false} ParseDigits(s: string)
    requires s != [] && AllDigits(s) && DigitsValue(s) <= Int32Max
    ensures ParseInt32(s) == Some(DigitsValue(s))
  {
    assert IsDigit(s[0]) && IsDigit(s[|s| - 1]);
    TrimsNothing(s);
    SignedDigits(s);
  }

  /** Text that starts and ends with a character other than white space is not trimmed. */
  lemma TrimsNothing(s: string)
    requires s != [] && !IsNumberWhite(s[0]) && !IsNumberWhite(s[|s| - 1]) && s[|s| - 1] != '\0'
    ensures TrimEnd(TrimNuls(TrimStart(s))) == s
  {
    assert TrimStart(s) == s;
    assert TrimNuls(s) == s;
  }

  lemma SignedDigits(s: string)
    requires s != [] && AllDigits(s)
    ensures ParseSigned(s) == if DigitsValue(s) <= Int32Max then Some(DigitsValue(s)) else None
  {
    assert IsDigit(s[0]);
  }

  /** An empty group is unknown. */
  lemma EmptyGroupIsUnknown()
    ensures NumberOrUnknown("") == -1
  {
  }

  /** A group holding anything other than digits, white space, a sign and NUL is unknown. */
  lemma NonNumericGroupIsUnknown(g: string, c: char)
    requires c in g && !IsDigit(c) && !IsNumberWhite(c) && c != '+' && c != '-' && c != '\0'
    ensures NumberOrUnknown(g) == -1
  {
    TrimStartKeeps(g, c);
    TrimNulsKeeps(TrimStart(g), c);
    TrimEndKeeps(TrimNuls(TrimStart(g)), c);
    SignedRejects(TrimEnd(TrimNuls(TrimStart(g))), c);
  }

  lemma TrimNulsKeeps(s: string, c: char)
    requires c in s && c != '\0'
    ensures c in TrimNuls(s)
  {
    var i :| 0 <= i < |s| && s[i] == c;
    assert TrimNuls(s)[i] == c;
  }

  lemma {:induction false} NulRunTrimmed(ds: string, k: nat)
    requires ds != [] && ds[|ds| - 1] != '\0'
    ensures TrimNuls(ds + seq(k, _ => '\0')) == ds
  {
    if k > 0 {
      var s := ds + seq(k, _ => '\0');
      assert s[..|s| - 1] == ds + seq(k - 1, _ => '\0');
      NulRunTrimmed(ds, k - 1);
    } else {
      assert ds + seq(k, _ => '\0') == ds;
    }
  }

  /** NUL characters after a number do not stop it from parsing: "8\0" reads as 8. */
  lemma NulsAfterNumber(ds: string, k: nat)
    requires ds != [] && AllDigits(ds) && DigitsValue(ds) <= Int32Max
    ensures ParseInt32(ds + seq(k, _ => '\0')) == Some(DigitsValue(ds))
  {
    var s := ds + seq(k, _ => '\0');
    assert IsDigit(ds[0]) && IsDigit(ds[|ds| - 1]);
    assert s[0] == ds[0];
    assert TrimStart(s) == s;
    NulRunTrimmed(ds, k);
    assert TrimEnd(ds) == ds;
    SignedDigits(ds);
  }

  lemma TrimStartKeeps(s: string, c: char)
    requires c in s && !IsNumberWhite(c)
    ensures c in TrimStart(s)
  {
    var i :| 0 <= i < |s| && s[i] == c;
    var u := TrimStart(s);
    assert u[i - (|s| - |u|)] == c;
  }

  lemma TrimEndKeeps(s: string, c: char)
    requires c in s && !IsNumberWhite(c)
    ensures c in TrimEnd(s)
  {
    var i :| 0 <= i < |s| && s[i] == c;
    assert TrimEnd(s)[i] == c;
  }

  lemma SignedRejects(t: string, c: char)
    requires c in t && !IsDigit(c) && c != '+' && c != '-'
    ensures ParseSigned(t) == None
  {
    var i :| 0 <= i < |t| && t[i] == c;
    if t[0] == '-' || t[0] == '+' {
      assert t[1..][i - 1] == c;
    }
  }

  /** A run of digits too large for 32 bits is unknown: `TryParse` fails on overflow. */
  lemma OverflowGroupIsUnknown(g: string)
    requires g != [] && AllDigits(g) && DigitsValue(g) > Int32Max
    ensures NumberOrUnknown(g) == -1
  {
    assert IsDigit(g[0]) && IsDigit(g[|g| - 1]);
    TrimsNothing(g);
    SignedDigits(g);
  }
}
