/**
 * The Python string built-ins the parsers of wamr.py rely on: str.isspace,
 * str.isdigit, strip/rstrip, split() with and without a maximum split count,
 * split on one separator character, `in` on substrings, lower(), int(), float(),
 * slicing `[:n]` and the final component of a path.
 */
module PyText {
  import opened Wrappers

  /** str.isspace() of one character (the ASCII, Latin-1 and Unicode space separators) */
  predicate IsSpace(c: char) {
    var n := c as int;
    n == 32 || 9 <= n <= 13 || 28 <= n <= 31 || n == 0x85 || n == 0xA0 || n == 0x1680
    || 0x2000 <= n <= 0x200A || n == 0x2028 || n == 0x2029 || n == 0x202F || n == 0x205F
    || n == 0x3000
  }

  /** str.isdigit() restricted to the ASCII digits */
  predicate IsDigit(c: char) { '0' <= c <= '9' }

  predicate NoSpace(w: string) { forall i | 0 <= i < |w| :: !IsSpace(w[i]) }

  predicate AllDigits(s: string) { forall i | 0 <= i < |s| :: IsDigit(s[i]) }

  /** a non-empty string whose first character is not whitespace */
  predicate StartsSolid(w: string) { w != [] && !IsSpace(w[0]) }

  /** s.lstrip() */
  function LStrip(s: string): (r: string)
    ensures |r| <= |s|
    ensures r == [] || !IsSpace(r[0])
  {
    if s != [] && IsSpace(s[0]) then LStrip(s[1..]) else s
  }

  /** lstrip drops exactly the leading run of whitespace: what it removes is all whitespace */
  lemma {:induction false} LStripSuffix(s: string)
    ensures LStrip(s) == s[|s| - |LStrip(s)|..]
    ensures forall i | 0 <= i < |s| - |LStrip(s)| :: IsSpace(s[i])
  {
    if s != [] && IsSpace(s[0]) {
      LStripSuffix(s[1..]);
    }
  }

  /** s.rstrip(): drops exactly the trailing run of whitespace */
  function RStrip(s: string): (r: string)
    ensures |r| <= |s| && r == s[..|r|]
    ensures forall i | |r| <= i < |s| :: IsSpace(s[i])
    ensures r == [] || !IsSpace(r[|r| - 1])
  {
    if s != [] && IsSpace(s[|s| - 1]) then RStrip(s[..|s| - 1]) else s
  }

  /** s.strip() */
  function Strip(s: string): (r: string)
    ensures |r| <= |s|
    ensures r == [] || (!IsSpace(r[0]) && !IsSpace(r[|r| - 1]))
  {
    var l := LStrip(s);
    var r := RStrip(l);
    assert r != [] ==> r[0] == l[0];
    r
  }

  /**
   * strip() removes exactly the leading and trailing whitespace: the result is
   * a slice of the input, everything before it and after it is whitespace,
   * and it neither starts nor ends with whitespace.
   */
  lemma StripTrims(s: string)
    ensures exists i, j | 0 <= i <= j <= |s| ::
              && Strip(s) == s[i..j]
              && (forall k | 0 <= k < i :: IsSpace(s[k]))
              && (forall k | j <= k < |s| :: IsSpace(s[k]))
  {
    var i, j := StripBounds(s);
    assert Strip(s) == s[i..j];
  }

  /** where the slice strip() keeps starts and ends */
  lemma StripBounds(s: string) returns (i: nat, j: nat)
    ensures i <= j <= |s| && Strip(s) == s[i..j]
    ensures forall k | 0 <= k < i :: IsSpace(s[k])
    ensures forall k | j <= k < |s| :: IsSpace(s[k])
  {
    var l := LStrip(s);
    LStripSuffix(s);
    var r := RStrip(l);
    i := |s| - |l|;
    j := i + |r|;
    assert l == s[i..];
    assert Strip(s) == s[i..j] by {
      assert r == l[..|r|];
    }
    forall k | j <= k < |s| ensures IsSpace(s[k]) {
      assert s[k] == l[k - i];
    }
  }

  /** Stripping a string that neither starts nor ends with whitespace changes nothing. */
  lemma StripUnchanged(s: string)
    requires s == [] || (!IsSpace(s[0]) && !IsSpace(s[|s| - 1]))
    ensures Strip(s) == s
  {
    var l := LStrip(s);
    LStripSuffix(s);
    if s != [] {
      assert |s| - |l| == 0;
      assert l == s;
    }
  }

  /** s.rstrip(c) for one character c */
  function RStripChar(s: string, c: char): (r: string)
    ensures |r| <= |s| && r == s[..|r|]
    ensures forall i | |r| <= i < |s| :: s[i] == c
    ensures r == [] || r[|r| - 1] != c
  {
    if s != [] && s[|s| - 1] == c then RStripChar(s[..|s| - 1], c) else s
  }

  /** the longest prefix of s without whitespace */
  function TakeWord(s: string): (w: string)
    ensures |w| <= |s|
    ensures NoSpace(w)
  {
    if s == [] || IsSpace(s[0]) then [] else [s[0]] + TakeWord(s[1..])
  }

  /** TakeWord is a prefix of s and stops only at the end of s or at a whitespace character. */
  lemma {:induction false} TakeWordMaximal(s: string)
    ensures TakeWord(s) == s[..|TakeWord(s)|]
    ensures |TakeWord(s)| < |s| ==> IsSpace(s[|TakeWord(s)|])
  {
    if s != [] && !IsSpace(s[0]) {
      TakeWordMaximal(s[1..]);
    }
  }

  /**
   * s.split(None, maxsplit): at most maxsplit cuts at whitespace runs; leading
   * whitespace is skipped and the last piece keeps the rest of the line,
   * inner and trailing whitespace included.
   */
  function SplitWs(s: string, maxsplit: nat): (parts: seq<string>)
    ensures |parts| <= maxsplit + 1
    decreases |s|
  {
    var t := LStrip(s);
    if t == [] then []
    else if maxsplit == 0 then [t]
    else
      var w := TakeWord(t);
      assert w == [t[0]] + TakeWord(t[1..]);
      [w] + SplitWs(t[|w|..], maxsplit - 1)
  }

  /** pieces that all start with a non-space character, all but the last being single words */
  predicate WellSplit(parts: seq<string>) {
    && (forall k | 0 <= k < |parts| :: StartsSolid(parts[k]))
    && (forall k | 0 <= k < |parts| - 1 :: NoSpace(parts[k]))
  }

  /**
   * Every piece of s.split(None, maxsplit) is non-empty and starts with a
   * non-whitespace character; every piece but the last is a single word.
   */
  lemma WellSplitCons(w: string, rest: seq<string>)
    requires StartsSolid(w) && NoSpace(w) && WellSplit(rest)
    ensures WellSplit([w] + rest)
  {
    var parts := [w] + rest;
    forall k | 1 <= k < |parts| ensures parts[k] == rest[k - 1] { }
  }

  lemma {:induction false} SplitWsPieces(s: string, maxsplit: nat)
    ensures WellSplit(SplitWs(s, maxsplit))
    decreases |s|
  {
    var t := LStrip(s);
    if t == [] {
      assert SplitWs(s, maxsplit) == [];
    } else if maxsplit == 0 {
      assert SplitWs(s, maxsplit) == [t];
    } else {
      var w := TakeWord(t);
      assert w != [] && w[0] == t[0];
      var rest := SplitWs(t[|w|..], maxsplit - 1);
      SplitWsPieces(t[|w|..], maxsplit - 1);
      assert SplitWs(s, maxsplit) == [w] + rest;
      WellSplitCons(w, rest);
    }
  }

  /** s.split(): the whitespace-separated words of s */
  function Words(s: string): (words: seq<string>)
    ensures forall k | 0 <= k < |words| :: words[k] != [] && NoSpace(words[k])
    ensures s != [] && !IsSpace(s[0]) ==> words != [] && words[0] == TakeWord(s)
    decreases |s|
  {
    var t := LStrip(s);
    if t == [] then []
    else
      var w := TakeWord(t);
      [w] + Words(t[|w|..])
  }

  /** split() finds no word exactly in a string of whitespace only, which is when `split()[0]` raises */
  lemma WordsEmpty(s: string)
    ensures Words(s) == [] <==> Blank(s)
  {
    LStripSuffix(s);
    var t := LStrip(s);
    if t != [] {
      assert !IsSpace(s[|s| - |t|]);
    }
  }

  /** the position of the first c in s */
  function IndexOf(s: string, c: char): (i: nat)
    requires c in s
    ensures i < |s| && s[i] == c && c !in s[..i]
  {
    if s[0] == c then 0
    else
      var j := IndexOf(s[1..], c);
      assert s[..j + 1] == [s[0]] + s[1..][..j];
      j + 1
  }

  /** s.split(sep) for a one-character separator */
  function SplitOn(s: string, sep: char): (parts: seq<string>)
    ensures |parts| >= 1
    ensures forall k | 0 <= k < |parts| :: sep !in parts[k]
    decreases |s|
  {
    if sep in s then
      var i := IndexOf(s, sep);
      [s[..i]] + SplitOn(s[i + 1..], sep)
    else [s]
  }

  /** sep.join(parts) */
  function Join(parts: seq<string>, sep: char): string
    requires |parts| >= 1
  {
    if |parts| == 1 then parts[0] else parts[0] + [sep] + Join(parts[1..], sep)
  }

  function CountChar(s: string, c: char): nat {
    if s == [] then 0 else (if s[0] == c then 1 else 0) + CountChar(s[1..], c)
  }

  lemma {:induction false} CountCharAppend(a: string, b: string, c: char)
    ensures CountChar(a + b, c) == CountChar(a, c) + CountChar(b, c)
  {
    if a != [] {
      assert (a + b)[1..] == a[1..] + b;
      CountCharAppend(a[1..], b, c);
    } else {
      assert a + b == b;
    }
  }

  lemma {:induction false} CountCharAbsent(s: string, c: char)
    requires c !in s
    ensures CountChar(s, c) == 0
  {
    if s != [] {
      CountCharAbsent(s[1..], c);
    }
  }

  /** Splitting and joining on the same separator gives back the string. */
  lemma {:induction false} JoinSplitOn(s: string, sep: char)
    ensures Join(SplitOn(s, sep), sep) == s
    decreases |s|
  {
    if sep in s {
      var i := IndexOf(s, sep);
      var rest := SplitOn(s[i + 1..], sep);
      var parts := SplitOn(s, sep);
      assert parts == [s[..i]] + rest;
      assert parts[1..] == rest && |parts| > 1;
      JoinSplitOn(s[i + 1..], sep);
      assert Join(parts, sep) == s[..i] + [sep] + Join(rest, sep);
      assert s == s[..i] + [sep] + s[i + 1..];
    }
  }

  /** s.split(sep) has one more piece than s has separators. */
  lemma {:induction false} SplitOnCount(s: string, sep: char)
    ensures |SplitOn(s, sep)| == CountChar(s, sep) + 1
    decreases |s|
  {
    if sep in s {
      var i := IndexOf(s, sep);
      SplitOnCount(s[i + 1..], sep);
      assert s == s[..i] + ([sep] + s[i + 1..]);
      CountCharAppend(s[..i], [sep] + s[i + 1..], sep);
      CountCharAbsent(s[..i], sep);
      assert ([sep] + s[i + 1..])[1..] == s[i + 1..];
    } else {
      CountCharAbsent(s, sep);
    }
  }

  /** the characters of s that are digits, in order */
  function Digits(s: string): (ds: string)
    ensures AllDigits(ds) && |ds| <= |s|
    ensures AllDigits(s) ==> ds == s
  {
    if s == [] then []
    else if IsDigit(s[0]) then [s[0]] + Digits(s[1..])
    else Digits(s[1..])
  }

  /** A string yields no digits exactly when it has no digit character. */
  lemma {:induction false} DigitsEmpty(s: string)
    ensures Digits(s) == [] <==> forall i | 0 <= i < |s| :: !IsDigit(s[i])
  {
    if s != [] {
      DigitsEmpty(s[1..]);
      assert forall i | 1 <= i < |s| :: s[i] == s[1..][i - 1];
    }
  }

  function DigitValue(c: char): nat
    requires IsDigit(c)
  {
    (c as int) - ('0' as int)
  }

  /** the number a string of decimal digits denotes */
  function DigitsValue(ds: string): nat
    requires AllDigits(ds)
  {
    if ds == [] then 0 else DigitsValue(ds[..|ds| - 1]) * 10 + DigitValue(ds[|ds| - 1])
  }

  function LowerChar(c: char): char {
    if 'A' <= c <= 'Z' then (c as int + 32) as char else c
  }

  /** s.lower() on ASCII letters */
  function Lower(s: string): (r: string)
    ensures |r| == |s|
  {
    seq(|s|, i requires 0 <= i < |s| => LowerChar(s[i]))
  }

  /** pat occurs in s starting at position k */
  predicate OccursAt(pat: string, s: string, k: int) {
    0 <= k <= |s| - |pat| && s[k..k + |pat|] == pat
  }

  /** pat in s, for strings */
  function IsInfix(pat: string, s: string): (b: bool)
    ensures b <==> exists k :: OccursAt(pat, s, k)
    decreases |s|
  {
    if |pat| <= |s| && s[..|pat|] == pat then
      assert OccursAt(pat, s, 0);
      true
    else if |s| <= |pat| then
      NoRoomToOccur(pat, s);
      false
    else
      OccursLater(pat, s);
      IsInfix(pat, s[1..])
  }

  lemma NoRoomToOccur(pat: string, s: string)
    requires |s| <= |pat| && !(|pat| <= |s| && s[..|pat|] == pat)
    ensures !exists k :: OccursAt(pat, s, k)
  {
  }

  /** An occurrence that does not start at the front is an occurrence in the tail. */
  lemma OccursLater(pat: string, s: string)
    requires |s| > 0 && !OccursAt(pat, s, 0)
    ensures (exists k :: OccursAt(pat, s, k)) <==> (exists k :: OccursAt(pat, s[1..], k))
  {
    if exists k :: OccursAt(pat, s[1..], k) {
      var k :| OccursAt(pat, s[1..], k);
      assert s[k + 1..k + 1 + |pat|] == s[1..][k..k + |pat|];
      assert OccursAt(pat, s, k + 1);
    }
    if exists k :: OccursAt(pat, s, k) {
      var k :| OccursAt(pat, s, k);
      assert s[1..][k - 1..k - 1 + |pat|] == s[k..k + |pat|];
      assert OccursAt(pat, s[1..], k - 1);
    }
  }


  /** a non-empty run of ASCII digits, optionally signed, as int() reads it */
  function ParseSignedDigits(t: string): Option<int> {
    if |t| > 0 && (t[0] == '+' || t[0] == '-') then
      var body := t[1..];
      if |body| > 0 && AllDigits(body) then
        var v: int := DigitsValue(body);
        Some(if t[0] == '-' then -v else v)
      else None
    else if |t| > 0 && AllDigits(t) then Some(DigitsValue(t))
    else None
  }

  /** int(s) in base 10: surrounding whitespace, an optional sign, then digits */
  function ParseInt(s: string): Option<int> {
    ParseSignedDigits(Strip(s))
  }

  function Pow10(n: nat): (p: nat)
    ensures p >= 1
  {
    if n == 0 then 1 else 10 * Pow10(n - 1)
  }

  /** the position of the exponent marker of a float literal, or |s| when it has none */
  function ExponentAt(s: string): (i: nat)
    ensures i <= |s|
    ensures i < |s| ==> s[i] == 'e' || s[i] == 'E'
  {
    if s == [] then 0
    else if s[0] == 'e' || s[0] == 'E' then 0
    else 1 + ExponentAt(s[1..])
  }

  /** digits with at most one decimal point and at least one digit */
  function ParseMantissa(m: string): Option<real> {
    if '.' in m then
      var dot := IndexOf(m, '.');
      var whole := m[..dot];
      var frac := m[dot + 1..];
      if AllDigits(whole) && AllDigits(frac) && |whole| + |frac| > 0 then
        Some(DigitsValue(whole + frac) as real / Pow10(|frac|) as real)
      else None
    else if |m| > 0 && AllDigits(m) then Some(DigitsValue(m) as real)
    else None
  }

  function ParseUnsignedFloat(b: string): Option<real> {
    var e := ExponentAt(b);
    match ParseMantissa(b[..e])
    case None => None
    case Some(m) =>
      if e == |b| then Some(m)
      else
        match ParseSignedDigits(b[e + 1..])
        case None => None
        case Some(x) =>
          Some(if x >= 0 then m * Pow10(x) as real else m / Pow10(-x) as real)
  }

  /** float(s) for finite decimal literals: sign, mantissa, optional exponent */
  function ParseFloat(s: string): Option<real> {
    var t := Strip(s);
    if |t| > 0 && (t[0] == '+' || t[0] == '-') then
      match ParseUnsignedFloat(t[1..])
      case None => None
      case Some(v) => Some(if t[0] == '-' then -v else v)
    else ParseUnsignedFloat(t)
  }

  function DigitChar(d: nat): (c: char)
    requires d < 10
    ensures IsDigit(c) && DigitValue(c) == d
  {
    ('0' as int + d) as char
  }

  /** str(n) for a natural number */
  function NatToDecimal(n: nat): (s: string)
    ensures |s| > 0 && AllDigits(s)
  {
    if n < 10 then [DigitChar(n)] else NatToDecimal(n / 10) + [DigitChar(n % 10)]
  }

  /** str(n) */
  function IntToDecimal(n: int): string {
    if n < 0 then "-" + NatToDecimal(-n) else NatToDecimal(n)
  }

  lemma {:induction false} NatToDecimalValue(n: nat)
    ensures DigitsValue(NatToDecimal(n)) == n
  {
    if n >= 10 {
      NatToDecimalValue(n / 10);
      var s := NatToDecimal(n);
      assert s[..|s| - 1] == NatToDecimal(n / 10);
    }
  }

  lemma IntToDecimalShape(n: int)
    ensures var s := IntToDecimal(n); |s| > 0 && !IsSpace(s[0]) && !IsSpace(s[|s| - 1])
    ensures Strip(IntToDecimal(n)) == IntToDecimal(n)
  {
    var s := IntToDecimal(n);
    assert IsDigit(s[|s| - 1]);
    StripUnchanged(s);
  }

  /** int(str(n)) == n */
  lemma ParseIntOfDecimal(n: int)
    ensures ParseInt(IntToDecimal(n)) == Some(n)
  {
    IntToDecimalShape(n);
    if n < 0 {
      NatToDecimalValue(-n);
      assert IntToDecimal(n)[1..] == NatToDecimal(-n);
    } else {
      NatToDecimalValue(n);
    }
  }

  lemma {:induction false} ExponentAtDigits(s: string)
    requires AllDigits(s)
    ensures ExponentAt(s) == |s|
  {
    if s != [] {
      ExponentAtDigits(s[1..]);
    }
  }

  lemma UnsignedFloatOfDigits(s: string)
    requires |s| > 0 && AllDigits(s)
    ensures ParseUnsignedFloat(s) == Some(DigitsValue(s) as real)
  {
    ExponentAtDigits(s);
    assert s[..|s|] == s;
    forall i | 0 <= i < |s| ensures s[i] != '.' {
      assert IsDigit(s[i]);
    }
  }

  /** float(str(n)) == n for the non-negative integers `ps` prints as sizes */
  lemma ParseFloatOfNatural(n: nat)
    ensures ParseFloat(IntToDecimal(n)) == Some(n as real)
  {
    var d := NatToDecimal(n);
    assert IntToDecimal(n) == d;
    StripUnchanged(d);
    assert IsDigit(d[0]);
    NatToDecimalValue(n);
    UnsignedFloatOfDigits(d);
  }

  /** s[:n], including Python's meaning of a negative n (drop |n| from the end) */
  function SliceTo<T>(s: seq<T>, n: int): (r: seq<T>)
    ensures |r| <= |s| && r == s[..|r|]
    ensures n >= 0 ==> |r| == Min(n, |s|)
    ensures n < 0 ==> |r| == Max(0, |s| + n)
  {
    if n >= 0 then (if n <= |s| then s[..n] else s)
    else if |s| + n >= 0 then s[..|s| + n] else []
  }

  /** the text after the last '/' of a path (Path(p).name without normalisation) */
  function Basename(p: string): (b: string)
    ensures '/' !in b
    ensures |b| <= |p| && b == p[|p| - |b|..]
    ensures |b| < |p| ==> p[|p| - |b| - 1] == '/'
  {
    if p == [] then []
    else if p[|p| - 1] == '/' then []
    else
      var b := Basename(p[..|p| - 1]);
      assert p[..|p| - 1][|p| - 1 - |b|..] == p[|p| - 1 - |b|..|p| - 1];
      b + [p[|p| - 1]]
  }

  /** Leading whitespace before a word-initial character is exactly what lstrip removes. */
  lemma {:induction false} LStripPadding(pad: string, s: string)
    requires forall i | 0 <= i < |pad| :: IsSpace(pad[i])
    requires StartsSolid(s)
    ensures LStrip(pad + s) == s
  {
    if pad == [] {
      assert pad + s == s;
    } else {
      assert (pad + s)[1..] == pad[1..] + s;
      LStripPadding(pad[1..], s);
    }
  }

  /** A word followed by whitespace (or by nothing) is read back whole. */
  lemma {:induction false} TakeWordUntilSpace(w: string, rest: string)
    requires NoSpace(w)
    requires rest == [] || IsSpace(rest[0])
    ensures TakeWord(w + rest) == w
  {
    if w == [] {
      assert w + rest == rest;
    } else {
      assert (w + rest)[1..] == w[1..] + rest;
      TakeWordUntilSpace(w[1..], rest);
    }
  }

  /** Two pieces joined by a separator that neither contains split back into those pieces. */
  lemma SplitOnPair(a: string, b: string, sep: char)
    requires sep !in a && sep !in b
    ensures SplitOn(a + [sep] + b, sep) == [a, b]
  {
    var s := a + [sep] + b;
    assert s[|a|] == sep;
    assert s[..|a|] == a;
    assert IndexOf(s, sep) == |a|;
    assert s[|a| + 1..] == b;
  }

  /** str(n) is a minus sign at most and digits otherwise. */
  lemma IntToDecimalChars(n: int)
    ensures forall i | 0 <= i < |IntToDecimal(n)| :: IntToDecimal(n)[i] == '-' || IsDigit(IntToDecimal(n)[i])
  {
  }

  /** A word of str(n): it is non-empty and has no whitespace. */
  lemma IntToDecimalWord(n: int)
    ensures StartsSolid(IntToDecimal(n)) && NoSpace(IntToDecimal(n))
  {
    IntToDecimalChars(n);
    IntToDecimalShape(n);
  }

  /** a run of whitespace, possibly empty */
  predicate Blank(s: string) { forall i | 0 <= i < |s| :: IsSpace(s[i]) }

  /**
   * the whitespace around the fields of a table row: any run before the first
   * field (none at all in a left-aligned column) and a non-empty run before
   * each later one, as wide as column alignment makes it
   */
  predicate Gaps(pads: seq<string>) {
    && (forall k | 0 <= k < |pads| :: Blank(pads[k]))
    && (forall k | 1 <= k < |pads| :: pads[k] != [])
  }

  /** a table row: each field after its run of whitespace */
  function Padded(pads: seq<string>, fields: seq<string>): string
    requires |pads| == |fields|
  {
    if fields == [] then [] else pads[0] + fields[0] + Padded(pads[1..], fields[1..])
  }

  /** split() with a positive maximum takes the first word off whatever padding precedes it. */
  lemma SplitWsWord(pad: string, w: string, rest: string, maxsplit: nat)
    requires forall i | 0 <= i < |pad| :: IsSpace(pad[i])
    requires StartsSolid(w) && NoSpace(w)
    requires rest == [] || IsSpace(rest[0])
    ensures SplitWs(pad + w + rest, maxsplit + 1) == [w] + SplitWs(rest, maxsplit)
  {
    assert pad + w + rest == pad + (w + rest);
    LStripPadding(pad, w + rest);
    TakeWordUntilSpace(w, rest);
    assert (w + rest)[|w|..] == rest;
  }

  /**
   * A row of single-word fields and a last field, each after its run of
   * whitespace, splits with one split per word back into the words and the
   * last field whole, whatever the widths of the runs.
   */
  lemma {:induction false} SplitWsPadded(pads: seq<string>, ws: seq<string>, last: string)
    requires |pads| == |ws| + 1 && Gaps(pads)
    requires AllWords(ws)
    requires StartsSolid(last)
    ensures SplitWs(Padded(pads, ws + [last]), |ws|) == ws + [last]
    decreases |ws|
  {
    var fields := ws + [last];
    if ws == [] {
      assert Padded(pads, fields) == pads[0] + last + Padded(pads[1..], []);
      assert Padded(pads, fields) == pads[0] + last;
      LStripPadding(pads[0], last);
    } else {
      assert fields[1..] == ws[1..] + [last];
      var rest := Padded(pads[1..], fields[1..]);
      assert Padded(pads, fields) == pads[0] + ws[0] + rest;
      PaddedStartsBlank(pads[1..], fields[1..]);
      SplitWsWord(pads[0], ws[0], rest, |ws| - 1);
      GapsTail(pads);
      SplitWsPadded(pads[1..], ws[1..], last);
      assert ws == [ws[0]] + ws[1..];
    }
  }

  /** A row whose first run of whitespace is not empty starts with whitespace. */
  lemma PaddedStartsBlank(pads: seq<string>, fields: seq<string>)
    requires |pads| == |fields| >= 1
    requires Blank(pads[0]) && pads[0] != []
    ensures IsSpace(Padded(pads, fields)[0])
  {
    assert Padded(pads, fields) == pads[0] + (fields[0] + Padded(pads[1..], fields[1..]));
  }

  /** What follows the first field of a row is again a row. */
  lemma GapsTail(pads: seq<string>)
    requires |pads| >= 1 && Gaps(pads)
    ensures Gaps(pads[1..])
  {
    forall k | 0 <= k < |pads[1..]| ensures Blank(pads[1..][k]) {
      assert pads[1..][k] == pads[k + 1];
    }
  }

  /** every element is a non-empty word without whitespace */
  predicate AllWords(ws: seq<string>) {
    forall k | 0 <= k < |ws| :: StartsSolid(ws[k]) && NoSpace(ws[k])
  }

  /** The first separator of a + [sep] + b is the one after a, when a has none. */
  lemma FirstSeparator(a: string, b: string, sep: char)
    requires sep !in a
    ensures var s := a + [sep] + b; sep in s && IndexOf(s, sep) == |a| && s[..|a|] == a && s[|a| + 1..] == b
  {
    var s := a + [sep] + b;
    assert s[|a|] == sep;
    assert s[..|a|] == a;
    assert s[|a| + 1..] == b;
  }

  /** Stripping leading padding off a string that starts and ends with a non-blank leaves that string. */
  lemma StripPadding(pad: string, s: string)
    requires forall i | 0 <= i < |pad| :: IsSpace(pad[i])
    requires StartsSolid(s) && !IsSpace(s[|s| - 1])
    ensures Strip(pad + s) == s
  {
    LStripPadding(pad, s);
    assert RStrip(s) == s;
  }
}
