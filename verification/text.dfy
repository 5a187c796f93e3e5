/**
  Fixed-width text primitives shared by the RINEX readers: Python-style slicing,
  stripping and whitespace splitting, and the integer and fixed-point number
  fields of the format (Fortran I and F edit descriptors), each parser paired
  with the formatter that writes the same field.
*/
module Text {
  import opened Wrappers

  // ---------------------------------------------------------------------------
  // Slicing and blanks
  // ---------------------------------------------------------------------------

  /** s[i:j] with Python's clipping: indices past the end give a shorter (or empty) string. */
  function Slice(s: string, i: nat, j: nat): (r: string)
    requires i <= j
    ensures |r| == if j <= |s| then j - i else if i <= |s| then |s| - i else 0
    ensures forall k :: 0 <= k < |r| ==> r[k] == s[i + k]
  {
    if |s| <= i then "" else if |s| <= j then s[i..] else s[i..j]
  }

  predicate IsBlank(s: string) {
    forall k :: 0 <= k < |s| ==> s[k] == ' '
  }

  function Spaces(n: nat): (r: string)
    ensures |r| == n && IsBlank(r)
  {
    seq(n, _ => ' ')
  }

  /** Right-justifies s in a field of the given width; a longer s is kept whole. */
  function PadLeft(s: string, width: nat): (r: string)
    ensures |s| <= width ==> |r| == width
    ensures |s| > width ==> r == s
  {
    if |s| < width then Spaces(width - |s|) + s else s
  }

  /** The slice of a concatenation that lines up with its middle part is that part. */
  lemma SliceOfConcat(pre: string, mid: string, post: string)
    ensures Slice(pre + mid + post, |pre|, |pre| + |mid|) == mid
  {
    var s := pre + mid + post;
    var r := Slice(s, |pre|, |pre| + |mid|);
    assert |r| == |mid|;
    forall k | 0 <= k < |mid| ensures r[k] == mid[k] {
      assert s[|pre| + k] == mid[k];
    }
  }

  /** The part of a concatenation that lines up with the middle, named by its parts. */
  lemma FieldOf(s: string, pre: string, mid: string, post: string)
    requires s == pre + mid + post
    ensures Slice(s, |pre|, |pre| + |mid|) == mid
  {
    SliceOfConcat(pre, mid, post);
  }

  /** The last part of a concatenation sits at the end of the first. */
  lemma SliceOfLast(p: string, m: string)
    ensures Slice(p + m, |p|, |p| + |m|) == m
  {
    assert (p + m)[|p|..] == m;
  }

  /** Columns past a prefix are read from the rest, shifted by the prefix's width. */
  lemma SliceOfSuffix(h: string, t: string, i: nat, j: nat)
    requires i <= j <= |t|
    ensures Slice(h + t, |h| + i, |h| + j) == Slice(t, i, j)
  {
    assert (h + t)[|h| + i..|h| + j] == t[i..j];
  }

  /** Columns that lie inside a prefix are read from the prefix alone. */
  lemma SliceOfPrefix(s: string, t: string, i: nat, j: nat)
    requires i <= j <= |s|
    ensures Slice(s + t, i, j) == Slice(s, i, j)
  {
    assert (s + t)[i..j] == s[i..j];
  }

  /** Slicing a line at or past its end gives the empty string. */
  lemma SlicePastEnd(s: string, i: nat, j: nat)
    requires i <= j && |s| <= i
    ensures Slice(s, i, j) == ""
  {
  }

  // ---------------------------------------------------------------------------
  // Stripping and splitting (Python's str.strip and str.split on blanks)
  // ---------------------------------------------------------------------------

  function TrimLeft(s: string): (r: string)
    ensures |r| <= |s| && r == s[|s| - |r|..]
    ensures IsBlank(s[..|s| - |r|])
    ensures r == [] || r[0] != ' '
  {
    if |s| > 0 && s[0] == ' ' then TrimLeft(s[1..]) else s
  }

  function TrimRight(s: string): (r: string)
    ensures |r| <= |s| && r == s[..|r|]
    ensures IsBlank(s[|r|..])
    ensures r == [] || r[|r| - 1] != ' '
  {
    if |s| > 0 && s[|s| - 1] == ' ' then TrimRight(s[..|s| - 1]) else s
  }

  function Strip(s: string): string {
    TrimRight(TrimLeft(s))
  }

  /** Strip gives the empty string exactly on blank input. */
  lemma StripEmptyIffBlank(s: string)
    ensures Strip(s) == "" <==> IsBlank(s)
  {
    var l := TrimLeft(s);
    if !IsBlank(s) {
      var k :| 0 <= k < |s| && s[k] != ' ';
      assert k >= |s| - |l|;
      var r := TrimRight(l);
      if r == [] {
        assert l[k - (|s| - |l|)] == s[k];
      }
    }
  }

  lemma {:induction false} TrimLeftSpaces(n: nat, t: string)
    requires t == [] || t[0] != ' '
    ensures TrimLeft(Spaces(n) + t) == t
  {
    if n > 0 {
      assert (Spaces(n) + t)[1..] == Spaces(n - 1) + t;
      TrimLeftSpaces(n - 1, t);
    } else {
      assert Spaces(n) + t == t;
    }
  }

  /** Padding a token with blanks on the left is undone by Strip. */
  lemma StripPadLeft(t: string, width: nat)
    requires t != [] && t[0] != ' ' && t[|t| - 1] != ' '
    ensures Strip(PadLeft(t, width)) == t
  {
    var p := PadLeft(t, width);
    assert TrimLeft(p) == t by {
      if |t| < width {
        TrimLeftSpaces(width - |t|, t);
      } else {
        TrimLeftKeeps(t);
      }
    }
    TrimRightKeeps(t);
  }

  /** Text that starts with no blank is its own left trim. */
  lemma TrimLeftKeeps(t: string)
    requires t == [] || t[0] != ' '
    ensures TrimLeft(t) == t
  {
  }

  /** Text that ends with no blank is its own right trim. */
  lemma TrimRightKeeps(t: string)
    requires t == [] || t[|t| - 1] != ' '
    ensures TrimRight(t) == t
  {
  }

  lemma {:induction false} TrimLeftBlankSuffix(x: string, c: string)
    requires IsBlank(c) && !IsBlank(x)
    ensures TrimLeft(x + c) == TrimLeft(x) + c
  {
    if x[0] == ' ' {
      assert (x + c)[1..] == x[1..] + c;
      assert !IsBlank(x[1..]) by {
        var k :| 0 <= k < |x| && x[k] != ' ';
        assert x[1..][k - 1] == x[k];
      }
      TrimLeftBlankSuffix(x[1..], c);
    }
  }

  lemma {:induction false} TrimRightBlankSuffix(y: string, c: string)
    requires IsBlank(c)
    ensures TrimRight(y + c) == TrimRight(y)
    decreases |c|
  {
    if c != [] {
      assert (y + c)[..|y + c| - 1] == y + c[..|c| - 1];
      TrimRightBlankSuffix(y, c[..|c| - 1]);
    } else {
      assert y + c == y;
    }
  }

  /** Trailing blanks make no difference to the stripped text. */
  lemma StripBlankSuffix(x: string, c: string)
    requires IsBlank(c)
    ensures Strip(x + c) == Strip(x)
    ensures IsBlank(x + c) <==> IsBlank(x)
  {
    if IsBlank(x) {
      assert IsBlank(x + c);
      StripEmptyIffBlank(x);
      StripEmptyIffBlank(x + c);
    } else {
      TrimLeftBlankSuffix(x, c);
      TrimRightBlankSuffix(TrimLeft(x), c);
      var k :| 0 <= k < |x| && x[k] != ' ';
      assert (x + c)[k] != ' ';
    }
  }

  /**
    Blanks appended to a line reach a column range only past the line's end:
    the range reads what it read before, followed by blanks.
  */
  lemma SliceBlankSuffix(f: string, b: string, i: nat, j: nat)
    requires i <= j && IsBlank(b)
    ensures |Slice(f + b, i, j)| >= |Slice(f, i, j)|
    ensures Slice(f + b, i, j) == Slice(f, i, j) + Spaces(|Slice(f + b, i, j)| - |Slice(f, i, j)|)
  {
    var long, short := Slice(f + b, i, j), Slice(f, i, j);
    var pad := Spaces(|long| - |short|);
    forall k | 0 <= k < |long| ensures long[k] == (short + pad)[k] {
      if i + k >= |f| {
        assert long[k] == b[i + k - |f|];
      }
    }
  }

  /** The number readers see only the stripped text, so trailing blanks do not change them. */
  lemma ParseBlankSuffix(x: string, c: string, scale: nat)
    requires IsBlank(c)
    ensures ParseInt(x + c) == ParseInt(x)
    ensures ParseFixed(x + c, scale) == ParseFixed(x, scale)
    ensures IsBlank(x + c) <==> IsBlank(x)
  {
    StripBlankSuffix(x, c);
    ParseIntOfStrip(x + c, x);
    ParseFixedOfStrip(x + c, x, scale);
  }

  lemma ParseIntOfStrip(s: string, t: string)
    requires Strip(s) == Strip(t)
    ensures ParseInt(s) == ParseInt(t)
  {
  }

  lemma ParseFixedOfStrip(s: string, t: string, scale: nat)
    requires Strip(s) == Strip(t)
    ensures ParseFixed(s, scale) == ParseFixed(t, scale)
  {
  }

  /** The length of the leading token of s: the index of the first blank, or |s|. */
  function TokenLength(s: string): (n: nat)
    ensures n <= |s|
    ensures forall k :: 0 <= k < n ==> s[k] != ' '
    ensures n < |s| ==> s[n] == ' '
    ensures s != [] && s[0] != ' ' ==> n > 0
  {
    if s == [] || s[0] == ' ' then 0 else 1 + TokenLength(s[1..])
  }

  /** Python's s.split() for blank-separated text. */
  function Tokens(s: string): (r: seq<string>)
    ensures forall i :: 0 <= i < |r| ==> r[i] != [] && ' ' !in r[i]
    decreases |s|
  {
    var t := TrimLeft(s);
    if t == [] then []
    else
      var n := TokenLength(t);
      [t[..n]] + Tokens(t[n..])
  }

  lemma {:induction false} TrimLeftBlankConcat(a: string, b: string)
    requires IsBlank(a)
    ensures TrimLeft(a + b) == TrimLeft(b)
  {
    if a != [] {
      assert (a + b)[1..] == a[1..] + b;
      TrimLeftBlankConcat(a[1..], b);
    } else {
      assert a + b == b;
    }
  }

  /** Blank text holds no tokens, and a blank prefix adds none. */
  lemma TokensBlankPrefix(p: string, b: string)
    requires IsBlank(p)
    ensures Tokens(p + b) == Tokens(b)
    ensures Tokens(p) == []
  {
    TrimLeftBlankConcat(p, b);
    TokensOfTrimmed(b);
    TrimLeftBlankConcat(p, "");
    assert p + "" == p;
  }

  /** The first token of text that starts with one. */
  lemma TokensCons(t: string)
    requires t != [] && t[0] != ' '
    ensures Tokens(t) == [t[..TokenLength(t)]] + Tokens(t[TokenLength(t)..])
  {
  }

  /** A word without blanks followed by nothing or a blank is the whole first token. */
  lemma {:induction false} TokenLengthOfWord(w: string, rest: string)
    requires ' ' !in w && (rest == [] || rest[0] == ' ')
    ensures TokenLength(w + rest) == |w|
  {
    if w != [] {
      assert (w + rest)[1..] == w[1..] + rest;
      TokenLengthOfWord(w[1..], rest);
    } else {
      assert w + rest == rest;
    }
  }

  /** A blank, a word and then nothing or a blank: the word is the first token. */
  lemma TokensAfterBlank(w: string, rest: string)
    requires w != [] && ' ' !in w && (rest == [] || rest[0] == ' ')
    ensures Tokens(" " + w + rest) == [w] + Tokens(rest)
  {
    var t := w + rest;
    assert " " + w + rest == Spaces(1) + t;
    assert t[0] == w[0];
    TrimLeftSpaces(1, t);
    TokenLengthOfWord(w, rest);
    assert t[..|w|] == w && t[|w|..] == rest;
    TokensCons(t);
  }

  /** Leading blanks do not change the tokens. */
  lemma TokensOfTrimmed(s: string)
    ensures Tokens(TrimLeft(s)) == Tokens(s)
  {
    var t := TrimLeft(s);
    if t != [] {
      assert TrimLeft(t) == t;
    }
  }

  // ---------------------------------------------------------------------------
  // Digits
  // ---------------------------------------------------------------------------

  predicate IsDigit(c: char) {
    '0' <= c <= '9'
  }

  predicate AllDigits(s: string) {
    forall k :: 0 <= k < |s| ==> IsDigit(s[k])
  }

  function DigitValue(c: char): (d: nat)
    requires IsDigit(c)
    ensures d < 10
  {
    c as int - '0' as int
  }

  function DigitChar(d: nat): (c: char)
    requires d < 10
    ensures IsDigit(c) && DigitValue(c) == d
  {
    ('0' as int + d) as char
  }

  function Pow10(k: nat): (p: nat)
    ensures p >= 1
  {
    if k == 0 then 1 else 10 * Pow10(k - 1)
  }

  /** v * 10^k, by repeated multiplication by ten (keeps the arithmetic linear). */
  function Scaled(v: nat, k: nat): nat {
    if k == 0 then v else 10 * Scaled(v, k - 1)
  }

  /** The value of a run of decimal digits, most significant first. */
  function ValueOfDigits(s: string): nat
    requires AllDigits(s)
  {
    if s == [] then 0 else ValueOfDigits(s[..|s| - 1]) * 10 + DigitValue(s[|s| - 1])
  }

  /** The shortest decimal rendering of n. */
  function DigitsOf(n: nat): (r: string)
    ensures r != [] && AllDigits(r)
  {
    if n < 10 then [DigitChar(n)] else DigitsOf(n / 10) + [DigitChar(n % 10)]
  }

  lemma {:induction false} DigitsOfRoundTrip(n: nat)
    ensures ValueOfDigits(DigitsOf(n)) == n
  {
    if n >= 10 {
      var s := DigitsOf(n);
      assert s[..|s| - 1] == DigitsOf(n / 10);
      DigitsOfRoundTrip(n / 10);
    }
  }

  /** n needs at most k digits exactly when it is below 10^k. */
  lemma {:induction false} DigitsOfLength(n: nat, k: nat)
    requires k >= 1
    ensures |DigitsOf(n)| <= k <==> n < Pow10(k)
  {
    if n >= 10 {
      if k == 1 {
        assert Pow10(1) == 10;
      } else {
        DigitsOfLength(n / 10, k - 1);
      }
    } else {
      assert Pow10(k) >= 10 by { if k > 1 { Pow10AtLeast(k); } }
    }
  }

  lemma {:induction false} Pow10AtLeast(k: nat)
    requires k >= 1
    ensures Pow10(k) >= 10
  {
    if k > 1 { Pow10AtLeast(k - 1); }
  }

  /** The value of a concatenation of digit runs. */
  lemma {:induction false} ValueOfDigitsConcat(a: string, b: string)
    requires AllDigits(a) && AllDigits(b)
    ensures AllDigits(a + b)
    ensures ValueOfDigits(a + b) == Scaled(ValueOfDigits(a), |b|) + ValueOfDigits(b)
    decreases |b|
  {
    var s := a + b;
    if b == [] {
      assert s == a;
    } else {
      assert s[..|s| - 1] == a + b[..|b| - 1];
      ValueOfDigitsConcat(a, b[..|b| - 1]);
      calc {
        ValueOfDigits(s);
        ValueOfDigits(a + b[..|b| - 1]) * 10 + DigitValue(b[|b| - 1]);
        (Scaled(ValueOfDigits(a), |b| - 1) + ValueOfDigits(b[..|b| - 1])) * 10 + DigitValue(b[|b| - 1]);
        Scaled(ValueOfDigits(a), |b|) + ValueOfDigits(b);
      }
    }
  }

  function Zeros(n: nat): (r: string)
    ensures |r| == n && AllDigits(r)
  {
    seq(n, _ => '0')
  }

  lemma {:induction false} ValueOfZeros(n: nat)
    ensures ValueOfDigits(Zeros(n)) == 0
  {
    if n > 0 {
      assert Zeros(n)[..n - 1] == Zeros(n - 1);
      ValueOfZeros(n - 1);
    }
  }

  /** n written with leading zeros to the given width (Fortran I2.2, say). */
  function ZeroPad(n: nat, width: nat): (r: string)
    ensures r != [] && AllDigits(r) && |r| >= width
  {
    var d := DigitsOf(n);
    if |d| < width then Zeros(width - |d|) + d else d
  }

  lemma ZeroPadValue(n: nat, width: nat)
    ensures ValueOfDigits(ZeroPad(n, width)) == n
  {
    var d := DigitsOf(n);
    DigitsOfRoundTrip(n);
    if |d| < width {
      ValueOfDigitsConcat(Zeros(width - |d|), d);
      ValueOfZeros(width - |d|);
      ScaledZero(|d|);
    }
  }

  lemma {:induction false} ScaledZero(k: nat)
    ensures Scaled(0, k) == 0
  {
    if k > 0 { ScaledZero(k - 1); }
  }

  /** A value below 10^width fills exactly width columns once zero-padded. */
  lemma ZeroPadLength(n: nat, width: nat)
    requires width >= 1 && n < Pow10(width)
    ensures |ZeroPad(n, width)| == width
  {
    DigitsOfLength(n, width);
  }

  // ---------------------------------------------------------------------------
  // Number fields
  // ---------------------------------------------------------------------------

  /** Python's int(s): optional blanks around an optionally signed run of digits. */
  function ParseInt(s: string): Option<int> {
    var t := Strip(s);
    if |t| > 0 && (t[0] == '-' || t[0] == '+') then
      var d := t[1..];
      if d != [] && AllDigits(d) then Some(if t[0] == '-' then 0 - ValueOfDigits(d) else ValueOfDigits(d))
      else None
    else if t != [] && AllDigits(t) then Some(ValueOfDigits(t))
    else None
  }

  /** Blank text is not a number. */
  lemma ParseIntBlank(s: string)
    requires IsBlank(s)
    ensures ParseInt(s) == None
  {
    StripEmptyIffBlank(s);
  }

  /** A field of at most one column reads as a single digit or not at all. */
  lemma ParseIntOneColumn(s: string)
    requires |s| <= 1
    ensures ParseInt(s) == None || (0 <= ParseInt(s).value <= 9 && |s| == 1 && s[0] == DigitChar(ParseInt(s).value))
  {
    var t := Strip(s);
    assert |t| <= 1;
    if |t| == 1 && IsDigit(t[0]) {
      assert t[..0] == [];
      assert ValueOfDigits(t) == DigitValue(t[0]);
      assert s == t;
    }
  }

  /** Index of the first '.' in s, or |s| when there is none. */
  function IndexOfPoint(s: string): (i: nat)
    ensures i <= |s|
    ensures forall k :: 0 <= k < i ==> s[k] != '.'
    ensures i < |s| ==> s[i] == '.'
  {
    if s == [] || s[0] == '.' then 0 else 1 + IndexOfPoint(s[1..])
  }

  /**
    An unsigned decimal "ddd.fff" read as an integer count of 10^-scale units;
    "ddd", "ddd." and ".fff" are accepted as Python's float does, while more
    fractional digits than the scale cannot be represented and are refused.
  */
  function ParseUnsignedFixed(b: string, scale: nat): Option<int> {
    var i := IndexOfPoint(b);
    var whole := b[..i];
    var frac := if i < |b| then b[i + 1..] else "";
    if AllDigits(whole) && AllDigits(frac) && |whole| + |frac| > 0 && |frac| <= scale then
      Some(Scaled(ValueOfDigits(whole), scale) + Scaled(ValueOfDigits(frac), scale - |frac|))
    else None
  }

  /** A fixed-point field (Fortran F) read as an integer count of 10^-scale units. */
  function ParseFixed(s: string, scale: nat): Option<int> {
    var t := Strip(s);
    if |t| > 0 && (t[0] == '-' || t[0] == '+') then
      match ParseUnsignedFixed(t[1..], scale)
      case Some(v) => Some(if t[0] == '-' then -v else v)
      case None => None
    else ParseUnsignedFixed(t, scale)
  }

  lemma ParseFixedBlank(s: string, scale: nat)
    requires IsBlank(s)
    ensures ParseFixed(s, scale) == None
  {
    StripEmptyIffBlank(s);
  }

  function Signed(negative: bool, v: int): int {
    if negative then -v else v
  }

  function Abs(v: int): nat {
    if v < 0 then -v else v
  }

  /** The text of an integer without padding: an optional '-' and its digits. */
  function IntText(v: int): (r: string)
    ensures r != [] && r[0] != ' ' && r[|r| - 1] != ' '
  {
    (if v < 0 then "-" else "") + DigitsOf(Abs(v))
  }

  /** Fortran Iw: v right-justified in width columns. */
  function FormatInt(v: int, width: nat): string {
    PadLeft(IntText(v), width)
  }

  /** A digit run with a point put before its last scale digits. */
  function PointText(d: string, scale: nat): (r: string)
    requires |d| > scale && AllDigits(d)
    ensures r != [] && IsDigit(r[0]) && r[|r| - 1] != ' '
  {
    var n := |d| - scale;
    var r := d[..n] + "." + d[n..];
    assert r[0] == d[0];
    assert r[|r| - 1] == if scale == 0 then '.' else d[|d| - 1];
    r
  }

  function SignText(v: int): string {
    if v < 0 then "-" else ""
  }

  /**
    The unpadded text of v * 10^-scale: an optional '-', at least one whole
    digit, a point and exactly scale fractional digits.
  */
  function FixedText(v: int, scale: nat): (r: string)
    ensures r != [] && r[0] != ' ' && r[|r| - 1] != ' '
  {
    SignText(v) + PointText(ZeroPad(Abs(v), scale + 1), scale)
  }

  /** Fortran Fw.d with d = scale: the value v * 10^-scale right-justified in width columns. */
  function FormatFixed(v: int, width: nat, scale: nat): string {
    PadLeft(FixedText(v, scale), width)
  }

  /** A value below 10^(scale + w) takes at most w whole digits. */
  lemma FixedTextLength(v: int, scale: nat, w: nat)
    requires w >= 1 && Abs(v) < Pow10(scale + w)
    ensures |FixedText(v, scale)| <= (if v < 0 then 1 else 0) + w + 1 + scale
  {
    var d := ZeroPad(Abs(v), scale + 1);
    if |DigitsOf(Abs(v))| > scale + w {
      DigitsOfLength(Abs(v), scale + w);
    }
  }

  /** Text that strips to a (signed) digit run reads as that integer. */
  lemma ParseIntOfText(s: string, negative: bool, d: string)
    requires d != [] && AllDigits(d)
    requires Strip(s) == (if negative then "-" else "") + d
    ensures ParseInt(s) == Some(Signed(negative, ValueOfDigits(d)))
  {
    if negative {
      ParseIntNegative(s, d);
    } else {
      assert "" + d == d;
      ParseIntNonNegative(s, d);
    }
  }

  lemma ParseIntNegative(s: string, d: string)
    requires d != [] && AllDigits(d)
    requires Strip(s) == "-" + d
    ensures ParseInt(s) == Some(0 - ValueOfDigits(d))
  {
    assert Strip(s)[1..] == d;
  }

  lemma ParseIntNonNegative(s: string, d: string)
    requires d != [] && AllDigits(d)
    requires Strip(s) == d
    ensures ParseInt(s) == Some(ValueOfDigits(d))
  {
    assert IsDigit(Strip(s)[0]);
  }

  /** Text that strips to a (signed) unsigned fixed-point body reads as that body. */
  lemma ParseFixedOfText(s: string, scale: nat, negative: bool, body: string)
    requires body != [] && IsDigit(body[0])
    requires Strip(s) == (if negative then "-" else "") + body
    ensures ParseFixed(s, scale) ==
      match ParseUnsignedFixed(body, scale)
      case Some(v) => Some(Signed(negative, v))
      case None => None
  {
    if negative {
      ParseFixedNegative(s, scale, body);
    } else {
      assert "" + body == body;
      ParseFixedNonNegative(s, scale, body);
    }
  }

  lemma ParseFixedNegative(s: string, scale: nat, body: string)
    requires body != [] && IsDigit(body[0])
    requires Strip(s) == "-" + body
    ensures ParseFixed(s, scale) ==
      match ParseUnsignedFixed(body, scale) case Some(v) => Some(-v) case None => None
  {
    assert Strip(s)[1..] == body;
  }

  lemma ParseFixedNonNegative(s: string, scale: nat, body: string)
    requires body != [] && IsDigit(body[0])
    requires Strip(s) == body
    ensures ParseFixed(s, scale) == ParseUnsignedFixed(body, scale)
  {
  }

  /** A run of digits has nothing to strip. */
  lemma StripDigits(z: string)
    requires z != [] && AllDigits(z)
    ensures Strip(z) == z
  {
    StripPadLeft(z, 0);
    assert PadLeft(z, 0) == z;
  }

  /** An integer written with FormatInt reads back as itself, whatever the width. */
  lemma ParseFormatInt(v: int, width: nat)
    ensures ParseInt(FormatInt(v, width)) == Some(v)
  {
    var d := DigitsOf(Abs(v));
    StripPadLeft(IntText(v), width);
    DigitsOfRoundTrip(Abs(v));
    ParseIntOfText(FormatInt(v, width), v < 0, d);
  }

  /** A non-negative integer below 10^width fills exactly width columns. */
  lemma IntWidth(v: nat, width: nat)
    requires 1 <= width && v < Pow10(width)
    ensures |FormatInt(v, width)| == width
  {
    DigitsOfLength(v, width);
  }

  /** A zero-padded integer (Fortran I2.2) reads back as itself. */
  lemma ParseZeroPad(n: nat, width: nat)
    ensures ParseInt(ZeroPad(n, width)) == Some(n)
  {
    var z := ZeroPad(n, width);
    ZeroPadValue(n, width);
    StripDigits(z);
    ParseIntOfText(z, false, z);
    assert "" + z == z;
  }

  /** Putting a point between a whole part and scale fractional digits keeps the value of the run. */
  lemma UnsignedFixedRoundTrip(w: string, f: string, d: string, scale: nat)
    requires w != [] && AllDigits(w) && AllDigits(f) && |f| == scale && w + f == d
    ensures ParseUnsignedFixed(w + "." + f, scale) == Some(ValueOfDigits(d))
  {
    UnsignedFixedOfParts(w, f, scale);
    ValueOfDigitsConcat(w, f);
  }

  lemma SplitAt(d: string, n: nat)
    requires n <= |d|
    ensures d[..n] + d[n..] == d
  {
  }

  /** A whole part, a point and exactly scale fractional digits. */
  lemma UnsignedFixedOfParts(w: string, f: string, scale: nat)
    requires w != [] && AllDigits(w) && AllDigits(f) && |f| == scale
    ensures ParseUnsignedFixed(w + "." + f, scale) == Some(Scaled(ValueOfDigits(w), scale) + ValueOfDigits(f))
  {
    var b := w + "." + f;
    PointAfterDigits(w, f);
    assert b[..|w|] == w;
    assert b[|w| + 1..] == f;
    assert scale - |f| == 0;
  }

  lemma PointAfterDigits(w: string, f: string)
    requires AllDigits(w)
    ensures IndexOfPoint(w + "." + f) == |w|
  {
    var b := w + "." + f;
    assert b[|w|] == '.';
    assert forall k :: 0 <= k < |w| ==> b[k] == w[k];
    IndexOfPointAt(b, |w|);
  }

  lemma IndexOfPointAt(s: string, i: nat)
    requires i < |s| && s[i] == '.'
    requires forall k :: 0 <= k < i ==> s[k] != '.'
    ensures IndexOfPoint(s) == i
  {
    if i > 0 {
      IndexOfPointAt(s[1..], i - 1);
    }
  }

  /** The text PointText writes reads back as the value of the digit run. */
  lemma ParsePointText(d: string, scale: nat)
    requires |d| > scale && AllDigits(d)
    ensures ParseUnsignedFixed(PointText(d, scale), scale) == Some(ValueOfDigits(d))
  {
    var n := |d| - scale;
    SplitAt(d, n);
    UnsignedFixedRoundTrip(d[..n], d[n..], d, scale);
  }

  /** A value written with FormatFixed reads back as itself, whatever the width. */
  lemma ParseFormatFixed(v: int, width: nat, scale: nat)
    ensures ParseFixed(FormatFixed(v, width, scale), scale) == Some(v)
  {
    var d := ZeroPad(Abs(v), scale + 1);
    var body := PointText(d, scale);
    ParsePointText(d, scale);
    ZeroPadValue(Abs(v), scale + 1);
    StripPadLeft(FixedText(v, scale), width);
    ParseFixedOfText(FormatFixed(v, width, scale), scale, v < 0, body);
  }
}
