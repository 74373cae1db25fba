// Shared vocabulary: optional values, results, and the small pieces of the
// .NET and Python string libraries that the modelled code relies on.
module Common {

  datatype Option<T> = None | Some(value: T)

  datatype Result<T, E> = Ok(value: T) | Err(error: E)
  {
    predicate IsOk() { Ok? }
  }

  /** The .NET exceptions that the modelled code throws, with the parameter name or message they carry. */
  datatype Exception =
    | ArgumentNullException(paramName: string)
    | ArgumentException(message: string)
    | ArgumentOutOfRangeException(paramName: string, message: string)
    | InvalidOperationException(message: string)
    | KeyNotFoundException(message: string)

  /** The message of an ArgumentOutOfRangeException built with a parameter name only. */
  const OutOfRangeMessage := "Specified argument was out of the range of valid values."

  /** The text of an ArgumentException built with a message and a parameter name. */
  function WithParameter(message: string, paramName: string): string
  {
    message + " (Parameter '" + paramName + "')"
  }

  /** An IEEE 754 double as far as the argument checks compare them. */
  datatype Double = NaN | NegativeInfinity | Finite(value: real) | PositiveInfinity

  /** IEEE `<`: false whenever an operand is NaN. */
  predicate Lt(a: Double, b: Double)
  {
    match (a, b)
    case (NaN, _) => false
    case (_, NaN) => false
    case (NegativeInfinity, NegativeInfinity) => false
    case (NegativeInfinity, _) => true
    case (Finite(x), Finite(y)) => x < y
    case (Finite(_), PositiveInfinity) => true
    case (_, _) => false
  }

  /** IEEE `>=`: also false whenever an operand is NaN. */
  predicate Ge(a: Double, b: Double)
  {
    !a.NaN? && !b.NaN? && !Lt(a, b)
  }

  /** IEEE `<=`: false whenever an operand is NaN. */
  predicate Le(a: Double, b: Double)
  {
    !a.NaN? && !b.NaN? && !Lt(b, a)
  }

  /** A value of an IDictionary<string, object> of metadata. */
  datatype Meta = MetaText(text: string) | MetaInt(n: int) | MetaReal(r: real) | MetaBool(b: bool) | MetaClock | MetaNull

  // ---------------------------------------------------------------------
  // Character classes
  // ---------------------------------------------------------------------

  /** .NET Char.IsWhiteSpace: the separators Zs, Zl, Zp plus U+0009..U+000D, U+0085. */
  predicate IsDotNetWhiteSpace(c: char)
  {
    c == ' ' || ('\t' <= c <= '\r') || c == '\U{0085}' || c == '\U{00A0}' || c == '\U{1680}'
    || ('\U{2000}' <= c <= '\U{200A}') || c == '\U{2028}' || c == '\U{2029}'
    || c == '\U{202F}' || c == '\U{205F}' || c == '\U{3000}'
  }

  /** Python str.isspace: the .NET set plus the information separators U+001C..U+001F. */
  predicate IsPyWhiteSpace(c: char)
  {
    IsDotNetWhiteSpace(c) || ('\U{001C}' <= c <= '\U{001F}')
  }

  predicate IsDigit(c: char) { '0' <= c <= '9' }

  /** The white space that NumberStyles.AllowLeadingWhite / AllowTrailingWhite accept. */
  predicate IsNumberWhite(c: char) { c == ' ' || ('\t' <= c <= '\r') }

  function ToLowerAscii(c: char): char
  {
    if 'A' <= c <= 'Z' then (c as int + 32) as char else c
  }

  function ToUpperAscii(c: char): char
  {
    if 'a' <= c <= 'z' then (c as int - 32) as char else c
  }

  function LowerAscii(s: string): (r: string)
    ensures |r| == |s|
    ensures forall i :: 0 <= i < |s| ==> r[i] == ToLowerAscii(s[i])
  {
    if s == [] then [] else [ToLowerAscii(s[0])] + LowerAscii(s[1..])
  }

  function UpperAscii(s: string): (r: string)
    ensures |r| == |s|
    ensures forall i :: 0 <= i < |s| ==> r[i] == ToUpperAscii(s[i])
  {
    if s == [] then [] else [ToUpperAscii(s[0])] + UpperAscii(s[1..])
  }

  /** Ordinal comparison ignoring case, restricted to ASCII letters. */
  predicate EqualsIgnoreCase(a: string, b: string)
  {
    UpperAscii(a) == UpperAscii(b)
  }

  predicate StartsWith(s: string, p: string) { |p| <= |s| && s[..|p|] == p }

  predicate StartsWithIgnoreCase(s: string, p: string)
  {
    |p| <= |s| && EqualsIgnoreCase(s[..|p|], p)
  }

  predicate OccursAt(s: string, p: string, i: int) { 0 <= i && i + |p| <= |s| && s[i..i + |p|] == p }

  predicate Contains(s: string, p: string) { exists i :: 0 <= i <= |s| - |p| && OccursAt(s, p, i) }

  // ---------------------------------------------------------------------
  // Trimming
  // ---------------------------------------------------------------------

  /** The white-space class a trim removes. */
  datatype Space = DotNetSpace | PySpace | NumberSpace

  predicate IsSpace(k: Space, c: char)
  {
    match k
    case DotNetSpace => IsDotNetWhiteSpace(c)
    case PySpace => IsPyWhiteSpace(c)
    case NumberSpace => IsNumberWhite(c)
  }

  function TrimStartBy(s: string, k: Space): (r: string)
  {
    if s == [] || !IsSpace(k, s[0]) then s else TrimStartBy(s[1..], k)
  }

  function TrimEndBy(s: string, k: Space): (r: string)
  {
    if s == [] || !IsSpace(k, s[|s| - 1]) then s else TrimEndBy(s[..|s| - 1], k)
  }

  /** .NET String.Trim(). */
  function Trim(s: string): string
  {
    TrimEndBy(TrimStartBy(s, DotNetSpace), DotNetSpace)
  }

  /** Python str.strip(). */
  function PyStrip(s: string): string
  {
    TrimEndBy(TrimStartBy(s, PySpace), PySpace)
  }

  /** Python str.rstrip(). */
  function PyRStrip(s: string): string
  {
    TrimEndBy(s, PySpace)
  }

  /** .NET String.IsNullOrWhiteSpace (null modelled by the caller as None). */
  predicate IsBlank(s: string) { forall i :: 0 <= i < |s| ==> IsDotNetWhiteSpace(s[i]) }

  predicate IsPyBlank(s: string) { forall i :: 0 <= i < |s| ==> IsPyWhiteSpace(s[i]) }

  lemma {:induction false} TrimStartEmptyIff(s: string, k: Space)
    ensures TrimStartBy(s, k) == [] <==> forall i :: 0 <= i < |s| ==> IsSpace(k, s[i])
  {
    if s != [] && IsSpace(k, s[0]) {
      TrimStartEmptyIff(s[1..], k);
      assert forall i :: 1 <= i < |s| ==> s[1..][i - 1] == s[i];
    }
  }

  lemma {:induction false} TrimStartFirst(s: string, k: Space)
    ensures TrimStartBy(s, k) == [] || !IsSpace(k, TrimStartBy(s, k)[0])
  {
    if s != [] && IsSpace(k, s[0]) {
      TrimStartFirst(s[1..], k);
    }
  }

  lemma {:induction false} TrimEndEmptyIff(s: string, k: Space)
    ensures TrimEndBy(s, k) == [] <==> forall i :: 0 <= i < |s| ==> IsSpace(k, s[i])
  {
    if s != [] && IsSpace(k, s[|s| - 1]) {
      TrimEndEmptyIff(s[..|s| - 1], k);
      assert forall i :: 0 <= i < |s| - 1 ==> s[..|s| - 1][i] == s[i];
    }
  }

  lemma TrimBothEmptyIff(s: string, k: Space)
    ensures TrimEndBy(TrimStartBy(s, k), k) == [] <==> forall i :: 0 <= i < |s| ==> IsSpace(k, s[i])
  {
    TrimStartEmptyIff(s, k);
    TrimStartFirst(s, k);
    TrimEndEmptyIff(TrimStartBy(s, k), k);
  }

  lemma PyStripEmptyIff(s: string)
    ensures PyStrip(s) == [] <==> IsPyBlank(s)
  {
    TrimBothEmptyIff(s, PySpace);
  }

  /** A right trim keeps a prefix of its input. */
  lemma {:induction false} TrimEndPrefix(s: string, k: Space)
    ensures |TrimEndBy(s, k)| <= |s| && TrimEndBy(s, k) == s[..|TrimEndBy(s, k)|]
  {
    if s != [] && IsSpace(k, s[|s| - 1]) {
      TrimEndPrefix(s[..|s| - 1], k);
    }
  }

  /** A right trim makes a line blank exactly when it was blank, and never leaves white space at its end. */
  lemma {:induction false} PyRStripBlankIff(s: string)
    ensures IsPyBlank(PyRStrip(s)) <==> IsPyBlank(s)
    ensures PyRStrip(s) == [] || !IsPyWhiteSpace(PyRStrip(s)[|PyRStrip(s)| - 1])
  {
    if s != [] && IsPyWhiteSpace(s[|s| - 1]) {
      PyRStripBlankIff(s[..|s| - 1]);
      assert forall i :: 0 <= i < |s| - 1 ==> s[..|s| - 1][i] == s[i];
    }
  }

  lemma TrimEmptyIff(s: string)
    ensures Trim(s) == [] <==> IsBlank(s)
  {
    TrimBothEmptyIff(s, DotNetSpace);
  }

  // ---------------------------------------------------------------------
  // Decimal numbers
  // ---------------------------------------------------------------------

  const INT32_MIN: int := -0x8000_0000
  const INT32_MAX: int := 0x7FFF_FFFF

  predicate IsInt32(n: int) { INT32_MIN <= n <= INT32_MAX }

  /** Two's-complement wrap-around of C#'s unchecked 32-bit arithmetic. */
  function Wrap32(n: int): (r: int)
    ensures IsInt32(r)
    ensures IsInt32(n) ==> r == n
    ensures (r - n) % 0x1_0000_0000 == 0
  {
    var m := (n - INT32_MIN) % 0x1_0000_0000;
    m + INT32_MIN
  }

  predicate AllDigits(s: string) { forall i :: 0 <= i < |s| ==> IsDigit(s[i]) }

  function DigitsValue(s: string): (v: nat)
    requires AllDigits(s)
  {
    if s == [] then 0 else DigitsValue(s[..|s| - 1]) * 10 + (s[|s| - 1] as int - '0' as int)
  }

  function NatToString(n: nat): (s: string)
    ensures |s| >= 1 && AllDigits(s)
    ensures n > 0 ==> s[0] != '0'
    decreases n
  {
    if n < 10 then [('0' as int + n) as char] else NatToString(n / 10) + [('0' as int + n % 10) as char]
  }

  /** Int32.ToString() under the invariant culture. */
  function IntToString(n: int): string
  {
    if n < 0 then "-" + NatToString(-n) else NatToString(n)
  }

  function Zeros(k: nat): (z: string)
    ensures |z| == k && forall i :: 0 <= i < k ==> z[i] == '0'
  {
    if k == 0 then [] else "0" + Zeros(k - 1)
  }

  /** Int32.ToString("D4"): at least four digits, zero-padded, sign in front. */
  function FormatD4(n: int): (s: string)
  {
    var digits := NatToString(if n < 0 then -n else n);
    var padded := if |digits| < 4 then Zeros(4 - |digits|) + digits else digits;
    if n < 0 then "-" + padded else padded
  }

  lemma {:induction false} DigitsOfNat(n: nat)
    ensures DigitsValue(NatToString(n)) == n
    decreases n
  {
    var s := NatToString(n);
    if n >= 10 {
      DigitsOfNat(n / 10);
      assert s[..|s| - 1] == NatToString(n / 10);
    }
  }

  /** The grammar of Int32.TryParse with NumberStyles.Integer: white space, an optional sign, digits, white space. */
  function ParseInt32(s: string): (r: Option<int>)
    ensures r.Some? ==> IsInt32(r.value)
  {
    var t := TrimEndBy(TrimStartBy(s, NumberSpace), NumberSpace);
    var neg := |t| > 0 && t[0] == '-';
    var body := if |t| > 0 && (t[0] == '-' || t[0] == '+') then t[1..] else t;
    if body == [] || !AllDigits(body) then None
    else
      var v: int := if neg then 0 - DigitsValue(body) as int else DigitsValue(body) as int;
      if IsInt32(v) then Some(v)
      else None
  }

  lemma NumberWhiteNotDigit(c: char)
    ensures IsNumberWhite(c) ==> !IsDigit(c)
  {
  }

  lemma TrimNumberWhiteNoop(s: string)
    requires s == [] || (!IsNumberWhite(s[0]) && !IsNumberWhite(s[|s| - 1]))
    ensures TrimEndBy(TrimStartBy(s, NumberSpace), NumberSpace) == s
  {
  }

  /** A run of digits worth |n|, with a minus sign in front when n is negative, parses back to n. */
  lemma SignedDigitsParse(digits: string, n: int)
    requires IsInt32(n) && |digits| > 0 && AllDigits(digits) && DigitsValue(digits) == (if n < 0 then -n else n)
    ensures ParseInt32(if n < 0 then "-" + digits else digits) == Some(n)
  {
    var s := if n < 0 then "-" + digits else digits;
    NumberWhiteNotDigit(digits[|digits| - 1]);
    NumberWhiteNotDigit(digits[0]);
    assert s[|s| - 1] == digits[|digits| - 1];
    TrimNumberWhiteNoop(s);
    if n < 0 {
      assert s[1..] == digits;
    }
  }

  /** Printing a 32-bit integer and parsing it back gives the same integer. */
  lemma IntToStringParses(n: int)
    requires IsInt32(n)
    ensures ParseInt32(IntToString(n)) == Some(n)
  {
    var s := IntToString(n);
    var digits := NatToString(if n < 0 then -n else n);
    DigitsOfNat(if n < 0 then -n else n);
    TrimNumberWhiteNoop(s);
    if n < 0 {
      assert s[1..] == digits;
    }
  }

  lemma NatToStringNoMinus(n: nat)
    ensures forall i :: 0 <= i < |NatToString(n)| ==> NatToString(n)[i] != '-'
  {
  }

  // ---------------------------------------------------------------------
  // Joining and splitting
  // ---------------------------------------------------------------------

  /** String.Join / str.join. */
  function Join(xs: seq<string>, sep: string): (r: string)
  {
    if xs == [] then "" else if |xs| == 1 then xs[0] else xs[0] + sep + Join(xs[1..], sep)
  }

  /** String.Split(seps, StringSplitOptions.RemoveEmptyEntries) for single-character separators. */
  function SplitCharsRemoveEmpty(s: string, seps: set<char>): (r: seq<string>)
    ensures forall k :: 0 <= k < |r| ==> r[k] != [] && forall j :: 0 <= j < |r[k]| ==> r[k][j] !in seps
  {
    SplitCharsFrom(s, seps, [])
  }

  function SplitCharsFrom(s: string, seps: set<char>, cur: string): (r: seq<string>)
    requires forall j :: 0 <= j < |cur| ==> cur[j] !in seps
    ensures forall k :: 0 <= k < |r| ==> r[k] != [] && forall j :: 0 <= j < |r[k]| ==> r[k][j] !in seps
    decreases |s|
  {
    if s == [] then (if cur == [] then [] else [cur])
    else if s[0] in seps then (if cur == [] then [] else [cur]) + SplitCharsFrom(s[1..], seps, [])
    else SplitCharsFrom(s[1..], seps, cur + [s[0]])
  }

  /** String.Split(new[] { sep }, StringSplitOptions.RemoveEmptyEntries) for a string separator. */
  function SplitStringRemoveEmpty(s: string, sep: string): (r: seq<string>)
    requires |sep| > 0
    ensures forall k :: 0 <= k < |r| ==> r[k] != []
  {
    SplitStringFrom(s, sep, [])
  }

  function SplitStringFrom(s: string, sep: string, cur: string): (r: seq<string>)
    requires |sep| > 0
    ensures forall k :: 0 <= k < |r| ==> r[k] != []
    decreases |s|
  {
    if s == [] then (if cur == [] then [] else [cur])
    else if StartsWith(s, sep) then (if cur == [] then [] else [cur]) + SplitStringFrom(s[|sep|..], sep, [])
    else SplitStringFrom(s[1..], sep, cur + [s[0]])
  }

  /** Python str.split(sep) (no pieces dropped): k separators give k + 1 pieces. */
  function PySplitChar(s: string, sep: char): (r: seq<string>)
    ensures |r| >= 1
    ensures forall k :: 0 <= k < |r| ==> forall j :: 0 <= j < |r[k]| ==> r[k][j] != sep
  {
    PySplitCharFrom(s, sep, [])
  }

  function PySplitCharFrom(s: string, sep: char, cur: string): (r: seq<string>)
    requires forall j :: 0 <= j < |cur| ==> cur[j] != sep
    ensures |r| >= 1
    ensures forall k :: 0 <= k < |r| ==> forall j :: 0 <= j < |r[k]| ==> r[k][j] != sep
    decreases |s|
  {
    if s == [] then [cur]
    else if s[0] == sep then [cur] + PySplitCharFrom(s[1..], sep, [])
    else PySplitCharFrom(s[1..], sep, cur + [s[0]])
  }

  lemma {:induction false} SplitFromNoSep(a: string, rest: string, sep: char, cur: string)
    requires forall j :: 0 <= j < |cur| ==> cur[j] != sep
    requires forall j :: 0 <= j < |a| ==> a[j] != sep
    ensures PySplitCharFrom(a + rest, sep, cur) == PySplitCharFrom(rest, sep, cur + a)
    decreases |a|
  {
    if a == [] {
      assert a + rest == rest && cur + a == cur;
    } else {
      assert (a + rest)[0] == a[0] && (a + rest)[1..] == a[1..] + rest;
      assert cur + a == (cur + [a[0]]) + a[1..];
      SplitFromNoSep(a[1..], rest, sep, cur + [a[0]]);
    }
  }

  /** Splitting a join on a separator that none of the pieces contains gives the pieces back. */
  lemma {:induction false} SplitJoin(xs: seq<string>, sep: char)
    requires |xs| >= 1
    requires forall k :: 0 <= k < |xs| ==> forall j :: 0 <= j < |xs[k]| ==> xs[k][j] != sep
    ensures PySplitChar(Join(xs, [sep]), sep) == xs
  {
    if |xs| == 1 {
      SplitFromNoSep(xs[0], [], sep, []);
      assert xs[0] + [] == xs[0] && [] + xs[0] == xs[0];
      assert xs == [xs[0]];
    } else {
      var tail := Join(xs[1..], [sep]);
      assert Join(xs, [sep]) == xs[0] + ([sep] + tail);
      SplitFromNoSep(xs[0], [sep] + tail, sep, []);
      assert [] + xs[0] == xs[0];
      assert ([sep] + tail)[0] == sep && ([sep] + tail)[1..] == tail;
      assert PySplitCharFrom([sep] + tail, sep, xs[0]) == [xs[0]] + PySplitCharFrom(tail, sep, []);
      SplitJoin(xs[1..], sep);
      assert xs == [xs[0]] + xs[1..];
    }
  }

  function CountChar(s: string, c: char): (n: nat)
    ensures n <= |s|
  {
    if s == [] then 0 else (if s[0] == c then 1 else 0) + CountChar(s[1..], c)
  }

  // ---------------------------------------------------------------------
  // str.splitlines
  // ---------------------------------------------------------------------

  /** The line boundaries recognised by Python's str.splitlines. */
  predicate IsLineBoundary(c: char)
  {
    c == '\n' || c == '\r' || c == '\U{000B}' || c == '\U{000C}' || ('\U{001C}' <= c <= '\U{001E}')
    || c == '\U{0085}' || c == '\U{2028}' || c == '\U{2029}'
  }

  function SplitLines(text: string): (lines: seq<string>)
    ensures forall i :: 0 <= i < |lines| ==> forall j :: 0 <= j < |lines[i]| ==> !IsLineBoundary(lines[i][j])
  {
    LinesFrom(text, [])
  }

  function LinesFrom(s: string, cur: string): (lines: seq<string>)
    requires forall j :: 0 <= j < |cur| ==> !IsLineBoundary(cur[j])
    ensures forall i :: 0 <= i < |lines| ==> forall j :: 0 <= j < |lines[i]| ==> !IsLineBoundary(lines[i][j])
    decreases |s|
  {
    if s == [] then (if cur == [] then [] else [cur])
    else if s[0] == '\r' && |s| > 1 && s[1] == '\n' then [cur] + LinesFrom(s[2..], [])
    else if IsLineBoundary(s[0]) then [cur] + LinesFrom(s[1..], [])
    else LinesFrom(s[1..], cur + [s[0]])
  }

  lemma {:induction false} CountCharConcat(a: string, b: string, c: char)
    ensures CountChar(a + b, c) == CountChar(a, c) + CountChar(b, c)
  {
    if a == [] {
      assert a + b == b;
    } else {
      assert (a + b)[0] == a[0] && (a + b)[1..] == a[1..] + b;
      CountCharConcat(a[1..], b, c);
    }
  }

  lemma {:induction false} NewlinesBoundLines(s: string, cur: string)
    requires forall j :: 0 <= j < |cur| ==> !IsLineBoundary(cur[j])
    ensures CountChar(s, '\n') <= |LinesFrom(s, cur)|
    decreases |s|
  {
    if s == [] {
    } else if s[0] == '\r' && |s| > 1 && s[1] == '\n' {
      assert s[1..][1..] == s[2..];
      NewlinesBoundLines(s[2..], []);
    } else if IsLineBoundary(s[0]) {
      NewlinesBoundLines(s[1..], []);
    } else {
      NewlinesBoundLines(s[1..], cur + [s[0]]);
    }
  }

  /** text.count("\n", 0, pos) + 1: the 1-based line of position pos. */
  function LineNumber(text: string, pos: nat): nat
    requires pos <= |text|
  {
    CountChar(text[..pos], '\n') + 1
  }

  /** Python text.find(pat, start, end): the first index i >= start with the pattern inside [i, end), or -1. */
  function FindIn(text: string, pat: string, start: nat, end: nat): (r: int)
    ensures r == -1 || (start <= r && r + |pat| <= end && OccursAt(text, pat, r))
    ensures forall j :: start <= j && (r == -1 || j < r) && j + |pat| <= end ==> !OccursAt(text, pat, j)
    decreases |text| - start
  {
    if start + |pat| > end || start + |pat| > |text| then
      assert forall j :: start <= j && j + |pat| <= end ==> !OccursAt(text, pat, j);
      -1
    else if OccursAt(text, pat, start) then start
    else FindIn(text, pat, start + 1, end)
  }

  function BraceStep(c: char): int
  {
    if c == '{' then 1 else if c == '}' then -1 else 0
  }

  /** Opening braces minus closing braces. */
  function Depth(s: string): int
  {
    if s == [] then 0 else BraceStep(s[0]) + Depth(s[1..])
  }

  lemma {:induction false} DepthConcat(a: string, b: string)
    ensures Depth(a + b) == Depth(a) + Depth(b)
  {
    if a == [] {
      assert a + b == b;
    } else {
      assert (a + b)[0] == a[0] && (a + b)[1..] == a[1..] + b;
      DepthConcat(a[1..], b);
    }
  }

  lemma DepthSnoc(s: string, k: nat)
    requires k < |s|
    ensures Depth(s[..k + 1]) == Depth(s[..k]) + BraceStep(s[k])
  {
    assert s[..k + 1] == s[..k] + [s[k]];
    DepthConcat(s[..k], [s[k]]);
  }

  function CountNonBlank(pieces: seq<string>): (n: nat)
    ensures n <= |pieces|
  {
    if pieces == [] then 0 else (if PyStrip(pieces[0]) != [] then 1 else 0) + CountNonBlank(pieces[1..])
  }

  lemma {:induction false} AllNonBlankCounted(xs: seq<string>)
    requires forall k :: 0 <= k < |xs| ==> PyStrip(xs[k]) != []
    ensures CountNonBlank(xs) == |xs|
  {
    if xs != [] {
      AllNonBlankCounted(xs[1..]);
    }
  }

  /** The number of elements satisfying p (len([x for x in xs if p(x)])). */
  function Count<T>(xs: seq<T>, p: T -> bool): (n: nat)
    ensures n <= |xs|
  {
    if xs == [] then 0 else Count(xs[..|xs| - 1], p) + (if p(xs[|xs| - 1]) then 1 else 0)
  }

  lemma {:induction false} CountConcat<T>(a: seq<T>, b: seq<T>, p: T -> bool)
    ensures Count(a + b, p) == Count(a, p) + Count(b, p)
  {
    if b == [] {
      assert a + b == a;
    } else {
      assert (a + b)[..|a + b| - 1] == a + b[..|b| - 1];
      CountConcat(a, b[..|b| - 1], p);
    }
  }

  lemma {:induction false} CountPositive<T>(xs: seq<T>, p: T -> bool)
    ensures Count(xs, p) > 0 <==> exists i :: 0 <= i < |xs| && p(xs[i])
  {
    if xs != [] {
      var prefix := xs[..|xs| - 1];
      CountPositive(prefix, p);
      assert forall i :: 0 <= i < |prefix| ==> prefix[i] == xs[i];
    }
  }

  lemma {:induction false} CountAll<T>(xs: seq<T>, p: T -> bool)
    requires forall i :: 0 <= i < |xs| ==> p(xs[i])
    ensures Count(xs, p) == |xs|
  {
    if xs != [] {
      CountAll(xs[..|xs| - 1], p);
    }
  }

  lemma {:induction false} CountNone<T>(xs: seq<T>, p: T -> bool)
    requires forall i :: 0 <= i < |xs| ==> !p(xs[i])
    ensures Count(xs, p) == 0
  {
    if xs != [] {
      CountNone(xs[..|xs| - 1], p);
    }
  }

  /**
   * LINQ's Where: the elements that satisfy p, in input order, repeats kept.
   * Positions and WhereAtPositions say what that means index by index.
   */
  function Where<T>(xs: seq<T>, p: T -> bool): seq<T>
  {
    if xs == [] then [] else (if p(xs[0]) then [xs[0]] else []) + Where(xs[1..], p)
  }

  /** The positions from i on whose elements satisfy p, in ascending order. */
  function PositionsFrom<T>(xs: seq<T>, p: T -> bool, i: nat): (r: seq<nat>)
    requires i <= |xs|
    ensures |r| <= |xs| - i
    ensures forall k :: 0 <= k < |r| ==> i <= r[k] < |xs| && p(xs[r[k]])
    ensures forall k, l :: 0 <= k < l < |r| ==> r[k] < r[l]
    ensures forall j :: i <= j < |xs| && p(xs[j]) ==> j in r
    decreases |xs| - i
  {
    if i == |xs| then [] else (if p(xs[i]) then [i] else []) + PositionsFrom(xs, p, i + 1)
  }

  /** The positions of xs whose elements satisfy p, in ascending order. */
  function Positions<T>(xs: seq<T>, p: T -> bool): (r: seq<nat>)
    ensures |r| <= |xs|
    ensures forall k :: 0 <= k < |r| ==> r[k] < |xs| && p(xs[r[k]])
    ensures forall k, l :: 0 <= k < l < |r| ==> r[k] < r[l]
    ensures forall i :: 0 <= i < |xs| && p(xs[i]) ==> i in r
  {
    PositionsFrom(xs, p, 0)
  }

  lemma {:induction false} WhereFrom<T>(xs: seq<T>, p: T -> bool, i: nat)
    requires i <= |xs|
    ensures |Where(xs[i..], p)| == |PositionsFrom(xs, p, i)|
    ensures forall k :: 0 <= k < |PositionsFrom(xs, p, i)| ==> Where(xs[i..], p)[k] == xs[PositionsFrom(xs, p, i)[k]]
    decreases |xs| - i
  {
    if i < |xs| {
      assert xs[i..][0] == xs[i] && xs[i..][1..] == xs[i + 1..];
      WhereFrom(xs, p, i + 1);
      var w, ps := Where(xs[i + 1..], p), PositionsFrom(xs, p, i + 1);
      if p(xs[i]) {
        assert Where(xs[i..], p) == [xs[i]] + w;
        assert PositionsFrom(xs, p, i) == [i] + ps;
      } else {
        assert Where(xs[i..], p) == w;
        assert PositionsFrom(xs, p, i) == ps;
      }
    }
  }

  /** Where keeps exactly the elements at the ascending positions that satisfy p. */
  lemma WhereAtPositions<T>(xs: seq<T>, p: T -> bool)
    ensures |Where(xs, p)| == |Positions(xs, p)|
    ensures forall k :: 0 <= k < |Positions(xs, p)| ==> Where(xs, p)[k] == xs[Positions(xs, p)[k]]
  {
    assert xs[0..] == xs;
    WhereFrom(xs, p, 0);
  }

  /** Where over a concatenation is the concatenation of the two results. */
  lemma {:induction false} WhereConcat<T>(a: seq<T>, b: seq<T>, p: T -> bool)
    ensures Where(a + b, p) == Where(a, p) + Where(b, p)
  {
    if a == [] {
      assert a + b == b;
    } else {
      assert (a + b)[0] == a[0] && (a + b)[1..] == a[1..] + b;
      WhereConcat(a[1..], b, p);
    }
  }

  /** Some element satisfies p (any(p(x) for x in xs)). */
  ghost predicate ExistsIn<T>(xs: seq<T>, p: T -> bool)
  {
    exists i :: 0 <= i < |xs| && p(xs[i])
  }

  lemma ExistsInSnoc<T>(xs: seq<T>, p: T -> bool)
    requires xs != []
    ensures ExistsIn(xs, p) <==> ExistsIn(xs[..|xs| - 1], p) || p(xs[|xs| - 1])
  {
    var prefix := xs[..|xs| - 1];
    if ExistsIn(xs, p) && !p(xs[|xs| - 1]) {
      var i :| 0 <= i < |xs| && p(xs[i]);
      assert prefix[i] == xs[i];
    }
    if ExistsIn(prefix, p) {
      var i :| 0 <= i < |prefix| && p(prefix[i]);
      assert xs[i] == prefix[i];
    }
  }

  /** The elementwise image of a sequence, as a list comprehension computes it. */
  function MapSeq<A, B>(xs: seq<A>, f: A --> B): (r: seq<B>)
    requires forall i :: 0 <= i < |xs| ==> f.requires(xs[i])
    ensures |r| == |xs|
    ensures forall i :: 0 <= i < |xs| ==> r[i] == f(xs[i])
  {
    if xs == [] then [] else MapSeq(xs[..|xs| - 1], f) + [f(xs[|xs| - 1])]
  }

  lemma MapSeqSnoc<A, B>(xs: seq<A>, f: A --> B, i: nat)
    requires i < |xs|
    requires forall k :: 0 <= k < |xs| ==> f.requires(xs[k])
    ensures MapSeq(xs[..i + 1], f) == MapSeq(xs[..i], f) + [f(xs[i])]
  {
    assert xs[..i + 1][..i] == xs[..i];
  }

  lemma ExtendBySlice<T>(a: seq<T>, b: seq<T>, i: nat)
    requires i < |b|
    ensures a + b[..i + 1] == (a + b[..i]) + [b[i]]
  {
    assert b[..i + 1] == b[..i] + [b[i]];
  }

  lemma AppendAssoc<T>(a: seq<T>, b: seq<T>, c: seq<T>)
    ensures (a + b) + c == a + (b + c)
  {
  }

  /** One more element of a prefix. */
  lemma PrefixStep<T>(s: seq<T>, i: nat)
    requires i < |s|
    ensures s[..i + 1][..i] == s[..i] && s[..i + 1][i] == s[i] && |s[..i + 1]| == i + 1
  {
  }

  lemma PrefixWhole<T>(s: seq<T>)
    ensures s[..|s|] == s
  {
  }

  predicate Distinct<T(==)>(xs: seq<T>)
  {
    forall i, j :: 0 <= i < j < |xs| ==> xs[i] != xs[j]
  }

  /** Enumerable.Distinct (and the order of a HashSet filled without removals): first occurrences, in order. */
  function Dedup<T(==, !new)>(xs: seq<T>): (r: seq<T>)
    ensures Distinct(r)
    ensures forall x :: x in r <==> x in xs
    ensures |r| <= |xs|
  {
    if xs == [] then []
    else
      var rest := Dedup(xs[..|xs| - 1]);
      assert forall x :: x in xs <==> x in xs[..|xs| - 1] || x == xs[|xs| - 1];
      if xs[|xs| - 1] in rest then rest else rest + [xs[|xs| - 1]]
  }

  /** Adding one element: it is appended unless it is already there. */
  lemma DedupSnoc<T(!new)>(xs: seq<T>, x: T)
    ensures Dedup(xs + [x]) == if x in Dedup(xs) then Dedup(xs) else Dedup(xs) + [x]
  {
    assert (xs + [x])[..|xs|] == xs;
  }

  /** Without repetitions there is nothing to drop. */
  lemma {:induction false} DedupDistinct<T(!new)>(xs: seq<T>)
    requires Distinct(xs)
    ensures Dedup(xs) == xs
  {
    if xs != [] {
      var init := xs[..|xs| - 1];
      assert Distinct(init);
      DedupDistinct(init);
      assert xs[|xs| - 1] !in init;
      assert xs == init + [xs[|xs| - 1]];
    }
  }

  /** A common prefix cancels. */
  lemma PrefixCancel<T>(p: seq<T>, s1: seq<T>, s2: seq<T>)
    requires p + s1 == p + s2
    ensures s1 == s2
  {
    assert s1 == (p + s1)[|p|..];
    assert s2 == (p + s2)[|p|..];
  }

  /** Exactly one distinct element: the sequence is non-empty and constant. */
  lemma DedupSingleton<T(!new)>(xs: seq<T>)
    ensures |Dedup(xs)| == 1 <==> xs != [] && forall i :: 0 <= i < |xs| ==> xs[i] == xs[0]
  {
    var r := Dedup(xs);
    if |r| == 1 {
      assert xs[0] in r;
      forall i | 0 <= i < |xs| ensures xs[i] == xs[0] {
        assert xs[i] in r;
      }
    }
    if xs != [] && (forall i :: 0 <= i < |xs| ==> xs[i] == xs[0]) {
      assert xs[0] in r;
      if |r| >= 2 {
        assert r[0] in xs && r[1] in xs;
        assert r[0] != r[1];
      }
    }
  }

  // ---------------------------------------------------------------------
  // Dictionaries kept as their entries in enumeration order
  // ---------------------------------------------------------------------

  /** A dictionary holds each key once. */
  predicate KeysDistinct<K(==), V>(entries: seq<(K, V)>)
  {
    forall i, j :: 0 <= i < j < |entries| ==> entries[i].0 != entries[j].0
  }

  predicate HasKey<K(==), V>(entries: seq<(K, V)>, key: K)
  {
    exists i :: 0 <= i < |entries| && entries[i].0 == key
  }

  /** TryGetValue with a fallback: the value stored under the key, or the default. */
  function LookupOr<K(==), V>(entries: seq<(K, V)>, key: K, default: V): (r: V)
    ensures !HasKey(entries, key) ==> r == default
    ensures forall i :: 0 <= i < |entries| && entries[i].0 == key && (forall j :: 0 <= j < i ==> entries[j].0 != key)
              ==> r == entries[i].1
  {
    if entries == [] then default
    else if entries[0].0 == key then entries[0].1
    else
      assert forall i :: 1 <= i < |entries| ==> entries[1..][i - 1] == entries[i];
      LookupOr(entries[1..], key, default)
  }

  /** In a dictionary the value under a present key is the one of its only entry. */
  lemma LookupDistinct<K, V>(entries: seq<(K, V)>, key: K, default: V, i: nat)
    requires KeysDistinct(entries)
    requires i < |entries| && entries[i].0 == key
    ensures LookupOr(entries, key, default) == entries[i].1
  {
  }

  // ---------------------------------------------------------------------
  // Int32.Parse and splitting without empty pieces
  // ---------------------------------------------------------------------

  /** The text is an integer in the NumberStyles.Integer grammar, whatever its magnitude. */
  predicate IntegerSyntax(s: string)
  {
    var t := TrimEndBy(TrimStartBy(s, NumberSpace), NumberSpace);
    var body := if |t| > 0 && (t[0] == '-' || t[0] == '+') then t[1..] else t;
    body != [] && AllDigits(body)
  }

  /**
   * Int32.Parse: the value, or the name of the exception it throws
   * (OverflowException for a well-formed integer out of range, FormatException otherwise).
   */
  function IntParse(s: string): (r: Result<int, string>)
    ensures r.Ok? <==> ParseInt32(s).Some?
    ensures r.Ok? ==> ParseInt32(s) == Some(r.value)
    ensures r.Err? ==> r.error == (if IntegerSyntax(s) then "OverflowException" else "FormatException")
  {
    match ParseInt32(s)
    case Some(v) => Ok(v)
    case None => Err(if IntegerSyntax(s) then "OverflowException" else "FormatException")
  }

  predicate Free(s: string, c: char) { forall j :: 0 <= j < |s| ==> s[j] != c }

  lemma {:induction false} SplitCharsNoSep(a: string, rest: string, seps: set<char>, cur: string)
    requires forall j :: 0 <= j < |cur| ==> cur[j] !in seps
    requires forall j :: 0 <= j < |a| ==> a[j] !in seps
    ensures SplitCharsFrom(a + rest, seps, cur) == SplitCharsFrom(rest, seps, cur + a)
    decreases |a|
  {
    if a == [] {
      assert a + rest == rest && cur + a == cur;
    } else {
      assert (a + rest)[0] == a[0] && (a + rest)[1..] == a[1..] + rest;
      assert cur + a == (cur + [a[0]]) + a[1..];
      SplitCharsNoSep(a[1..], rest, seps, cur + [a[0]]);
    }
  }

  /** Splitting a join of non-empty, separator-free pieces, dropping empty pieces, gives the pieces back. */
  lemma {:induction false} SplitRemoveEmptyJoin(xs: seq<string>, sep: char)
    requires forall k :: 0 <= k < |xs| ==> xs[k] != [] && Free(xs[k], sep)
    ensures SplitCharsRemoveEmpty(Join(xs, [sep]), {sep}) == xs
  {
    if xs == [] {
    } else if |xs| == 1 {
      SplitCharsNoSep(xs[0], [], {sep}, []);
      assert xs[0] + [] == xs[0] && [] + xs[0] == xs[0];
      assert xs == [xs[0]];
    } else {
      var tail := Join(xs[1..], [sep]);
      assert Join(xs, [sep]) == xs[0] + ([sep] + tail);
      SplitCharsNoSep(xs[0], [sep] + tail, {sep}, []);
      assert [] + xs[0] == xs[0];
      assert ([sep] + tail)[0] == sep && ([sep] + tail)[1..] == tail;
      assert SplitCharsFrom([sep] + tail, {sep}, xs[0]) == [xs[0]] + SplitCharsFrom(tail, {sep}, []);
      SplitRemoveEmptyJoin(xs[1..], sep);
      assert xs == [xs[0]] + xs[1..];
    }
  }
}

/** Ascending enumeration of integer sets (the order of SortedSet<int> and OrderBy). */
module IntSets {
  predicate StrictlyIncreasing(xs: seq<int>)
  {
    forall i, j :: 0 <= i < j < |xs| ==> xs[i] < xs[j]
  }

  /** A non-empty set has an element (used wherever an element is picked with :|). */
  lemma HasElement(s: set<int>)
    requires |s| > 0
    ensures exists y :: y in s
  {
    if forall y :: y !in s { assert false; }
  }

  lemma {:induction false} MinExists(s: set<int>)
      requires |s| > 0
      ensures exists m :: m in s && forall x :: x in s ==> m <= x
      decreases |s|
    {
      HasElement(s);
      var y :| y in s;
      var rest := s - {y};
      if |rest| > 0 {
        MinExists(rest);
        var m :| m in rest && forall x :: x in rest ==> m <= x;
        var b := if y < m then y else m;
        forall x | x in s ensures b <= x {
          if x != y { assert x in rest; }
        }
        assert b in s;
      } else {
        forall x | x in s ensures y <= x {
          if x != y { assert false; }
        }
      }
    }

  function MinOf(s: set<int>): (m: int)
    requires |s| > 0
    ensures m in s && forall x :: x in s ==> m <= x
  {
    MinExists(s);
    var m :| m in s && forall x :: x in s ==> m <= x; m
  }

  /** A SortedSet<int> enumerated in ascending order. */
  function SortedOf(s: set<int>): (r: seq<int>)
    ensures StrictlyIncreasing(r)
    ensures forall x :: x in r <==> x in s
    ensures |r| == |s|
    decreases |s|
  {
    if |s| == 0 then []
    else
      var m := MinOf(s);
      var rest := SortedOf(s - {m});
      [m] + rest
  }

  /** Non-decreasing, stated step by step. */
  predicate Ascending(xs: seq<int>)
  {
    |xs| <= 1 || (xs[0] <= xs[1] && Ascending(xs[1..]))
  }

  lemma {:induction false} AscendingHeadMin(xs: seq<int>)
    requires Ascending(xs) && xs != []
    ensures forall y :: y in xs ==> xs[0] <= y
  {
    if |xs| > 1 {
      AscendingHeadMin(xs[1..]);
      assert forall y :: y in xs ==> y == xs[0] || y in xs[1..];
    }
  }

  function InsertSorted(x: int, xs: seq<int>): seq<int>
  {
    if xs == [] then [x]
    else if x <= xs[0] then [x] + xs
    else [xs[0]] + InsertSorted(x, xs[1..])
  }

  lemma {:induction false} InsertSortedFacts(x: int, xs: seq<int>)
    requires Ascending(xs)
    ensures Ascending(InsertSorted(x, xs))
    ensures multiset(InsertSorted(x, xs)) == multiset(xs) + multiset{x}
    ensures InsertSorted(x, xs)[0] == (if xs == [] || x <= xs[0] then x else xs[0])
  {
    if xs != [] && x > xs[0] {
      var rest := InsertSorted(x, xs[1..]);
      InsertSortedFacts(x, xs[1..]);
      assert xs == [xs[0]] + xs[1..];
      assert ([xs[0]] + rest)[1..] == rest;
      assert multiset([xs[0]] + rest) == multiset{xs[0]} + multiset(rest);
    } else if xs != [] {
      assert ([x] + xs)[1..] == xs;
    }
  }

  /** Enumerable.OrderBy(i => i) on integers. */
  function SortInts(xs: seq<int>): seq<int>
  {
    if xs == [] then [] else InsertSorted(xs[|xs| - 1], SortInts(xs[..|xs| - 1]))
  }

  /** The sorted sequence is ascending and a permutation of the input. */
  lemma {:induction false} SortIntsFacts(xs: seq<int>)
    ensures Ascending(SortInts(xs))
    ensures multiset(SortInts(xs)) == multiset(xs)
  {
    if xs != [] {
      var init, last := xs[..|xs| - 1], xs[|xs| - 1];
      SortIntsFacts(init);
      InsertSortedFacts(last, SortInts(init));
      assert SortInts(xs) == InsertSorted(last, SortInts(init));
      assert multiset(xs) == multiset(init) + multiset{last} by { assert xs == init + [last]; }
    }
  }

  /** An ascending arrangement of a multiset is unique. */
  lemma {:induction false} AscendingUnique(a: seq<int>, b: seq<int>)
    requires Ascending(a) && Ascending(b)
    requires multiset(a) == multiset(b)
    ensures a == b
    decreases |a|
  {
    if a != [] {
      assert |b| == |multiset(b)| == |multiset(a)| == |a|;
      AscendingHeadsEqual(a, b);
      TailMultiset(a);
      TailMultiset(b);
      AscendingUnique(a[1..], b[1..]);
    }
  }

  /** Two ascending arrangements of one multiset start with its least element. */
  lemma AscendingHeadsEqual(a: seq<int>, b: seq<int>)
    requires Ascending(a) && Ascending(b) && a != [] && b != []
    requires multiset(a) == multiset(b)
    ensures a[0] == b[0]
  {
    AscendingHeadMin(a);
    AscendingHeadMin(b);
    assert a[0] in multiset(b) && b[0] in multiset(a);
    assert a[0] in b && b[0] in a;
  }

  lemma TailMultiset(a: seq<int>)
    requires a != []
    ensures multiset(a[1..]) == multiset(a) - multiset{a[0]}
  {
    assert a == [a[0]] + a[1..];
  }

  lemma {:induction false} StrictlyIncreasingAscending(g: seq<int>)
    requires StrictlyIncreasing(g)
    ensures Ascending(g)
  {
    if |g| > 1 {
      var rest := g[1..];
      forall i, j | 0 <= i < j < |rest| ensures rest[i] < rest[j] {
        assert rest[i] == g[i + 1] && rest[j] == g[j + 1];
      }
      StrictlyIncreasingAscending(rest);
    }
  }

  /** A group in ascending order is its own sorted order. */
  lemma SortFixed(g: seq<int>)
    requires StrictlyIncreasing(g)
    ensures SortInts(g) == g
  {
    SortIntsFacts(g);
    StrictlyIncreasingAscending(g);
    AscendingUnique(SortInts(g), g);
  }
}

/** Python's ordering of str values (and .NET ordinal ordering): lexicographic by code point. */
module StringOrder {
  predicate Less(a: string, b: string)
    decreases |a|
  {
    if a == [] then b != []
    else if b == [] then false
    else if a[0] != b[0] then a[0] < b[0]
    else Less(a[1..], b[1..])
  }

  lemma {:induction false} LessIrreflexive(a: string)
    ensures !Less(a, a)
    decreases |a|
  {
    if a != [] {
      LessIrreflexive(a[1..]);
    }
  }

  lemma {:induction false} LessTransitive(a: string, b: string, c: string)
    requires Less(a, b) && Less(b, c)
    ensures Less(a, c)
    decreases |a|
  {
    if a != [] && b != [] && c != [] && a[0] == b[0] && b[0] == c[0] {
      LessTransitive(a[1..], b[1..], c[1..]);
    }
  }

  lemma {:induction false} LessTotal(a: string, b: string)
    requires a != b
    ensures Less(a, b) || Less(b, a)
    decreases |a|
  {
    if a != [] && b != [] && a[0] == b[0] {
      assert a == [a[0]] + a[1..] && b == [b[0]] + b[1..];
      LessTotal(a[1..], b[1..]);
    }
  }

  lemma HasElement(s: set<string>)
    requires |s| > 0
    ensures exists y :: y in s
  {
    if forall y :: y !in s { assert false; }
  }

  predicate IsMin(s: set<string>, m: string)
  {
    m in s && forall x :: x in s && x != m ==> Less(m, x)
  }

  lemma {:induction false} MinExists(s: set<string>)
    requires |s| > 0
    ensures exists m :: IsMin(s, m)
    decreases |s|
  {
    HasElement(s);
    var y :| y in s;
    var rest := s - {y};
    if |rest| > 0 {
      MinExists(rest);
      var m :| IsMin(rest, m);
      LessTotal(y, m);
      var b := if Less(y, m) then y else m;
      forall x | x in s && x != b ensures Less(b, x) {
        if x == y {
          assert b == m;
        } else if x == m {
          assert b == y;
        } else {
          assert x in rest;
          if b == y { LessTransitive(y, m, x); }
        }
      }
      assert IsMin(s, b);
    } else {
      assert s == {y};
      assert IsMin(s, y);
    }
  }

  lemma MinUnique(s: set<string>)
    ensures forall m1, m2 :: IsMin(s, m1) && IsMin(s, m2) ==> m1 == m2
  {
    forall m1, m2 | IsMin(s, m1) && IsMin(s, m2) ensures m1 == m2 {
      if m1 != m2 {
        LessTransitive(m1, m2, m1);
        LessIrreflexive(m1);
      }
    }
  }

  function MinOf(s: set<string>): (m: string)
    requires |s| > 0
    ensures m in s && forall x :: x in s && x != m ==> Less(m, x)
  {
    MinExists(s);
    MinUnique(s);
    var m :| IsMin(s, m); m
  }

  predicate StrictlySorted(xs: seq<string>)
  {
    forall i, j :: 0 <= i < j < |xs| ==> Less(xs[i], xs[j])
  }

  /** sorted(s) for a set of strings: its elements in ascending order, each once. */
  function SortedOf(s: set<string>): (r: seq<string>)
    ensures StrictlySorted(r)
    ensures forall x :: x in r <==> x in s
    ensures |r| == |s|
    decreases |s|
  {
    if |s| == 0 then []
    else
      var m := MinOf(s);
      var rest := SortedOf(s - {m});
      assert forall j :: 0 <= j < |rest| ==> Less(m, rest[j]) by {
        forall j | 0 <= j < |rest| ensures Less(m, rest[j]) {
          assert rest[j] in s - {m};
        }
      }
      [m] + rest
  }

  /** A strictly sorted sequence has no repeated element. */
  lemma SortedDistinct(xs: seq<string>)
    requires StrictlySorted(xs)
    ensures forall i, j :: 0 <= i < j < |xs| ==> xs[i] != xs[j]
  {
    forall i, j | 0 <= i < j < |xs| ensures xs[i] != xs[j] {
      if xs[i] == xs[j] { LessIrreflexive(xs[i]); }
    }
  }
}

/** A dictionary of lists filled by appending one (key, value) pair at a time, as a defaultdict(list) is, with
    the order in which its keys were first met (the dictionary's iteration order). */
module Grouping {
  import opened Common

  function Group<K(==), V>(ps: seq<(K, V)>): map<K, seq<V>>
  {
    if ps == [] then map[]
    else
      var g := Group(ps[..|ps| - 1]);
      var p := ps[|ps| - 1];
      g[p.0 := (if p.0 in g then g[p.0] else []) + [p.1]]
  }

  function FirstSeen<K(==), V>(ps: seq<(K, V)>): seq<K>
  {
    if ps == [] then []
    else
      var order := FirstSeen(ps[..|ps| - 1]);
      var k := ps[|ps| - 1].0;
      if k in order then order else order + [k]
  }

  /** The values paired with k, in order: the independent description of Group. */
  function ValuesOf<K(==), V>(ps: seq<(K, V)>, k: K): seq<V>
  {
    if ps == [] then []
    else ValuesOf(ps[..|ps| - 1], k) + (if ps[|ps| - 1].0 == k then [ps[|ps| - 1].1] else [])
  }

  lemma GroupSnoc<K, V>(ps: seq<(K, V)>, p: (K, V))
    ensures Group(ps + [p]) == Group(ps)[p.0 := (if p.0 in Group(ps) then Group(ps)[p.0] else []) + [p.1]]
    ensures FirstSeen(ps + [p]) == if p.0 in FirstSeen(ps) then FirstSeen(ps) else FirstSeen(ps) + [p.0]
  {
    assert (ps + [p])[..|ps|] == ps;
  }

  lemma {:induction false} GroupIsValues<K, V>(ps: seq<(K, V)>)
    ensures forall k :: k in Group(ps) <==> ValuesOf(ps, k) != []
    ensures forall k :: k in Group(ps) ==> Group(ps)[k] == ValuesOf(ps, k)
    ensures Distinct(FirstSeen(ps))
    ensures forall k :: k in FirstSeen(ps) <==> k in Group(ps)
  {
    if ps != [] {
      GroupIsValues(ps[..|ps| - 1]);
    }
  }

  /** GroupIsValues at one key. */
  lemma GroupAt<K, V>(ps: seq<(K, V)>, k: K)
    ensures k in Group(ps) <==> ValuesOf(ps, k) != []
    ensures k in Group(ps) ==> Group(ps)[k] == ValuesOf(ps, k) && k in FirstSeen(ps)
  {
    GroupIsValues(ps);
  }

  /** Every value grouped under k was paired with k. */
  lemma {:induction false} ValuesOfPaired<K, V>(ps: seq<(K, V)>, k: K, v: V)
    requires v in ValuesOf(ps, k)
    ensures (k, v) in ps
  {
    var prefix := ps[..|ps| - 1];
    if v in ValuesOf(prefix, k) {
      ValuesOfPaired(prefix, k, v);
      assert (k, v) in prefix;
    } else {
      assert ps[|ps| - 1] == (k, v);
    }
  }

  /** Every pair contributes its value to its key. */
  lemma {:induction false} PairedInValues<K, V>(ps: seq<(K, V)>, i: nat)
    requires i < |ps|
    ensures ps[i].1 in ValuesOf(ps, ps[i].0)
  {
    var prefix := ps[..|ps| - 1];
    if i < |ps| - 1 {
      PairedInValues(prefix, i);
      assert prefix[i] == ps[i];
    }
  }
}
