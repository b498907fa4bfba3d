/** The PHP built-ins the pages rely on, as small specified functions over
    `string` (a `seq<char>`): trim, rtrim with one character, the `(int)` cast
    of a string, strpos, str_replace of a backslash, dirname, implode, and the
    truthiness of a string that the `?:` operator tests. */
module Php {

  datatype Option<T> = None | Some(value: T)

  /** `(string)($m[$k] ?? $default)`. */
  function StringParam(m: map<string, string>, k: string, default: string): string
  {
    if k in m then m[k] else default
  }

  /** `(int)($m[$k] ?? 0)`. */
  function IntParam(m: map<string, string>, k: string): int
  {
    if k in m then IntCast(m[k]) else 0
  }

  // ------------------------------------------------------------------
  // trim / rtrim
  // ------------------------------------------------------------------

  /** The characters `trim` strips by default: " \t\n\r\0\x0B". */
  predicate IsTrimChar(c: char)
  {
    c in {' ', '\t', '\n', '\r', '\0', '\U{000B}'}
  }

  predicate AllTrimChars(s: string)
  {
    forall i :: 0 <= i < |s| ==> IsTrimChar(s[i])
  }

  /** `ltrim($s)`: drops the longest prefix of trim characters. */
  function TrimLeft(s: string): string
  {
    if |s| > 0 && IsTrimChar(s[0]) then TrimLeft(s[1..]) else s
  }

  /** `ltrim` keeps a suffix of its input, drops trim characters only, and
      stops at the first character that is not one. */
  lemma {:induction false} TrimLeftShape(s: string)
    ensures var r := TrimLeft(s);
            && |r| <= |s| && r == s[|s| - |r|..]
            && AllTrimChars(s[..|s| - |r|])
            && (r == [] || !IsTrimChar(r[0]))
  {
    if |s| > 0 && IsTrimChar(s[0]) {
      TrimLeftShape(s[1..]);
      var r := TrimLeft(s);
      assert s[..|s| - |r|] == [s[0]] + s[1..][..|s| - 1 - |r|];
    }
  }

  /** `rtrim($s)`: drops the longest suffix of trim characters. */
  function TrimRight(s: string): string
  {
    if |s| > 0 && IsTrimChar(s[|s| - 1]) then TrimRight(s[..|s| - 1]) else s
  }

  /** `rtrim` keeps a prefix of its input, drops trim characters only, and
      stops at the last character that is not one. */
  lemma {:induction false} TrimRightShape(s: string)
    ensures var r := TrimRight(s);
            && |r| <= |s| && r == s[..|r|]
            && AllTrimChars(s[|r|..])
            && (r == [] || !IsTrimChar(r[|r| - 1]))
  {
    if |s| > 0 && IsTrimChar(s[|s| - 1]) {
      TrimRightShape(s[..|s| - 1]);
      var r := TrimRight(s);
      assert s[|r|..] == s[..|s| - 1][|r|..] + [s[|s| - 1]];
    }
  }

  /** `trim($s)`: both of the above; neither end of the result is a trim
      character. */
  function Trim(s: string): (r: string)
    ensures |r| <= |s|
    ensures r == [] || (!IsTrimChar(r[0]) && !IsTrimChar(r[|r| - 1]))
  {
    TrimLeftShape(s);
    TrimRightShape(TrimLeft(s));
    TrimRight(TrimLeft(s))
  }

  /** What `trim` removes consists of trim characters only: the result is
      the infix of `s` between a prefix and a suffix of trim characters. */
  lemma TrimStripsOnlyTrimChars(s: string)
    ensures var r := Trim(s);
            exists i :: 0 <= i <= |s| - |r| && r == s[i..i + |r|]
                        && AllTrimChars(s[..i]) && AllTrimChars(s[i + |r|..])
  {
    var l := TrimLeft(s);
    TrimLeftShape(s);
    var r := TrimRight(l);
    TrimRightShape(l);
    var i := |s| - |l|;
    assert r == s[i..i + |r|];
    assert s[i + |r|..] == l[|r|..];
  }

  lemma {:induction false} AllTrimCharsTrimLeft(s: string)
    requires AllTrimChars(s)
    ensures TrimLeft(s) == []
  {
    if |s| > 0 {
      AllTrimCharsTrimLeft(s[1..]);
    }
  }

  /** `trim` yields the empty string exactly when the input consists of trim
      characters only (so "   " counts as no search term). */
  lemma TrimEmptyIff(s: string)
    ensures Trim(s) == [] <==> AllTrimChars(s)
  {
    if AllTrimChars(s) {
      AllTrimCharsTrimLeft(s);
    } else {
      TrimLeftShape(s);
      TrimRightShape(TrimLeft(s));
    }
  }

  /** Trimming twice is trimming once. */
  lemma TrimIdempotent(s: string)
    ensures Trim(Trim(s)) == Trim(s)
  {
  }

  /** `rtrim($s, $c)` for a single character `c`. */
  function RTrimChar(s: string, c: char): (r: string)
    ensures |r| <= |s| && r == s[..|r|]
    ensures forall i :: |r| <= i < |s| ==> s[i] == c
    ensures r == [] || r[|r| - 1] != c
  {
    if |s| > 0 && s[|s| - 1] == c then RTrimChar(s[..|s| - 1], c) else s
  }

  // ------------------------------------------------------------------
  // str_replace('\\', '/', $s)
  // ------------------------------------------------------------------

  /** Every backslash becomes a slash; every other character is kept. */
  function ReplaceBackslashes(s: string): (r: string)
    ensures |r| == |s|
    ensures forall i :: 0 <= i < |s| ==> r[i] != '\\'
    ensures forall i :: 0 <= i < |s| && s[i] != '\\' ==> r[i] == s[i]
    ensures forall i :: 0 <= i < |s| && s[i] == '\\' ==> r[i] == '/'
  {
    seq(|s|, i requires 0 <= i < |s| => if s[i] == '\\' then '/' else s[i])
  }

  // ------------------------------------------------------------------
  // strpos / substr
  // ------------------------------------------------------------------

  /** `needle` occurs in `haystack` starting at index `i`. */
  predicate OccursAt(haystack: string, needle: string, i: int)
  {
    0 <= i && i + |needle| <= |haystack| && haystack[i..i + |needle|] == needle
  }

  /** `strpos($haystack, $needle)`: the index of the first occurrence, or
      `None` for PHP's `false`. */
  function StrPos(haystack: string, needle: string): (r: Option<nat>)
    ensures r.Some? ==> OccursAt(haystack, needle, r.value)
    ensures r.Some? ==> forall j :: 0 <= j < r.value ==> !OccursAt(haystack, needle, j)
    ensures r.None? ==> forall j :: !OccursAt(haystack, needle, j)
  {
    StrPosFrom(haystack, needle, 0)
  }

  function StrPosFrom(haystack: string, needle: string, k: nat): (r: Option<nat>)
    requires k <= |haystack|
    ensures r.Some? ==> k <= r.value && OccursAt(haystack, needle, r.value)
    ensures r.Some? ==> forall j :: k <= j < r.value ==> !OccursAt(haystack, needle, j)
    ensures r.None? ==> forall j :: k <= j ==> !OccursAt(haystack, needle, j)
    decreases |haystack| - k
  {
    if OccursAt(haystack, needle, k) then Some(k)
    else if k == |haystack| then None
    else StrPosFrom(haystack, needle, k + 1)
  }

  // ------------------------------------------------------------------
  // dirname
  // ------------------------------------------------------------------

  /** Drops the trailing run of characters that are not '/'. */
  function DropLastSegment(s: string): (r: string)
    ensures |r| <= |s| && r == s[..|r|]
    ensures forall i :: |r| <= i < |s| ==> s[i] != '/'
    ensures r == [] || r[|r| - 1] == '/'
  {
    if |s| > 0 && s[|s| - 1] != '/' then DropLastSegment(s[..|s| - 1]) else s
  }

  /** `dirname($path)` with '/' as the only separator: strip trailing
      slashes, strip the last segment, strip the slashes before it; a path
      of slashes only gives "/", a path without a slash gives ".", and the
      empty path gives the empty string. */
  function DirName(path: string): (r: string)
    ensures r == [] <==> path == []
    ensures r != "/" && r != "." && r != [] ==> |r| < |path| && r == path[..|r|] && r[|r| - 1] != '/'
  {
    if path == [] then []
    else
      var a := RTrimChar(path, '/');
      if a == [] then "/"
      else
        var b := DropLastSegment(a);
        if b == [] then "."
        else
          var c := RTrimChar(b, '/');
          if c == [] then "/" else c
  }

  /** A non-empty path segment: no slash, no backslash. */
  predicate PathSegment(p: string)
  {
    p != [] && forall i :: 0 <= i < |p| ==> p[i] != '/' && p[i] != '\\'
  }

  /** Appending a file name does not change what dropping the last segment
      leaves. */
  lemma {:induction false} DropSegment(a: string, f: string)
    requires PathSegment(f)
    ensures DropLastSegment(a + f) == DropLastSegment(a)
    decreases |f|
  {
    if |f| == 1 {
      assert (a + f)[..|a + f| - 1] == a;
    } else {
      assert (a + f)[..|a + f| - 1] == a + f[..|f| - 1];
      DropSegment(a, f[..|f| - 1]);
    }
  }

  /** The directory of `a + f`, where `f` is a file name and `a` is empty or
      ends with a slash: "." for a bare file name, otherwise `a` without its
      trailing slashes, or "/" when `a` is slashes only. */
  lemma DirNameOfFile(a: string, f: string)
    requires PathSegment(f)
    requires a == [] || a[|a| - 1] == '/'
    ensures DirName(a + f) == (if a == [] then "." else var c := RTrimChar(a, '/'); if c == [] then "/" else c)
  {
    var s := a + f;
    assert RTrimChar(s, '/') == s;
    DropSegment(a, f);
    assert DropLastSegment(a) == a;
  }

  // ------------------------------------------------------------------
  // implode
  // ------------------------------------------------------------------

  /** `implode($sep, $parts)`: the parts in order, `sep` between neighbours. */
  function Implode(sep: string, parts: seq<string>): (r: string)
    ensures parts == [] ==> r == ""
    ensures |parts| == 1 ==> r == parts[0]
    ensures parts != [] ==> |parts[0]| <= |r| && r[..|parts[0]|] == parts[0]
  {
    if |parts| == 0 then ""
    else if |parts| == 1 then parts[0]
    else parts[0] + sep + Implode(sep, parts[1..])
  }

  /** Appending a part to a non-empty list appends the separator and that
      part: the pieces are joined in list order, one separator between
      neighbours. */
  lemma {:induction false} ImplodeAppend(sep: string, parts: seq<string>, p: string)
    requires parts != []
    ensures Implode(sep, parts + [p]) == Implode(sep, parts) + sep + p
  {
    if |parts| > 1 {
      assert (parts + [p])[1..] == parts[1..] + [p];
      ImplodeAppend(sep, parts[1..], p);
    }
  }

  // ------------------------------------------------------------------
  // (int) cast of a string
  // ------------------------------------------------------------------

  const IntMax: int := 0x7FFF_FFFF_FFFF_FFFF
  const IntMin: int := -0x8000_0000_0000_0000

  predicate IsDigit(c: char)
  {
    '0' <= c <= '9'
  }

  predicate AllDigits(s: string)
  {
    forall i :: 0 <= i < |s| ==> IsDigit(s[i])
  }

  /** The whitespace a numeric string may start with. */
  predicate IsNumericSpace(c: char)
  {
    c in {' ', '\t', '\n', '\r', '\U{000B}', '\U{000C}'}
  }

  function SkipSpace(s: string): (r: string)
    ensures |r| <= |s| && r == s[|s| - |r|..]
    ensures r == [] || !IsNumericSpace(r[0])
    ensures forall i :: 0 <= i < |s| - |r| ==> IsNumericSpace(s[i])
  {
    if |s| > 0 && IsNumericSpace(s[0]) then SkipSpace(s[1..]) else s
  }

  /** The longest prefix of decimal digits. */
  function LeadingDigits(s: string): (r: string)
    ensures |r| <= |s| && r == s[..|r|] && AllDigits(r)
    ensures |r| == |s| || !IsDigit(s[|r|])
  {
    if |s| > 0 && IsDigit(s[0]) then [s[0]] + LeadingDigits(s[1..]) else []
  }

  function DigitsValue(ds: string): nat
    requires AllDigits(ds)
  {
    if ds == [] then 0
    else DigitsValue(ds[..|ds| - 1]) * 10 + (ds[|ds| - 1] as int - '0' as int)
  }

  /** Saturation at the bounds of a 64-bit PHP integer. */
  function Clamp(n: int): (r: int)
    ensures IntMin <= r <= IntMax
    ensures IntMin <= n <= IntMax ==> r == n
  {
    if n > IntMax then IntMax else if n < IntMin then IntMin else n
  }

  /** `(int)$s`: optional leading whitespace, an optional sign, then the
      leading decimal digits; text without leading digits gives 0. */
  function IntCast(s: string): (n: int)
    ensures IntMin <= n <= IntMax
  {
    var t := SkipSpace(s);
    if |t| > 0 && t[0] == '-' then Clamp(0 - DigitsValue(LeadingDigits(t[1..])) as int)
    else if |t| > 0 && t[0] == '+' then Clamp(DigitsValue(LeadingDigits(t[1..])))
    else Clamp(DigitsValue(LeadingDigits(t)))
  }

  /** The decimal text of a natural number, most significant digit first. */
  function DecimalString(n: nat): (s: string)
    ensures |s| > 0 && AllDigits(s)
  {
    if n < 10 then [('0' as int + n) as char]
    else DecimalString(n / 10) + [('0' as int + n % 10) as char]
  }

  lemma {:induction false} DigitsValueOfDecimal(n: nat)
    ensures DigitsValue(DecimalString(n)) == n
  {
    var s := DecimalString(n);
    if n >= 10 {
      DigitsValueOfDecimal(n / 10);
      assert s[..|s| - 1] == DecimalString(n / 10);
    } else {
      assert s[..|s| - 1] == [];
    }
  }

  lemma {:induction false} LeadingDigitsOfDigits(s: string)
    requires AllDigits(s)
    ensures LeadingDigits(s) == s
  {
    if |s| > 0 {
      LeadingDigitsOfDigits(s[1..]);
    }
  }

  /** Round trip: casting the decimal text of an integer in range gives the
      integer back (the ids that the pages put in their links). */
  lemma IntCastOfDecimal(n: nat)
    requires n <= IntMax
    ensures IntCast(DecimalString(n)) == n
  {
    var s := DecimalString(n);
    assert IsDigit(s[0]);
    assert !IsNumericSpace(s[0]) && s[0] != '-' && s[0] != '+';
    assert SkipSpace(s) == s;
    LeadingDigitsOfDigits(s);
    DigitsValueOfDecimal(n);
    assert IntCast(s) == Clamp(DigitsValue(s));
  }

  /** Text that holds no digit at all casts to 0 ("abc" becomes 0). */
  lemma IntCastNonNumeric(s: string)
    requires forall i :: 0 <= i < |s| ==> !IsDigit(s[i])
    ensures IntCast(s) == 0
  {
    var t := SkipSpace(s);
    assert forall i :: 0 <= i < |t| ==> t[i] == s[|s| - |t| + i];
  }
}
