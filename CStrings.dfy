/**
 * The libc string and number routines that term.c, socket.c and imfunctions.c
 * rely on, stated over Dafny strings: a C string is the part of a buffer
 * before its first NUL, `strstr` finds the first occurrence, `strtol` with
 * base 0 reads an optional sign and a decimal, octal or hexadecimal number,
 * and `snprintf` prints integers in decimal. Fixed-width C integers are
 * written out as explicit wrap-around functions.
 */
module CStrings {

  datatype Option<T> = None | Some(value: T)

  const NUL: char := 0 as char

  /*************************** C strings ***************************/

  /** The length of the C string held by a buffer: the index of its first NUL. */
  function NulIndex(s: string): (n: nat)
    ensures n <= |s|
    ensures forall i :: 0 <= i < n ==> s[i] != NUL
    ensures n < |s| ==> s[n] == NUL
  {
    if s == [] || s[0] == NUL then 0 else 1 + NulIndex(s[1..])
  }

  /** The C string held by a buffer: everything before the first NUL. */
  function CStr(s: string): (r: string)
    ensures |r| <= |s| && r == s[..|r|]
    ensures NUL !in r
    ensures |r| < |s| ==> s[|r|] == NUL
  {
    s[..NulIndex(s)]
  }

  /** A prefix without NUL does not shorten the C string that follows it. */
  lemma {:induction false} CStrAppend(a: string, b: string)
    requires NUL !in a
    ensures CStr(a + b) == a + CStr(b)
  {
    NulIndexAppend(a, b);
    assert (a + b)[..|a| + NulIndex(b)] == a + b[..NulIndex(b)];
  }

  lemma {:induction false} NulIndexAppend(a: string, b: string)
    requires NUL !in a
    ensures NulIndex(a + b) == |a| + NulIndex(b)
  {
    if a == [] {
      assert a + b == b;
    } else {
      var s := a + b;
      assert s[0] == a[0] && a[0] != NUL;
      assert s[1..] == a[1..] + b;
      NulIndexAppend(a[1..], b);
    }
  }

  lemma AppendAssoc(a: string, b: string, c: string)
    ensures (a + b) + c == a + (b + c)
  {
  }

  /** `p` occurs in `s` starting at index `i`. */
  predicate OccursAt(s: string, p: string, i: nat)
  {
    i + |p| <= |s| && s[i..i + |p|] == p
  }

  function FindFrom(s: string, p: string, i: nat): (r: Option<nat>)
    requires i <= |s|
    decreases |s| - i
    ensures r.Some? ==> i <= r.value && OccursAt(s, p, r.value)
    ensures r.Some? ==> forall j: nat :: i <= j < r.value ==> !OccursAt(s, p, j)
    ensures r.None? ==> forall j: nat :: i <= j ==> !OccursAt(s, p, j)
  {
    if i + |p| > |s| then None
    else if s[i..i + |p|] == p then Some(i)
    else FindFrom(s, p, i + 1)
  }

  /** `strstr` on a string with no NUL: the index of the first occurrence of `p`. */
  function Find(s: string, p: string): (r: Option<nat>)
    ensures r.Some? ==> OccursAt(s, p, r.value)
    ensures r.Some? ==> forall j: nat :: j < r.value ==> !OccursAt(s, p, j)
    ensures r.None? ==> forall j: nat :: !OccursAt(s, p, j)
  {
    FindFrom(s, p, 0)
  }

  /** An occurrence with none before it is the one `Find` reports. */
  lemma FindFirst(s: string, p: string, k: nat)
    requires OccursAt(s, p, k)
    requires forall j: nat :: j < k ==> !OccursAt(s, p, j)
    ensures Find(s, p) == Some(k)
  {
  }

  /**
   * If the character `p[idx]` appears neither in `s[..k]` nor earlier in `p`,
   * then no occurrence of `p` can start before `k`.
   */
  lemma {:induction false} NoEarlierOccurrence(s: string, p: string, k: nat, idx: nat)
    requires k + idx <= |s| && idx < |p|
    requires p[idx] !in s[..k + idx]
    ensures forall j: nat :: j < k ==> !OccursAt(s, p, j)
  {
    forall j: nat | j < k && OccursAt(s, p, j)
      ensures false
    {
    }
  }

  /** Index of the last occurrence of `c` (`strrchr`). */
  function LastIndexOf(s: string, c: char): (r: Option<nat>)
    ensures r.Some? ==> r.value < |s| && s[r.value] == c && c !in s[r.value + 1..]
    ensures r.None? ==> c !in s
  {
    if s == [] then None
    else if s[|s| - 1] == c then Some(|s| - 1)
    else
      assert s == s[..|s| - 1] + [s[|s| - 1]];
      LastIndexOf(s[..|s| - 1], c)
  }

  /** Index of the first occurrence of `c` (`strchr`). */
  function IndexOf(s: string, c: char): (r: Option<nat>)
    ensures r.Some? ==> r.value < |s| && s[r.value] == c && c !in s[..r.value]
    ensures r.None? ==> c !in s
  {
    if s == [] then None
    else if s[0] == c then Some(0)
    else match IndexOf(s[1..], c)
      case None => None
      case Some(i) =>
        assert s[..i + 1] == [s[0]] + s[1..][..i];
        Some(i + 1)
  }

  /*************************** case-insensitive comparison ***************************/

  /** ASCII `tolower`. */
  function Lower(c: char): char
  {
    if 'A' <= c <= 'Z' then (c as int + 32) as char else c
  }

  /** A string with every letter lowered. */
  function LowerAll(s: string): (r: string)
    ensures |r| == |s|
  {
    if s == [] then [] else LowerAll(s[..|s| - 1]) + [Lower(s[|s| - 1])]
  }

  lemma {:induction false} LowerAllAt(s: string, i: nat)
    requires i < |s|
    ensures LowerAll(s)[i] == Lower(s[i])
    decreases |s|
  {
    if i < |s| - 1 {
      assert s[..|s| - 1][i] == s[i];
      LowerAllAt(s[..|s| - 1], i);
    }
  }

  /** `strcasecmp(a, b) == 0`: the two are equal once both are lowered. */
  predicate EqualsIgnoreCase(a: string, b: string): (r: bool)
    ensures r <==> LowerAll(a) == LowerAll(b)
  {
    LowersAgree(a, b, |a|);
    |a| == |b| && forall i :: 0 <= i < |a| ==> Lower(a[i]) == Lower(b[i])
  }

  /**
   * `strncasecmp(a, b, strlen(a)) == 0`: `a` is a case-insensitive prefix of
   * `b`; a longer `a` meets the NUL ending `b` and differs.
   */
  predicate PrefixIgnoreCase(a: string, b: string): (r: bool)
    ensures r <==> LowerAll(a) <= LowerAll(b)
  {
    LowersAgree(a, b, |a|);
    |a| <= |b| && forall i :: 0 <= i < |a| ==> Lower(a[i]) == Lower(b[i])
  }

  /** The first `n` letters agree up to case exactly when the lowered strings agree there. */
  lemma LowersAgree(a: string, b: string, n: nat)
    ensures n <= |a| && n <= |b| ==>
      ((forall i :: 0 <= i < n ==> Lower(a[i]) == Lower(b[i])) <==> LowerAll(a)[..n] == LowerAll(b)[..n])
  {
    if n <= |a| && n <= |b| {
      forall i | 0 <= i < n
        ensures LowerAll(a)[i] == Lower(a[i]) && LowerAll(b)[i] == Lower(b[i])
      {
        LowerAllAt(a, i);
        LowerAllAt(b, i);
      }
    }
  }

  /*************************** fixed-width integers ***************************/

  const TWO32: int := 0x1_0000_0000
  const TWO64: int := 0x1_0000_0000_0000_0000

  /** Conversion to a 32-bit `int` (two's complement wrap-around). */
  function Int32(v: int): (r: int)
    ensures -0x8000_0000 <= r < 0x8000_0000
    ensures -0x8000_0000 <= v < 0x8000_0000 ==> r == v
    ensures (r - v) % TWO32 == 0
  {
    (v + 0x8000_0000) % TWO32 - 0x8000_0000
  }

  /** Conversion of a `long` to `size_t`. */
  function SizeT(v: int): (r: nat)
    ensures r < TWO64
    ensures 0 <= v < TWO64 ==> r == v
    ensures (r - v) % TWO64 == 0
  {
    v % TWO64
  }

  /*************************** decimal output (snprintf) ***************************/

  predicate IsDigit(c: char) { '0' <= c <= '9' }

  function DigitChar(d: nat): (c: char)
    requires d < 10
    ensures IsDigit(c)
  {
    ('0' as int + d) as char
  }

  /** `%u` / `%zd` of a non-negative number. */
  function NatToDec(n: nat): (r: string)
    ensures |r| >= 1
    ensures forall c :: c in r ==> IsDigit(c)
    decreases n
  {
    if n < 10 then [DigitChar(n)] else NatToDec(n / 10) + [DigitChar(n % 10)]
  }

  /** `%i` / `%ld` of an integer. */
  function IntToDec(v: int): (r: string)
    ensures |r| >= 1
    ensures forall c :: c in r ==> IsDigit(c) || c == '-'
  {
    if v < 0 then "-" + NatToDec(-v) else NatToDec(v)
  }

  /** `%04d` of a non-negative number: zero-padded to at least four digits. */
  function Pad4(n: nat): (r: string)
    ensures |r| >= 4
    ensures n < 10000 ==> |r| == 4
    ensures forall c :: c in r ==> IsDigit(c)
  {
    var d := NatToDec(n);
    NatToDecLength(n);
    if |d| >= 4 then d else seq(4 - |d|, _ => '0') + d
  }

  lemma {:induction false} NatToDecLength(n: nat)
    ensures n < 10 <==> |NatToDec(n)| == 1
    ensures n < 100 ==> |NatToDec(n)| <= 2
    ensures n < 1000 ==> |NatToDec(n)| <= 3
    ensures n < 10000 ==> |NatToDec(n)| <= 4
    decreases n
  {
    if n >= 10 {
      NatToDecLength(n / 10);
    }
  }

  /** Leading zeros do not change the value of a decimal string. */
  lemma {:induction false} LeadingZerosValue(z: string, d: string)
    requires forall k :: 0 <= k < |z| ==> z[k] == '0'
    ensures DigitsValue(z + d, 10) == DigitsValue(d, 10)
    decreases |z| + |d|
  {
    if d == [] {
      assert z + d == z;
      if z != [] {
        LeadingZerosValue(z[..|z| - 1], []);
        assert z[..|z| - 1] + [] == z[..|z| - 1];
      }
    } else {
      assert (z + d)[..|z + d| - 1] == z + d[..|d| - 1];
      LeadingZerosValue(z, d[..|d| - 1]);
    }
  }

  /** `%04d` text reads back as the number printed, so distinct numbers print differently. */
  lemma Pad4Value(n: nat)
    requires n < 10000
    ensures DigitsValue(Pad4(n), 10) == n
  {
    NatToDecValue(n);
    NatToDecLength(n);
    var d := NatToDec(n);
    if |d| < 4 {
      LeadingZerosValue(seq(4 - |d|, _ => '0'), d);
    }
  }

  /** The first digit printed for a positive number is never '0'. */
  lemma {:induction false} NatToDecLeadingDigit(n: nat)
    requires n > 0
    ensures NatToDec(n)[0] != '0'
    decreases n
  {
    if n >= 10 {
      NatToDecLeadingDigit(n / 10);
    }
  }

  /*************************** numeric input (strtol) ***************************/

  /** `isspace` in the C locale. */
  predicate IsSpace(c: char)
  {
    c == ' ' || c == '\t' || c == '\n' || c == 11 as char || c == 12 as char || c == '\r'
  }

  /** Value of `c` as a digit in bases up to 36, or 36 if it is no digit. */
  function DigitValue(c: char): (d: nat)
    ensures d <= 36
  {
    if '0' <= c <= '9' then c as int - '0' as int
    else if 'a' <= c <= 'z' then c as int - 'a' as int + 10
    else if 'A' <= c <= 'Z' then c as int - 'A' as int + 10
    else 36
  }

  /** Length of the run of base-`base` digits starting at `i`. */
  function DigitRun(s: string, i: nat, base: nat): (n: nat)
    requires i <= |s|
    ensures i + n <= |s|
    ensures forall k :: i <= k < i + n ==> DigitValue(s[k]) < base
    ensures i + n < |s| ==> DigitValue(s[i + n]) >= base
    decreases |s| - i
  {
    if i < |s| && DigitValue(s[i]) < base then 1 + DigitRun(s, i + 1, base) else 0
  }

  /** Value of a string of digits read most significant first. */
  function DigitsValue(s: string, base: nat): int
  {
    if s == [] then 0
    else DigitsValue(s[..|s| - 1], base) * base + DigitValue(s[|s| - 1]) as int
  }

  function SkipSpaces(s: string, i: nat): (j: nat)
    requires i <= |s|
    ensures i <= j <= |s|
    decreases |s| - i
  {
    if i < |s| && IsSpace(s[i]) then SkipSpaces(s, i + 1) else i
  }

  /**
   * The unsigned part of `strtol` with base 0, read from index `j`: the value
   * and the index just past it (`j` itself when no digit follows). "0x" with
   * a hexadecimal digit after it selects base 16, any other leading '0'
   * base 8, and everything else base 10.
   */
  function ReadUnsigned(s: string, j: nat): (r: (int, nat))
    requires j <= |s|
    ensures j <= r.1 <= |s|
    ensures r.1 == j ==> r.0 == 0
  {
    var hex := j + 2 < |s| && s[j] == '0' && (s[j + 1] == 'x' || s[j + 1] == 'X')
               && DigitValue(s[j + 2]) < 16;
    var start := if hex then j + 2 else j;
    var base := if hex then 16 else if j < |s| && s[j] == '0' then 8 else 10;
    var n := DigitRun(s, start, base);
    if n == 0 then (0, j) else (DigitsValue(s[start..start + n], base), start + n)
  }

  /** The range of a 64-bit `long`. */
  const LONG_MIN: int := -0x8000_0000_0000_0000
  const LONG_MAX: int := 0x7fff_ffff_ffff_ffff

  predicate FitsLong(v: int)
  {
    LONG_MIN <= v <= LONG_MAX
  }

  /** `strtol` saturates: a value out of range is read as LONG_MIN or LONG_MAX. */
  function LongClamp(v: int): (r: int)
    ensures FitsLong(r)
    ensures FitsLong(v) ==> r == v
    ensures v > LONG_MAX ==> r == LONG_MAX
    ensures v < LONG_MIN ==> r == LONG_MIN
  {
    if v > LONG_MAX then LONG_MAX else if v < LONG_MIN then LONG_MIN else v
  }

  /**
   * `strtol(s, &end, 0)`: the value read and the number of characters
   * consumed (0 when no number was found, that is `end == s`). Leading white
   * space and one sign are skipped first.
   */
  function StrToL(s: string): (r: (int, nat))
    ensures r.1 <= |s|
    ensures r.1 == 0 ==> r.0 == 0
    ensures FitsLong(r.0)
  {
    var i := SkipSpaces(s, 0);
    var neg := i < |s| && s[i] == '-';
    var j := if i < |s| && (s[i] == '-' || s[i] == '+') then i + 1 else i;
    var (v, e) := ReadUnsigned(s, j);
    if e == j then (0, 0) else (LongClamp(if neg then -v else v), e)
  }

  /** Every digit of a printed number has its decimal value. */
  lemma {:induction false} NatToDecValue(n: nat)
    ensures forall k :: 0 <= k < |NatToDec(n)| ==> DigitValue(NatToDec(n)[k]) < 10
    ensures DigitsValue(NatToDec(n), 10) == n
    decreases n
  {
    if n >= 10 {
      NatToDecValue(n / 10);
      var d := NatToDec(n);
      assert d[..|d| - 1] == NatToDec(n / 10);
    }
  }

  /** A printed non-negative number followed by a newline is read back whole. */
  lemma ReadUnsignedDec(s: string, j: nat, m: nat)
    requires j + |NatToDec(m)| < |s|
    requires s[j..j + |NatToDec(m)|] == NatToDec(m) && s[j + |NatToDec(m)|] == '\n'
    ensures ReadUnsigned(s, j) == (m, j + |NatToDec(m)|)
  {
    var d := NatToDec(m);
    NatToDecValue(m);
    assert s[j] == d[0];
    if m > 0 {
      NatToDecLeadingDigit(m);
      DigitRunOver(s, j, d, 10);
    } else {
      assert d == "0";
      DigitRunOver(s, j, d, 8);
      assert s[j..j + 1] == d;
      assert DigitsValue(d, 8) == 0;
    }
  }

  /**
   * `strtol` reads back what `%i` printed, stopping at the newline after it;
   * a number beyond the range of a `long` saturates at its bound.
   */
  lemma StrToLDec(v: int, rest: string)
    requires rest != [] && rest[0] == '\n'
    ensures StrToL(IntToDec(v) + rest) == (LongClamp(v), |IntToDec(v)|)
  {
    if v < 0 {
      StrToLNegative(v, rest);
    } else {
      StrToLNonNegative(v, rest);
    }
  }

  lemma StrToLNonNegative(m: nat, rest: string)
    requires rest != [] && rest[0] == '\n'
    ensures StrToL(NatToDec(m) + rest) == (LongClamp(m), |NatToDec(m)|)
  {
    var d := NatToDec(m);
    var s := d + rest;
    assert s[0] == d[0] && d[0] in d;
    assert SkipSpaces(s, 0) == 0;
    assert s[0..|d|] == d;
    ReadUnsignedDec(s, 0, m);
  }

  lemma StrToLNegative(v: int, rest: string)
    requires v < 0
    requires rest != [] && rest[0] == '\n'
    ensures StrToL(IntToDec(v) + rest) == (LongClamp(v), |IntToDec(v)|)
  {
    var m: nat := -v;
    var d := NatToDec(m);
    var s := "-" + d + rest;
    assert IntToDec(v) + rest == s;
    assert SkipSpaces(s, 0) == 0;
    assert s[1..1 + |d|] == d;
    ReadUnsignedDec(s, 1, m);
  }

  /** A run of digits followed by a newline is read up to the newline. */
  lemma {:induction false} DigitRunOver(s: string, j: nat, d: string, base: nat)
    requires j + |d| < |s| && s[j..j + |d|] == d && s[j + |d|] == '\n'
    requires forall k :: 0 <= k < |d| ==> DigitValue(d[k]) < base
    requires base <= 36
    ensures DigitRun(s, j, base) == |d|
    decreases |d|
  {
    if d != [] {
      assert s[j + 1..j + 1 + |d[1..]|] == d[1..];
      DigitRunOver(s, j + 1, d[1..], base);
    }
  }
}
