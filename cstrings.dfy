/**
 * The C string helpers the menu code calls: Q_strncpy (a bounded copy in the
 * style of strlcpy), stricmp (comparison ignoring ASCII case) and atoi.
 * Their implementations live in the engine's shared library and are not part
 * of this model; each is defined here by the behaviour the menu relies on.
 */
module CStrings {

  const NUL: char := '\0'

  /** The text of a C string: the characters before its terminator. */
  type CStr = s: seq<char> | '\0' !in s

  function Min(a: int, b: int): int {
    if a < b then a else b
  }

  /** The C string held by a buffer: every character before its first NUL. */
  function TextOf(buf: seq<char>): (t: CStr)
    requires NUL in buf
    ensures |t| < |buf| && buf[|t|] == NUL && t == buf[..|t|]
  {
    if buf[0] == NUL then [] else [buf[0]] + TextOf(buf[1..])
  }

  /** A buffer holds exactly `t` when `t` is followed by a NUL. */
  lemma TextOfFollowedByNul(buf: seq<char>, t: CStr)
    requires |t| < |buf| && buf[|t|] == NUL && buf[..|t|] == t
    ensures NUL in buf && TextOf(buf) == t
  {
    assert buf[|t|] == NUL;
  }

  /**
   * The whole of a buffer after Q_strncpy(buf + off, src, size), one byte at a
   * time as the copy loop goes: while more than one byte of the bound is left
   * and src has characters, the next character is stored; then a NUL is. A
   * bound of 0 writes nothing.
   */
  function StrlcpyAt(buf: seq<char>, off: nat, src: CStr, size: nat): (r: seq<char>)
    requires off + size <= |buf|
    ensures |r| == |buf|
    decreases size
  {
    if size == 0 then buf
    else if size == 1 || src == [] then buf[off := NUL]
    else StrlcpyAt(buf[off := src[0]], off + 1, src[1..], size - 1)
  }

  /** The bytes of a buffer after Q_strncpy(buf, src, size). */
  function Strlcpy(buf: seq<char>, src: CStr, size: nat): (r: seq<char>)
    requires size <= |buf|
    ensures |r| == |buf|
  {
    StrlcpyAt(buf, 0, src, size)
  }

  /**
   * Byte by byte, a copy with a non-zero bound holds the first
   * min(|src|, size - 1) characters of src from off on, then one NUL, and
   * every other byte as it was.
   */
  lemma {:induction false} StrlcpyAtBytes(buf: seq<char>, off: nat, src: CStr, size: nat)
    requires 0 < size && off + size <= |buf|
    ensures forall j :: 0 <= j < |buf| ==>
      StrlcpyAt(buf, off, src, size)[j]
        == if off <= j < off + Min(|src|, size - 1) then src[j - off]
           else if j == off + Min(|src|, size - 1) then NUL
           else buf[j]
    decreases size
  {
    if size > 1 && src != [] {
      var next := buf[off := src[0]];
      StrlcpyAtBytes(next, off + 1, src[1..], size - 1);
      forall j | 0 <= j < |buf|
        ensures StrlcpyAt(buf, off, src, size)[j]
          == if off <= j < off + Min(|src|, size - 1) then src[j - off]
             else if j == off + Min(|src|, size - 1) then NUL
             else buf[j]
      {
        if off < j < off + Min(|src|, size - 1) {
          assert src[1..][j - (off + 1)] == src[j - off];
        }
      }
    }
  }

  /**
   * A copy with a non-zero bound always leaves a terminated string, which is
   * the source cut to size - 1 characters, and never touches the buffer
   * from index size on.
   */
  lemma StrlcpyText(buf: seq<char>, src: CStr, size: nat)
    requires 0 < size <= |buf|
    ensures NUL in Strlcpy(buf, src, size)[..size] && NUL in Strlcpy(buf, src, size)
    ensures TextOf(Strlcpy(buf, src, size)) == src[..Min(|src|, size - 1)]
    ensures Strlcpy(buf, src, size)[size..] == buf[size..]
  {
    var r := Strlcpy(buf, src, size);
    var k := Min(|src|, size - 1);
    StrlcpyAtBytes(buf, 0, src, size);
    assert r[k] == NUL && r[..k] == src[..k];
    assert r[..size][k] == NUL;
    TextOfFollowedByNul(r, src[..k]);
  }

  /** Seen through a window of w bytes at off, a copy there of bound size <= w is a plain Q_strncpy. */
  lemma CopiedSpan(buf: seq<char>, off: nat, w: nat, src: CStr, size: nat)
    requires 0 < size <= w && off + w <= |buf|
    ensures StrlcpyAt(buf, off, src, size)[off..off + w] == Strlcpy(buf[off..off + w], src, size)
  {
    var whole := StrlcpyAt(buf, off, src, size);
    var r := whole[off..off + w];
    var window := buf[off..off + w];
    var e := Strlcpy(window, src, size);
    var k := Min(|src|, size - 1);
    StrlcpyAtBytes(buf, off, src, size);
    StrlcpyAtBytes(window, 0, src, size);
    forall t | 0 <= t < w
      ensures r[t] == e[t]
    {
      assert r[t] == whole[off + t];
      assert e[t] == if t < k then src[t] else if t == k then NUL else window[t];
    }
  }

  /** A copy at off of bound size leaves every window that does not overlap [off, off + size) alone. */
  lemma UntouchedSpan(buf: seq<char>, off: nat, src: CStr, size: nat, off': nat, w: nat)
    requires 0 < size && off + size <= |buf| && off' + w <= |buf|
    requires off + size <= off' || off' + w <= off
    ensures StrlcpyAt(buf, off, src, size)[off'..off' + w] == buf[off'..off' + w]
  {
    var r := StrlcpyAt(buf, off, src, size)[off'..off' + w];
    var e := buf[off'..off' + w];
    StrlcpyAtBytes(buf, off, src, size);
    forall t | 0 <= t < w
      ensures r[t] == e[t]
    {
    }
  }

  /**
   * Q_strncpy(dst + off, src, size): copies at most size - 1 characters of
   * src into dst from index off on and always terminates the copy, leaving
   * every other byte of dst as it was.
   */
  method StrNCpy(dst: array<char>, off: nat, src: CStr, size: nat)
    requires off + size <= dst.Length
    modifies dst
    ensures dst[..] == StrlcpyAt(old(dst[..]), off, src, size)
  {
    if size == 0 {
      return;
    }
    var n := 0;
    assert src[n..] == src;
    while n < size - 1 && n < |src|
      invariant n <= size - 1 && n <= |src|
      invariant StrlcpyAt(dst[..], off + n, src[n..], size - n) == StrlcpyAt(old(dst[..]), off, src, size)
    {
      ghost var before := dst[..];
      dst[off + n] := src[n];
      assert dst[..] == before[off + n := src[n]];
      assert src[n..][1..] == src[n + 1..];
      n := n + 1;
    }
    ghost var before := dst[..];
    dst[off + n] := NUL;
    assert dst[..] == before[off + n := NUL];
  }

  /** stricmp folds ASCII lower-case letters to upper case before comparing. */
  function Upper(c: char): char {
    if 'a' <= c <= 'z' then (c as int - 32) as char else c
  }

  /** Two strings that spell the same word up to ASCII case. */
  predicate SameIgnoringCase(a: seq<char>, b: seq<char>) {
    |a| == |b| && forall j :: 0 <= j < |a| ==> Upper(a[j]) == Upper(b[j])
  }

  /**
   * stricmp(a, b): walks both strings while their folded characters agree;
   * the terminator compares below every other character (with an unsigned
   * char; the menu only tests the result against zero).
   */
  function Stricmp(a: CStr, b: CStr): (r: int)
    ensures -1 <= r <= 1
  {
    if |a| == 0 && |b| == 0 then 0
    else if |a| == 0 then -1
    else if |b| == 0 then 1
    else if Upper(a[0]) < Upper(b[0]) then -1
    else if Upper(a[0]) > Upper(b[0]) then 1
    else Stricmp(a[1..], b[1..])
  }

  /** stricmp reports 0 exactly for strings equal up to ASCII case. */
  lemma {:induction false} StricmpZeroIff(a: CStr, b: CStr)
    ensures Stricmp(a, b) == 0 <==> SameIgnoringCase(a, b)
  {
    if |a| > 0 && |b| > 0 && Upper(a[0]) == Upper(b[0]) {
      StricmpZeroIff(a[1..], b[1..]);
      if SameIgnoringCase(a[1..], b[1..]) {
        forall j | 0 <= j < |a|
          ensures Upper(a[j]) == Upper(b[j])
        {
          if j > 0 {
            assert a[j] == a[1..][j - 1] && b[j] == b[1..][j - 1];
          }
        }
      }
      if SameIgnoringCase(a, b) {
        forall j | 0 <= j < |a| - 1
          ensures Upper(a[1..][j]) == Upper(b[1..][j])
        {
          assert a[1..][j] == a[j + 1] && b[1..][j] == b[j + 1];
        }
      }
    } else if |a| > 0 && |b| > 0 {
      assert !SameIgnoringCase(a, b) by {
        assert Upper(a[0]) != Upper(b[0]);
      }
    }
  }

  /** The white space atoi skips before the number. */
  predicate IsSpace(c: char) {
    c == ' ' || c == '\t' || c == '\n' || c == '\U{000B}' || c == '\U{000C}' || c == '\r'
  }

  predicate IsDigit(c: char) {
    '0' <= c <= '9'
  }

  function SkipSpaces(s: seq<char>): (t: seq<char>)
    ensures |t| <= |s| && t == s[|s| - |t|..]
  {
    if |s| > 0 && IsSpace(s[0]) then SkipSpaces(s[1..]) else s
  }

  /** acc followed by the decimal digits at the front of s, up to the first non-digit. */
  function LeadingNumber(s: seq<char>, acc: nat): nat {
    if |s| > 0 && IsDigit(s[0]) then LeadingNumber(s[1..], acc * 10 + (s[0] as int - '0' as int)) else acc
  }

  /** What atoi reads its digits from: s after its white space and an optional sign. */
  function AfterSign(s: seq<char>): (u: seq<char>)
    ensures |u| <= |s| && u == s[|s| - |u|..]
  {
    var t := SkipSpaces(s);
    if |t| > 0 && (t[0] == '-' || t[0] == '+') then t[1..] else t
  }

  /**
   * atoi(s): optional white space, an optional sign, then decimal digits. The
   * value is negative only when the digits carry a minus sign.
   */
  function Atoi(s: CStr): (r: int)
    ensures r < 0 ==> |SkipSpaces(s)| > 0 && SkipSpaces(s)[0] == '-'
  {
    var t := SkipSpaces(s);
    if |t| > 0 && t[0] == '-' then -(LeadingNumber(t[1..], 0) as int)
    else if |t| > 0 && t[0] == '+' then LeadingNumber(t[1..], 0)
    else LeadingNumber(t, 0)
  }

  /** atoi yields 0 for a string whose digits, after spaces and sign, do not start with a digit. */
  lemma AtoiWithoutLeadingDigit(s: CStr)
    requires var u := AfterSign(s); |u| == 0 || !IsDigit(u[0])
    ensures Atoi(s) == 0
  {
    var t := SkipSpaces(s);
    if |t| > 0 && (t[0] == '-' || t[0] == '+') {
      assert AfterSign(s) == t[1..];
    } else {
      assert AfterSign(s) == t;
    }
  }

  /** A string with no digit from 1 to 9. */
  predicate NoNonZeroDigit(s: seq<char>) {
    forall j :: 0 <= j < |s| ==> !('1' <= s[j] <= '9')
  }

  /** The run of decimal digits at the front of s: the digits atoi reads. */
  function DigitRun(s: seq<char>): (d: seq<char>)
    ensures |d| <= |s| && d == s[..|d|]
    ensures forall j :: 0 <= j < |d| ==> IsDigit(d[j])
    ensures |d| < |s| ==> !IsDigit(s[|d|])
  {
    if |s| > 0 && IsDigit(s[0]) then [s[0]] + DigitRun(s[1..]) else []
  }

  /** The number read from s onto acc is 0 exactly when acc is 0 and every digit read is '0'. */
  lemma {:induction false} LeadingNumberZeroIff(s: seq<char>, acc: nat)
    ensures LeadingNumber(s, acc) == 0 <==> acc == 0 && NoNonZeroDigit(DigitRun(s))
  {
    if |s| > 0 && IsDigit(s[0]) {
      var rest := DigitRun(s[1..]);
      assert DigitRun(s) == [s[0]] + rest;
      LeadingNumberZeroIff(s[1..], acc * 10 + (s[0] as int - '0' as int));
      assert NoNonZeroDigit([s[0]] + rest) <==> s[0] == '0' && NoNonZeroDigit(rest) by {
        if NoNonZeroDigit([s[0]] + rest) {
          assert ([s[0]] + rest)[0] == s[0];
          forall j | 0 <= j < |rest|
            ensures !('1' <= rest[j] <= '9')
          {
            assert ([s[0]] + rest)[j + 1] == rest[j];
          }
        }
        if s[0] == '0' && NoNonZeroDigit(rest) {
          forall j | 0 <= j < |rest| + 1
            ensures !('1' <= ([s[0]] + rest)[j] <= '9')
          {
            if j > 0 {
              assert ([s[0]] + rest)[j] == rest[j - 1];
            }
          }
        }
      }
    } else {
      assert DigitRun(s) == [];
    }
  }

  /**
   * atoi is 0 exactly when every digit of the run it reads, after the white
   * space and an optional sign, is '0': any digit from 1 to 9 in that run
   * makes the value non-zero.
   */
  lemma AtoiZeroIff(s: CStr)
    ensures Atoi(s) == 0 <==> NoNonZeroDigit(DigitRun(AfterSign(s)))
  {
    var t := SkipSpaces(s);
    if |t| > 0 && (t[0] == '-' || t[0] == '+') {
      assert AfterSign(s) == t[1..];
    } else {
      assert AfterSign(s) == t;
    }
    LeadingNumberZeroIff(AfterSign(s), 0);
  }

  lemma {:induction false} LeadingNumberOfZeros(s: seq<char>)
    requires NoNonZeroDigit(s)
    ensures LeadingNumber(s, 0) == 0
  {
    if |s| > 0 && IsDigit(s[0]) {
      assert s[0] == '0';
      assert NoNonZeroDigit(s[1..]) by {
        forall j | 0 <= j < |s| - 1
          ensures !('1' <= s[1..][j] <= '9')
        {
          assert s[1..][j] == s[j + 1];
        }
      }
      LeadingNumberOfZeros(s[1..]);
    }
  }

  /** atoi yields a non-zero value only for a string holding a digit from 1 to 9. */
  lemma AtoiWithoutNonZeroDigit(s: CStr)
    requires NoNonZeroDigit(s)
    ensures Atoi(s) == 0
  {
    var t := SkipSpaces(s);
    assert NoNonZeroDigit(t) by {
      forall j | 0 <= j < |t|
        ensures !('1' <= t[j] <= '9')
      {
        assert t[j] == s[|s| - |t| + j];
      }
    }
    if |t| > 0 {
      assert NoNonZeroDigit(t[1..]) by {
        forall j | 0 <= j < |t| - 1
          ensures !('1' <= t[1..][j] <= '9')
        {
          assert t[1..][j] == t[j + 1];
        }
      }
      LeadingNumberOfZeros(t[1..]);
    }
    LeadingNumberOfZeros(t);
  }
}
