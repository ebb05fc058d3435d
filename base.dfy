/** Shared vocabulary of the model: optional values, the outcome of a call
    that may raise, and the ASCII text primitives (Python's str.strip,
    str.isdigit, str.lower, str.replace and decimal digits) that the
    normalisers and the scrapers are built from. */
module Base {

  /** Python's None versus a present value. */
  datatype Option<+T> = None | Some(value: T)

  /** A call that either returns a value or raises an exception whose text is `msg`. */
  datatype Outcome<+T> = Done(value: T) | Raised(msg: string)

  function Min(a: int, b: int): int { if a <= b then a else b }

  // ---------------------------------------------------------------------------
  // Characters

  predicate IsDigit(c: char) { '0' <= c <= '9' }

  /** The characters Python's str.strip() removes, restricted to ASCII:
      space, \t \n \x0b \x0c \r and the separators \x1c .. \x1f. */
  predicate IsSpace(c: char) {
    c == ' ' || ('\t' <= c <= '\r') || ('\U{1C}' <= c <= '\U{1F}')
  }

  function LowerChar(c: char): char {
    if 'A' <= c <= 'Z' then (c as int + 32) as char else c
  }

  /** Every character is a digit (vacuously true of ""). */
  predicate AllDigits(s: string) {
    forall i :: 0 <= i < |s| ==> IsDigit(s[i])
  }

  /** Python's str.isdigit() on ASCII text: non-empty and all digits. */
  predicate IsDigitString(s: string) {
    |s| > 0 && AllDigits(s)
  }

  predicate AllSpaces(s: string) {
    forall i :: 0 <= i < |s| ==> s[i] == ' '
  }

  // ---------------------------------------------------------------------------
  // str.strip()

  /** The first position from `i` on that is not whitespace (or |s|). */
  function SkipSpaces(s: string, i: nat): (r: nat)
    requires i <= |s|
    ensures i <= r <= |s|
    ensures forall m :: i <= m < r ==> IsSpace(s[m])
    ensures r == |s| || !IsSpace(s[r])
    decreases |s| - i
  {
    if i < |s| && IsSpace(s[i]) then SkipSpaces(s, i + 1) else i
  }

  /** The end of s[lo..j] once its trailing whitespace is dropped. */
  function TrimEnd(s: string, lo: nat, j: nat): (r: nat)
    requires lo <= j <= |s|
    ensures lo <= r <= j
    ensures forall m :: r <= m < j ==> IsSpace(s[m])
    ensures r == lo || !IsSpace(s[r - 1])
    decreases j - lo
  {
    if lo < j && IsSpace(s[j - 1]) then TrimEnd(s, lo, j - 1) else j
  }

  /** Python's s.strip(): the text between the leading and the trailing
      whitespace, which is all that is removed. */
  function Strip(s: string): (r: string)
    ensures |r| <= |s|
    ensures r == [] || (!IsSpace(r[0]) && !IsSpace(r[|r| - 1]))
    ensures var a := SkipSpaces(s, 0); a + |r| <= |s| && r == s[a..a + |r|]
    ensures forall m :: 0 <= m < SkipSpaces(s, 0) ==> IsSpace(s[m])
    ensures forall m :: SkipSpaces(s, 0) + |r| <= m < |s| ==> IsSpace(s[m])
    ensures (s == [] || (!IsSpace(s[0]) && !IsSpace(s[|s| - 1]))) ==> r == s
  {
    var a := SkipSpaces(s, 0);
    var b := TrimEnd(s, a, |s|);
    if s == [] || (!IsSpace(s[0]) && !IsSpace(s[|s| - 1])) then
      assert a == 0 && b == |s|;
      assert s[a..b] == s;
      s[a..b]
    else s[a..b]
  }

  /** Text made only of the characters str.strip() removes. */
  predicate AllWhitespace(s: string) {
    forall i :: 0 <= i < |s| ==> IsSpace(s[i])
  }

  lemma {:induction false} SkipPadding(s: string, n: nat, i: nat)
    requires i <= n < |s| && !IsSpace(s[n])
    requires forall m :: i <= m < n ==> IsSpace(s[m])
    ensures SkipSpaces(s, i) == n
    decreases n - i
  {
    if i < n {
      SkipPadding(s, n, i + 1);
    }
  }

  lemma {:induction false} TrimPadding(s: string, lo: nat, e: nat, j: nat)
    requires lo < e <= j <= |s| && !IsSpace(s[e - 1])
    requires forall m :: e <= m < j ==> IsSpace(s[m])
    ensures TrimEnd(s, lo, j) == e
    decreases j - e
  {
    if e < j {
      TrimPadding(s, lo, e, j - 1);
    }
  }

  /** Stripping whitespace padding gives back the padded text. */
  lemma StripPadded(pre: string, u: string, post: string)
    requires AllWhitespace(pre) && AllWhitespace(post)
    requires u != [] && !IsSpace(u[0]) && !IsSpace(u[|u| - 1])
    ensures Strip(pre + u + post) == u
  {
    var s := pre + u + post;
    var e := |pre| + |u|;
    forall m | 0 <= m < |pre|
      ensures IsSpace(s[m])
    {
      assert s[m] == pre[m];
    }
    assert s[|pre|] == u[0];
    SkipPadding(s, |pre|, 0);
    forall m | e <= m < |s|
      ensures IsSpace(s[m])
    {
      assert s[m] == post[m - e];
    }
    assert s[e - 1] == u[|u| - 1];
    TrimPadding(s, |pre|, e, |s|);
    assert s[|pre|..e] == u;
  }

  // ---------------------------------------------------------------------------
  // Searching and rewriting

  /** Index of the first occurrence of `c`, or |s| when there is none. */
  function IndexOf(s: string, c: char): (r: nat)
    ensures r <= |s|
    ensures r < |s| ==> s[r] == c
    ensures forall i :: 0 <= i < r ==> s[i] != c
  {
    if |s| == 0 then 0
    else if s[0] == c then 0
    else 1 + IndexOf(s[1..], c)
  }

  /** The first occurrence is where `c` stands with no `c` before it. */
  lemma {:induction false} IndexOfAt(s: string, c: char, x: nat)
    requires x < |s| && s[x] == c
    requires forall i :: 0 <= i < x ==> s[i] != c
    ensures IndexOf(s, c) == x
  {
    if x > 0 {
      IndexOfAt(s[1..], c, x - 1);
    }
  }

  /** Python's s.replace(c, ""). */
  function RemoveAll(s: string, c: char): (r: string)
    ensures |r| <= |s|
    ensures forall i :: 0 <= i < |r| ==> r[i] != c
    ensures forall i :: 0 <= i < |r| ==> r[i] in s
  {
    if |s| == 0 then []
    else if s[0] == c then RemoveAll(s[1..], c)
    else [s[0]] + RemoveAll(s[1..], c)
  }

  /** The digits of `s`, in order, everything else dropped. */
  function KeepDigits(s: string): (r: string)
    ensures |r| <= |s| && AllDigits(r)
  {
    if |s| == 0 then []
    else if IsDigit(s[0]) then [s[0]] + KeepDigits(s[1..])
    else KeepDigits(s[1..])
  }

  /** Python's s.lower() restricted to ASCII letters. */
  function LowerAscii(s: string): (r: string)
    ensures |r| == |s|
    ensures forall i :: 0 <= i < |s| ==> r[i] == LowerChar(s[i])
  {
    seq(|s|, i requires 0 <= i < |s| => LowerChar(s[i]))
  }

  /** Python's `p in s` for strings: `p` occurs as a contiguous piece of `s`. */
  predicate HasInfix(s: string, p: string)
    decreases |s|
  {
    |p| <= |s| && (s[..|p|] == p || HasInfix(s[1..], p))
  }

  lemma {:induction false} HasInfixAt(s: string, p: string, i: nat)
    requires i + |p| <= |s| && s[i..i + |p|] == p
    ensures HasInfix(s, p)
    decreases i
  {
    if i > 0 {
      assert s[1..][i - 1..i - 1 + |p|] == s[i..i + |p|];
      HasInfixAt(s[1..], p, i - 1);
    }
  }

  lemma {:induction false} RemoveAllAbsent(s: string, c: char)
    requires forall i :: 0 <= i < |s| ==> s[i] != c
    ensures RemoveAll(s, c) == s
  {
    if |s| > 0 {
      RemoveAllAbsent(s[1..], c);
    }
  }

  lemma RemoveAllIdempotent(s: string, c: char)
    ensures RemoveAll(RemoveAll(s, c), c) == RemoveAll(s, c)
  {
    RemoveAllAbsent(RemoveAll(s, c), c);
  }

  lemma {:induction false} RemoveAllConcat(a: string, b: string, c: char)
    ensures RemoveAll(a + b, c) == RemoveAll(a, c) + RemoveAll(b, c)
  {
    if |a| > 0 {
      assert (a + b)[1..] == a[1..] + b;
      RemoveAllConcat(a[1..], b, c);
    } else {
      assert a + b == b;
    }
  }

  lemma {:induction false} KeepDigitsConcat(a: string, b: string)
    ensures KeepDigits(a + b) == KeepDigits(a) + KeepDigits(b)
  {
    if |a| > 0 {
      assert (a + b)[1..] == a[1..] + b;
      KeepDigitsConcat(a[1..], b);
    } else {
      assert a + b == b;
    }
  }

  lemma {:induction false} KeepDigitsOfDigits(s: string)
    requires AllDigits(s)
    ensures KeepDigits(s) == s
  {
    if |s| > 0 {
      KeepDigitsOfDigits(s[1..]);
    }
  }

  /** A leading separator character contributes no digit. */
  lemma KeepDigitsAfterSeparator(sep: string, t: string)
    requires |sep| == 1 && !IsDigit(sep[0])
    ensures KeepDigits(sep + t) == KeepDigits(t)
  {
    assert (sep + t)[1..] == t;
  }

  /** A leading run of digits is kept whole. */
  lemma KeepDigitsAfterDigits(d: string, t: string)
    requires AllDigits(d)
    ensures KeepDigits(d + t) == d + KeepDigits(t)
  {
    KeepDigitsConcat(d, t);
    KeepDigitsOfDigits(d);
  }

  // ---------------------------------------------------------------------------
  // Decimal numbers

  function DigitValue(c: char): nat
    requires IsDigit(c)
  {
    c as int - '0' as int
  }

  function DigitChar(d: nat): (c: char)
    requires d < 10
    ensures IsDigit(c) && DigitValue(c) == d
  {
    ('0' as int + d) as char
  }

  /** The value of a string of decimal digits ("" has value 0). */
  function DigitsValue(s: string): nat
    requires AllDigits(s)
  {
    if |s| == 0 then 0
    else 10 * DigitsValue(s[..|s| - 1]) + DigitValue(s[|s| - 1])
  }

  /** Python's str(n) for a non-negative integer. */
  function DecimalText(n: nat): (r: string)
    ensures IsDigitString(r)
    ensures DigitsValue(r) == n
    ensures r[0] != '0' || n == 0
  {
    if n < 10 then [DigitChar(n)]
    else
      var r := DecimalText(n / 10) + [DigitChar(n % 10)];
      assert r[..|r| - 1] == DecimalText(n / 10);
      r
  }

  /** Python's str(n) for any integer. */
  function IntText(n: int): (r: string)
    ensures |r| > 0 && (IsDigit(r[0]) || r[0] == '-') && IsDigit(r[|r| - 1])
  {
    if n < 0 then "-" + DecimalText(-n) else DecimalText(n)
  }
}
