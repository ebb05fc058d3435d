/** The field normalisers nested in `parse_notice_data` of the Open API
    scraper: total functions from upstream text to a canonical value or
    absence (`None`), never an error. */
module Normalise {
  import opened Base

  /** "YYYY-MM-DD" assembled from the first eight characters. */
  function DateFromDigits(s: string): (d: string)
    requires |s| >= 8
    ensures |d| == 10
  {
    s[..4] + "-" + s[4..6] + "-" + s[6..8]
  }

  /** " HH:MM:SS", the time-of-day suffix of a timestamp. */
  function TimeOfDay(h: string, m: string, sec: string): string
  {
    " " + (h + (":" + (m + (":" + sec))))
  }

  /** "YYYY-MM-DD HH:MM:00" assembled from the first twelve characters. */
  function MinuteFromDigits(s: string): (d: string)
    requires |s| >= 12
    ensures |d| == 19
  {
    DateFromDigits(s) + TimeOfDay(s[8..10], s[10..12], "00")
  }

  /** Text of the shape YYYY-MM-DD (digits and hyphens, no calendar check). */
  predicate IsIsoDate(d: string) {
    && |d| == 10 && d[4] == '-' && d[7] == '-'
    && AllDigits(d[..4]) && AllDigits(d[5..7]) && AllDigits(d[8..])
  }

  /** Text of the shape YYYY-MM-DD HH:MM:SS (no calendar or clock check). */
  predicate IsIsoDatetime(d: string) {
    && |d| == 19 && IsIsoDate(d[..10]) && d[10] == ' ' && d[13] == ':' && d[16] == ':'
    && AllDigits(d[11..13]) && AllDigits(d[14..16]) && AllDigits(d[17..])
  }

  // ---------------------------------------------------------------------------
  // parse_date

  /** parse_date: an all-digit text of at least 8 characters becomes
      YYYY-MM-DD from its first eight digits; other text that contains a
      hyphen and has at least 10 characters is cut to its first 10;
      everything else is absent. The source repeats the all-digit test as a
      third branch; the `assert false` proves that branch unreachable. */
  function ParseDate(raw: string): (r: Option<string>)
    ensures r.Some? ==> |r.value| == 10
  {
    if raw == "" then None
    else
      var s := Strip(raw);
      if s == "" || |s| < 8 then None
      else if IsDigitString(s) && |s| >= 8 then Some(DateFromDigits(s))
      else if '-' in s && |s| >= 10 then Some(s[..10])
      else if IsDigitString(s) && |s| >= 8 then assert false; None
      else None
  }

  /** When parse_date answers, as a function of the stripped text. */
  lemma ParseDateNone(raw: string)
    ensures var s := Strip(raw);
      ParseDate(raw).None? <==> |s| < 8 || (!IsDigitString(s) && ('-' !in s || |s| < 10))
  {
  }

  /** An all-digit date becomes a well-shaped ISO date whose digits are
      exactly the first eight input digits (nothing invented, nothing lost). */
  lemma ParseDateOfDigits(raw: string)
    requires IsDigitString(Strip(raw)) && |Strip(raw)| >= 8
    ensures ParseDate(raw).Some?
    ensures IsIsoDate(ParseDate(raw).value)
    ensures KeepDigits(ParseDate(raw).value) == Strip(raw)[..8]
  {
    var s := Strip(raw);
    DateDigitsRoundTrip(s);
  }

  lemma DateDigitsRoundTrip(s: string)
    requires AllDigits(s) && |s| >= 8
    ensures IsIsoDate(DateFromDigits(s))
    ensures KeepDigits(DateFromDigits(s)) == s[..8]
  {
    var d := DateFromDigits(s);
    assert d[..4] == s[..4] && d[5..7] == s[4..6] && d[8..] == s[6..8];
    var x1 := "-" + s[6..8];
    var x2 := s[4..6] + x1;
    var x3 := "-" + x2;
    assert d == s[..4] + x3;
    KeepDigitsAfterDigits(s[6..8], []);
    assert s[6..8] + [] == s[6..8];
    KeepDigitsAfterSeparator("-", s[6..8]);
    KeepDigitsAfterDigits(s[4..6], x1);
    KeepDigitsAfterSeparator("-", x2);
    KeepDigitsAfterDigits(s[..4], x3);
    assert s[..4] + (s[4..6] + s[6..8]) == s[..8];
  }

  /** A hyphenated text that is not all digits is kept verbatim up to 10
      characters. */
  lemma ParseDateVerbatim(raw: string)
    requires var s := Strip(raw); !IsDigitString(s) && '-' in s && |s| >= 10
    ensures ParseDate(raw) == Some(Strip(raw)[..10])
  {
  }

  /** An ISO date is a fixed point of parse_date. */
  lemma {:induction false} ParseDateFixesIsoDate(d: string)
    requires IsIsoDate(d)
    ensures ParseDate(d) == Some(d)
  {
    assert IsDigit(d[0]) && IsDigit(d[9]);
    assert Strip(d) == d;
    assert d[4] == '-';
    assert !IsDigitString(d);
  }

  /** parse_date is idempotent on its all-digit inputs: normalising the
      normalised date changes nothing. */
  lemma ParseDateIdempotent(raw: string)
    requires IsDigitString(Strip(raw)) && |Strip(raw)| >= 8
    ensures ParseDate(ParseDate(raw).value) == ParseDate(raw)
  {
    ParseDateOfDigits(raw);
    ParseDateFixesIsoDate(ParseDate(raw).value);
  }

  // ---------------------------------------------------------------------------
  // parse_datetime

  /** parse_datetime: all-digit text of 12 or more characters becomes
      YYYY-MM-DD HH:MM:00, of 8 to 11 characters YYYY-MM-DD 00:00:00; other
      text containing a hyphen is cut to 19 characters when it has that many
      and is absent otherwise. Every present result has 19 characters. */
  function ParseDatetime(raw: string): (r: Option<string>)
    ensures r.Some? ==> |r.value| == 19
  {
    if raw == "" then None
    else
      var s := Strip(raw);
      if s == "" || |s| < 8 then None
      else if IsDigitString(s) then
        if |s| >= 12 then Some(MinuteFromDigits(s))
        else if |s| >= 8 then Some(DateFromDigits(s) + TimeOfDay("00", "00", "00"))
        else None
      else if '-' in s then
        if |s| >= 19 then Some(s[..19]) else None
      else None
  }

  lemma ParseDatetimeNone(raw: string)
    ensures var s := Strip(raw);
      ParseDatetime(raw).None? <==> |s| < 8 || (!IsDigitString(s) && ('-' !in s || |s| < 19))
  {
  }

  /** A hyphenated text that is not all digits is kept verbatim up to 19
      characters, whatever those characters are. */
  lemma ParseDatetimeVerbatim(raw: string)
    requires var s := Strip(raw); !IsDigitString(s) && '-' in s && |s| >= 19
    ensures ParseDatetime(raw) == Some(Strip(raw)[..19])
  {
  }

  lemma KeepDigitsOfTime(h: string, m: string, sec: string)
    requires AllDigits(h) && AllDigits(m) && AllDigits(sec)
    ensures KeepDigits(TimeOfDay(h, m, sec)) == h + m + sec
  {
    var x1 := ":" + sec;
    var x2 := m + x1;
    var x3 := ":" + x2;
    var x4 := h + x3;
    KeepDigitsAfterDigits(sec, []);
    assert sec + [] == sec;
    KeepDigitsAfterSeparator(":", sec);
    KeepDigitsAfterDigits(m, x1);
    KeepDigitsAfterSeparator(":", x2);
    KeepDigitsAfterDigits(h, x3);
    KeepDigitsAfterSeparator(" ", x4);
    assert h + (m + sec) == h + m + sec;
  }

  /** The minute reading has the timestamp shape. */
  lemma MinuteShape(s: string)
    requires AllDigits(s) && |s| >= 12
    ensures IsIsoDatetime(MinuteFromDigits(s))
  {
    var d := MinuteFromDigits(s);
    DateDigitsRoundTrip(s);
    assert d[..10] == DateFromDigits(s);
    assert d[10] == ' ' && d[13] == ':' && d[16] == ':';
    assert d[11..13] == s[8..10] && d[14..16] == s[10..12] && d[17..] == "00";
  }

  lemma MinuteDigitsRoundTrip(s: string)
    requires AllDigits(s) && |s| >= 12
    ensures IsIsoDatetime(MinuteFromDigits(s))
    ensures KeepDigits(MinuteFromDigits(s)) == s[..12] + "00"
  {
    var date := DateFromDigits(s);
    var t := TimeOfDay(s[8..10], s[10..12], "00");
    MinuteShape(s);
    DateDigitsRoundTrip(s);
    KeepDigitsConcat(date, t);
    KeepDigitsOfTime(s[8..10], s[10..12], "00");
    var digits := s[..8] + (s[8..10] + s[10..12] + "00");
    assert |digits| == 14;
    assert forall i :: 0 <= i < 14 ==> digits[i] == (s[..12] + "00")[i];
  }

  lemma MidnightDigitsRoundTrip(s: string)
    requires AllDigits(s) && |s| >= 8
    ensures IsIsoDatetime(DateFromDigits(s) + TimeOfDay("00", "00", "00"))
    ensures KeepDigits(DateFromDigits(s) + TimeOfDay("00", "00", "00")) == s[..8] + "000000"
  {
    var date := DateFromDigits(s);
    assert (date + TimeOfDay("00", "00", "00"))[..10] == date;
    DateDigitsRoundTrip(s);
    KeepDigitsConcat(date, TimeOfDay("00", "00", "00"));
    KeepDigitsOfTime("00", "00", "00");
  }

  /** All-digit timestamps become well-shaped ISO timestamps whose digits are
      the first 12 input digits and zero seconds, or the first 8 and a zero
      time of day. */
  lemma ParseDatetimeOfDigits(raw: string)
    requires IsDigitString(Strip(raw)) && |Strip(raw)| >= 8
    ensures ParseDatetime(raw).Some?
    ensures IsIsoDatetime(ParseDatetime(raw).value)
    ensures var s := Strip(raw);
      KeepDigits(ParseDatetime(raw).value) == if |s| >= 12 then s[..12] + "00" else s[..8] + "000000"
  {
    var s := Strip(raw);
    if |s| >= 12 {
      MinuteDigitsRoundTrip(s);
    } else {
      MidnightDigitsRoundTrip(s);
    }
  }

  /** An ISO timestamp is a fixed point of parse_datetime. */
  lemma {:induction false} ParseDatetimeFixesIsoDatetime(d: string)
    requires IsIsoDatetime(d)
    ensures ParseDatetime(d) == Some(d)
  {
    assert d[..10][0] == d[0] && d[..10][4] == d[4];
    assert IsDigit(d[0]) && IsDigit(d[18]);
    assert Strip(d) == d;
    assert !IsDigitString(d);
  }

  /** The date part of every parsed deadline is what parse_date makes of the
      same text: the two normalisers never disagree about the day. */
  lemma DatetimeAgreesWithDate(raw: string)
    requires ParseDatetime(raw).Some?
    ensures ParseDate(raw).Some?
    ensures ParseDatetime(raw).value[..10] == ParseDate(raw).value
  {
    var s := Strip(raw);
    if IsDigitString(s) {
      assert ParseDatetime(raw).value[..10] == DateFromDigits(s);
    } else {
      assert s[..19][..10] == s[..10];
    }
  }

  // ---------------------------------------------------------------------------
  // parse_price

  /** float() on unsigned plain decimal text, truncated: digits with at most
      one decimal point and at least one digit; the fraction is dropped. */
  function UnsignedTruncated(body: string): Option<nat>
  {
    var dot := IndexOf(body, '.');
    var whole := body[..dot];
    var frac := if dot < |body| then body[dot + 1..] else "";
    if (whole == "" && frac == "") || !AllDigits(whole) || !AllDigits(frac) then None
    else Some(DigitsValue(whole))
  }

  /** int(float(t)) for plain decimal text: surrounding whitespace, an
      optional sign and an unsigned decimal; the value is truncated toward
      zero. Any other text is absent. */
  function TruncatedNumber(t: string): Option<int>
  {
    SignedTruncated(Strip(t))
  }

  /** The reading of stripped text: an optional sign, then an unsigned
      decimal. */
  function SignedTruncated(u: string): Option<int>
  {
    var signed := |u| > 0 && (u[0] == '-' || u[0] == '+');
    var digits := if signed then u[1..] else u;
    match UnsignedTruncated(digits)
    case None => None
    case Some(v) => Some(if signed && u[0] == '-' then -(v as int) else v)
  }

  lemma UnsignedOfDigits(d: string)
    requires IsDigitString(d)
    ensures UnsignedTruncated(d) == Some(DigitsValue(d))
  {
    assert IndexOf(d, '.') == |d|;
    assert d[..|d|] == d;
  }

  lemma UnsignedOfPoint(whole: string, frac: string)
    requires AllDigits(whole) && AllDigits(frac) && (whole != "" || frac != "")
    ensures UnsignedTruncated(whole + "." + frac) == Some(DigitsValue(whole))
  {
    var body := whole + "." + frac;
    assert body[|whole|] == '.';
    assert forall i :: 0 <= i < |whole| ==> body[i] == whole[i];
    assert IndexOf(body, '.') == |whole|;
    assert body[..|whole|] == whole;
    assert body[|whole| + 1..] == frac;
  }

  /** parse_price: empty text is absent; otherwise every ',' is removed and
      the rest is read as a truncated decimal number. */
  function ParsePrice(raw: string): (r: Option<int>)
    ensures raw == "" ==> r.None?
  {
    if raw == "" then None else TruncatedNumber(RemoveAll(raw, ','))
  }

  /** Thousands separators do not matter: removing every comma first gives
      the same answer. */
  lemma ParsePriceIgnoresCommas(raw: string)
    ensures ParsePrice(raw) == ParsePrice(RemoveAll(raw, ','))
  {
    RemoveAllIdempotent(raw, ',');
  }

  /** The text float() reads as a plain unsigned decimal: digits and at
      most one '.', with at least one digit. */
  predicate IsUnsignedDecimal(b: string) {
    && (forall i :: 0 <= i < |b| ==> IsDigit(b[i]) || b[i] == '.')
    && (forall i, j :: 0 <= i < j < |b| && b[i] == '.' ==> b[j] != '.')
    && (exists i :: 0 <= i < |b| && IsDigit(b[i]))
  }

  /** An unsigned decimal, optionally after one '+' or '-'. */
  predicate IsSignedDecimal(u: string) {
    IsUnsignedDecimal(u) ||
    (|u| > 0 && (u[0] == '-' || u[0] == '+') && IsUnsignedDecimal(u[1..]))
  }

  /** UnsignedTruncated answers exactly on unsigned decimal text. */
  lemma UnsignedTruncatedDefined(b: string)
    ensures UnsignedTruncated(b).Some? <==> IsUnsignedDecimal(b)
  {
    var dot := IndexOf(b, '.');
    var whole := b[..dot];
    var frac := if dot < |b| then b[dot + 1..] else "";
    if UnsignedTruncated(b).Some? {
      forall i | dot < i < |b|
        ensures IsDigit(b[i])
      {
        assert b[i] == frac[i - dot - 1];
      }
      forall i | 0 <= i < |b|
        ensures IsDigit(b[i]) || b[i] == '.'
      {
        if i < dot {
          assert b[i] == whole[i];
        }
      }
      if whole != "" {
        assert IsDigit(b[0]);
      } else {
        assert IsDigit(b[dot + 1]);
      }
    }
    if IsUnsignedDecimal(b) {
      forall i | 0 <= i < |frac|
        ensures IsDigit(frac[i])
      {
        assert frac[i] == b[dot + 1 + i];
      }
      var k :| 0 <= k < |b| && IsDigit(b[k]);
      if k < dot {
        assert whole[k] == b[k];
      } else {
        assert frac[k - dot - 1] == b[k];
      }
    }
  }

  /** TruncatedNumber answers exactly when its stripped text is a signed
      decimal. */
  lemma TruncatedNumberDefined(t: string)
    ensures TruncatedNumber(t).Some? <==> IsSignedDecimal(Strip(t))
  {
    var u := Strip(t);
    UnsignedTruncatedDefined(u);
    if |u| > 0 && (u[0] == '-' || u[0] == '+') {
      UnsignedTruncatedDefined(u[1..]);
      assert !IsUnsignedDecimal(u) by {
        assert !(IsDigit(u[0]) || u[0] == '.');
      }
    }
  }

  /** parse_price answers exactly when the text is non-empty and, with
      every comma removed and surrounding whitespace stripped, is an
      optionally signed plain decimal; any other text is absent. */
  lemma ParsePriceDefined(raw: string)
    ensures ParsePrice(raw).Some? <==>
      raw != "" && IsSignedDecimal(Strip(RemoveAll(raw, ',')))
  {
    if raw != "" {
      TruncatedNumberDefined(RemoveAll(raw, ','));
    }
  }

  /** TruncatedNumber on unsigned text with no surrounding whitespace. */
  lemma TruncatedOfUnsigned(body: string, v: nat)
    requires |body| > 0 && (IsDigit(body[0]) || body[0] == '.') && !IsSpace(body[|body| - 1])
    requires UnsignedTruncated(body) == Some(v)
    ensures TruncatedNumber(body) == Some(v)
  {
    assert Strip(body) == body;
    SignedOfUnsigned(body, v);
  }

  /** TruncatedNumber on a minus sign followed by unsigned text. */
  lemma TruncatedOfNegated(body: string, v: nat)
    requires |body| > 0 && (IsDigit(body[0]) || body[0] == '.') && !IsSpace(body[|body| - 1])
    requires UnsignedTruncated(body) == Some(v)
    ensures TruncatedNumber("-" + body) == Some(-(v as int))
  {
    var text := "-" + body;
    assert text[|text| - 1] == body[|body| - 1] && text[0] == '-';
    assert Strip(text) == text;
    SignedOfSigned("-", body, v);
  }

  /** Digits with a point are unsigned decimal text read as the whole
      part. */
  lemma PointBody(whole: string, frac: string)
    requires AllDigits(whole) && AllDigits(frac) && (whole != "" || frac != "")
    ensures var body := whole + "." + frac;
      forall k :: 0 <= k < |body| ==> IsDigit(body[k]) || body[k] == '.'
    ensures UnsignedTruncated(whole + "." + frac) == Some(DigitsValue(whole))
  {
    UnsignedOfPoint(whole, frac);
    var body := whole + "." + frac;
    forall k | 0 <= k < |body|
      ensures IsDigit(body[k]) || body[k] == '.'
    {
      if k < |whole| {
        assert body[k] == whole[k];
      } else if k > |whole| {
        assert body[k] == frac[k - |whole| - 1];
      }
    }
  }

  /** Whitespace, a sign and decimal text contain no comma. */
  lemma PaddedHasNoComma(pre: string, sign: string, body: string, post: string)
    requires AllWhitespace(pre) && AllWhitespace(post)
    requires sign == "" || sign == "+" || sign == "-"
    requires forall k :: 0 <= k < |body| ==> IsDigit(body[k]) || body[k] == '.'
    ensures RemoveAll(pre + (sign + body) + post, ',') == pre + (sign + body) + post
  {
    RemoveAllAbsent(pre, ',');
    RemoveAllAbsent(sign, ',');
    RemoveAllAbsent(body, ',');
    RemoveAllAbsent(post, ',');
    RemoveAllConcat(sign, body, ',');
    RemoveAllConcat(pre, sign + body, ',');
    RemoveAllConcat(pre + (sign + body), post, ',');
  }

  /** Unsigned text, which starts with a digit or '.', is read unsigned. */
  lemma SignedOfUnsigned(body: string, v: nat)
    requires body != [] && (IsDigit(body[0]) || body[0] == '.')
    requires UnsignedTruncated(body) == Some(v)
    ensures SignedTruncated(body) == Some(v)
  {
  }

  lemma SignSplit(c: char, body: string)
    ensures ([c] + body)[0] == c && ([c] + body)[1..] == body
  {
    assert ([c] + body)[1..] == body;
  }

  /** A sign character in front of unsigned text: '-' negates the value,
      '+' leaves it. */
  lemma SignedOfSignChar(c: char, body: string, v: nat, n: int)
    requires c == '+' || c == '-'
    requires n == if c == '-' then -(v as int) else v
    requires UnsignedTruncated(body) == Some(v)
    ensures SignedTruncated([c] + body) == Some(n)
  {
    SignSplit(c, body);
  }

  /** A sign in front of unsigned text negates it or leaves it. */
  lemma SignedOfSigned(sign: string, body: string, v: nat)
    requires sign == "+" || sign == "-"
    requires UnsignedTruncated(body) == Some(v)
    ensures SignedTruncated(sign + body) == Some(if sign == "-" then -(v as int) else v)
  {
    assert sign == [sign[0]];
    SignedOfSignChar(sign[0], body, v, if sign == "-" then -(v as int) else v);
  }

  /** int(float()) of text that strips to an optional sign and unsigned
      decimal text. */
  lemma TruncatedOfSigned(t: string, sign: string, body: string, v: nat)
    requires sign == "" || sign == "+" || sign == "-"
    requires body != [] && (IsDigit(body[0]) || body[0] == '.')
    requires Strip(t) == sign + body
    requires UnsignedTruncated(body) == Some(v)
    ensures TruncatedNumber(t) == Some(if sign == "-" then -(v as int) else v)
  {
    if sign == "" {
      assert sign + body == body;
      SignedOfUnsigned(body, v);
    } else {
      SignedOfSigned(sign, body, v);
    }
  }

  /** int(float()) of padded, optionally signed unsigned decimal text. */
  lemma TruncatedOfPadded(pre: string, sign: string, body: string, post: string, v: nat)
    requires AllWhitespace(pre) && AllWhitespace(post)
    requires sign == "" || sign == "+" || sign == "-"
    requires body != [] && forall k :: 0 <= k < |body| ==> IsDigit(body[k]) || body[k] == '.'
    requires UnsignedTruncated(body) == Some(v)
    ensures TruncatedNumber(pre + (sign + body) + post) == Some(if sign == "-" then -(v as int) else v)
  {
    var u := sign + body;
    assert u[|u| - 1] == body[|body| - 1];
    assert IsDigit(body[0]) || body[0] == '.';
    StripPadded(pre, u, post);
    TruncatedOfSigned(pre + u + post, sign, body, v);
  }

  /** Non-empty text without commas is read by int(float()) directly. */
  lemma ParsePriceOfClean(t: string, n: int)
    requires t != [] && RemoveAll(t, ',') == t
    requires TruncatedNumber(t) == Some(n)
    ensures ParsePrice(t) == Some(n)
  {
  }

  /** parse_price of padded, optionally signed unsigned decimal text. */
  lemma ParsePriceOfPadded(pre: string, sign: string, body: string, post: string, v: nat)
    requires AllWhitespace(pre) && AllWhitespace(post)
    requires sign == "" || sign == "+" || sign == "-"
    requires body != [] && forall k :: 0 <= k < |body| ==> IsDigit(body[k]) || body[k] == '.'
    requires UnsignedTruncated(body) == Some(v)
    ensures ParsePrice(pre + (sign + body) + post) == Some(if sign == "-" then -(v as int) else v)
  {
    PaddedHasNoComma(pre, sign, body, post);
    TruncatedOfPadded(pre, sign, body, post, v);
    ParsePriceOfClean(pre + (sign + body) + post, if sign == "-" then -(v as int) else v);
  }

  /** The value of every text with a point that parse_price accepts once
      its commas are gone: whitespace padding, an optional sign, and digits
      around a point with at least one digit; the value is the whole part,
      negated after '-', so it is truncated toward zero. */
  lemma ParsePriceValue(pre: string, sign: string, whole: string, frac: string, post: string, v: nat)
    requires AllWhitespace(pre) && AllWhitespace(post)
    requires sign == "" || sign == "+" || sign == "-"
    requires AllDigits(whole) && AllDigits(frac) && (whole != "" || frac != "")
    requires v == DigitsValue(whole)
    ensures ParsePrice(pre + (sign + (whole + "." + frac)) + post) == Some(if sign == "-" then -(v as int) else v)
  {
    PointBody(whole, frac);
    ParsePriceOfPadded(pre, sign, whole + "." + frac, post, v);
  }

  /** The same for the text without a point: padding, an optional sign and
      at least one digit. */
  lemma ParsePriceValueWhole(pre: string, sign: string, whole: string, post: string, v: nat)
    requires AllWhitespace(pre) && AllWhitespace(post)
    requires sign == "" || sign == "+" || sign == "-"
    requires IsDigitString(whole) && v == DigitsValue(whole)
    ensures ParsePrice(pre + (sign + whole) + post) == Some(if sign == "-" then -(v as int) else v)
  {
    UnsignedOfDigits(whole);
    ParsePriceOfPadded(pre, sign, whole, post, v);
  }

  /** Text with no comma is read as it stands. */
  lemma ParsePriceOfCommaFree(t: string)
    requires t != "" && forall i :: 0 <= i < |t| ==> t[i] != ','
    ensures ParsePrice(t) == TruncatedNumber(t)
  {
    RemoveAllAbsent(t, ',');
  }

  /** Unsigned decimal text without surrounding whitespace reads back as
      the value of its whole part. */
  lemma ParsePriceOfUnsigned(body: string, v: nat)
    requires |body| > 0 && IsDigit(body[0]) && !IsSpace(body[|body| - 1])
    requires forall i :: 0 <= i < |body| ==> body[i] != ','
    requires UnsignedTruncated(body) == Some(v)
    ensures ParsePrice(body) == Some(v)
  {
    ParsePriceOfCommaFree(body);
    TruncatedOfUnsigned(body, v);
  }

  /** The same text after a minus sign reads back negated. */
  lemma ParsePriceOfNegated(body: string, v: nat)
    requires |body| > 0 && IsDigit(body[0]) && !IsSpace(body[|body| - 1])
    requires forall i :: 0 <= i < |body| ==> body[i] != ','
    requires UnsignedTruncated(body) == Some(v)
    ensures ParsePrice("-" + body) == Some(-(v as int))
  {
    var text := "-" + body;
    forall i | 0 <= i < |text|
      ensures text[i] != ','
    {
      if i > 0 {
        assert text[i] == body[i - 1];
      }
    }
    ParsePriceOfCommaFree(text);
    assert ParsePrice(text) == TruncatedNumber(text);
    TruncatedOfNegated(body, v);
  }

  /** The canonical decimal text of any integer reads back as that integer. */
  lemma ParsePriceOfInteger(n: int)
    ensures ParsePrice(IntText(n)) == Some(n)
  {
    var d := DecimalText(if n < 0 then -n else n);
    UnsignedOfDigits(d);
    if n < 0 {
      ParsePriceOfNegated(d, -n);
    } else {
      ParsePriceOfUnsigned(d, n);
    }
  }

  /** Decimal text with a point has no comma and no surrounding whitespace. */
  lemma PointTextIsClean(whole: string, frac: string)
    requires IsDigitString(whole) && AllDigits(frac)
    ensures var body := whole + "." + frac;
      IsDigit(body[0]) && !IsSpace(body[|body| - 1]) &&
      forall i :: 0 <= i < |body| ==> body[i] != ','
  {
  }

  /** Digits after the decimal point are dropped: truncation of a positive
      amount. */
  lemma ParsePriceTruncates(whole: string, frac: string)
    requires IsDigitString(whole) && AllDigits(frac)
    ensures ParsePrice(whole + "." + frac) == Some(DigitsValue(whole))
  {
    PointTextIsClean(whole, frac);
    UnsignedOfPoint(whole, frac);
    ParsePriceOfUnsigned(whole + "." + frac, DigitsValue(whole));
  }

  /** ... and of a negative amount: truncation is toward zero, not down. */
  lemma ParsePriceTruncatesNegative(whole: string, frac: string, v: nat)
    requires IsDigitString(whole) && AllDigits(frac) && v == DigitsValue(whole)
    ensures ParsePrice("-" + (whole + "." + frac)) == Some(-(v as int))
  {
    PointTextIsClean(whole, frac);
    UnsignedOfPoint(whole, frac);
    ParsePriceOfNegated(whole + "." + frac, v);
  }

  /** Digits grouped by thousands with commas, as the upstream formats prices. */
  function Grouped(d: string): string
  {
    if |d| <= 3 then d else Grouped(d[..|d| - 3]) + "," + d[|d| - 3..]
  }

  /** Removing the separators gives the digits back. */
  lemma {:induction false} GroupedRoundTrip(d: string)
    ensures RemoveAll(Grouped(d), ',') == RemoveAll(d, ',')
    decreases |d|
  {
    if |d| > 3 {
      var head := d[..|d| - 3];
      var tail := d[|d| - 3..];
      GroupedRoundTrip(head);
      RemoveAllConcat(Grouped(head) + ",", tail, ',');
      RemoveAllConcat(Grouped(head), ",", ',');
      RemoveAllConcat(head, tail, ',');
      assert head + tail == d;
    }
  }

  /** A comma-grouped price such as "1,234,500" reads back as its number. */
  lemma ParsePriceOfGrouped(n: nat)
    ensures ParsePrice(Grouped(DecimalText(n))) == Some(n)
  {
    var d := DecimalText(n);
    GroupedRoundTrip(d);
    RemoveAllAbsent(d, ',');
    assert |RemoveAll(Grouped(d), ',')| <= |Grouped(d)|;
    ParsePriceOfInteger(n);
    assert IntText(n) == d;
  }
}
