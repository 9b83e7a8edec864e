/** The field validators of the user serializers (librarian/serializers.py):
    passport and phone formats, address length and birth dates.

    The two regular expressions are anchored and consist of single character
    classes with fixed repetition counts, so each is modelled as a pattern:
    a sequence with one character class per position, which a string fully
    matches when it has one character per class, each in its class.
    Two differences from Python's `re.match` are not modelled: `$` also
    accepts a string that ends in a single "\n" after the match, and `\d`
    also accepts non-ASCII decimal digits; here a digit is '0'..'9'. */
module Validators {
  import opened Outcomes
  import opened InventoryNumbers

  datatype CharRange = CharRange(lo: char, hi: char)

  /** A bracket expression such as [A-ZА-Я]: a union of character ranges. */
  datatype CharClass = CharClass(ranges: seq<CharRange>)

  predicate InClass(c: char, cls: CharClass) {
    exists k :: 0 <= k < |cls.ranges| && cls.ranges[k].lo <= c <= cls.ranges[k].hi
  }

  /** `x{n}`: the class repeated n times. */
  function Repeat(cls: CharClass, n: nat): seq<CharClass> {
    seq(n, _ => cls)
  }

  function Literal(c: char): CharClass {
    CharClass([CharRange(c, c)])
  }

  /** A full, anchored match of s against the pattern. */
  function FullMatch(pattern: seq<CharClass>, s: string): (ok: bool)
    ensures ok <==> |s| == |pattern| && forall i :: 0 <= i < |s| ==> InClass(s[i], pattern[i])
  {
    if pattern == [] then s == []
    else if s == [] then false
    else
      var rest := FullMatch(pattern[1..], s[1..]);
      assert rest <==> |s| == |pattern| && forall i :: 1 <= i < |s| ==> InClass(s[i], pattern[i]) by {
        if |s| == |pattern| {
          forall i | 1 <= i < |s| ensures s[1..][i - 1] == s[i] && pattern[1..][i - 1] == pattern[i] { }
        }
      }
      InClass(s[0], pattern[0]) && rest
  }

  /** The letters of a passport series: Latin A-Z and Cyrillic А-Я
      (U+0410..U+042F, which leaves out Ё). */
  predicate IsSeriesLetter(c: char) {
    'A' <= c <= 'Z' || '\U{0410}' <= c <= '\U{042F}'
  }

  const SeriesLetter: CharClass := CharClass([CharRange('A', 'Z'), CharRange('\U{0410}', '\U{042F}')])
  const Digit: CharClass := CharClass([CharRange('0', '9')])

  /** `^[A-ZА-Я]{2}\d{6}$` */
  const PassportPattern: seq<CharClass> := Repeat(SeriesLetter, 2) + Repeat(Digit, 6)

  /** `^\+996\d{9}$` */
  const PhonePattern: seq<CharClass> := [Literal('+'), Literal('9'), Literal('9'), Literal('6')] + Repeat(Digit, 9)

  const PhonePrefix: string := "+996"

  datatype FieldError =
    | PassportFormat
    | PhoneFormat
    | AddressTooShort
    | BirthDateInFuture
    | UnderAge

  lemma SeriesLetterClass(c: char)
    ensures InClass(c, SeriesLetter) <==> IsSeriesLetter(c)
  {
    if 'A' <= c <= 'Z' { assert SeriesLetter.ranges[0].lo <= c <= SeriesLetter.ranges[0].hi; }
    if '\U{0410}' <= c <= '\U{042F}' { assert SeriesLetter.ranges[1].lo <= c <= SeriesLetter.ranges[1].hi; }
  }

  lemma DigitClass(c: char)
    ensures InClass(c, Digit) <==> IsDigit(c)
  {
    if IsDigit(c) { assert Digit.ranges[0].lo <= c <= Digit.ranges[0].hi; }
  }

  lemma LiteralClass(c: char, d: char)
    ensures InClass(c, Literal(d)) <==> c == d
  {
    if c == d { assert Literal(d).ranges[0].lo <= c <= Literal(d).ranges[0].hi; }
  }

  lemma PassportPatternMeaning(value: string)
    ensures FullMatch(PassportPattern, value) <==>
              (|value| == 8
               && (forall i :: 0 <= i < 2 ==> IsSeriesLetter(value[i]))
               && (forall i :: 2 <= i < 8 ==> IsDigit(value[i])))
  {
    assert |PassportPattern| == 8;
    assert forall i :: 0 <= i < 2 ==> PassportPattern[i] == SeriesLetter;
    assert forall i :: 2 <= i < 8 ==> PassportPattern[i] == Digit;
    forall c: char ensures InClass(c, SeriesLetter) <==> IsSeriesLetter(c) {
      SeriesLetterClass(c);
    }
    forall c: char ensures InClass(c, Digit) <==> IsDigit(c) {
      DigitClass(c);
    }
  }

  lemma PhonePatternMeaning(value: string)
    ensures FullMatch(PhonePattern, value) <==>
              (|value| == 13 && value[..4] == PhonePrefix
               && (forall i :: 4 <= i < 13 ==> IsDigit(value[i])))
  {
    assert |PhonePattern| == 13;
    assert forall i :: 4 <= i < 13 ==> PhonePattern[i] == Digit;
    forall c: char ensures InClass(c, Digit) <==> IsDigit(c) {
      DigitClass(c);
    }
    forall c: char, i | 0 <= i < 4 ensures InClass(c, PhonePattern[i]) <==> c == PhonePrefix[i] {
      LiteralClass(c, PhonePrefix[i]);
    }
    if |value| == 13 {
      assert value[..4] == PhonePrefix <==> forall i :: 0 <= i < 4 ==> value[i] == PhonePrefix[i];
    }
  }

  /** validate_passport: accepted exactly when the value is two series
      letters followed by six digits. */
  function ValidatePassport(value: string): (r: Result<string, FieldError>)
    ensures r.Ok? ==> r.value == value
    ensures r.Err? ==> r.error == PassportFormat
    ensures r.Ok? <==> (|value| == 8
                        && (forall i :: 0 <= i < 2 ==> IsSeriesLetter(value[i]))
                        && (forall i :: 2 <= i < 8 ==> IsDigit(value[i])))
  {
    PassportPatternMeaning(value);
    if FullMatch(PassportPattern, value) then Ok(value) else Err(PassportFormat)
  }

  /** validate_phone: accepted exactly when the value is "+996" followed by
      nine digits. */
  function ValidatePhone(value: string): (r: Result<string, FieldError>)
    ensures r.Ok? ==> r.value == value
    ensures r.Err? ==> r.error == PhoneFormat
    ensures r.Ok? <==> (|value| == 13 && value[..4] == PhonePrefix
                        && (forall i :: 4 <= i < 13 ==> IsDigit(value[i])))
  {
    PhonePatternMeaning(value);
    if FullMatch(PhonePattern, value) then Ok(value) else Err(PhoneFormat)
  }

  // ---------------------------------------------------------------------
  // Addresses

  /** Python's str.isspace for a single character. */
  predicate IsSpace(c: char) {
    var n := c as int;
    || 0x09 <= n <= 0x0D || 0x1C <= n <= 0x20 || n == 0x85 || n == 0xA0 || n == 0x1680
    || 0x2000 <= n <= 0x200A || n == 0x2028 || n == 0x2029 || n == 0x202F || n == 0x205F || n == 0x3000
  }

  predicate AllSpace(s: string) {
    forall i :: 0 <= i < |s| ==> IsSpace(s[i])
  }

  /** The number of whitespace characters at the start of s. */
  function LeadingSpace(s: string): (n: nat)
    ensures n <= |s| && AllSpace(s[..n])
    ensures n < |s| ==> !IsSpace(s[n])
  {
    if s == [] || !IsSpace(s[0]) then 0
    else
      var m := LeadingSpace(s[1..]);
      assert s[..m + 1] == [s[0]] + s[1..][..m];
      m + 1
  }

  /** The number of whitespace characters at the end of s. */
  function TrailingSpace(s: string): (n: nat)
    ensures n <= |s| && AllSpace(s[|s| - n..])
    ensures n < |s| ==> !IsSpace(s[|s| - n - 1])
  {
    if s == [] || !IsSpace(s[|s| - 1]) then 0
    else
      var init := s[..|s| - 1];
      var m := TrailingSpace(init);
      assert s[|s| - (m + 1)..] == init[|init| - m..] + [s[|s| - 1]];
      m + 1
  }

  /** Whitespace at the end of the suffix s[lo..] is whitespace at the end of s. */
  lemma SpaceAtEnd(s: string, lo: nat, n: nat)
    requires lo <= |s| && n <= |s| - lo
    requires AllSpace(s[lo..][|s| - lo - n..])
    requires n < |s| - lo ==> !IsSpace(s[lo..][|s| - lo - n - 1])
    ensures AllSpace(s[|s| - n..])
    ensures n < |s| - lo ==> !IsSpace(s[|s| - n - 1])
  {
    assert s[lo..][|s| - lo - n..] == s[|s| - n..];
  }

  /** str.strip(): s without its leading and trailing whitespace, as the
      bounds [lo, hi) of the kept slice. */
  function StripBounds(s: string): (bounds: (nat, nat))
    ensures bounds.0 <= bounds.1 <= |s|
    ensures AllSpace(s[..bounds.0]) && AllSpace(s[bounds.1..])
    ensures bounds.0 < bounds.1 ==> !IsSpace(s[bounds.0]) && !IsSpace(s[bounds.1 - 1])
  {
    var lo := LeadingSpace(s);
    var n := TrailingSpace(s[lo..]);
    SpaceAtEnd(s, lo, n);
    (lo, |s| - n)
  }

  function Strip(s: string): string {
    var b := StripBounds(s);
    s[b.0..b.1]
  }

  /** Stripping removes only whitespace: every other character lies inside
      the kept slice. */
  lemma StripKeepsContent(s: string, i: nat)
    requires i < |s|
    ensures !IsSpace(s[i]) ==> StripBounds(s).0 <= i < StripBounds(s).1
  {
    var b := StripBounds(s);
    if i < b.0 { assert s[..b.0][i] == s[i]; }
    if i >= b.1 { assert s[b.1..][i - b.1] == s[i]; }
  }

  lemma NoLeadingSpace(t: string)
    requires |t| > 0 && !IsSpace(t[0])
    ensures LeadingSpace(t) == 0
  {
  }

  lemma NoTrailingSpace(t: string)
    requires |t| > 0 && !IsSpace(t[|t| - 1])
    ensures TrailingSpace(t) == 0
  {
  }

  /** A text that starts and ends with non-whitespace is kept whole. */
  lemma StripBoundsOfTrimmed(t: string)
    requires |t| > 0 && !IsSpace(t[0]) && !IsSpace(t[|t| - 1])
    ensures StripBounds(t) == (0, |t|)
  {
    NoLeadingSpace(t);
    assert t[0..] == t;
    NoTrailingSpace(t);
  }

  /** A non-empty stripped text starts and ends with non-whitespace. */
  lemma StripEnds(s: string)
    requires StripBounds(s).0 < StripBounds(s).1
    ensures |Strip(s)| > 0 && !IsSpace(Strip(s)[0]) && !IsSpace(Strip(s)[|Strip(s)| - 1])
  {
    var b := StripBounds(s);
    var t := s[b.0..b.1];
    assert t[0] == s[b.0];
    assert t[|t| - 1] == s[b.1 - 1];
  }

  /** The stripped text neither starts nor ends with whitespace, so stripping
      it again changes nothing. */
  lemma StripIdempotent(s: string)
    ensures Strip(Strip(s)) == Strip(s)
  {
    if StripBounds(s).0 < StripBounds(s).1 {
      StripEnds(s);
      var t := Strip(s);
      StripBoundsOfTrimmed(t);
      assert t[0..|t|] == t;
    }
  }

  const MinAddressLength: nat := 5

  /** validate_address: rejected when the address, stripped of surrounding
      whitespace, has fewer than five characters. */
  function ValidateAddress(value: string): (r: Result<string, FieldError>)
    ensures r.Ok? ==> r.value == value
    ensures r.Err? ==> r.error == AddressTooShort
    ensures r.Err? <==> StripBounds(value).1 - StripBounds(value).0 < MinAddressLength
  {
    if |Strip(value)| < MinAddressLength then Err(AddressTooShort) else Ok(value)
  }

  /** Any address with fewer than five non-whitespace characters is rejected,
      wherever its whitespace stands. */
  lemma ShortAddressRejected(value: string)
    requires |value| < MinAddressLength || AllSpace(value)
    ensures ValidateAddress(value).Err?
  {
  }

  // ---------------------------------------------------------------------
  // Birth dates

  /** A calendar date, compared as Python compares dates: by year, then
      month, then day. */
  datatype Date = Date(year: int, month: int, day: int)

  predicate Before(a: Date, b: Date) {
    a.year < b.year || (a.year == b.year && (a.month < b.month || (a.month == b.month && a.day < b.day)))
  }

  /** The tuple comparison (a.month, a.day) < (b.month, b.day). */
  predicate MonthDayBefore(a: Date, b: Date) {
    a.month < b.month || (a.month == b.month && a.day < b.day)
  }

  /** The n-th birthday of someone born on birth (same month and day). */
  function Anniversary(birth: Date, n: int): Date {
    Date(birth.year + n, birth.month, birth.day)
  }

  /** The age used at registration: the difference of the years, less one
      when this year's (month, day) has not yet reached the birthday. */
  function AgeOn(birth: Date, today: Date): (age: int)
    ensures !Before(today, Anniversary(birth, age))
    ensures Before(today, Anniversary(birth, age + 1))
  {
    today.year - birth.year - (if MonthDayBefore(today, birth) then 1 else 0)
  }

  /** The age is the number of birthdays already reached: it is at least n
      exactly when the n-th birthday is on or before today. */
  lemma {:induction false} AgeAtLeast(birth: Date, today: Date, n: int)
    ensures AgeOn(birth, today) >= n <==> !Before(today, Anniversary(birth, n))
  {
    var a := AgeOn(birth, today);
    if a >= n {
      assert !Before(today, Anniversary(birth, a));
    } else {
      assert Before(today, Anniversary(birth, a + 1));
    }
  }

  const MinRegistrationAge: int := 14

  /** RegisterSerializer.validate_birth_date: rejected under fourteen, that
      is, when the fourteenth birthday is still ahead. */
  function ValidateRegistrationBirthDate(value: Date, today: Date): (r: Result<Date, FieldError>)
    ensures r.Ok? ==> r.value == value
    ensures r.Err? ==> r.error == UnderAge
    ensures r.Err? <==> Before(today, Anniversary(value, MinRegistrationAge))
  {
    AgeAtLeast(value, today, MinRegistrationAge);
    if AgeOn(value, today) < MinRegistrationAge then Err(UnderAge) else Ok(value)
  }

  /** UserSerializer.validate_birth_date: an empty value passes; a date after
      today is rejected. */
  function ValidateProfileBirthDate(value: Option<Date>, today: Date): (r: Result<Option<Date>, FieldError>)
    ensures r.Ok? ==> r.value == value
    ensures r.Err? ==> r.error == BirthDateInFuture
    ensures r.Err? <==> value.Some? && Before(today, value.value)
  {
    if value.Some? && Before(today, value.value) then Err(BirthDateInFuture) else Ok(value)
  }

  /** Whoever passes the registration age check was born in the past, so
      passes the profile check too. */
  lemma RegisteredBirthDateNotInFuture(value: Date, today: Date)
    requires ValidateRegistrationBirthDate(value, today).Ok?
    ensures ValidateProfileBirthDate(Some(value), today).Ok?
  {
  }
}
