/** The human-readable inventory number of a copy: "INV-" followed by the
    row id written in decimal and zero-padded to at least five digits
    (the format `INV-{id:05d}` of Inventory.save). */
module InventoryNumbers {
  import opened Outcomes

  const Prefix: string := "INV-"
  const Width: nat := 5

  predicate IsDigit(c: char) {
    '0' <= c <= '9'
  }

  predicate AllDigits(s: string) {
    forall i :: 0 <= i < |s| ==> IsDigit(s[i])
  }

  function DigitChar(d: nat): (c: char)
    requires d < 10
    ensures IsDigit(c) && c as int - '0' as int == d
  {
    ('0' as int + d) as char
  }

  /** The decimal digits of n, most significant first, without leading zeros. */
  function Decimal(n: nat): (s: string)
    ensures |s| >= 1 && AllDigits(s)
    ensures |s| > 1 ==> s[0] != '0'
    decreases n
  {
    if n < 10 then [DigitChar(n)] else Decimal(n / 10) + [DigitChar(n % 10)]
  }

  /** The number a string of decimal digits denotes (leading zeros allowed). */
  function DigitsValue(s: string): nat
    requires AllDigits(s)
  {
    if s == [] then 0
    else DigitsValue(s[..|s| - 1]) * 10 + (s[|s| - 1] as int - '0' as int)
  }

  function Zeros(n: nat): (z: string)
    ensures |z| == n && forall i :: 0 <= i < n ==> z[i] == '0'
  {
    if n == 0 then [] else Zeros(n - 1) + ['0']
  }

  /** Left-pads a digit string with '0' up to the given width. */
  function ZeroPad(s: string, width: nat): (t: string)
    ensures |t| == if |s| >= width then |s| else width
    ensures t == Zeros(|t| - |s|) + s
  {
    if |s| >= width then s else Zeros(width - |s|) + s
  }

  function InventoryNumber(id: nat): (s: string)
    ensures |s| >= |Prefix| + Width
    ensures s[..|Prefix|] == Prefix
    ensures AllDigits(s[|Prefix|..])
  {
    var digits := ZeroPad(Decimal(id), Width);
    assert AllDigits(digits) by {
      forall i | 0 <= i < |digits| ensures IsDigit(digits[i]) {
        var z := |digits| - |Decimal(id)|;
        if i >= z {
          assert digits[i] == Decimal(id)[i - z];
        }
      }
    }
    assert (Prefix + digits)[|Prefix|..] == digits;
    Prefix + digits
  }

  /** Reads an inventory number back: the inverse of InventoryNumber. */
  function ParseInventoryNumber(s: string): (r: Option<nat>)
    ensures r.Some? ==> |s| > |Prefix| && s[..|Prefix|] == Prefix && AllDigits(s[|Prefix|..])
  {
    if |s| > |Prefix| && s[..|Prefix|] == Prefix && AllDigits(s[|Prefix|..])
    then Some(DigitsValue(s[|Prefix|..]))
    else None
  }

  function Pow10(k: nat): (p: nat)
    ensures p >= 1
  {
    if k == 0 then 1 else 10 * Pow10(k - 1)
  }

  lemma {:induction false} DecimalValue(n: nat)
    ensures DigitsValue(Decimal(n)) == n
    decreases n
  {
    if n >= 10 {
      var s := Decimal(n);
      assert s[..|s| - 1] == Decimal(n / 10);
      DecimalValue(n / 10);
    }
  }

  lemma {:induction false} LeadingZerosValue(k: nat, s: string)
    requires AllDigits(s)
    ensures AllDigits(Zeros(k) + s)
    ensures DigitsValue(Zeros(k) + s) == DigitsValue(s)
    decreases |s|, k
  {
    var t := Zeros(k) + s;
    assert AllDigits(t) by {
      forall i | 0 <= i < |t| ensures IsDigit(t[i]) {
        if i >= k { assert t[i] == s[i - k]; }
      }
    }
    if s == [] {
      if k > 0 {
        assert t == Zeros(k - 1) + ['0'];
        assert t[..|t| - 1] == Zeros(k - 1) + [];
        LeadingZerosValue(k - 1, []);
      }
    } else {
      var init := s[..|s| - 1];
      assert t[..|t| - 1] == Zeros(k) + init;
      LeadingZerosValue(k, init);
    }
  }

  /** Parsing an assigned inventory number gives back the row id. */
  lemma InventoryNumberRoundTrip(id: nat)
    ensures ParseInventoryNumber(InventoryNumber(id)) == Some(id)
  {
    var d := Decimal(id);
    var padded := ZeroPad(d, Width);
    LeadingZerosValue(|padded| - |d|, d);
    DecimalValue(id);
    assert InventoryNumber(id)[|Prefix|..] == padded;
  }

  /** Distinct row ids never share an inventory number, so the uniqueness of
      the inventory_number column can never be violated by Inventory.save. */
  lemma InventoryNumberInjective(a: nat, b: nat)
    requires a != b
    ensures InventoryNumber(a) != InventoryNumber(b)
  {
    InventoryNumberRoundTrip(a);
    InventoryNumberRoundTrip(b);
  }

  lemma {:induction false} DecimalLength(n: nat, k: nat)
    requires k >= 1 && n < Pow10(k)
    ensures |Decimal(n)| <= k
    decreases k
  {
    if n >= 10 {
      assert k >= 2;
      DecimalLength(n / 10, k - 1);
    }
  }

  /** Ids up to 99999 give numbers of exactly nine characters, "INV-00042" style. */
  lemma ShortIdsPadToFive(id: nat)
    requires id < 100000
    ensures |InventoryNumber(id)| == |Prefix| + Width
  {
    assert Pow10(5) == 100000;
    DecimalLength(id, 5);
  }
}
