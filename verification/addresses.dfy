/** The string key under which the in-memory stores file a protocol address. */
module Addresses {
  import opened Basics

  /** A peer's name and device; names are arbitrary and may themselves contain colons. */
  datatype Address = Address(name: string, device: u32)

  const DIGITS: string := "0123456789"

  function Decimal(n: nat): (s: string)
    ensures s != [] && forall c | c in s :: c in DIGITS
  {
    if n < 10 then [DIGITS[n]] else Decimal(n / 10) + [DIGITS[n % 10]]
  }

  function AddressKey(a: Address): string {
    a.name + ":" + Decimal(a.device)
  }

  // ------------------------------------------------------------------ reading a key back

  function DigitValue(c: char): (d: nat)
    requires c in DIGITS
    ensures d < 10 && DIGITS[d] == c
  {
    if c == '0' then 0 else if c == '1' then 1 else if c == '2' then 2 else if c == '3' then 3
    else if c == '4' then 4 else if c == '5' then 5 else if c == '6' then 6 else if c == '7' then 7
    else if c == '8' then 8 else 9
  }

  function ParseDecimal(s: string): Option<nat>
    decreases |s|
  {
    if s == [] then Some(0)
    else if s[|s| - 1] !in DIGITS then None
    else match ParseDecimal(s[..|s| - 1])
      case None => None
      case Some(high) => Some(10 * high + DigitValue(s[|s| - 1]))
  }

  /** The position of the last colon. */
  function LastColon(s: string): (r: Option<nat>)
    ensures r.Some? ==> r.value < |s| && s[r.value] == ':' && ':' !in s[r.value + 1..]
    ensures r.None? ==> ':' !in s
    decreases |s|
  {
    if s == [] then None
    else if s[|s| - 1] == ':' then Some(|s| - 1)
    else
      assert s == s[..|s| - 1] + [s[|s| - 1]];
      LastColon(s[..|s| - 1])
  }

  function ParseKey(key: string): Option<Address> {
    match LastColon(key)
    case None => None
    case Some(k) =>
      match ParseDecimal(key[k + 1..])
      case None => None
      case Some(n) => if n <= U32_MAX then Some(Address(key[..k], n)) else None
  }

  lemma DigitRoundTrip(d: nat)
    requires d < 10
    ensures DigitValue(DIGITS[d]) == d
  {
  }

  lemma {:induction false} DecimalRoundTrip(n: nat)
    ensures ParseDecimal(Decimal(n)) == Some(n)
  {
    var s := Decimal(n);
    DigitRoundTrip(n % 10);
    assert s[|s| - 1] == DIGITS[n % 10];
    if n < 10 {
      assert s[..0] == [];
    } else {
      DecimalRoundTrip(n / 10);
      assert s[..|s| - 1] == Decimal(n / 10);
    }
  }

  lemma {:induction false} LastColonAt(s: string, k: nat)
    requires k < |s| && s[k] == ':' && ':' !in s[k + 1..]
    ensures LastColon(s) == Some(k)
    decreases |s|
  {
  }

  /** Every address can be read back from its key, whatever colons its name contains. */
  lemma KeyRoundTrip(a: Address)
    ensures ParseKey(AddressKey(a)) == Some(a)
  {
    var key, digits := AddressKey(a), Decimal(a.device);
    var k := |a.name|;
    assert key[k] == ':' && key[k + 1..] == digits && key[..k] == a.name;
    assert ':' !in digits by { assert ':' !in DIGITS; }
    LastColonAt(key, k);
    DecimalRoundTrip(a.device);
  }

  /** So no two addresses share a key. */
  lemma KeyInjective(a: Address, b: Address)
    ensures AddressKey(a) == AddressKey(b) <==> a == b
  {
    KeyRoundTrip(a);
    KeyRoundTrip(b);
  }
}
