/**
 * Currency handling shared by the direct-donation and webhook paths: only
 * USD is converted to INR, at the live rate or the 83.50 fallback; every
 * other currency is stored as given with rate 1.
 */
module Currency {
  import opened Wrappers
  import opened Text

  /** The static rate used when the rate service fails or answers without an INR rate. */
  const FallbackRate: real := 83.5

  /** `(currency || "INR").toUpperCase()`: the donor's currency, defaulting to INR. */
  function DonorCurrency(currency: Option<string>): (c: string)
    ensures NoLowerCase(c)
    ensures currency.None? || currency.value == [] ==> c == "INR"
    ensures currency.Some? && currency.value != [] ==> c == Upper(currency.value)
  {
    UpperIsUpper(if currency.None? || currency.value == [] then "INR" else currency.value);
    Upper(if currency.None? || currency.value == [] then "INR" else currency.value)
  }

  /**
   * `response.data?.rates?.INR || 83.50`; `fetched` is None when the request
   * threw or the answer had no INR rate, and a zero rate is falsy.
   */
  function RateUsed(fetched: Option<real>): (rate: real)
    ensures fetched.Some? && fetched.value != 0.0 ==> rate == fetched.value
    ensures fetched.None? || fetched.value == 0.0 ==> rate == FallbackRate
  {
    if fetched.Some? && fetched.value != 0.0 then fetched.value else FallbackRate
  }

  /** The INR amount stored for a donation and the rate applied to reach it. */
  datatype Conversion = Conversion(amount: real, rate: real)

  function Convert(currency: string, original: real, fetched: Option<real>): (c: Conversion)
    ensures c.amount == original * c.rate
    ensures currency == "USD" ==> c.rate == RateUsed(fetched)
    ensures currency != "USD" ==> c.rate == 1.0
  {
    if currency == "USD" then Conversion(original * RateUsed(fetched), RateUsed(fetched))
    else Conversion(original, 1.0)
  }

  /** A stored amount is never negative when the donor's amount is not and the rate service gives no negative rate. */
  lemma ConvertNonNegative(currency: string, original: real, fetched: Option<real>)
    requires original >= 0.0
    requires fetched.Some? ==> fetched.value >= 0.0
    ensures Convert(currency, original, fetched).amount >= 0.0
  {
  }

  /** Lower-case "usd" is converted too, because the currency is upper-cased before the comparison. */
  lemma LowerCaseUsdConverted(original: real, fetched: Option<real>)
    ensures DonorCurrency(Some("usd")) == "USD"
    ensures Convert(DonorCurrency(Some("usd")), original, fetched).rate == RateUsed(fetched)
  {
    assert Upper("usd") == "USD";
  }

  /** USD 10 at a live rate of 83 is stored as 830 INR with rate 83; with the service down, at 83.50. */
  lemma UsdExample()
    ensures Convert("USD", 10.0, Some(83.0)) == Conversion(830.0, 83.0)
    ensures Convert("USD", 10.0, None) == Conversion(835.0, 83.5)
    ensures Convert("INR", 10.0, Some(83.0)) == Conversion(10.0, 1.0)
  {
  }
}
