/**
 * The goal rule shared by the three reconciliation sites (direct donation,
 * payment webhook, scheduler sweep): the free-text goal is sanitised to its
 * digits and dots, read with `parseFloat`, and a request reaches its goal when
 * that number is positive and the confirmed total is at least that number.
 */
module Goal {
  import opened Wrappers
  import opened Text

  /** A character the sanitiser keeps; the pattern `[^0-9.]` removes every other one. */
  predicate Kept(c: char) { IsDigit(c) || c == '.' }

  predicate NumericText(s: string) { forall i :: 0 <= i < |s| ==> Kept(s[i]) }

  /** `raw.replace(/[^0-9.]/g, '')`. */
  function SanitizeGoal(s: string): (r: string)
    ensures NumericText(r)
    ensures |r| <= |s|
  {
    if s == [] then [] else (if Kept(s[0]) then [s[0]] else []) + SanitizeGoal(s[1..])
  }

  lemma {:induction false} SanitizeAppend(a: string, b: string)
    ensures SanitizeGoal(a + b) == SanitizeGoal(a) + SanitizeGoal(b)
  {
    if a == [] {
      assert a + b == b;
    } else {
      assert (a + b)[1..] == a[1..] + b;
      SanitizeAppend(a[1..], b);
    }
  }

  /** Text already made of digits and dots passes through unchanged, so sanitising twice is sanitising once. */
  lemma {:induction false} SanitizeKeepsNumeric(s: string)
    requires NumericText(s)
    ensures SanitizeGoal(s) == s
  {
    if s != [] {
      SanitizeKeepsNumeric(s[1..]);
    }
  }

  /** A text without digits sanitises to dots only. */
  lemma {:induction false} SanitizeNoDigits(s: string)
    requires forall i :: 0 <= i < |s| ==> !IsDigit(s[i])
    ensures forall i :: 0 <= i < |SanitizeGoal(s)| ==> SanitizeGoal(s)[i] == '.'
  {
    if s != [] {
      SanitizeNoDigits(s[1..]);
    }
  }

  /**
   * `parseFloat` on text made of digits and dots: the value of the longest
   * prefix of the form digits[.digits] or .digits; None stands for NaN,
   * which is what `parseFloat` gives when there is no such prefix.
   */
  function ParseDecimal(s: string): (r: Option<real>)
    requires NumericText(s)
    ensures r.Some? ==> r.value >= 0.0
  {
    var k := LeadingDigits(s);
    if k < |s| && s[k] == '.' then
      var m := LeadingDigits(s[k + 1..]);
      if k == 0 && m == 0 then None
      else Some(DigitsValue(s[..k]) as real + Fraction(s[k + 1..][..m]))
    else if k == 0 then None
    else Some(DigitsValue(s[..k]) as real)
  }

  /** The value of the digits after a decimal point. */
  function Fraction(f: string): (x: real)
    requires AllDigits(f)
    ensures x >= 0.0
  {
    DigitsValue(f) as real / Pow10(|f|) as real
  }

  /** `parseFloat` gives NaN exactly on the empty text and on text opening with a dot not followed by a digit. */
  lemma ParseDecimalNaN(s: string)
    requires NumericText(s)
    ensures ParseDecimal(s).None? <==> s == [] || (s[0] == '.' && (|s| == 1 || s[1] == '.'))
  {
    if s != [] && s[0] == '.' {
      assert LeadingDigits(s) == 0;
      if |s| > 1 {
        assert s[1..][0] == s[1];
        assert s[1] == '.' <==> LeadingDigits(s[1..]) == 0;
      }
    }
  }

  lemma AllDigitsLeading(s: string)
    requires AllDigits(s)
    ensures LeadingDigits(s) == |s|
  {
  }

  /** Reading back a printed whole number gives that number. */
  lemma ParseDecimalOfDecimal(n: nat)
    ensures NumericText(Decimal(n))
    ensures ParseDecimal(Decimal(n)) == Some(n as real)
  {
    var s := Decimal(n);
    AllDigitsLeading(s);
    assert s[..|s|] == s;
    DecimalRoundTrip(n);
  }

  /** Reading back `n.f` gives n plus the fraction the digits f denote. */
  lemma ParseDecimalOfFraction(n: nat, f: string)
    requires AllDigits(f)
    ensures NumericText(Decimal(n) + "." + f)
    ensures ParseDecimal(Decimal(n) + "." + f) == Some(n as real + Fraction(f))
  {
    var d := Decimal(n);
    var s := d + "." + f;
    assert NumericText(s);
    PointNumeral(d, f);
    DecimalRoundTrip(n);
  }

  /** `d.f` for digit strings d (non-empty) and f. */
  lemma PointNumeral(d: string, f: string)
    requires AllDigits(d) && AllDigits(f) && d != []
    ensures NumericText(d + "." + f)
    ensures ParseDecimal(d + "." + f) == Some(DigitsValue(d) as real + Fraction(f))
  {
    PointLayout(d, f);
    AllDigitsLeading(f);
    assert f[..|f|] == f;
  }

  /** In `d.f`, the leading digits are exactly d, and the point is followed by exactly f. */
  lemma PointLayout(d: string, f: string)
    requires AllDigits(d) && AllDigits(f)
    ensures var s := d + "." + f;
      && NumericText(s) && LeadingDigits(s) == |d| && |d| < |s| && s[|d|] == '.'
      && s[..|d|] == d && s[|d| + 1..] == f
  {
    var s := d + "." + f;
    assert s == d + ("." + f);
    LeadingDigitsOf(d, "." + f);
  }

  lemma DigitsValueSnoc(s: string, c: char)
    requires AllDigits(s) && IsDigit(c)
    ensures AllDigits(s + [c])
    ensures DigitsValue(s + [c]) == DigitsValue(s) * 10 + DigitValue(c)
  {
    assert (s + [c])[..|s|] == s;
  }

  /** `donationamount?.toString() || "0"`: a missing or empty goal reads as "0". */
  function RawGoal(donationamount: Option<string>): (raw: string)
    ensures raw != []
    ensures donationamount.Some? && donationamount.value != [] ==> raw == donationamount.value
  {
    if donationamount.None? || donationamount.value == [] then "0" else donationamount.value
  }

  /** The goal exactly as the source reads it: `parseFloat(rawGoal.replace(/[^0-9.]/g, ''))`. */
  function GoalAsWritten(donationamount: Option<string>): Option<real> {
    ParseDecimal(SanitizeGoal(RawGoal(donationamount)))
  }

  /** Drops the dots in front of the first digit (the dot of a label such as "Rs."). */
  function DropLeadingDots(s: string): (r: string)
    requires NumericText(s)
    ensures NumericText(r)
    ensures r == [] || IsDigit(r[0])
    ensures exists k :: 0 <= k <= |s| && r == s[k..] && forall i :: 0 <= i < k ==> s[i] == '.'
  {
    if s == [] || IsDigit(s[0]) then
      assert s == s[0..];
      s
    else
      var r := DropLeadingDots(s[1..]);
      var k :| 0 <= k <= |s[1..]| && r == s[1..][k..] && forall i :: 0 <= i < k ==> s[1..][i] == '.';
      assert r == s[k + 1..];
      r
  }

  /**
   * The goal as the reconciliation sites are meant to read it: sanitised as in
   * the source, but a dot in front of every digit is not taken for a decimal
   * point. This is the corrected reading; the reconciliation sites keep the
   * source's reading, `GoalAsWritten`.
   */
  function GoalAmount(donationamount: Option<string>): Option<real> {
    ParseDecimal(DropLeadingDots(SanitizeGoal(RawGoal(donationamount))))
  }

  /** `!isNaN(goalAmount) && goalAmount > 0 && totalRaised >= goalAmount`. */
  predicate GoalMet(goal: Option<real>, total: real) {
    goal.Some? && goal.value > 0.0 && total >= goal.value
  }

  /** Once reached, a goal stays reached as the total grows. */
  lemma GoalMetMonotone(goal: Option<real>, total: real, more: real)
    requires GoalMet(goal, total) && total <= more
    ensures GoalMet(goal, more)
  {
  }

  /** A missing or empty goal reads as "0" and is never reached, whatever was raised. */
  lemma MissingGoalNeverMet(total: real)
    ensures GoalAmount(None) == Some(0.0) && !GoalMet(GoalAmount(None), total)
    ensures GoalAmount(Some("")) == Some(0.0) && !GoalMet(GoalAmount(Some("")), total)
    ensures GoalAsWritten(None) == GoalAsWritten(Some("")) == Some(0.0)
    ensures !GoalMet(GoalAsWritten(None), total) && !GoalMet(GoalAsWritten(Some("")), total)
  {
    ParseDecimalOfDecimal(0);
    assert Decimal(0) == "0";
    assert SanitizeGoal("0") == "0";
    assert DropLeadingDots("0") == "0";
  }

  /** A goal written without any digit is never reached, whatever was raised. */
  lemma NoDigitsNeverMet(s: string, total: real)
    requires forall i :: 0 <= i < |s| ==> !IsDigit(s[i])
    ensures !GoalMet(GoalAmount(Some(s)), total)
    ensures !GoalMet(GoalAsWritten(Some(s)), total)
  {
    if s == [] {
      MissingGoalNeverMet(total);
      assert SanitizeGoal("0") == "0";
    } else {
      SanitizeNoDigits(s);
      var t := SanitizeGoal(s);
      assert DropLeadingDots(t) == [];
      ParseDecimalNaN(t);
      if t != [] && |t| > 1 {
        assert t[1] == '.';
      }
    }
  }

  /**
   * A label without digits written in front of an amount does not change the
   * goal: "Rs. 5,000" reads as 5,000. (GoalAsWritten reads it as 0.5.)
   */
  lemma LabelIgnored(tag: string, amount: string)
    requires forall i :: 0 <= i < |tag| ==> !IsDigit(tag[i])
    requires amount != [] && IsDigit(amount[0])
    ensures GoalAmount(Some(tag + amount)) == GoalAmount(Some(amount)) == GoalAsWritten(Some(amount))
  {
    SanitizeAppend(tag, amount);
    SanitizeNoDigits(tag);
    var l := SanitizeGoal(tag);
    var a := SanitizeGoal(amount);
    assert amount == [amount[0]] + amount[1..];
    SanitizeAppend([amount[0]], amount[1..]);
    assert a != [] && IsDigit(a[0]);
    DropDotsPrefix(l, a);
  }

  lemma {:induction false} DropDotsPrefix(dots: string, a: string)
    requires forall i :: 0 <= i < |dots| ==> dots[i] == '.'
    requires NumericText(a) && a != [] && IsDigit(a[0])
    ensures NumericText(dots + a)
    ensures DropLeadingDots(dots + a) == a
  {
    if dots != [] {
      assert (dots + a)[1..] == dots[1..] + a;
      DropDotsPrefix(dots[1..], a);
    }
  }

  /** Where the sanitised goal does not open with a dot, the corrected reading is the source's reading. */
  lemma CorrectionAgrees(donationamount: Option<string>)
    requires var t := SanitizeGoal(RawGoal(donationamount)); t == [] || t[0] != '.'
    ensures GoalAmount(donationamount) == GoalAsWritten(donationamount)
  {
    var t := SanitizeGoal(RawGoal(donationamount));
    if t != [] {
      assert IsDigit(t[0]);
      DropDotsPrefix([], t);
      assert [] + t == t;
    }
  }

  /** The value of "5000", digit by digit. */
  lemma FiveThousand()
    ensures AllDigits("5000") && DigitsValue("5000") == 5000
    ensures AllDigits("50000") && DigitsValue("50000") == 50000
  {
    assert DigitsValue("5") == 5 by { assert "5"[..0] == ""; }
    DigitsValueSnoc("5", '0');
    assert "5" + ['0'] == "50";
    DigitsValueSnoc("50", '0');
    assert "50" + ['0'] == "500";
    DigitsValueSnoc("500", '0');
    assert "500" + ['0'] == "5000";
    DigitsValueSnoc("5000", '0');
    assert "5000" + ['0'] == "50000";
  }

  /** A plain digit string reads as the number it denotes. */
  lemma WholeNumeral(d: string)
    requires AllDigits(d) && d != []
    ensures NumericText(d)
    ensures ParseDecimal(d) == Some(DigitsValue(d) as real)
  {
    AllDigitsLeading(d);
    assert d[..|d|] == d;
  }

  /** `.f` for a non-empty digit string f reads as the fraction f denotes. */
  lemma PointFraction(f: string)
    requires AllDigits(f) && f != []
    ensures NumericText("." + f)
    ensures ParseDecimal("." + f) == Some(Fraction(f))
  {
    var s := "." + f;
    assert LeadingDigits(s) == 0;
    assert s[1..] == f;
    AllDigitsLeading(f);
    assert f[..|f|] == f;
    assert s[..0] == [];
  }

  lemma SanitizeLabel()
    ensures SanitizeGoal("Rs. ") == "."
  {
    assert "Rs. "[1..] == "s. " && "s. "[1..] == ". " && ". "[1..] == " " && " "[1..] == [];
  }

  lemma SanitizeThousands()
    ensures SanitizeGoal("5,000") == "5000"
  {
    assert "5,000"[1..] == ",000" && ",000"[1..] == "000" && "000"[1..] == "00" && "00"[1..] == "0" && "0"[1..] == [];
  }

  lemma LabelDotDropped()
    ensures DropLeadingDots("." + "5000") == "5000"
  {
    assert ("." + "5000")[1..] == "5000";
  }

  lemma LabelledSanitised()
    ensures SanitizeGoal("Rs. 5,000") == "." + "5000"
  {
    assert "Rs. 5,000" == "Rs. " + "5,000";
    SanitizeAppend("Rs. ", "5,000");
    SanitizeLabel();
    SanitizeThousands();
  }

  lemma ReadFiveThousand()
    ensures ParseDecimal("." + "5000") == Some(0.5)
    ensures ParseDecimal("5000") == Some(5000.0)
    ensures ParseDecimal("50000") == Some(50000.0)
  {
    FiveThousand();
    PointFraction("5000");
    assert Pow10(4) == 10000;
    WholeNumeral("5000");
    WholeNumeral("50000");
  }

  /** The label "Rs. " keeps its dot under the source's sanitiser: "Rs. 5,000" becomes ".5000", i.e. 0.5. */
  lemma LabelledGoalAsWritten()
    ensures GoalAsWritten(Some("Rs. 5,000")) == Some(0.5)
    ensures GoalAmount(Some("Rs. 5,000")) == Some(5000.0)
    ensures GoalMet(GoalAsWritten(Some("Rs. 5,000")), 1.0)
    ensures !GoalMet(GoalAmount(Some("Rs. 5,000")), 1.0)
  {
    LabelledSanitised();
    LabelDotDropped();
    ReadFiveThousand();
  }

  /** "₹50,000" reads as 50,000, which donations of 30,000 and 25,000 reach. */
  lemma RupeeGoalExample()
    ensures GoalAmount(Some("₹50,000")) == Some(50000.0)
    ensures GoalMet(GoalAmount(Some("₹50,000")), 30000.0 + 25000.0)
    ensures !GoalMet(GoalAmount(Some("₹50,000")), 30000.0)
    ensures GoalAsWritten(Some("₹50,000")) == Some(50000.0)
    ensures GoalMet(GoalAsWritten(Some("₹50,000")), 30000.0 + 25000.0)
    ensures !GoalMet(GoalAsWritten(Some("₹50,000")), 30000.0)
  {
    assert SanitizeGoal("₹50,000") == "50000";
    CorrectionAgrees(Some("₹50,000"));
    assert DropLeadingDots("50000") == "50000";
    ReadFiveThousand();
  }
}
