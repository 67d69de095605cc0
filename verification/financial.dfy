/** The financial view of one member: the payment-status badge, the amount
    formatting fallback, and when the share section appears. */
module Financial {
  import opened Wrappers
  import opened Members
  import Decimal

  datatype PaymentStatus = FullyPaid | PartiallyPaid | Unpaid | Unknown

  /** A JavaScript truthy text: present and non-empty. */
  predicate Truthy(s: Option<string>) {
    s.Some? && s.value != ""
  }

  /** An amount as the badge reads it: `None` stands for an absent or empty
      field, which `|| "0"` turns into zero. */
  function AmountOrZero(a: Option<int>): int {
    a.GetOr(0)
  }

  /** `getPaymentStatusBadge`: the first matching branch of "fully paid"
      (nothing remains, something paid), "partially paid" (something paid,
      something remains), "unpaid" (nothing paid), else "unknown". The total
      is read but never consulted. */
  function StatusOf(total: Option<int>, paid: Option<int>, remaining: Option<int>): (s: PaymentStatus)
    ensures s == FullyPaid <==> AmountOrZero(remaining) == 0 && AmountOrZero(paid) > 0
    ensures s == PartiallyPaid <==> AmountOrZero(paid) > 0 && AmountOrZero(remaining) > 0
    ensures s == Unpaid <==> AmountOrZero(paid) == 0
    ensures s == Unknown <==> AmountOrZero(paid) < 0 || (AmountOrZero(paid) > 0 && AmountOrZero(remaining) < 0)
  {
    var p := AmountOrZero(paid);
    var r := AmountOrZero(remaining);
    if r == 0 && p > 0 then FullyPaid
    else if p > 0 && r > 0 then PartiallyPaid
    else if p == 0 then Unpaid
    else Unknown
  }

  /** The total never affects the badge. */
  lemma TotalIgnored(total: Option<int>, otherTotal: Option<int>, paid: Option<int>, remaining: Option<int>)
    ensures StatusOf(otherTotal, paid, remaining) == StatusOf(total, paid, remaining)
  {
  }

  /** A record's amount as the badge reads it, from the record's text:
      absent and empty both give `None`; any other text is read by `parse`
      (standing in for `parseFloat`, which is not modelled). */
  function AmountOf(s: Option<string>, parse: string -> int): (a: Option<int>)
    ensures a.None? <==> !Truthy(s)
  {
    if Truthy(s) then Some(parse(s.value)) else None
  }

  /** The badge of a member record. */
  function MemberStatus(m: Member, parse: string -> int): PaymentStatus {
    StatusOf(AmountOf(m.totalAmount, parse), AmountOf(m.paidAmount, parse), AmountOf(m.remainingAmount, parse))
  }

  /** A record whose paid amount is absent or empty is unpaid, whatever the
      other amounts say. */
  lemma NoPaidAmountIsUnpaid(m: Member, parse: string -> int)
    requires !Truthy(m.paidAmount)
    ensures MemberStatus(m, parse) == Unpaid
  {
  }

  /** `parseFloat` on plain digit text: the number the digits denote. Other
      text is read as zero here; the seed amounts are all digit text. */
  function DigitAmount(s: string): int {
    if Decimal.AllDigits(s) then Decimal.Value(s) else 0
  }

  /** The badges of the four seed records: 001 (75000 of 100000 paid,
      25000 left), 003 and 010 are partly paid; 002 (60000 paid, 0 left) is
      fully paid. A record with no amounts at all is unpaid. */
  lemma SeedStatuses(m: Member)
    ensures MemberStatus(Seed001, DigitAmount) == PartiallyPaid
    ensures MemberStatus(Seed002, DigitAmount) == FullyPaid
    ensures MemberStatus(Seed003, DigitAmount) == PartiallyPaid
    ensures MemberStatus(Seed010, DigitAmount) == PartiallyPaid
    ensures MemberStatus(m.(totalAmount := None, paidAmount := None, remainingAmount := None), DigitAmount) == Unpaid
  {
    PositiveAmount("75000");
    PositiveAmount("25000");
    PositiveAmount("60000");
    PositiveAmount("50000");
    PositiveAmount("100000");
    PositiveAmount("150000");
    assert "0"[..0] == [];
    assert Decimal.Value("0") == 0;
  }

  /** A digit text whose first digit is not zero is a positive amount. */
  lemma PositiveAmount(s: string)
    requires Decimal.AllDigits(s) && |s| > 0 && s[0] != '0'
    ensures DigitAmount(s) > 0
  {
    Decimal.ValuePositive(s, 0);
  }

  /** `formatAmount`: an absent or empty amount shows as "₹0"; any other
      text is shown after "₹" as `localise` renders it (the number's
      locale formatting, which is not modelled). */
  function FormatAmount(amount: Option<string>, localise: string -> string): (s: string)
    ensures |s| >= 1 && s[0] == '₹'
    ensures amount.None? || amount == Some("") ==> s == "₹0"
    ensures amount.Some? && amount.value != "" ==> s[1..] == localise(amount.value)
  {
    if amount.None? || amount.value == "" then "₹0" else "₹" + localise(amount.value)
  }

  /** The share section is shown when any of share number, number of shares
      or share capital is truthy. */
  predicate ShareSectionShown(m: Member) {
    Truthy(m.shareNo) || Truthy(m.noOfShare) || Truthy(m.shareCapitalAmount)
  }

  predicate IsShareField(f: Field) {
    f == ShareNo || f == NoOfShare || f == ShareCapitalAmount
  }

  /** The section is shown exactly when some share field is truthy, and
      editing any other field never shows or hides it. */
  lemma ShareSectionIff(m: Member, g: Field, v: string)
    ensures ShareSectionShown(m) <==> exists f :: IsShareField(f) && Truthy(Get(m, f))
    ensures !IsShareField(g) ==> ShareSectionShown(Set(m, g, v)) == ShareSectionShown(m)
  {
    if ShareSectionShown(m) {
      if Truthy(m.shareNo) { assert Truthy(Get(m, ShareNo)); }
      else if Truthy(m.noOfShare) { assert Truthy(Get(m, NoOfShare)); }
      else { assert Truthy(Get(m, ShareCapitalAmount)); }
    }
    if !IsShareField(g) {
      var n := Set(m, g, v);
      assert Get(n, ShareNo) == Get(m, ShareNo);
      assert Get(n, NoOfShare) == Get(m, NoOfShare);
      assert Get(n, ShareCapitalAmount) == Get(m, ShareCapitalAmount);
    }
  }
}
