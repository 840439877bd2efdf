/**
 * The rate update of scripts/update-rates.ts: a fixed table of new daily
 * rates per supplier name, applied to the supplier records and then to every
 * invoice, whose amount and amount in words are recomputed from its days.
 * The database reads and writes become sequences in and out.
 */
module RateUpdate {
  import opened Common
  import Strings
  import AmountWords
  import LegacyWords

  datatype Supplier = Supplier(name: string, rate: int)

  datatype Invoice = Invoice(
    invoiceNumber: string,
    supplier: Supplier,
    days: nat,
    amount: int,
    amountInWords: string)

  /** The updated rates of scripts/update-rates.ts. */
  const SupplierRates: map<string, nat> :=
    map["Joel" := 8686, "Shubhlika" := 7445, "Neetu" := 6204]

  /** `supplierRates[supplierName]` checked by `if (newRate)`: a name without an
      entry reads `undefined` and a zero rate is falsy, so neither applies. */
  function NewRate(rates: map<string, nat>, name: string): (r: Option<nat>)
    ensures r.Some? ==> name in rates && r.value == rates[name] && r.value > 0
    ensures r.None? ==> name !in rates || rates[name] == 0
  {
    if name in rates && rates[name] != 0 then Some(rates[name]) else None
  }

  /** The template `₹${numberToWords(newAmount)} only`. */
  function AmountText(amount: nat): (t: string)
    ensures |t| > 0 && t[0] == '\U{20B9}'
    ensures Strings.EndsWith(t, " Rupees only")
    ensures amount > 0 ==>
      t[1..|t| - 12] == LegacyWords.ConvertToWords(amount) && Strings.IsPhrase(t[1..|t| - 12])
  {
    "\U{20B9}" + LegacyWords.NumberToWords(amount) + " only"
  }

  /** An invoice agrees with the rate table: when its supplier has a rate, the
      invoice carries that rate, days times the rate as its amount, and the
      words of that amount. */
  predicate Consistent(rates: map<string, nat>, inv: Invoice) {
    var r := NewRate(rates, inv.supplier.name);
    r.Some? ==>
      && inv.supplier.rate == r.value
      && inv.amount == inv.days * r.value
      && inv.amountInWords == AmountText(inv.days * r.value)
  }

  /** Everything but the supplier rate, the amount and the amount in words. */
  predicate SameOtherwise(a: Invoice, b: Invoice) {
    && a.invoiceNumber == b.invoiceNumber
    && a.supplier.name == b.supplier.name
    && a.days == b.days
  }

  /** The body of the invoice loop (lines 66-93) for one invoice. */
  function Recompute(rates: map<string, nat>, inv: Invoice): (r: Invoice)
    ensures SameOtherwise(r, inv)
    ensures Consistent(rates, r)
    ensures NewRate(rates, inv.supplier.name).None? ==> r == inv
  {
    match NewRate(rates, inv.supplier.name)
    case None => inv
    case Some(rate) =>
      var amount := inv.days * rate;
      inv.(supplier := inv.supplier.(rate := rate), amount := amount, amountInWords := AmountText(amount))
  }

  /** An invoice is left as it is exactly when it already agrees with the
      table. */
  lemma RecomputeFixpoint(rates: map<string, nat>, inv: Invoice)
    ensures Recompute(rates, inv) == inv <==> Consistent(rates, inv)
  {
  }

  lemma RecomputeIdempotent(rates: map<string, nat>, inv: Invoice)
    ensures Recompute(rates, Recompute(rates, inv)) == Recompute(rates, inv)
  {
    RecomputeFixpoint(rates, Recompute(rates, inv));
  }

  /** The loop over all invoices (lines 65-94). */
  method UpdateInvoices(rates: map<string, nat>, invoices: seq<Invoice>) returns (updated: seq<Invoice>)
    ensures |updated| == |invoices|
    ensures forall i | 0 <= i < |invoices| :: updated[i] == Recompute(rates, invoices[i])
    ensures forall i | 0 <= i < |invoices| :: Consistent(rates, updated[i]) && SameOtherwise(updated[i], invoices[i])
  {
    updated := [];
    var k := 0;
    while k < |invoices|
      invariant k <= |invoices| && |updated| == k
      invariant forall i | 0 <= i < k :: updated[i] == Recompute(rates, invoices[i])
    {
      updated := updated + [Recompute(rates, invoices[k])];
      k := k + 1;
    }
  }

  /** The supplier loop (lines 52-58): `updateMany({ name }, { $set: { rate } })`
      for every entry of the table, whatever its value. */
  function UpdateSupplier(rates: map<string, nat>, s: Supplier): (r: Supplier)
    ensures r.name == s.name
    ensures s.name in rates ==> r.rate == rates[s.name]
    ensures s.name !in rates ==> r == s
  {
    if s.name in rates then s.(rate := rates[s.name]) else s
  }

  function UpdateSuppliers(rates: map<string, nat>, suppliers: seq<Supplier>): (r: seq<Supplier>)
    ensures |r| == |suppliers|
    ensures forall i | 0 <= i < |r| :: r[i] == UpdateSupplier(rates, suppliers[i])
  {
    if |suppliers| == 0 then [] else [UpdateSupplier(rates, suppliers[0])] + UpdateSuppliers(rates, suppliers[1..])
  }

  /** After the run, an updated invoice carries the same rate as every supplier
      record of the same name. */
  lemma RatesAgree(rates: map<string, nat>, s: Supplier, inv: Invoice)
    requires NewRate(rates, inv.supplier.name).Some? && s.name == inv.supplier.name
    ensures UpdateSupplier(rates, s).rate == Recompute(rates, inv).supplier.rate
  {
  }

  /** With a rate below one crore the words are the newer converter's words
      of the amount with "and" removed. */
  lemma RecomputedWords(rates: map<string, nat>, inv: Invoice)
    requires NewRate(rates, inv.supplier.name).Some?
    requires 0 < inv.days * NewRate(rates, inv.supplier.name).value < AmountWords.Crore
    ensures var r := Recompute(rates, inv);
      r.amountInWords
      == "\U{20B9}" + Strings.Join(LegacyWords.WithoutAnd(AmountWords.AmountTokens(r.amount))) + " Rupees" + " only"
  {
    var r := Recompute(rates, inv);
    var n := r.amount;
    var w := LegacyWords.ConvertToWords(n);
    LegacyWords.LegacyMatchesAmountWords(n);
    assert LegacyWords.NumberToWords(n) == w + " Rupees";
    assert r.amountInWords == "\U{20B9}" + (w + " Rupees") + " only";
  }

  /** Zero days give a zero amount, whose words are only " Rupees". */
  lemma ZeroDays(rates: map<string, nat>, inv: Invoice)
    requires NewRate(rates, inv.supplier.name).Some? && inv.days == 0
    ensures Recompute(rates, inv).amount == 0
    ensures Recompute(rates, inv).amountInWords == "\U{20B9} Rupees only"
  {
    ZeroText("\U{20B9}", " Rupees", " only");
  }

  lemma ZeroText(sign: string, rupees: string, only: string)
    requires sign == "\U{20B9}" && rupees == " Rupees" && only == " only"
    ensures sign + rupees + only == "\U{20B9} Rupees only"
  {
  }

  /** A supplier missing from the table keeps its invoices unchanged. */
  lemma UnknownSupplierUnchanged(inv: Invoice)
    requires inv.supplier.name !in SupplierRates
    ensures Recompute(SupplierRates, inv) == inv
  {
  }

  /** One day with Joel. */
  lemma JoelOneDay(inv: Invoice)
    requires inv.supplier.name == "Joel" && inv.days == 1
    ensures Recompute(SupplierRates, inv).amount == 8686
    ensures Recompute(SupplierRates, inv).supplier.rate == 8686
    ensures Recompute(SupplierRates, inv).amountInWords
         == "\U{20B9}" + "Eight Thousand Six Hundred Eighty Six Rupees" + " only"
  {
    assert SupplierRates["Joel"] == 8686;
    LegacyWords.JoelRateWords();
  }
}
