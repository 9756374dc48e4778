/** The pay-stub page's pure logic: the search filter over the fetched stubs,
    the "Latest Payment" card and the record-count label. */
module PayStubsPage {
  import opened Wrappers
  import opened Text
  import opened Numbers

  /** A stub as the page receives it from the pay-stub API: the check number,
      and the net pay already formatted as currency. */
  datatype PayStubView = PayStubView(checkNumber: Option<int>, netPay: Option<string>)

  /** `a` is `b` with some elements left out, the rest in their order. */
  predicate IsSubsequence<T(==)>(a: seq<T>, b: seq<T>)
    decreases |b|
  {
    if a == [] then true
    else if b == [] then false
    else (a[0] == b[0] && IsSubsequence(a[1..], b[1..])) || IsSubsequence(a, b[1..])
  }

  lemma {:induction false} SubsequenceLength<T>(a: seq<T>, b: seq<T>)
    requires IsSubsequence(a, b)
    ensures |a| <= |b|
    decreases |b|
  {
    if a != [] {
      if a[0] == b[0] && IsSubsequence(a[1..], b[1..]) {
        SubsequenceLength(a[1..], b[1..]);
      } else {
        SubsequenceLength(a, b[1..]);
      }
    }
  }

  /** `stub.checkNumber?.toString().includes(searchTerm)`: a stub without a
      check number never matches. */
  predicate MatchesSearch(stub: PayStubView, searchTerm: string)
    ensures MatchesSearch(stub, searchTerm) <==>
      stub.checkNumber.Some?
      && exists i: nat :: OccursAt(IntToString(stub.checkNumber.value), searchTerm, i)
  {
    stub.checkNumber.Some? && Contains(IntToString(stub.checkNumber.value), searchTerm)
  }

  /** `selectedYear === 'all' || true`: the year never excludes a stub. */
  predicate MatchesYear(stub: PayStubView, selectedYear: string)
    ensures MatchesYear(stub, selectedYear)
  {
    selectedYear == "all" || true
  }

  predicate Keep(stub: PayStubView, searchTerm: string, selectedYear: string) {
    MatchesSearch(stub, searchTerm) && MatchesYear(stub, selectedYear)
  }

  /** `filteredPayStubs`: the stubs whose check number contains the search term,
      in their original order; each matching stub is kept as often as it occurs
      and no other stub is kept. */
  function FilterPayStubs(payStubs: seq<PayStubView>, searchTerm: string, selectedYear: string):
    (r: seq<PayStubView>)
    ensures IsSubsequence(r, payStubs)
    ensures forall x :: multiset(r)[x] == if MatchesSearch(x, searchTerm) then multiset(payStubs)[x] else 0
  {
    if payStubs == [] then []
    else
      var stub := payStubs[0];
      var rest := FilterPayStubs(payStubs[1..], searchTerm, selectedYear);
      assert payStubs == [stub] + payStubs[1..];
      if Keep(stub, searchTerm, selectedYear) then
        assert ([stub] + rest)[1..] == rest;
        [stub] + rest
      else
        rest
  }

  /** The filtered list is never longer than the list it filters. */
  lemma FilterPayStubsLength(payStubs: seq<PayStubView>, searchTerm: string, selectedYear: string)
    ensures |FilterPayStubs(payStubs, searchTerm, selectedYear)| <= |payStubs|
  {
    SubsequenceLength(FilterPayStubs(payStubs, searchTerm, selectedYear), payStubs);
  }

  /** A stub is in the filtered list exactly when it is in the list and its
      check number contains the search term. */
  lemma FilterPayStubsMembership(
    payStubs: seq<PayStubView>, searchTerm: string, selectedYear: string, stub: PayStubView)
    ensures stub in FilterPayStubs(payStubs, searchTerm, selectedYear) <==>
      stub in payStubs && MatchesSearch(stub, searchTerm)
  {
    var r := FilterPayStubs(payStubs, searchTerm, selectedYear);
    assert stub in r <==> multiset(r)[stub] > 0;
    assert stub in payStubs <==> multiset(payStubs)[stub] > 0;
  }

  /** The selected year never changes the filtered list. */
  lemma {:induction false} FilterIgnoresYear(
    payStubs: seq<PayStubView>, searchTerm: string, year: string, year': string)
    ensures FilterPayStubs(payStubs, searchTerm, year) == FilterPayStubs(payStubs, searchTerm, year')
    decreases |payStubs|
  {
    if payStubs != [] {
      FilterIgnoresYear(payStubs[1..], searchTerm, year, year');
    }
  }

  /** With an empty search term, exactly the stubs that have a check number are kept. */
  lemma EmptySearchKeepsNumbered(payStubs: seq<PayStubView>, selectedYear: string, stub: PayStubView)
    ensures stub in FilterPayStubs(payStubs, "", selectedYear) <==>
      stub in payStubs && stub.checkNumber.Some?
  {
    FilterPayStubsMembership(payStubs, "", selectedYear, stub);
    if stub.checkNumber.Some? {
      assert OccursAt(IntToString(stub.checkNumber.value), "", 0);
    }
  }

  /** Narrowing the search narrows the result: a term that contains another
      matches a subsequence of what the shorter term matches. */
  lemma {:induction false} FilterMonotonic(
    payStubs: seq<PayStubView>, term: string, longer: string, selectedYear: string)
    requires Contains(longer, term)
    ensures IsSubsequence(FilterPayStubs(payStubs, longer, selectedYear),
                          FilterPayStubs(payStubs, term, selectedYear))
    decreases |payStubs|
  {
    if payStubs != [] {
      var stub := payStubs[0];
      var a := FilterPayStubs(payStubs[1..], longer, selectedYear);
      var b := FilterPayStubs(payStubs[1..], term, selectedYear);
      FilterMonotonic(payStubs[1..], term, longer, selectedYear);
      if MatchesSearch(stub, longer) {
        ContainsTransitive(IntToString(stub.checkNumber.value), longer, term);
        assert ([stub] + a)[1..] == a && ([stub] + b)[1..] == b;
      } else if MatchesSearch(stub, term) {
        SubsequenceOfCons(a, stub, b);
      }
    }
  }

  lemma SubsequenceOfCons<T>(a: seq<T>, x: T, b: seq<T>)
    requires IsSubsequence(a, b)
    ensures IsSubsequence(a, [x] + b)
  {
    assert ([x] + b)[1..] == b;
  }

  /** Every stub matching a longer term matches any term it contains. */
  lemma MatchesSearchMonotonic(stub: PayStubView, term: string, longer: string)
    requires Contains(longer, term) && MatchesSearch(stub, longer)
    ensures MatchesSearch(stub, term)
  {
    ContainsTransitive(IntToString(stub.checkNumber.value), longer, term);
  }

  /** The "Latest Payment" card: the first stub's net pay, or "N/A" for no stubs. */
  datatype LatestPaymentView = NetPay(amount: Option<string>) | NotAvailable

  function LatestPayment(payStubs: seq<PayStubView>): (r: LatestPaymentView)
    ensures r.NotAvailable? <==> payStubs == []
    ensures r.NetPay? ==> r.amount == payStubs[0].netPay
  {
    if |payStubs| > 0 then NetPay(payStubs[0].netPay) else NotAvailable
  }

  /** The count line of the payment history, "<n> record found" or
      "<n> records found": the canonical numeral of the count, which `parseInt`
      reads back, then the noun, singular exactly when one stub matched. */
  function RecordCountLabel(filtered: seq<PayStubView>): (r: string)
    ensures var k := |NatToString(|filtered|)|;
      && k < |r| && r[..k] == NatToString(|filtered|)
      && r[k..] in {" record found", " records found"}
    ensures ParseInt(r) == Some(|filtered|)
    ensures EndsWith(r, " record found") <==> |filtered| == 1
    ensures EndsWith(r, " records found") <==> |filtered| != 1
  {
    var n := |filtered|;
    var tail := if n == 1 then " record found" else " records found";
    var r := NatToString(n) + tail;
    assert r[..|NatToString(n)|] == NatToString(n) && r[|NatToString(n)|..] == tail;
    ParseIntOfPrefix(NatToString(n), tail);
    NounEnding(NatToString(n), tail);
    r
  }

  /** A label ends in the singular or the plural tail, never in both. */
  lemma NounEnding(numeral: string, tail: string)
    requires tail == " record found" || tail == " records found"
    ensures EndsWith(numeral + tail, tail)
    ensures EndsWith(numeral + tail, " record found") <==> tail == " record found"
    ensures EndsWith(numeral + tail, " records found") <==> tail == " records found"
  {
    var r := numeral + tail;
    assert r[|r| - |tail|..] == tail;
    assert r[|r| - 7] == tail[|tail| - 7];
    assert " record found"[6] == 'd' && " records found"[7] == 's';
    if EndsWith(r, " record found") {
      assert r[|r| - 7] == " record found"[6];
    }
    if EndsWith(r, " records found") {
      assert r[|r| - 7] == " records found"[7];
    }
  }
}
