/** The item rows of the Streamlit page and the loop that turns them into
    quote items. */
module FormRows {
  import opened Text
  import opened Utils

  // ---------------------------------------------------------------- item rows

  /** One row of `st.session_state["quote_items"]`. The two numeric fields are
      kept as the text `str(x)` that `to_decimal` reads. */
  datatype FormRow = FormRow(description: string, quantity: string, unitPrice: string)

  /** The rows a new session starts with. */
  const DefaultRows: seq<FormRow> := [
    FormRow("Diseño de logo", "1", "50000"),
    FormRow("Landing page (1 sección)", "1", "120000")
  ]

  /** The row "Añadir ítem" appends. */
  const NewRow: FormRow := FormRow("", "1", "0")

  /** What the loop reads from a row: the stripped description and the two
      fields through `to_decimal`. */
  function Candidate(row: FormRow): QuoteItem {
    QuoteItem(Strip(row.description), ToDecimal(row.quantity), ToDecimal(row.unitPrice))
  }

  /** A read row is kept when its description is not empty and its quantity is
      above zero. The unit price is not checked. */
  predicate Usable(it: QuoteItem) {
    it.description != [] && it.qty > 0.0
  }

  /** The rows as read, one per row. */
  function Candidates(rows: seq<FormRow>): (cs: seq<QuoteItem>)
    ensures |cs| == |rows|
    decreases |rows|
  {
    if rows == [] then [] else Candidates(rows[..|rows| - 1]) + [Candidate(rows[|rows| - 1])]
  }

  lemma {:induction false} CandidateAt(rows: seq<FormRow>, i: nat)
    requires i < |rows|
    ensures Candidates(rows)[i] == Candidate(rows[i])
    decreases |rows|
  {
    if i < |rows| - 1 {
      CandidateAt(rows[..|rows| - 1], i);
    }
  }

  /** The usable read rows, in order. */
  function Select(cs: seq<QuoteItem>): seq<QuoteItem>
    decreases |cs|
  {
    if cs == [] then []
    else Select(cs[..|cs| - 1]) + (if Usable(cs[|cs| - 1]) then [cs[|cs| - 1]] else [])
  }

  /** The items of the form. */
  function FormItems(rows: seq<FormRow>): seq<QuoteItem> {
    Select(Candidates(rows))
  }

  /** The positions of the usable read rows. */
  function KeptIndices(cs: seq<QuoteItem>): seq<nat>
    decreases |cs|
  {
    if cs == [] then []
    else KeptIndices(cs[..|cs| - 1]) + (if Usable(cs[|cs| - 1]) then [|cs| - 1] else [])
  }

  /** Item `k` of the selection is the read row at the `k`-th kept position. */
  lemma {:induction false} SelectAt(cs: seq<QuoteItem>)
    ensures var ks := KeptIndices(cs);
      |Select(cs)| == |ks|
      && forall k :: 0 <= k < |ks| ==> ks[k] < |cs| && Usable(cs[ks[k]]) && Select(cs)[k] == cs[ks[k]]
    decreases |cs|
  {
    if cs != [] {
      SelectAt(cs[..|cs| - 1]);
    }
  }

  /** The kept positions are positions of the rows, and they increase. */
  lemma {:induction false} KeptIncreasing(cs: seq<QuoteItem>)
    ensures forall k :: 0 <= k < |KeptIndices(cs)| ==> KeptIndices(cs)[k] < |cs|
    ensures forall k, l :: 0 <= k < l < |KeptIndices(cs)| ==> KeptIndices(cs)[k] < KeptIndices(cs)[l]
    decreases |cs|
  {
    if cs != [] {
      var front := cs[..|cs| - 1];
      KeptIncreasing(front);
      var fk, ks := KeptIndices(front), KeptIndices(cs);
      assert forall k :: 0 <= k < |fk| ==> ks[k] == fk[k];
    }
  }

  /** A position is kept exactly when its read row is usable. */
  lemma {:induction false} KeptExactly(cs: seq<QuoteItem>)
    ensures forall i :: 0 <= i < |cs| ==> (Usable(cs[i]) <==> i in KeptIndices(cs))
    decreases |cs|
  {
    if cs != [] {
      var front := cs[..|cs| - 1];
      KeptExactly(front);
      KeptIncreasing(front);
      var fk, ks := KeptIndices(front), KeptIndices(cs);
      forall i | 0 <= i < |cs| ensures Usable(cs[i]) <==> i in ks {
        if i < |front| {
          assert cs[i] == front[i];
          assert i in ks <==> i in fk;
        } else {
          assert i !in fk;
        }
      }
    }
  }

  /** The selection keeps the usable rows and only those, in their order: item
      `k` is the row at the `k`-th kept position, the positions increase, and a
      position is among them exactly when its row is usable. */
  lemma SelectKeeps(cs: seq<QuoteItem>)
    ensures var ks := KeptIndices(cs);
      |Select(cs)| == |ks|
      && (forall k :: 0 <= k < |ks| ==> ks[k] < |cs| && Usable(cs[ks[k]]) && Select(cs)[k] == cs[ks[k]])
      && (forall k, l :: 0 <= k < l < |ks| ==> ks[k] < ks[l])
      && (forall i :: 0 <= i < |cs| ==> (Usable(cs[i]) <==> i in ks))
  {
    SelectAt(cs);
    KeptIncreasing(cs);
    KeptExactly(cs);
  }

  /** Some item survives exactly when some read row is usable. */
  lemma {:induction false} SelectNonEmpty(cs: seq<QuoteItem>)
    ensures |Select(cs)| > 0 <==> exists i :: 0 <= i < |cs| && Usable(cs[i])
    decreases |cs|
  {
    if cs != [] {
      var front := cs[..|cs| - 1];
      SelectNonEmpty(front);
      if exists i :: 0 <= i < |front| && Usable(front[i]) {
        var i :| 0 <= i < |front| && Usable(front[i]);
        assert cs[i] == front[i];
      }
      if exists i :: 0 <= i < |cs| && Usable(cs[i]) {
        var i :| 0 <= i < |cs| && Usable(cs[i]);
        if i < |front| {
          assert front[i] == cs[i];
        }
      }
    }
  }

  /** The items of the form, row by row: item `k` is what the loop reads from
      the `k`-th row with a description and a positive quantity, and every
      such row gives an item. */
  lemma FormItemsSelect(rows: seq<FormRow>)
    ensures var ks := KeptIndices(Candidates(rows));
      |FormItems(rows)| == |ks|
      && (forall k :: 0 <= k < |ks| ==> ks[k] < |rows| && FormItems(rows)[k] == Candidate(rows[ks[k]]))
      && (forall k, l :: 0 <= k < l < |ks| ==> ks[k] < ks[l])
      && (forall i :: 0 <= i < |rows| ==>
            (Strip(rows[i].description) != [] && ToDecimal(rows[i].quantity) > 0.0 <==> i in ks))
  {
    var cs := Candidates(rows);
    SelectKeeps(cs);
    forall i | 0 <= i < |rows|
      ensures Strip(rows[i].description) != [] && ToDecimal(rows[i].quantity) > 0.0 <==> i in KeptIndices(cs)
    {
      CandidateAt(rows, i);
    }
    forall k | 0 <= k < |KeptIndices(cs)| ensures FormItems(rows)[k] == Candidate(rows[KeptIndices(cs)[k]]) {
      CandidateAt(rows, KeptIndices(cs)[k]);
    }
  }

  /** Every built item has a non-empty description without surrounding
      whitespace and a quantity above zero. */
  lemma FormItemsValid(rows: seq<FormRow>)
    ensures forall k :: 0 <= k < |FormItems(rows)| ==>
      var it := FormItems(rows)[k];
      it.description != [] && Strip(it.description) == it.description && it.qty > 0.0
  {
    var cs := Candidates(rows);
    SelectAt(cs);
    forall k | 0 <= k < |Select(cs)|
      ensures Strip(Select(cs)[k].description) == Select(cs)[k].description
    {
      var i := KeptIndices(cs)[k];
      CandidateStripped(rows[i]);
      CandidateAt(rows, i);
    }
  }

  lemma CandidateStripped(row: FormRow)
    ensures Strip(Candidate(row).description) == Candidate(row).description
  {
    StripIdempotent(row.description);
  }

  /** Reading one more row extends the items by that row when it is usable. */
  lemma SelectStep(rows: seq<FormRow>, k: nat)
    requires k < |rows|
    ensures Select(Candidates(rows[..k + 1])) ==
      Select(Candidates(rows[..k])) + (if Usable(Candidate(rows[k])) then [Candidate(rows[k])] else [])
  {
    assert rows[..k + 1][..k] == rows[..k];
  }

  /** The loop that builds `items` from the rows. */
  method BuildItems(rows: seq<FormRow>) returns (items: seq<QuoteItem>)
    ensures items == FormItems(rows)
  {
    items := [];
    var k := 0;
    while k < |rows|
      invariant 0 <= k <= |rows|
      invariant items == Select(Candidates(rows[..k]))
    {
      var row := rows[k];
      SelectStep(rows, k);
      k := k + 1;
      var desc := Strip(row.description);
      if desc == [] {
        continue;
      }
      var qty := ToDecimal(row.quantity);
      var unitPrice := ToDecimal(row.unitPrice);
      if qty <= 0.0 {
        continue;
      }
      items := items + [QuoteItem(desc, qty, unitPrice)];
    }
    assert rows[..k] == rows;
  }

  /** The form has items exactly when some row reads as usable. */
  lemma FormItemsNonEmpty(rows: seq<FormRow>)
    ensures |FormItems(rows)| > 0 <==> exists i :: 0 <= i < |rows| && Usable(Candidate(rows[i]))
  {
    SelectNonEmpty(Candidates(rows));
    if exists i :: 0 <= i < |rows| && Usable(Candidate(rows[i])) {
      var i :| 0 <= i < |rows| && Usable(Candidate(rows[i]));
      CandidateAt(rows, i);
    }
    if |FormItems(rows)| > 0 {
      var i :| 0 <= i < |rows| && Usable(Candidates(rows)[i]);
      CandidateAt(rows, i);
    }
  }

}

/** The logic of the Streamlit page between the form and the stored, printed
    quote: the session's number and rows, the gates of the generate button,
    the year check and the generate sequence. */
module App {
  import opened Wrappers
  import opened Text
  import opened Decimal
  import opened Utils
  import opened PdfGenerator
  import opened Db
  import opened FormRows

  // ---------------------------------------------------------------- the generate button

  /** `can_generate`: a client name and at least one item. */
  predicate CanGenerate(clientName: string, items: seq<QuoteItem>) {
    Strip(clientName) != [] && |items| > 0
  }

  /** `has_number`: the session holds a quote number that is not empty. */
  predicate HasNumber(quoteNumber: string) {
    quoteNumber != ""
  }

  /** `btn_disabled`. */
  predicate ButtonDisabled(clientName: string, items: seq<QuoteItem>, quoteNumber: string) {
    !CanGenerate(clientName, items) || !HasNumber(quoteNumber)
  }

  /** The button is enabled exactly when the client name has a character that
      is not whitespace, some row reads as usable, and a number is assigned. */
  lemma ButtonEnabled(clientName: string, rows: seq<FormRow>, quoteNumber: string)
    ensures !ButtonDisabled(clientName, FormItems(rows), quoteNumber) <==>
      (exists i :: 0 <= i < |clientName| && !IsSpace(clientName[i]))
      && (exists i :: 0 <= i < |rows| && Usable(Candidate(rows[i])))
      && quoteNumber != ""
  {
    GateOpen(clientName, FormItems(rows), quoteNumber);
    FormItemsNonEmpty(rows);
  }

  /** The same gate over the built items: a client name that is not all
      whitespace, at least one item, and a number. */
  lemma GateOpen(clientName: string, items: seq<QuoteItem>, quoteNumber: string)
    ensures !ButtonDisabled(clientName, items, quoteNumber) <==>
      (exists i :: 0 <= i < |clientName| && !IsSpace(clientName[i])) && |items| > 0 && quoteNumber != ""
  {
    StripBlank(clientName);
  }

  // ---------------------------------------------------------------- the year check

  /** The warning that the issue year changed after the number was assigned:
      the number is not empty and its text before the first `-` is not
      `str(year)`. */
  predicate YearMismatch(year: int, quoteNumber: string) {
    quoteNumber != "" && IntToString(year) != PrefixBefore(quoteNumber, '-')
  }

  /** Right after the number is assigned for a year, no warning shows. */
  lemma NoMismatchAfterAssign(year: int, seqNo: int)
    requires year >= 0
    ensures !YearMismatch(year, FormatQuoteNumber(year, seqNo))
  {
    QuoteNumberYear(year, seqNo);
  }

  /** Once the date moves to another year, the warning shows. */
  lemma MismatchOnOtherYear(assignedYear: int, year: int, seqNo: int)
    requires assignedYear >= 0 && year >= 0 && assignedYear != year
    ensures YearMismatch(year, FormatQuoteNumber(assignedYear, seqNo))
  {
    QuoteNumberYear(assignedYear, seqNo);
    if IntToString(year) == IntToString(assignedYear) {
      NatToStringInjective(year, assignedYear);
    }
  }

  // ---------------------------------------------------------------- generating

  /** `f"cotizacion_{qn or '0001'}.pdf"`. */
  function DownloadName(qn: string): (name: string)
    ensures |name| >= 15 && name[..11] == "cotizacion_" && name[|name| - 4..] == ".pdf"
    ensures qn != "" ==> name[11..|name| - 4] == qn
    ensures qn == "" ==> name[11..|name| - 4] == "0001"
  {
    "cotizacion_" + (if qn == "" then "0001" else qn) + ".pdf"
  }

  /** The fields of the form that go into the stored quote and the document. */
  datatype QuoteForm = QuoteForm(
    brandName: string, brandEmail: string, brandPhone: string,
    clientName: string, clientEmail: string, clientCompany: string,
    discountPct: real, notes: string, validityDays: int)

  /** The fields as the generate handler passes them on: the texts stripped,
      and the company's own name when the brand name is blank. */
  function Cleaned(form: QuoteForm): (c: QuoteForm)
    ensures c.brandName != []
    ensures Strip(form.brandName) != [] ==> c.brandName == Strip(form.brandName)
    ensures Strip(form.brandName) == [] ==> c.brandName == "HIDRACODE SOLUTIONS"
    ensures c.brandEmail == Strip(form.brandEmail) && c.brandPhone == Strip(form.brandPhone)
    ensures c.clientName == Strip(form.clientName) && c.clientEmail == Strip(form.clientEmail)
    ensures c.clientCompany == Strip(form.clientCompany)
  {
    form.(
      brandName := if Strip(form.brandName) == [] then "HIDRACODE SOLUTIONS" else Strip(form.brandName),
      brandEmail := Strip(form.brandEmail), brandPhone := Strip(form.brandPhone),
      clientName := Strip(form.clientName), clientEmail := Strip(form.clientEmail),
      clientCompany := Strip(form.clientCompany))
  }

  /** Every text passed on is free of surrounding whitespace, a blank brand
      name is replaced by the company's own, and the notes, discount and
      validity go through untouched. */
  lemma CleanedFields(form: QuoteForm)
    ensures var c := Cleaned(form);
      Strip(c.brandName) == c.brandName && Strip(c.brandEmail) == c.brandEmail
      && Strip(c.brandPhone) == c.brandPhone && Strip(c.clientName) == c.clientName
      && Strip(c.clientEmail) == c.clientEmail && Strip(c.clientCompany) == c.clientCompany
    ensures Cleaned(form).brandName == "HIDRACODE SOLUTIONS" <==>
      Strip(form.brandName) == [] || Strip(form.brandName) == "HIDRACODE SOLUTIONS"
    ensures var c := Cleaned(form);
      c.notes == form.notes && c.discountPct == form.discountPct && c.validityDays == form.validityDays
  {
    StripUntouched("HIDRACODE SOLUTIONS");
    StripIdempotent(form.brandName);
    StripIdempotent(form.brandEmail);
    StripIdempotent(form.brandPhone);
    StripIdempotent(form.clientName);
    StripIdempotent(form.clientEmail);
    StripIdempotent(form.clientCompany);
  }

  /** The `quotes` row `insert_quote` is called with, from the cleaned fields. */
  function StoredQuote(form: QuoteForm, year: int, seqNo: int, qn: string): QuoteRecord {
    QuoteRecord(year, seqNo, qn,
      form.brandName, form.brandEmail, form.brandPhone,
      form.clientName, form.clientEmail, form.clientCompany,
      form.discountPct, form.notes, form.validityDays)
  }

  /** A discount of at most 90 percent (the widget's range) on rows whose unit
      prices are not negative gives a total between nothing and the subtotal. */
  lemma GeneratedTotalsBounded(rows: seq<FormRow>, discountPct: real)
    requires forall i :: 0 <= i < |rows| ==> ToDecimal(rows[i].unitPrice) >= 0.0
    requires 0.0 <= discountPct <= 90.0
    ensures var s := SumLineTotals(FormItems(rows));
      0 <= Total(s, discountPct) <= s && 0 <= DiscountAmount(s, discountPct) <= s
  {
    var items := FormItems(rows);
    var cs := Candidates(rows);
    SelectKeeps(cs);
    var ks := KeptIndices(cs);
    forall k | 0 <= k < |items| ensures items[k].qty >= 0.0 && items[k].unitPrice >= 0.0 {
      CandidateAt(rows, ks[k]);
    }
    QuoteTotalsBounded(items, discountPct);
  }

  /** The body of the generate handler once the database is there: store the
      quote and its items, then build the document for the number (`"0001"`
      when it is blank) and name the download. */
  method SaveAndPrint(store: QuoteStore, form: QuoteForm, items: seq<QuoteItem>, year: int, seqNo: int, qn: string,
                      width: string -> real, maxWidth: real)
    returns (filename: string, doc: QuoteDocument)
    requires store.Valid()
    modifies store
    ensures store.Valid()
    ensures store.quotes == old(store.quotes) + [StoredQuote(form, year, seqNo, qn)]
    ensures store.itemRows == old(store.itemRows) + ItemRows(|old(store.quotes)| + 1, items)
    ensures RowsOf(store.itemRows, |old(store.quotes)| + 1) == ItemRows(|old(store.quotes)| + 1, items)
    ensures forall id :: 1 <= id <= |old(store.quotes)| ==> RowsOf(store.itemRows, id) == RowsOf(old(store.itemRows), id)
    ensures filename == DownloadName(qn)
    ensures doc == QuoteDoc(if qn == "" then "0001" else qn, items, form.discountPct, form.notes,
                            form.validityDays, width, maxWidth)
    ensures doc.title == "COTIZACIÓN #" + (if qn == "" then "0001" else qn)
    ensures doc.subtotal == SumLineTotals(items)
    ensures doc.total == Total(SumLineTotals(items), form.discountPct)
    ensures doc.noteLines == NoteLines(form.notes, width, maxWidth)
  {
    var quoteId := store.InsertQuote(StoredQuote(form, year, seqNo, qn), items);
    doc := BuildQuotePdf(if qn == "" then "0001" else qn, items, form.discountPct, form.notes,
                         form.validityDays, width, maxWidth);
    filename := DownloadName(qn);
  }

  /** `st.session_state`: the assigned number and seq, and the item rows. Every
      read of the number and the seq supplies `""` and `0` for a missing key,
      so a missing key is kept as those values. */
  class Session {
    var quoteNumber: string
    var quoteSeq: int
    var rows: seq<FormRow>

    /** A new session: no number yet, the two default rows. */
    constructor()
      ensures quoteNumber == "" && quoteSeq == 0 && rows == DefaultRows
    {
      quoteNumber := "";
      quoteSeq := 0;
      rows := DefaultRows;
    }

    /** "Asignar N°": ask the counter for the issue year's next number and keep
        it with its seq. When the database cannot be reached the call raises
        and nothing changes. */
    method AssignNumber(counters: QuoteCounters, year: int, databaseReachable: bool)
      requires counters.Valid()
      modifies this, counters
      ensures counters.Valid() && rows == old(rows)
      ensures !databaseReachable ==>
        quoteNumber == old(quoteNumber) && quoteSeq == old(quoteSeq)
        && counters.lastSeq == old(counters.lastSeq) && counters.calls == old(counters.calls)
      ensures databaseReachable ==>
        counters.calls == old(counters.calls) + [year]
        && quoteSeq == Count(counters.calls, year)
        && quoteNumber == FormatQuoteNumber(year, quoteSeq)
      ensures databaseReachable && year >= 0 ==> !YearMismatch(year, quoteNumber)
    {
      if databaseReachable {
        var seqNo, qn := counters.NextQuoteNumber(year);
        quoteSeq := seqNo;
        quoteNumber := qn;
        if year >= 0 {
          NoMismatchAfterAssign(year, seqNo);
        }
      }
    }

    /** The ❌ button of row `i`: that row goes, the others keep their order. */
    method DeleteRow(i: nat)
      requires i < |rows|
      modifies this
      ensures rows == old(rows)[..i] + old(rows)[i + 1..]
      ensures |rows| == |old(rows)| - 1
      ensures forall j :: 0 <= j < i ==> rows[j] == old(rows)[j]
      ensures forall j :: i <= j < |rows| ==> rows[j] == old(rows)[j + 1]
      ensures quoteNumber == old(quoteNumber) && quoteSeq == old(quoteSeq)
    {
      rows := rows[..i] + rows[i + 1..];
    }

    /** "Añadir ítem": a blank row with quantity 1 and price 0 at the end. */
    method AddRow()
      modifies this
      ensures rows == old(rows) + [NewRow]
      ensures quoteNumber == old(quoteNumber) && quoteSeq == old(quoteSeq)
    {
      rows := rows + [NewRow];
    }

    /** "Generar PDF", given the `items` the page built from the rows with
        `BuildItems` and the form fields as `Cleaned` gives them. The quote and
        its items are stored first; when the database is not configured or the
        insert fails, the run stops with nothing stored, no document and the
        session unchanged. Otherwise the document is built, named, and the
        number and seq are cleared so the next quote must ask for a new one. */
    method Generate(store: QuoteStore, form: QuoteForm, items: seq<QuoteItem>, year: int,
                    databaseConfigured: bool, insertSucceeds: bool, width: string -> real, maxWidth: real)
      returns (download: Option<(string, QuoteDocument)>)
      requires store.Valid()
      requires !ButtonDisabled(form.clientName, items, quoteNumber)
      modifies this`quoteNumber, this`quoteSeq, store
      ensures store.Valid()
      ensures !(databaseConfigured && insertSucceeds) ==>
        download == None && quoteNumber == old(quoteNumber) && quoteSeq == old(quoteSeq)
        && store.quotes == old(store.quotes) && store.itemRows == old(store.itemRows)
      ensures databaseConfigured && insertSucceeds ==>
        var qn := Strip(old(quoteNumber));
        var id := |old(store.quotes)| + 1;
        download.Some?
        && download.value.0 == DownloadName(qn)
        && download.value.1 == QuoteDoc(if qn == "" then "0001" else qn, items, form.discountPct, form.notes,
                                        form.validityDays, width, maxWidth)
        && download.value.1.title == "COTIZACIÓN #" + (if qn == "" then "0001" else qn)
        && download.value.1.subtotal == SumLineTotals(items)
        && download.value.1.total == Total(SumLineTotals(items), form.discountPct)
        && download.value.1.noteLines == NoteLines(form.notes, width, maxWidth)
        && store.quotes == old(store.quotes) + [StoredQuote(form, year, old(quoteSeq), qn)]
        && store.itemRows == old(store.itemRows) + ItemRows(id, items)
        && RowsOf(store.itemRows, id) == ItemRows(id, items)
        && (forall i :: 1 <= i < id ==> RowsOf(store.itemRows, i) == RowsOf(old(store.itemRows), i))
        && quoteNumber == "" && quoteSeq == 0
    {
      if !databaseConfigured || !insertSucceeds {
        return None;
      }
      var filename, doc := Issue(store, form, items, year, width, maxWidth);
      download := Some((filename, doc));
    }

    /** The handler past the database check: the number is stripped, the quote
        saved and printed, and the number and seq cleared. */
    method Issue(store: QuoteStore, form: QuoteForm, items: seq<QuoteItem>, year: int,
                 width: string -> real, maxWidth: real)
      returns (filename: string, doc: QuoteDocument)
      requires store.Valid()
      modifies this`quoteNumber, this`quoteSeq, store
      ensures store.Valid()
      ensures var qn := Strip(old(quoteNumber));
        var id := |old(store.quotes)| + 1;
        filename == DownloadName(qn)
        && doc == QuoteDoc(if qn == "" then "0001" else qn, items, form.discountPct, form.notes,
                           form.validityDays, width, maxWidth)
        && doc.title == "COTIZACIÓN #" + (if qn == "" then "0001" else qn)
        && doc.subtotal == SumLineTotals(items)
        && doc.total == Total(SumLineTotals(items), form.discountPct)
        && doc.noteLines == NoteLines(form.notes, width, maxWidth)
        && store.quotes == old(store.quotes) + [StoredQuote(form, year, old(quoteSeq), qn)]
        && store.itemRows == old(store.itemRows) + ItemRows(id, items)
        && RowsOf(store.itemRows, id) == ItemRows(id, items)
        && (forall i :: 1 <= i < id ==> RowsOf(store.itemRows, i) == RowsOf(old(store.itemRows), i))
        && quoteNumber == "" && quoteSeq == 0
    {
      var qn := Strip(quoteNumber);
      filename, doc := SaveAndPrint(store, form, items, year, quoteSeq, qn, width, maxWidth);
      quoteNumber := "";
      quoteSeq := 0;
    }
  }
}
