/** The database side of a quote: the per-year counter behind `next_quote_number`,
    the text of a quote number, and the rows `insert_quote` writes. The SQL
    statements become maps and sequences updated one call at a time. */
module Db {
  import opened Text
  import opened Utils

  // ---------------------------------------------------------------- the counter

  /** The seq the upsert returns: 1 for a year without a counter row
      (`values (year, 1)`), otherwise the stored value plus one
      (`do update set last_seq = last_seq + 1`). */
  function NextSeq(lastSeq: map<int, int>, year: int): int {
    if year in lastSeq then lastSeq[year] + 1 else 1
  }

  /** The counter table after the upsert for `year`. */
  function Upsert(lastSeq: map<int, int>, year: int): (r: map<int, int>)
    ensures year in r && r[year] == NextSeq(lastSeq, year)
    ensures forall y :: y != year ==> (y in r <==> y in lastSeq)
    ensures forall y :: y != year && y in r ==> r[y] == lastSeq[y]
  {
    lastSeq[year := NextSeq(lastSeq, year)]
  }

  /** How many times `year` occurs in `years`. */
  function Count(years: seq<int>, year: int): nat
    decreases |years|
  {
    if years == [] then 0
    else Count(years[..|years| - 1], year) + (if years[|years| - 1] == year then 1 else 0)
  }

  /** The counter table after the calls `years`, one after the other, from an empty table. */
  function Counters(years: seq<int>): map<int, int>
    decreases |years|
  {
    if years == [] then map[] else Upsert(Counters(years[..|years| - 1]), years[|years| - 1])
  }

  /** The seqs handed out by the calls `years`, in order. */
  function Issued(years: seq<int>): (seqs: seq<int>)
    ensures |seqs| == |years|
    decreases |years|
  {
    if years == [] then []
    else
      var front := years[..|years| - 1];
      Issued(front) + [NextSeq(Counters(front), years[|years| - 1])]
  }

  /** After any run of calls the table holds, for each year asked for, how many
      times it was asked for, and nothing for the other years. */
  lemma {:induction false} CountersCount(years: seq<int>)
    ensures forall y :: y in Counters(years) <==> Count(years, y) > 0
    ensures forall y :: y in Counters(years) ==> Counters(years)[y] == Count(years, y)
    decreases |years|
  {
    if years != [] {
      CountersCount(years[..|years| - 1]);
    }
  }

  /** The call at position `i` returns how many calls so far were for its year:
      1 for the first call of a year, one more than the year's previous call
      after that. */
  lemma {:induction false} IssuedCount(years: seq<int>, i: nat)
    requires i < |years|
    ensures Issued(years)[i] == Count(years[..i + 1], years[i])
    decreases |years|
  {
    var front := years[..|years| - 1];
    if i < |front| {
      IssuedCount(front, i);
      assert years[..i + 1] == front[..i + 1];
    } else {
      CountersCount(front);
      assert years[..i + 1] == years;
    }
  }

  lemma {:induction false} CountPrefix(years: seq<int>, i: nat, j: nat, y: int)
    requires i <= j <= |years|
    ensures Count(years[..i], y) <= Count(years[..j], y)
    ensures i < j && years[j - 1] == y ==> Count(years[..i], y) < Count(years[..j], y)
    decreases j - i
  {
    if i < j {
      CountPrefix(years, i, j - 1, y);
      assert years[..j][..j - 1] == years[..j - 1];
    }
  }

  /** No seq repeats within a year: a later call for the same year gets a larger
      seq, and a year's first call gets 1. */
  lemma IssuedIncreasing(years: seq<int>, i: nat, j: nat)
    requires i < j < |years| && years[i] == years[j]
    ensures Issued(years)[i] < Issued(years)[j]
  {
    IssuedCount(years, i);
    IssuedCount(years, j);
    CountPrefix(years, i + 1, j + 1, years[j]);
  }

  lemma IssuedFirst(years: seq<int>, i: nat)
    requires i < |years| && years[i] !in years[..i]
    ensures Issued(years)[i] == 1
  {
    IssuedCount(years, i);
    CountAbsent(years[..i], years[i]);
    assert years[..i + 1][..i] == years[..i];
  }

  lemma {:induction false} CountAbsent(years: seq<int>, y: int)
    requires y !in years
    ensures Count(years, y) == 0
    decreases |years|
  {
    if years != [] {
      CountAbsent(years[..|years| - 1], y);
    }
  }

  /** The `quote_counters` table and the calls made against it. */
  class QuoteCounters {
    /** `quote_counters`: year to the last seq handed out. */
    var lastSeq: map<int, int>
    /** The years of the calls so far, in order. */
    ghost var calls: seq<int>

    ghost predicate Valid()
      reads this
    {
      lastSeq == Counters(calls)
    }

    constructor()
      ensures Valid() && calls == []
    {
      lastSeq := map[];
      calls := [];
    }

    /** `next_quote_number(year)`: bump the year's counter and format the new seq. */
    method NextQuoteNumber(year: int) returns (seqNo: int, quoteNumber: string)
      requires Valid()
      modifies this
      ensures Valid() && calls == old(calls) + [year]
      ensures seqNo == Issued(calls)[|calls| - 1] == Count(calls, year)
      ensures lastSeq == Upsert(old(lastSeq), year)
      ensures quoteNumber == FormatQuoteNumber(year, seqNo)
    {
      seqNo := NextSeq(lastSeq, year);
      lastSeq := lastSeq[year := seqNo];
      calls := calls + [year];
      assert calls[..|calls| - 1] == old(calls);
      IssuedCount(calls, |calls| - 1);
      assert calls[..|calls|] == calls;
      quoteNumber := FormatQuoteNumber(year, seqNo);
    }
  }

  // ---------------------------------------------------------------- the quote number

  /** `f"{seq:04d}"`: at least four characters, zero-padded after the sign. */
  function Pad04(seqNo: int): string {
    if seqNo < 0 then "-" + ZeroPad(NatToString(-seqNo), 3) else ZeroPad(NatToString(seqNo), 4)
  }

  /** `f"{year}-{seq:04d}"`. */
  function FormatQuoteNumber(year: int, seqNo: int): string {
    IntToString(year) + "-" + Pad04(seqNo)
  }

  /** For a year that is not negative, the text before the first `-` of the
      number is `str(year)`, which is what `quote_number.split("-")[0]` reads. */
  lemma QuoteNumberYear(year: int, seqNo: int)
    requires year >= 0
    ensures PrefixBefore(FormatQuoteNumber(year, seqNo), '-') == IntToString(year)
  {
    var a := IntToString(year);
    assert a[0] != '-' && '-' !in a[1..];
    assert '-' !in a by {
      forall i | 0 <= i < |a| ensures a[i] != '-' {
        if i > 0 {
          assert a[i] == a[1..][i - 1];
        }
      }
    }
    PrefixOfJoin(a, Pad04(seqNo), '-');
  }

  lemma {:induction false} PrefixOfJoin(a: string, b: string, sep: char)
    requires sep !in a
    ensures PrefixBefore(a + [sep] + b, sep) == a
    decreases |a|
  {
    if a != [] {
      assert (a + [sep] + b)[1..] == a[1..] + [sep] + b;
      PrefixOfJoin(a[1..], b, sep);
    }
  }

  /** For a seq that is not negative, the part after the year's `-` is all
      digits, denotes the seq, and is four characters long or, from 10000 on,
      exactly `str(seq)` with nothing cut off. */
  lemma QuoteNumberSeq(year: int, seqNo: int)
    requires seqNo >= 0
    ensures var n := FormatQuoteNumber(year, seqNo);
      var tail := n[|IntToString(year)| + 1..];
      n[|IntToString(year)|] == '-' && AllDigits(tail) && DigitsValue(tail) == seqNo
      && (seqNo < 10000 ==> |tail| == 4)
      && (seqNo >= 10000 ==> tail == NatToString(seqNo))
  {
    var y := IntToString(year);
    var n := FormatQuoteNumber(year, seqNo);
    assert n[|y| + 1..] == Pad04(seqNo);
    Pad04Digits(seqNo);
  }

  /** `f"{seq:04d}"` of a seq that is not negative: digits denoting the seq,
      four of them below 10000 and `str(seq)` from there on. */
  lemma Pad04Digits(seqNo: int)
    requires seqNo >= 0
    ensures var p := Pad04(seqNo);
      AllDigits(p) && DigitsValue(p) == seqNo
      && (seqNo < 10000 ==> |p| == 4)
      && (seqNo >= 10000 ==> p == NatToString(seqNo))
  {
    var s := NatToString(seqNo);
    ZeroPadValue(s, 4);
    NatToStringValue(seqNo);
    if seqNo < 10000 {
      assert Pow10(4) == 10000;
      NatToStringLength(seqNo, 4);
    } else {
      AtLeastFiveDigits(seqNo);
    }
  }

  lemma AtLeastFiveDigits(n: nat)
    requires n >= 10000
    ensures |NatToString(n)| >= 5
  {
    NatToStringValue(n);
    var s := NatToString(n);
    if |s| < 5 {
      PowMonotone(|s|, 4);
    }
  }

  lemma {:induction false} PowMonotone(i: nat, j: nat)
    requires i <= j
    ensures Pow10(i) <= Pow10(j)
    decreases j
  {
    if i < j {
      PowMonotone(i, j - 1);
    }
  }

  /** Two calls for the same year never give the same number: the number
      determines the seq. */
  lemma QuoteNumberInjective(year: int, seqNo1: int, seqNo2: int)
    requires seqNo1 >= 0 && seqNo2 >= 0
    requires FormatQuoteNumber(year, seqNo1) == FormatQuoteNumber(year, seqNo2)
    ensures seqNo1 == seqNo2
  {
    QuoteNumberSeq(year, seqNo1);
    QuoteNumberSeq(year, seqNo2);
  }

  // ---------------------------------------------------------------- inserted rows

  /** A row of `quote_items`. */
  datatype ItemRecord = ItemRecord(quoteId: int, description: string, qty: real, unitPrice: real)

  /** `[(quote_id, it.description, it.qty, it.unit_price) for it in items]`. */
  function ItemRows(quoteId: int, items: seq<QuoteItem>): (rows: seq<ItemRecord>)
    ensures |rows| == |items|
    ensures forall i :: 0 <= i < |rows| ==> rows[i].quoteId == quoteId
  {
    seq(|items|, i requires 0 <= i < |items| => ItemRecord(quoteId, items[i].description, items[i].qty, items[i].unitPrice))
  }

  /** The items a run of rows records, read back. */
  function RowItems(rows: seq<ItemRecord>): (items: seq<QuoteItem>)
    ensures |items| == |rows|
  {
    seq(|rows|, i requires 0 <= i < |rows| => QuoteItem(rows[i].description, rows[i].qty, rows[i].unitPrice))
  }

  /** The rows hold the items unchanged and in order: reading them back gives the items. */
  lemma ItemRowsRoundTrip(quoteId: int, items: seq<QuoteItem>)
    ensures RowItems(ItemRows(quoteId, items)) == items
  {
  }

  /** The rows of `quote_items` that belong to one quote, in insertion order. */
  function RowsOf(rows: seq<ItemRecord>, quoteId: int): (r: seq<ItemRecord>)
    ensures forall i :: 0 <= i < |r| ==> r[i].quoteId == quoteId
    decreases |rows|
  {
    if rows == [] then []
    else RowsOf(rows[..|rows| - 1], quoteId) + (if rows[|rows| - 1].quoteId == quoteId then [rows[|rows| - 1]] else [])
  }

  lemma {:induction false} RowsOfAppend(a: seq<ItemRecord>, b: seq<ItemRecord>, quoteId: int)
    ensures RowsOf(a + b, quoteId) == RowsOf(a, quoteId) + RowsOf(b, quoteId)
    decreases |b|
  {
    if b == [] {
      assert a + b == a;
    } else {
      assert (a + b)[..|a + b| - 1] == a + b[..|b| - 1];
      RowsOfAppend(a, b[..|b| - 1], quoteId);
    }
  }

  lemma {:induction false} RowsOfNone(rows: seq<ItemRecord>, quoteId: int)
    requires forall i :: 0 <= i < |rows| ==> rows[i].quoteId != quoteId
    ensures RowsOf(rows, quoteId) == []
    decreases |rows|
  {
    if rows != [] {
      RowsOfNone(rows[..|rows| - 1], quoteId);
    }
  }

  lemma {:induction false} RowsOfAll(rows: seq<ItemRecord>, quoteId: int)
    requires forall i :: 0 <= i < |rows| ==> rows[i].quoteId == quoteId
    ensures RowsOf(rows, quoteId) == rows
    decreases |rows|
  {
    if rows != [] {
      RowsOfAll(rows[..|rows| - 1], quoteId);
    }
  }

  /** Appending the rows of a new id: that id's rows are exactly the new ones,
      and the rows of every older id are as they were. */
  lemma RowsAfterInsert(rows: seq<ItemRecord>, quoteId: int, items: seq<QuoteItem>)
    requires forall i :: 0 <= i < |rows| ==> rows[i].quoteId < quoteId
    ensures RowsOf(rows + ItemRows(quoteId, items), quoteId) == ItemRows(quoteId, items)
    ensures forall id :: id < quoteId ==> RowsOf(rows + ItemRows(quoteId, items), id) == RowsOf(rows, id)
  {
    var added := ItemRows(quoteId, items);
    RowsOfAppend(rows, added, quoteId);
    RowsOfNone(rows, quoteId);
    RowsOfAll(added, quoteId);
    forall id | id < quoteId
      ensures RowsOf(rows + added, id) == RowsOf(rows, id)
    {
      RowsOfAppend(rows, added, id);
      RowsOfNone(added, id);
    }
  }

  /** A row of `quotes`; `issue_date` is not kept. */
  datatype QuoteRecord = QuoteRecord(
    year: int, seqNo: int, quoteNumber: string,
    brandName: string, brandEmail: string, brandPhone: string,
    clientName: string, clientEmail: string, clientCompany: string,
    discountPct: real, notes: string, validityDays: int)

  /** The `quotes` and `quote_items` tables. A quote's id is its position in
      `quotes` counted from 1, as a serial key hands them out. */
  class QuoteStore {
    var quotes: seq<QuoteRecord>
    var itemRows: seq<ItemRecord>

    /** Every item row belongs to a stored quote. */
    ghost predicate Valid()
      reads this
    {
      forall i :: 0 <= i < |itemRows| ==> 1 <= itemRows[i].quoteId <= |quotes|
    }

    constructor()
      ensures Valid() && quotes == [] && itemRows == []
    {
      quotes := [];
      itemRows := [];
    }

    /** `insert_quote`: one `quotes` row, then one `quote_items` row per item,
        all carrying the new id, which is returned. */
    method InsertQuote(quote: QuoteRecord, items: seq<QuoteItem>) returns (quoteId: int)
      requires Valid()
      modifies this
      ensures Valid()
      ensures quoteId == |old(quotes)| + 1
      ensures quotes == old(quotes) + [quote]
      ensures itemRows == old(itemRows) + ItemRows(quoteId, items)
      ensures RowsOf(itemRows, quoteId) == ItemRows(quoteId, items)
      ensures forall id :: 1 <= id <= |old(quotes)| ==> RowsOf(itemRows, id) == RowsOf(old(itemRows), id)
    {
      quoteId := |quotes| + 1;
      RowsAfterInsert(itemRows, quoteId, items);
      quotes := quotes + [quote];
      itemRows := itemRows + ItemRows(quoteId, items);
    }
  }
}
