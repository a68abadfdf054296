/** What `build_quote_pdf_bytes` computes before drawing: the item table and its
    subtotal, the discount and the total, and the notes wrapped into lines. */
module PdfGenerator {
  import opened Text
  import opened Decimal
  import opened Utils

  // ---------------------------------------------------------------- item table

  /** A table cell. The quantity cell is `f"{qty.normalize()}"`, whose exponent
      notation is not modelled: the cell keeps the quantity it prints. */
  datatype Cell = Label(text: string) | Quantity(qty: real)

  /** The header row of the item table. */
  const Header: seq<Cell> := [Label("Descripción"), Label("Cant."), Label("Precio unit."), Label("Total")]

  /** The row of one item: description, quantity, unit price and line total, both in pesos. */
  function ItemRow(it: QuoteItem): seq<Cell> {
    [Label(it.description), Quantity(it.qty), Label(MoneyClp(it.unitPrice)), Label(MoneyClp(it.LineTotal() as real))]
  }

  /** The sum of the rounded line totals, item by item. */
  function SumLineTotals(items: seq<QuoteItem>): int
    decreases |items|
  {
    if items == [] then 0 else SumLineTotals(items[..|items| - 1]) + items[|items| - 1].LineTotal()
  }

  /** The subtotal of two runs of items is the sum of their subtotals. */
  lemma {:induction false} SumLineTotalsAppend(a: seq<QuoteItem>, b: seq<QuoteItem>)
    ensures SumLineTotals(a + b) == SumLineTotals(a) + SumLineTotals(b)
    decreases |b|
  {
    if b == [] {
      assert a + b == a;
    } else {
      assert (a + b)[..|a + b| - 1] == a + b[..|b| - 1];
      SumLineTotalsAppend(a, b[..|b| - 1]);
    }
  }

  /** Quantities and prices that are not negative give a subtotal that is not negative. */
  lemma {:induction false} SumLineTotalsNonNegative(items: seq<QuoteItem>)
    requires forall i :: 0 <= i < |items| ==> items[i].qty >= 0.0 && items[i].unitPrice >= 0.0
    ensures SumLineTotals(items) >= 0
    decreases |items|
  {
    if items != [] {
      SumLineTotalsNonNegative(items[..|items| - 1]);
      LineTotalNonNegative(items[|items| - 1]);
    }
  }

  /** The exact sum of the unrounded products. */
  function SumProducts(items: seq<QuoteItem>): real
    decreases |items|
  {
    if items == [] then 0.0
    else SumProducts(items[..|items| - 1]) + items[|items| - 1].Amount()
  }

  /** Rounding each line first moves the subtotal by at most half a peso per item. */
  lemma {:induction false} SumLineTotalsDrift(items: seq<QuoteItem>)
    ensures SumProducts(items) - |items| as real / 2.0 <= SumLineTotals(items) as real
    ensures SumLineTotals(items) as real <= SumProducts(items) + |items| as real / 2.0
    decreases |items|
  {
    if items != [] {
      var front := items[..|items| - 1];
      SumLineTotalsDrift(front);
      var it := items[|items| - 1];
      assert it.Amount() - 0.5 <= it.LineTotal() as real <= it.Amount() + 0.5;
    }
  }

  /** The rows of the items, one per item, in order. */
  function TableRows(items: seq<QuoteItem>): (rows: seq<seq<Cell>>)
    ensures |rows| == |items|
    decreases |items|
  {
    if items == [] then [] else TableRows(items[..|items| - 1]) + [ItemRow(items[|items| - 1])]
  }

  lemma {:induction false} TableRowsAt(items: seq<QuoteItem>, i: nat)
    requires i < |items|
    ensures TableRows(items)[i] == ItemRow(items[i])
    decreases |items|
  {
    if i < |items| - 1 {
      TableRowsAt(items[..|items| - 1], i);
    }
  }

  lemma TableRowsAll(items: seq<QuoteItem>)
    ensures forall i :: 0 <= i < |items| ==> TableRows(items)[i] == ItemRow(items[i])
  {
    forall i | 0 <= i < |items| ensures TableRows(items)[i] == ItemRow(items[i]) {
      TableRowsAt(items, i);
    }
  }

  /** One more item adds its row and its line total. */
  lemma TableStep(items: seq<QuoteItem>, k: nat)
    requires k < |items|
    ensures TableRows(items[..k + 1]) == TableRows(items[..k]) + [ItemRow(items[k])]
    ensures SumLineTotals(items[..k + 1]) == SumLineTotals(items[..k]) + items[k].LineTotal()
  {
    assert items[..k + 1][..k] == items[..k];
  }

  /** The loop of the item table: one row per item after the header, and the
      running subtotal of the line totals. */
  method BuildItemTable(items: seq<QuoteItem>) returns (data: seq<seq<Cell>>, subtotal: int)
    ensures |data| == |items| + 1 && data[0] == Header
    ensures forall i :: 0 <= i < |items| ==> data[i + 1] == ItemRow(items[i])
    ensures data == [Header] + TableRows(items)
    ensures subtotal == SumLineTotals(items)
  {
    data := [Header];
    subtotal := 0;
    var k := 0;
    while k < |items|
      invariant 0 <= k <= |items|
      invariant data == [Header] + TableRows(items[..k])
      invariant subtotal == SumLineTotals(items[..k])
    {
      var it := items[k];
      var lineTotal := it.LineTotal();
      subtotal := subtotal + lineTotal;
      data := data + [ItemRow(it)];
      TableStep(items, k);
      k := k + 1;
    }
    assert items[..k] == items;
    TableRowsAll(items);
  }

  // ---------------------------------------------------------------- discount and total

  /** `(subtotal * (pct / 100)).quantize(Decimal("1"))` in the default context:
      the nearest integer, an exact half going to the even neighbour. */
  function DiscountAmount(subtotal: int, pct: real): (d: int)
    ensures var x := subtotal as real * (pct / 100.0);
      x - 0.5 <= d as real <= x + 0.5 && (d as real == x + 0.5 || d as real == x - 0.5 ==> d % 2 == 0)
  {
    RoundHalfEven(subtotal as real * (pct / 100.0))
  }

  /** `(subtotal - discount_amount).quantize(Decimal("1"))`: both are whole, so
      the total is their plain difference; no tax is added. */
  function Total(subtotal: int, pct: real): (t: int)
    ensures t + DiscountAmount(subtotal, pct) == subtotal
  {
    subtotal - DiscountAmount(subtotal, pct)
  }

  /** The discount is the one integer within half a peso of the exact discount
      that sends ties to the even neighbour. */
  lemma DiscountUnique(subtotal: int, pct: real, n: int)
    requires subtotal as real * (pct / 100.0) - 0.5 <= n as real <= subtotal as real * (pct / 100.0) + 0.5
    requires n as real == subtotal as real * (pct / 100.0) + 0.5 || n as real == subtotal as real * (pct / 100.0) - 0.5 ==> n % 2 == 0
    ensures n == DiscountAmount(subtotal, pct)
  {
    DiscountIsRounding(subtotal, pct);
    RoundHalfEvenUnique(subtotal as real * (pct / 100.0), n);
  }

  lemma DiscountIsRounding(subtotal: int, pct: real)
    ensures DiscountAmount(subtotal, pct) == RoundHalfEven(subtotal as real * (pct / 100.0))
  {
  }

  /** Without a discount the total is the subtotal. */
  lemma NoDiscount(subtotal: int)
    ensures DiscountAmount(subtotal, 0.0) == 0
    ensures Total(subtotal, 0.0) == subtotal
  {
    DiscountUnique(subtotal, 0.0, 0);
  }

  /** A percentage between 0 and 100 of a subtotal that is not negative discounts
      between nothing and everything, so the total is not negative either. */
  lemma DiscountBounds(subtotal: int, pct: real)
    requires subtotal >= 0 && 0.0 <= pct <= 100.0
    ensures 0 <= DiscountAmount(subtotal, pct) <= subtotal
    ensures 0 <= Total(subtotal, pct) <= subtotal
  {
    PercentBounds(subtotal, pct);
    RoundedWithin(subtotal as real * (pct / 100.0), subtotal);
    DiscountIsRounding(subtotal, pct);
  }

  lemma RoundedWithin(x: real, s: int)
    requires 0.0 <= x <= s as real
    ensures 0 <= RoundHalfEven(x) <= s
  {
  }

  lemma PercentBounds(subtotal: int, pct: real)
    requires subtotal >= 0 && 0.0 <= pct <= 100.0
    ensures 0.0 <= subtotal as real * (pct / 100.0) <= subtotal as real
  {
    FractionBounds(subtotal as real, pct / 100.0);
  }

  lemma FractionBounds(s: real, f: real)
    requires s >= 0.0 && 0.0 <= f <= 1.0
    ensures 0.0 <= s * f <= s
  {
    assert s * f <= s * 1.0;
  }

  /** The discount rounds half to even where the line totals round half up:
      10% of 5 is 0.5, discounted as 0, and 10% of 15 is 1.5, discounted as 2. */
  lemma DiscountTies()
    ensures DiscountAmount(5, 10.0) == 0 && RoundHalfUp(5.0 * (10.0 / 100.0)) == 1
    ensures DiscountAmount(15, 10.0) == 2
  {
    DiscountUnique(5, 10.0, 0);
    DiscountUnique(15, 10.0, 2);
  }

  /** The two default items of the form: 50000 + 120000, then 10% off. */
  lemma DefaultQuoteTotals()
    ensures SumLineTotals([QuoteItem("Diseño de logo", 1.0, 50000.0),
                           QuoteItem("Landing page (1 sección)", 1.0, 120000.0)]) == 170000
    ensures DiscountAmount(170000, 10.0) == 17000 && Total(170000, 10.0) == 153000
  {
    var a, b := QuoteItem("Diseño de logo", 1.0, 50000.0), QuoteItem("Landing page (1 sección)", 1.0, 120000.0);
    LineTotalExact(a, 50000);
    LineTotalExact(b, 120000);
    assert [a, b][..1] == [a];
    assert [a][..0] == [];
    DiscountUnique(170000, 10.0, 17000);
  }

  // ---------------------------------------------------------------- notes wrapping

  /** The test of the wrapping loop: the words joined by spaces are no wider than
      `maxWidth` under the font metric `width` (`c.stringWidth`). */
  predicate Fits(ws: seq<string>, width: string -> real, maxWidth: real) {
    width(JoinWords(ws)) <= maxWidth
  }

  /** The words of one paragraph cut into lines, as the loop does it with the
      words of the open line held in `cur`. A word is added to the open line when
      the longer line still fits; otherwise the open line is closed, even when
      it is still empty, and the word opens the next one. The last line is kept
      only when it has words. */
  function WrapFrom(words: seq<string>, cur: seq<string>, width: string -> real, maxWidth: real): seq<seq<string>>
    decreases |words|
  {
    if words == [] then (if cur == [] then [] else [cur])
    else if Fits(cur + [words[0]], width, maxWidth) then WrapFrom(words[1..], cur + [words[0]], width, maxWidth)
    else [cur] + WrapFrom(words[1..], [words[0]], width, maxWidth)
  }

  function Wrap(words: seq<string>, width: string -> real, maxWidth: real): seq<seq<string>> {
    WrapFrom(words, [], width, maxWidth)
  }

  /** The text of each line. */
  function Render(gs: seq<seq<string>>): (lines: seq<string>)
    ensures |lines| == |gs|
    decreases |gs|
  {
    if gs == [] then [] else [JoinWords(gs[0])] + Render(gs[1..])
  }

  lemma {:induction false} RenderAt(gs: seq<seq<string>>, i: nat)
    requires i < |gs|
    ensures Render(gs)[i] == JoinWords(gs[i])
    decreases |gs|
  {
    if i > 0 {
      RenderAt(gs[1..], i - 1);
    }
  }

  /** The lines one paragraph adds: its wrapped lines, then a blank line. */
  function ParagraphLines(p: string, width: string -> real, maxWidth: real): seq<string> {
    Render(Wrap(SplitWords(p), width, maxWidth)) + [""]
  }

  /** The lines of a run of paragraphs, in order. */
  function ParagraphsLines(ps: seq<string>, width: string -> real, maxWidth: real): seq<string>
    decreases |ps|
  {
    if ps == [] then []
    else ParagraphsLines(ps[..|ps| - 1], width, maxWidth) + ParagraphLines(ps[|ps| - 1], width, maxWidth)
  }

  /** All the lines of the notes: one paragraph per `"\n"`-separated part. */
  function NoteLines(notes: string, width: string -> real, maxWidth: real): seq<string> {
    ParagraphsLines(SplitOn(notes, '\n'), width, maxWidth)
  }

  /** All the groups one after the other. */
  function Concat(gs: seq<seq<string>>): seq<string>
    decreases |gs|
  {
    if gs == [] then [] else gs[0] + Concat(gs[1..])
  }

  lemma {:induction false} ConcatAppend(a: seq<seq<string>>, b: seq<seq<string>>)
    ensures Concat(a + b) == Concat(a) + Concat(b)
    decreases |a|
  {
    if a == [] {
      assert a + b == b;
    } else {
      assert (a + b)[1..] == a[1..] + b;
      ConcatAppend(a[1..], b);
    }
  }

  /** No word is lost, repeated or moved: the lines hold the open line's words
      and then the remaining words, in order. */
  lemma {:induction false} WrapKeepsWords(words: seq<string>, cur: seq<string>, width: string -> real, maxWidth: real)
    ensures Concat(WrapFrom(words, cur, width, maxWidth)) == cur + words
    decreases |words|
  {
    if words == [] {
      assert cur + words == cur;
    } else {
      var w := words[0];
      assert words == [w] + words[1..];
      if Fits(cur + [w], width, maxWidth) {
        WrapKeepsWords(words[1..], cur + [w], width, maxWidth);
        assert (cur + [w]) + words[1..] == cur + words;
      } else {
        WrapKeepsWords(words[1..], [w], width, maxWidth);
        ConcatAppend([cur], WrapFrom(words[1..], [w], width, maxWidth));
        assert Concat([cur]) == cur;
      }
    }
  }

  /** Lines built from words are made of words. */
  lemma {:induction false} WrapAllWords(words: seq<string>, cur: seq<string>, width: string -> real, maxWidth: real)
    requires AllWords(words) && AllWords(cur)
    ensures forall i :: 0 <= i < |WrapFrom(words, cur, width, maxWidth)| ==> AllWords(WrapFrom(words, cur, width, maxWidth)[i])
    decreases |words|
  {
    if words != [] {
      var w := words[0];
      WrapAllWords(words[1..], cur + [w], width, maxWidth);
      WrapAllWords(words[1..], [w], width, maxWidth);
    }
  }

  /** An open line with words stays at the head of the first line. */
  lemma {:induction false} WrapKeepsOpenLine(words: seq<string>, cur: seq<string>, width: string -> real, maxWidth: real)
    requires cur != []
    ensures WrapFrom(words, cur, width, maxWidth) != []
    ensures |cur| <= |WrapFrom(words, cur, width, maxWidth)[0]|
    ensures WrapFrom(words, cur, width, maxWidth)[0][..|cur|] == cur
    decreases |words|
  {
    if words != [] {
      var w := words[0];
      if Fits(cur + [w], width, maxWidth) {
        WrapKeepsOpenLine(words[1..], cur + [w], width, maxWidth);
        var g := WrapFrom(words, cur, width, maxWidth)[0];
        assert g[..|cur|] == g[..|cur| + 1][..|cur|];
      }
    }
  }

  /** What the loop guarantees of its lines: only the first can be empty, each
      one fits or holds a single word, and each break was forced, because the
      next line's first word did not fit on the line before it. */
  predicate WellWrapped(gs: seq<seq<string>>, width: string -> real, maxWidth: real) {
    (forall i :: 0 < i < |gs| ==> gs[i] != [])
    && (forall i :: 0 <= i < |gs| ==> |gs[i]| <= 1 || Fits(gs[i], width, maxWidth))
    && (forall i :: 0 < i < |gs| ==> !Fits(gs[i - 1] + [gs[i][0]], width, maxWidth))
  }

  lemma {:induction false} WrapFromWellWrapped(words: seq<string>, cur: seq<string>, width: string -> real, maxWidth: real)
    requires |cur| <= 1 || Fits(cur, width, maxWidth)
    ensures WellWrapped(WrapFrom(words, cur, width, maxWidth), width, maxWidth)
    decreases |words|
  {
    if words != [] {
      var w := words[0];
      if Fits(cur + [w], width, maxWidth) {
        WrapFromWellWrapped(words[1..], cur + [w], width, maxWidth);
      } else {
        var rest := WrapFrom(words[1..], [w], width, maxWidth);
        WrapFromWellWrapped(words[1..], [w], width, maxWidth);
        WrapKeepsOpenLine(words[1..], [w], width, maxWidth);
        assert rest[0][0] == w;
        WellWrappedCons(cur, rest, width, maxWidth);
      }
    }
  }

  lemma WellWrappedCons(g: seq<string>, rest: seq<seq<string>>, width: string -> real, maxWidth: real)
    requires |g| <= 1 || Fits(g, width, maxWidth)
    requires WellWrapped(rest, width, maxWidth)
    requires rest != [] && rest[0] != [] && !Fits(g + [rest[0][0]], width, maxWidth)
    ensures WellWrapped([g] + rest, width, maxWidth)
  {
    var gs := [g] + rest;
    forall i | 0 < i < |gs| ensures gs[i] != [] && !Fits(gs[i - 1] + [gs[i][0]], width, maxWidth) {
      assert gs[i] == rest[i - 1];
      if i > 1 {
        assert gs[i - 1] == rest[i - 2];
      }
    }
  }

  /** The first line of a paragraph is empty exactly when its first word alone
      is too wide: the loop then closes the line while it is still `""`. */
  lemma WrapFirstLineEmpty(words: seq<string>, width: string -> real, maxWidth: real)
    ensures var gs := Wrap(words, width, maxWidth);
      (gs != [] && gs[0] == []) <==> (words != [] && !Fits([words[0]], width, maxWidth))
    ensures Wrap(words, width, maxWidth) == [] <==> words == []
  {
    if words != [] {
      var w := words[0];
      assert [] + [w] == [w];
      if Fits([w], width, maxWidth) {
        WrapKeepsOpenLine(words[1..], [w], width, maxWidth);
      }
    }
  }

  // ---------------------------------------------------------------- the emitted lines

  /** Reading the words back from the lines of one paragraph gives its words. */
  lemma {:induction false} RenderWords(gs: seq<seq<string>>)
    requires forall i :: 0 <= i < |gs| ==> AllWords(gs[i])
    ensures FlatWords(Render(gs)) == Concat(gs)
    decreases |gs|
  {
    if gs != [] {
      RenderWords(gs[1..]);
      SplitJoin(gs[0]);
      assert Render(gs)[1..] == Render(gs[1..]);
    }
  }

  lemma ParagraphWords(p: string, width: string -> real, maxWidth: real)
    ensures FlatWords(ParagraphLines(p, width, maxWidth)) == SplitWords(p)
  {
    var words := SplitWords(p);
    var gs := Wrap(words, width, maxWidth);
    WrapAllWords(words, [], width, maxWidth);
    RenderWords(gs);
    WrapKeepsWords(words, [], width, maxWidth);
    assert [] + words == words;
    FlatWordsAppend(Render(gs), [""]);
    assert SplitWords("") == [];
    assert FlatWords([""]) == [];
  }

  lemma {:induction false} ParagraphsWords(ps: seq<string>, width: string -> real, maxWidth: real)
    ensures FlatWords(ParagraphsLines(ps, width, maxWidth)) == FlatWords(ps)
    decreases |ps|
  {
    if ps != [] {
      var front, last := ps[..|ps| - 1], ps[|ps| - 1];
      ParagraphsWords(front, width, maxWidth);
      ParagraphWords(last, width, maxWidth);
      FlatWordsAppend(ParagraphsLines(front, width, maxWidth), ParagraphLines(last, width, maxWidth));
      FlatWordsAppend(front, [last]);
      assert front + [last] == ps;
      assert FlatWords([last]) == SplitWords(last) + FlatWords([]);
    }
  }

  /** Every word of the notes appears in the emitted lines exactly once and in
      order: splitting the lines into words gives the words of the notes. */
  lemma NoteLinesKeepWords(notes: string, width: string -> real, maxWidth: real)
    ensures FlatWords(NoteLines(notes, width, maxWidth)) == SplitWords(notes)
  {
    ParagraphsWords(SplitOn(notes, '\n'), width, maxWidth);
    FlatWordsSplitOn(notes, '\n');
  }

  /** A paragraph ends with its blank line, and a blank line before it is the
      first line, left empty by an over-wide first word. Every line fits or is
      a single word, and every break is forced: the source's test
      `(line + " " + word).strip()` with the next line's first word is too wide. */
  lemma ParagraphLinesShape(p: string, width: string -> real, maxWidth: real)
    ensures var lines := ParagraphLines(p, width, maxWidth);
      var words := SplitWords(p);
      lines != [] && lines[|lines| - 1] == ""
      && (forall i :: 0 <= i < |lines| - 1 ==> (lines[i] == "" <==> i == 0 && words != [] && !Fits([words[0]], width, maxWidth)))
      && (forall i :: 0 <= i < |lines| ==> width(lines[i]) <= maxWidth || |SplitWords(lines[i])| <= 1)
      && (forall i :: 0 < i < |lines| - 1 ==>
            SplitWords(lines[i]) != [] && width(Strip(lines[i - 1] + " " + SplitWords(lines[i])[0])) > maxWidth)
  {
    var words := SplitWords(p);
    var gs := Wrap(words, width, maxWidth);
    var lines := ParagraphLines(p, width, maxWidth);
    WrapAllWords(words, [], width, maxWidth);
    WrapFromWellWrapped(words, [], width, maxWidth);
    WrapFirstLineEmpty(words, width, maxWidth);
    assert SplitWords("") == [];
    forall i | 0 <= i < |lines| - 1
      ensures lines[i] == JoinWords(gs[i]) && SplitWords(lines[i]) == gs[i]
      ensures lines[i] == "" <==> gs[i] == []
    {
      RenderAt(gs, i);
      SplitJoin(gs[i]);
    }
    forall i | 0 < i < |lines| - 1
      ensures SplitWords(lines[i]) != [] && width(Strip(lines[i - 1] + " " + SplitWords(lines[i])[0])) > maxWidth
    {
      StripJoinWord(gs[i - 1], gs[i][0]);
    }
  }

  /** The whole notes: every line fits or is a single word, and the last line is blank. */
  lemma {:induction false} NoteLinesFit(ps: seq<string>, width: string -> real, maxWidth: real)
    ensures var lines := ParagraphsLines(ps, width, maxWidth);
      (ps != [] ==> lines != [] && lines[|lines| - 1] == "")
      && forall i :: 0 <= i < |lines| ==> width(lines[i]) <= maxWidth || |SplitWords(lines[i])| <= 1
    decreases |ps|
  {
    if ps != [] {
      var front := ps[..|ps| - 1];
      NoteLinesFit(front, width, maxWidth);
      ParagraphLinesShape(ps[|ps| - 1], width, maxWidth);
      var a, b := ParagraphsLines(front, width, maxWidth), ParagraphLines(ps[|ps| - 1], width, maxWidth);
      forall i | 0 <= i < |a + b| ensures width((a + b)[i]) <= maxWidth || |SplitWords((a + b)[i])| <= 1 {
        if i >= |a| {
          assert (a + b)[i] == b[i - |a|];
        }
      }
    }
  }

  lemma {:induction false} RenderSnoc(gs: seq<seq<string>>, g: seq<string>)
    ensures Render(gs + [g]) == Render(gs) + [JoinWords(g)]
    decreases |gs|
  {
    if gs == [] {
      assert gs + [g] == [g];
    } else {
      assert (gs + [g])[1..] == gs[1..] + [g];
      RenderSnoc(gs[1..], g);
    }
  }

  /** One word of the loop: either it joins the open line, or the open line is
      closed and the word opens the next one. */
  lemma WrapStep(words: seq<string>, k: nat, cur: seq<string>, done: seq<seq<string>>, width: string -> real, maxWidth: real)
    requires k < |words|
    ensures Fits(cur + [words[k]], width, maxWidth) ==>
      done + WrapFrom(words[k..], cur, width, maxWidth) == done + WrapFrom(words[k + 1..], cur + [words[k]], width, maxWidth)
    ensures !Fits(cur + [words[k]], width, maxWidth) ==>
      done + WrapFrom(words[k..], cur, width, maxWidth) == (done + [cur]) + WrapFrom(words[k + 1..], [words[k]], width, maxWidth)
  {
    assert words[k..][0] == words[k];
    assert words[k..][1..] == words[k + 1..];
  }

  /** Past the last word the open line is emitted exactly when it holds a word. */
  lemma WrapClose(words: seq<string>, cur: seq<string>, done: seq<seq<string>>, width: string -> real, maxWidth: real)
    requires AllWords(cur) && done + WrapFrom([], cur, width, maxWidth) == Wrap(words, width, maxWidth)
    ensures JoinWords(cur) != "" ==> done + [cur] == Wrap(words, width, maxWidth)
    ensures JoinWords(cur) == "" ==> done == Wrap(words, width, maxWidth)
  {
    if cur == [] {
      assert done + [] == done;
    }
  }

  /** The inner wrapping loop of `build_quote_pdf_bytes`, for one paragraph:
      words are added to `line` while `(line + " " + word).strip()` fits, the
      line is emitted when it does not, the last line when it is not empty,
      then a blank line. */
  method WrapParagraph(paragraph: string, width: string -> real, maxWidth: real) returns (lines: seq<string>)
    ensures lines == ParagraphLines(paragraph, width, maxWidth)
  {
    var words := SplitWords(paragraph);
    var line := "";
    ghost var cur: seq<string> := [];
    ghost var done: seq<seq<string>> := [];
    lines := [];
    var k := 0;
    while k < |words|
      invariant 0 <= k <= |words|
      invariant AllWords(cur) && line == JoinWords(cur)
      invariant done + WrapFrom(words[k..], cur, width, maxWidth) == Wrap(words, width, maxWidth)
      invariant lines == Render(done)
    {
      var word := words[k];
      var test := Strip(line + " " + word);
      StripJoinWord(cur, word);
      WrapStep(words, k, cur, done, width, maxWidth);
      if width(test) <= maxWidth {
        line := test;
        cur := cur + [word];
      } else {
        RenderSnoc(done, cur);
        lines := lines + [line];
        done := done + [cur];
        line := word;
        cur := [word];
      }
      k := k + 1;
    }
    assert words[k..] == [];
    WrapClose(words, cur, done, width, maxWidth);
    if line != "" {
      RenderSnoc(done, cur);
      lines := lines + [line];
      done := done + [cur];
    }
    assert done == Wrap(words, width, maxWidth);
    lines := lines + [""];
  }

  /** The outer wrapping loop: the paragraphs of `(notes or "").split("\n")`
      wrapped one after the other. */
  method WrapNotes(notes: string, width: string -> real, maxWidth: real) returns (lines: seq<string>)
    ensures lines == NoteLines(notes, width, maxWidth)
  {
    var paragraphs := SplitOn(notes, '\n');
    lines := [];
    var j := 0;
    while j < |paragraphs|
      invariant 0 <= j <= |paragraphs|
      invariant lines == ParagraphsLines(paragraphs[..j], width, maxWidth)
    {
      var more := WrapParagraph(paragraphs[j], width, maxWidth);
      lines := lines + more;
      assert paragraphs[..j + 1][..j] == paragraphs[..j];
      j := j + 1;
    }
    assert paragraphs[..j] == paragraphs;
  }

  // ---------------------------------------------------------------- the document

  /** What `build_quote_pdf_bytes` writes on its page, as values: the title, the
      item table, the three amounts with their printed lines, the heading of
      the notes, the validity line and the wrapped note lines. Positions, fonts
      and colours are not kept. */
  datatype QuoteDocument = QuoteDocument(
    title: string,
    table: seq<seq<Cell>>,
    subtotal: int,
    discount: int,
    total: int,
    subtotalLine: string,
    discountLine: string,
    totalLine: string,
    notesHeading: string,
    validityLine: string,
    noteLines: seq<string>)

  /** The page of a quote, field by field: the title carries the number, the
      table has the header and then the item rows (one per item, by
      `TableRowsAll`), the discount and the total split the subtotal, and the
      amounts are printed as pesos. */
  function QuoteDoc(quoteNumber: string, items: seq<QuoteItem>, discountPct: real, notes: string,
                    validityDays: int, width: string -> real, maxWidth: real): (doc: QuoteDocument)
    ensures doc.title == "COTIZACIÓN #" + quoteNumber
    ensures |doc.table| == |items| + 1 && doc.table[0] == Header && doc.table[1..] == TableRows(items)
    ensures doc.subtotal == SumLineTotals(items)
    ensures doc.discount == DiscountAmount(doc.subtotal, discountPct)
    ensures doc.discount + doc.total == doc.subtotal
  {
    var subtotal := SumLineTotals(items);
    var discount := DiscountAmount(subtotal, discountPct);
    var total := Total(subtotal, discountPct);
    QuoteDocument(
      "COTIZACIÓN #" + quoteNumber, [Header] + TableRows(items), subtotal, discount, total,
      "Subtotal: " + MoneyClp(subtotal as real),
      "- " + MoneyClp(discount as real),
      "TOTAL: " + MoneyClp(total as real),
      "Notas y condiciones",
      "Validez: " + IntToString(validityDays) + " días.",
      NoteLines(notes, width, maxWidth))
  }

  /** The content of the quote's page. `width` is the font metric of 9-point
      Helvetica and `maxWidth` the printable width of the page. */
  method BuildQuotePdf(quoteNumber: string, items: seq<QuoteItem>, discountPct: real, notes: string,
                       validityDays: int, width: string -> real, maxWidth: real)
    returns (doc: QuoteDocument)
    ensures doc.title == "COTIZACIÓN #" + quoteNumber
    ensures |doc.table| == |items| + 1 && doc.table[0] == Header
    ensures forall i :: 0 <= i < |items| ==> doc.table[i + 1] == ItemRow(items[i])
    ensures doc.subtotal == SumLineTotals(items)
    ensures doc.discount == DiscountAmount(doc.subtotal, discountPct)
    ensures doc.discount + doc.total == doc.subtotal
    ensures doc.subtotalLine == "Subtotal: " + MoneyClp(doc.subtotal as real)
    ensures doc.discountLine == "- " + MoneyClp(doc.discount as real)
    ensures doc.totalLine == "TOTAL: " + MoneyClp(doc.total as real)
    ensures doc.validityLine == "Validez: " + IntToString(validityDays) + " días."
    ensures doc.notesHeading == "Notas y condiciones"
    ensures doc.noteLines == NoteLines(notes, width, maxWidth)
    ensures doc == QuoteDoc(quoteNumber, items, discountPct, notes, validityDays, width, maxWidth)
  {
    var data, subtotal := BuildItemTable(items);
    var discount := DiscountAmount(subtotal, discountPct);
    var total := Total(subtotal, discountPct);
    var lines := WrapNotes(notes, width, maxWidth);
    doc := QuoteDocument(
      "COTIZACIÓN #" + quoteNumber, data, subtotal, discount, total,
      "Subtotal: " + MoneyClp(subtotal as real),
      "- " + MoneyClp(discount as real),
      "TOTAL: " + MoneyClp(total as real),
      "Notas y condiciones",
      "Validez: " + IntToString(validityDays) + " días.",
      lines);
  }

  /** With items of non-negative quantity and price and a discount between 0 and
      100 percent, the printed total is between nothing and the subtotal. */
  lemma QuoteTotalsBounded(items: seq<QuoteItem>, discountPct: real)
    requires forall i :: 0 <= i < |items| ==> items[i].qty >= 0.0 && items[i].unitPrice >= 0.0
    requires 0.0 <= discountPct <= 100.0
    ensures var s := SumLineTotals(items);
      0 <= s && 0 <= Total(s, discountPct) <= s && 0 <= DiscountAmount(s, discountPct) <= s
  {
    SumLineTotalsNonNegative(items);
    DiscountBounds(SumLineTotals(items), discountPct);
  }
}
