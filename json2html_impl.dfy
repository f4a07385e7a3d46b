/**
  The two loops of the JSON-to-HTML renderer, each proved to compute the
  function that specifies it in `Json2Html`.
*/
module Json2HtmlImpl {
  import opened Wrappers
  import opened Json2Html

  /** The column-header search: the first item's keys, checked against every
      item in turn, returning at the first item that does not match. */
  method ColumnHeadersFromListOfDicts(xs: seq<Json>) returns (r: Result<Option<seq<string>>, Raised>)
    ensures r == ColumnHeaders(xs)
  {
    if xs == [] {
      return Success(Some([]));
    }
    if !xs[0].Dict? {
      return Failure(AttributeError);
    }
    var columnHeaders := Keys(xs[0].entries);
    for i := 0 to |xs|
      invariant CheckEntries(columnHeaders, xs[i..]) == CheckEntries(columnHeaders, xs)
    {
      assert xs[i..][1..] == xs[i + 1..];
      var entry := xs[i];
      if !entry.Dict? {
        return Failure(AttributeError);
      }
      if |entry.entries| != |columnHeaders| {
        return Success(None);
      }
      if !(forall h :: h in columnHeaders ==> h in Keys(entry.entries)) {
        return Success(None);
      }
    }
    return Success(Some(columnHeaders));
  }

  /** A list's HTML, built piece by piece: a clubbed table row by row when
      clubbing finds column headers, otherwise a bullet list. */
  method ConvertList(o: Options, xs: seq<Json>) returns (r: Result<string, Raised>)
    ensures r == ListHtml(o, xs)
  {
    if xs == [] {
      return Success("");
    }
    var columnHeaders: Result<Option<seq<string>>, Raised> := Success(None);
    if o.clubbing {
      columnHeaders := ColumnHeadersFromListOfDicts(xs);
    }
    if columnHeaders.Failure? {
      return Failure(columnHeaders.error);
    }
    if columnHeaders.value.Some? {
      var hs := columnHeaders.value.value;
      ClubbedListHtml(o, xs, hs);
      var out := AppendRows(o, xs, hs, TableHead(o, hs));
      if out.Failure? {
        return Failure(out.error);
      }
      return Success(out.value + "</tbody>" + "</table>");
    }
    var items := ItemsHtml(o, xs);
    if items.Failure? {
      return Failure(items.error);
    }
    return Success(BulletList(items.value));
  }

  /** Appends the clubbed table's rows to `head`, one item at a time,
      stopping at the first item whose cells raise. */
  method AppendRows(o: Options, xs: seq<Json>, hs: seq<string>, head: string)
    returns (r: Result<string, Raised>)
    requires forall x :: x in xs ==> Matches(x, hs)
    ensures r == if RowsHtml(o, xs, hs).Failure? then Failure(AttributeError)
                 else Success(head + RowsHtml(o, xs, hs).value)
  {
    var out := head;
    ghost var rows := "";
    for i := 0 to |xs|
      invariant RowsHtml(o, xs[..i], hs) == Success(rows)
      invariant out == head + rows
    {
      RowsHtmlStep(o, xs, hs, i);
      var cells := RowCells(o, xs[i].entries, hs);
      if cells.Failure? {
        RowsFailurePersists(o, xs, hs, i + 1);
        assert cells.error == AttributeError;
        return Failure(cells.error);
      }
      ConcatAssoc(head, rows, Row(cells.value));
      out := out + Row(cells.value);
      rows := rows + Row(cells.value);
    }
    assert xs[..|xs|] == xs;
    return Success(out);
  }

  /** The rows of the first `i + 1` items: those of the first `i`, then the
      row of item `i`. */
  lemma {:induction false} RowsHtmlStep(o: Options, xs: seq<Json>, hs: seq<string>, i: nat)
    requires i < |xs|
    requires forall x :: x in xs ==> Matches(x, hs)
    ensures xs[i] in xs && Matches(xs[i], hs)
    ensures forall x :: x in xs[..i] ==> Matches(x, hs)
    ensures forall x :: x in xs[..i + 1] ==> Matches(x, hs)
    ensures var prev := RowsHtml(o, xs[..i], hs);
      var cells := RowCells(o, xs[i].entries, hs);
      RowsHtml(o, xs[..i + 1], hs)
        == if prev.Failure? then prev
           else if cells.Failure? then Failure(cells.error)
           else Success(prev.value + Row(cells.value))
  {
    assert xs[..i + 1][..i] == xs[..i];
    assert xs[..i + 1][i] == xs[i];
    assert forall x :: x in xs[..i + 1] ==> x in xs;
    assert forall x :: x in xs[..i] ==> x in xs;
  }

  /** A non-empty list whose column headers are found renders as the clubbed
      table of its rows, or raises with them. */
  lemma {:induction false} ClubbedListHtml(o: Options, xs: seq<Json>, hs: seq<string>)
    requires xs != []
    requires (if o.clubbing then ColumnHeaders(xs) else Success(None)) == Success(Some(hs))
    ensures forall x :: x in xs ==> Matches(x, hs)
    ensures ListHtml(o, xs)
         == if RowsHtml(o, xs, hs).Failure? then Failure(AttributeError)
            else Success(ClubbedTable(o, hs, RowsHtml(o, xs, hs).value))
  {
    var rows := RowsHtml(o, xs, hs);
    if rows.Failure? {
      assert rows.error == AttributeError;
    }
  }
}
