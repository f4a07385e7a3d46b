/**
  The JSON-to-HTML renderer the inspection report uses: a recursive converter
  over decoded JSON values. A string becomes (escaped) text, a mapping a
  two-column key/value table, a list of uniformly keyed mappings one "clubbed"
  table with shared column headers, any other list a bullet list, and any
  other value the text Python's `str` gives it.

  The converter can raise: with clubbing on, the column-header search asks
  every list item for its keys until one does not match, and an item that is
  not a mapping has none. `Convert` returns that as `Failure(AttributeError)`.
*/
module Json2Html {
  import opened Wrappers
  import opened HtmlEscape

  /** A decoded JSON value. `Float` carries the text Python's `str` gives the
      number; a `Tuple` is a Python tuple inside the value. */
  datatype Json =
    | Null
    | Bool(b: bool)
    | Int(i: int)
    | Float(repr: string)
    | Str(s: string)
    | Dict(entries: seq<Entry>)
    | List(items: seq<Json>)
    | Tuple(items: seq<Json>)

  /** One key/value pair of a mapping, in insertion order. */
  datatype Entry = Entry(key: string, value: Json)

  /** The exception a conversion can raise: asking a non-mapping for its keys. */
  datatype Raised = AttributeError

  /** The converter's settings, fixed when it is created. */
  datatype Options = Options(tableInitMarkup: string, clubbing: bool, escape: bool)

  /** The settings for the given table attributes and flags: the opening table
      tag is `<table ` + the attributes + `>`. */
  function MakeOptions(tableAttributes: string, clubbing: bool, escape: bool): (o: Options)
    ensures |o.tableInitMarkup| == |tableAttributes| + 8
    ensures o.tableInitMarkup[..7] == "<table " && o.tableInitMarkup[|o.tableInitMarkup| - 1] == '>'
    ensures o.tableInitMarkup[7..|o.tableInitMarkup| - 1] == tableAttributes
    ensures o.clubbing == clubbing && o.escape == escape
  {
    var markup := "<table " + tableAttributes + ">";
    assert markup[7..|markup| - 1] == tableAttributes;
    Options(markup, clubbing, escape)
  }

  // ---------------------------------------------------------------- text

  /** `parts` joined with `sep` between consecutive parts, as `str.join` does. */
  function Join(sep: string, parts: seq<string>): string
  {
    if parts == [] then ""
    else if |parts| == 1 then parts[0]
    else Join(sep, parts[..|parts| - 1]) + sep + parts[|parts| - 1]
  }

  /** A string as it appears in the output: escaped exactly when escaping is on. */
  function StringHtml(o: Options, s: string): string
  {
    if o.escape then Escape(s) else s
  }

  function DigitChar(d: nat): char
    requires d < 10
  {
    "0123456789"[d]
  }

  predicate IsDigit(c: char)
  {
    '0' <= c <= '9'
  }

  /** The decimal digits of `n`, most significant first, without leading zeros. */
  function NatToString(n: nat): (r: string)
    ensures r != [] && (|r| > 1 ==> r[0] != '0')
    ensures forall k :: 0 <= k < |r| ==> IsDigit(r[k])
  {
    if n < 10 then [DigitChar(n)]
    else NatToString(n / 10) + [DigitChar(n % 10)]
  }

  /** The text `str` gives an integer: its digits, after a `-` when negative. */
  function IntToString(i: int): (r: string)
    ensures IsIntText(r)
  {
    if i < 0 then "-" + NatToString(-i) else NatToString(i)
  }

  /** The value of a digit string, most significant digit first. */
  function DigitsValue(s: string): nat
    requires forall k :: 0 <= k < |s| ==> IsDigit(s[k])
  {
    if s == [] then 0
    else
      assert IsDigit(s[|s| - 1]);
      DigitsValue(s[..|s| - 1]) * 10 + (s[|s| - 1] as int - '0' as int)
  }

  /** Digits, after an optional leading `-`. */
  predicate IsIntText(s: string)
  {
    forall k :: 0 <= k < |s| ==> IsDigit(s[k]) || (k == 0 && s[k] == '-')
  }

  /** Reads back an integer written by `IntToString`. */
  function ParseInt(s: string): int
    requires IsIntText(s)
  {
    if s != [] && s[0] == '-' then -(DigitsValue(s[1..]) as int) else DigitsValue(s)
  }

  lemma {:induction false} NatToStringValue(n: nat)
    ensures DigitsValue(NatToString(n)) == n
  {
    if n >= 10 {
      var r := NatToString(n);
      assert r[..|r| - 1] == NatToString(n / 10);
      NatToStringValue(n / 10);
    }
  }

  /** Integers are written without loss: the text reads back as the number. */
  lemma {:induction false} IntToStringRoundTrip(i: int)
    ensures ParseInt(IntToString(i)) == i
  {
    if i < 0 {
      NatToStringValue(-i);
      ParseNegative(NatToString(-i));
    } else {
      NatToStringValue(i);
      ParseNonNegative(NatToString(i));
    }
  }

  lemma {:induction false} ParseNegative(r: string)
    requires forall k :: 0 <= k < |r| ==> IsDigit(r[k])
    ensures IsIntText("-" + r) && ParseInt("-" + r) == -(DigitsValue(r) as int)
  {
    var t := "-" + r;
    assert t[1..] == r;
  }

  lemma {:induction false} ParseNonNegative(r: string)
    requires r != [] && forall k :: 0 <= k < |r| ==> IsDigit(r[k])
    ensures IsIntText(r) && ParseInt(r) == DigitsValue(r)
  {
    assert IsDigit(r[0]);
  }

  /** The text `str` gives a value that is neither a string, a mapping nor a
      sequence. */
  function ScalarText(j: Json): (r: string)
    requires !j.Str? && !j.Dict? && !j.List? && !j.Tuple?
    ensures j.Int? ==> IsIntText(r) && ParseInt(r) == j.i
    ensures j.Bool? ==> (r == "True" <==> j.b)
  {
    match j
    case Null => "None"
    case Bool(b) => if b then "True" else "False"
    case Int(i) => IntToStringRoundTrip(i); IntToString(i)
    case Float(repr) => repr
  }

  // ---------------------------------------------------------------- column headers

  /** The keys of a mapping, in insertion order. */
  function Keys(es: seq<Entry>): (ks: seq<string>)
    ensures |ks| == |es| && forall k :: 0 <= k < |es| ==> ks[k] == es[k].key
  {
    seq(|es|, k requires 0 <= k < |es| => es[k].key)
  }

  /** `x` is a mapping with as many keys as `hs` and every one of `hs` among them. */
  predicate Matches(x: Json, hs: seq<string>)
  {
    && x.Dict?
    && |x.entries| == |hs|
    && forall h :: h in hs ==> h in Keys(x.entries)
  }

  /** Compares the items with the headers `hs` in order, stopping at the first
      item that is not a mapping (which raises) or does not match (no headers). */
  function CheckEntries(hs: seq<string>, xs: seq<Json>): (r: Result<Option<seq<string>>, Raised>)
    ensures r == Success(Some(hs)) ==> forall x :: x in xs ==> Matches(x, hs)
    ensures r.Success? && r.value.Some? ==> r.value.value == hs
  {
    if xs == [] then Success(Some(hs))
    else if !xs[0].Dict? then Failure(AttributeError)
    else if !Matches(xs[0], hs) then Success(None)
    else CheckEntries(hs, xs[1..])
  }

  /** The column headers of a list for a clubbed table: none for an empty list,
      else the first item's keys if every item matches them. */
  function ColumnHeaders(xs: seq<Json>): (r: Result<Option<seq<string>>, Raised>)
    ensures r.Success? && r.value.Some? ==> forall x :: x in xs ==> Matches(x, r.value.value)
    ensures xs == [] ==> r == Success(Some([]))
    ensures xs != [] && r.Success? && r.value.Some? ==> xs[0].Dict? && r.value.value == Keys(xs[0].entries)
  {
    if xs == [] then Success(Some([]))
    else if !xs[0].Dict? then Failure(AttributeError)
    else CheckEntries(Keys(xs[0].entries), xs)
  }

  /** The position of the key `h` among the keys `ks`. */
  function KeyIndex(ks: seq<string>, h: string): (k: nat)
    requires h in ks
    ensures k < |ks| && ks[k] == h
  {
    if ks[0] == h then 0 else 1 + KeyIndex(ks[1..], h)
  }

  // ---------------------------------------------------------------- markup

  /** The table cell pair of one mapping entry. */
  function Cell(o: Options, key: string, v: string): string
  {
    "<th>" + StringHtml(o, key) + "</th><td>" + v + "</td>"
  }

  /** A mapping's table from its cells. */
  function ObjectTable(o: Options, cells: seq<string>): string
  {
    o.tableInitMarkup + "<tr>" + Join("</tr><tr>", cells) + "</tr></table>"
  }

  /** One row of a clubbed table from its cells. */
  function Row(cells: seq<string>): string
  {
    "<tr><td>" + Join("</td><td>", cells) + "</td></tr>"
  }

  /** The opening of a clubbed table, up to its body: the header names verbatim. */
  function TableHead(o: Options, hs: seq<string>): string
  {
    o.tableInitMarkup + "<thead>" + "<tr><th>" + Join("</th><th>", hs) + "</th></tr>" + "</thead>" + "<tbody>"
  }

  /** A clubbed table from its header names and its rows. */
  function ClubbedTable(o: Options, hs: seq<string>, rows: string): string
  {
    TableHead(o, hs) + rows + "</tbody>" + "</table>"
  }

  /** A bullet list from its items. */
  function BulletList(items: seq<string>): string
  {
    "<ul><li>" + Join("</li><li>", items) + "</li></ul>"
  }

  // ---------------------------------------------------------------- conversion

  /** The HTML of a value, dispatched on its outermost kind. */
  function Convert(o: Options, j: Json): (r: Result<string, Raised>)
    ensures (j.List? || j.Tuple?) && j.items == [] ==> r == Success("")
    ensures j.Dict? && j.entries == [] ==> r == Success("")
    decreases j, 3
  {
    match j
    case Str(s) => Success(StringHtml(o, s))
    case Dict(es) => ObjectHtml(o, es)
    case List(xs) => ListHtml(o, xs)
    case Tuple(xs) => ListHtml(o, xs)
    case _ => Success(ScalarText(j))
  }

  /** A mapping: nothing when empty, else one row per entry, key then value. */
  function ObjectHtml(o: Options, es: seq<Entry>): Result<string, Raised>
    decreases es, 2
  {
    if es == [] then Success("")
    else
      match EntryCells(o, es)
      case Failure(e) => Failure(e)
      case Success(cells) => Success(ObjectTable(o, cells))
  }

  /** The cells of a mapping's entries, in order. */
  function EntryCells(o: Options, es: seq<Entry>): Result<seq<string>, Raised>
    decreases es, 1
  {
    if es == [] then Success([])
    else
      match EntryCells(o, es[..|es| - 1])
      case Failure(e) => Failure(e)
      case Success(cells) =>
        var last := es[|es| - 1];
        match Convert(o, last.value)
        case Failure(e) => Failure(e)
        case Success(v) => Success(cells + [Cell(o, last.key, v)])
  }

  /** A list (or tuple): nothing when empty; with clubbing on, a clubbed table
      when the column headers are found; otherwise a bullet list. */
  function ListHtml(o: Options, xs: seq<Json>): Result<string, Raised>
    decreases xs, 2
  {
    if xs == [] then Success("")
    else
      var headers := if o.clubbing then ColumnHeaders(xs) else Success(None);
      match headers
      case Failure(e) => Failure(e)
      case Success(Some(hs)) =>
        (match RowsHtml(o, xs, hs)
         case Failure(e) => Failure(e)
         case Success(rows) => Success(ClubbedTable(o, hs, rows)))
      case Success(None) =>
        (match ItemsHtml(o, xs)
         case Failure(e) => Failure(e)
         case Success(items) => Success(BulletList(items)))
  }

  /** The converted items of a list, in order. */
  function ItemsHtml(o: Options, xs: seq<Json>): Result<seq<string>, Raised>
    decreases xs, 1
  {
    if xs == [] then Success([])
    else
      match ItemsHtml(o, xs[..|xs| - 1])
      case Failure(e) => Failure(e)
      case Success(items) =>
        match Convert(o, xs[|xs| - 1])
        case Failure(e) => Failure(e)
        case Success(v) => Success(items + [v])
  }

  /** The rows of a clubbed table, one per item, concatenated. */
  function RowsHtml(o: Options, xs: seq<Json>, hs: seq<string>): Result<string, Raised>
    requires forall x :: x in xs ==> Matches(x, hs)
    decreases xs, 1
  {
    if xs == [] then Success("")
    else
      assert forall x :: x in xs[..|xs| - 1] ==> x in xs;
      var last := xs[|xs| - 1];
      assert last in xs && Matches(last, hs);
      match RowsHtml(o, xs[..|xs| - 1], hs)
      case Failure(e) => Failure(e)
      case Success(rows) =>
        match RowCells(o, last.entries, hs)
        case Failure(e) => Failure(e)
        case Success(cells) => Success(rows + Row(cells))
  }

  /** The cells of one row: the item's value under each header, in header order. */
  function RowCells(o: Options, es: seq<Entry>, hs: seq<string>): Result<seq<string>, Raised>
    requires forall h :: h in hs ==> h in Keys(es)
    decreases es, 0, |hs|
  {
    if hs == [] then Success([])
    else
      assert forall h :: h in hs[..|hs| - 1] ==> h in hs;
      match RowCells(o, es, hs[..|hs| - 1])
      case Failure(e) => Failure(e)
      case Success(cells) =>
        var k := KeyIndex(Keys(es), hs[|hs| - 1]);
        match Convert(o, es[k].value)
        case Failure(e) => Failure(e)
        case Success(v) => Success(cells + [v])
  }

  /** The entry point: converts `j` with the given settings, by default a
      `border="1"` table, clubbing on and escaping on. */
  function ToHtml(j: Json, tableAttributes: string := "border=\"1\"", clubbing: bool := true, escape: bool := true)
    : (r: Result<string, Raised>)
    ensures !clubbing ==> r.Success?
    ensures j.Str? ==> r == Success(if escape then Escape(j.s) else j.s)
    ensures j.Str? && escape ==> Unescape(r.value) == j.s
  {
    var o := MakeOptions(tableAttributes, clubbing, escape);
    if j.Str? && escape then UnescapeEscape(j.s); Convert(o, j)
    else if !clubbing then NoClubbingNeverRaises(o, j); Convert(o, j)
    else Convert(o, j)
  }

  // ---------------------------------------------------------------- properties

  /** Without clubbing nothing asks for keys, so no conversion raises. */
  lemma {:induction false} NoClubbingNeverRaises(o: Options, j: Json)
    requires !o.clubbing
    ensures Convert(o, j).Success?
    decreases j, 3
  {
    match j
    case Dict(es) => EntryCellsNeverRaise(o, es);
    case List(xs) => ItemsNeverRaise(o, xs);
    case Tuple(xs) => ItemsNeverRaise(o, xs);
    case _ =>
  }

  lemma {:induction false} EntryCellsNeverRaise(o: Options, es: seq<Entry>)
    requires !o.clubbing
    ensures EntryCells(o, es).Success?
    decreases es, 1
  {
    if es != [] {
      EntryCellsNeverRaise(o, es[..|es| - 1]);
      NoClubbingNeverRaises(o, es[|es| - 1].value);
    }
  }

  lemma {:induction false} ItemsNeverRaise(o: Options, xs: seq<Json>)
    requires !o.clubbing
    ensures ItemsHtml(o, xs).Success?
    decreases xs, 1
  {
    if xs != [] {
      ItemsNeverRaise(o, xs[..|xs| - 1]);
      NoClubbingNeverRaises(o, xs[|xs| - 1]);
    }
  }

  // ---------------------------------------------------------------- column headers, case by case

  /** Every item matches the headers: the search returns them. */
  lemma {:induction false} CheckEntriesAllMatch(hs: seq<string>, xs: seq<Json>)
    requires forall x :: x in xs ==> Matches(x, hs)
    ensures CheckEntries(hs, xs) == Success(Some(hs))
  {
    if xs != [] {
      assert xs[0] in xs;
      assert forall x :: x in xs[1..] ==> x in xs;
      CheckEntriesAllMatch(hs, xs[1..]);
    }
  }

  /** The search stops at the first item that does not match: it raises if that
      item is not a mapping and finds no headers otherwise. */
  lemma {:induction false} CheckEntriesFirstMismatch(hs: seq<string>, xs: seq<Json>, i: nat)
    requires i < |xs| && !Matches(xs[i], hs)
    requires forall k :: 0 <= k < i ==> Matches(xs[k], hs)
    ensures CheckEntries(hs, xs) == if xs[i].Dict? then Success(None) else Failure(AttributeError)
  {
    if i > 0 {
      assert Matches(xs[0], hs);
      assert forall k :: 0 <= k < i - 1 ==> xs[1..][k] == xs[k + 1];
      CheckEntriesFirstMismatch(hs, xs[1..], i - 1);
    }
  }

  /** Column headers are found exactly when the first item is a mapping and every
      item matches its keys. */
  lemma {:induction false} ColumnHeadersFound(xs: seq<Json>)
    requires xs != []
    ensures ColumnHeaders(xs).Success? && ColumnHeaders(xs).value.Some?
            <==> xs[0].Dict? && forall x :: x in xs ==> Matches(x, Keys(xs[0].entries))
  {
    if xs[0].Dict? && forall x :: x in xs ==> Matches(x, Keys(xs[0].entries)) {
      CheckEntriesAllMatch(Keys(xs[0].entries), xs);
    }
  }

  /** With the first item a mapping, the search ends at the first item that does
      not match its keys: it raises when that item is not a mapping, else it
      finds no headers. A first item that is not a mapping raises at once. */
  lemma {:induction false} ColumnHeadersFirstMismatch(xs: seq<Json>, i: nat)
    requires i < |xs|
    requires !xs[0].Dict? ==> i == 0
    requires xs[0].Dict? ==> !Matches(xs[i], Keys(xs[0].entries))
                             && forall k :: 0 <= k < i ==> Matches(xs[k], Keys(xs[0].entries))
    ensures ColumnHeaders(xs) == if xs[i].Dict? then Success(None) else Failure(AttributeError)
  {
    if xs[0].Dict? {
      CheckEntriesFirstMismatch(Keys(xs[0].entries), xs, i);
    }
  }

  // ---------------------------------------------------------------- one part per element

  /** A mapping's cells, entry by entry: the conversion succeeds when every value
      converts, and then holds one cell per entry, in insertion order. */
  lemma {:induction false} EntryCellsEach(o: Options, es: seq<Entry>)
    ensures EntryCells(o, es).Success? <==> forall k :: 0 <= k < |es| ==> Convert(o, es[k].value).Success?
    ensures EntryCells(o, es).Success? ==>
              && |EntryCells(o, es).value| == |es|
              && forall k :: 0 <= k < |es| ==>
                   EntryCells(o, es).value[k] == Cell(o, es[k].key, Convert(o, es[k].value).value)
  {
    EntryCellsSucceed(o, es);
    if EntryCells(o, es).Success? {
      EntryCellsValues(o, es);
    }
  }

  lemma {:induction false} EntryCellsSucceed(o: Options, es: seq<Entry>)
    ensures EntryCells(o, es).Success? <==> forall k :: 0 <= k < |es| ==> Convert(o, es[k].value).Success?
  {
    if es != [] {
      var init := es[..|es| - 1];
      EntryCellsSucceed(o, init);
      assert forall k :: 0 <= k < |init| ==> init[k] == es[k];
    }
  }

  lemma {:induction false} EntryCellsValues(o: Options, es: seq<Entry>)
    requires EntryCells(o, es).Success?
    ensures |EntryCells(o, es).value| == |es|
    ensures forall k :: 0 <= k < |es| ==>
              && Convert(o, es[k].value).Success?
              && EntryCells(o, es).value[k] == Cell(o, es[k].key, Convert(o, es[k].value).value)
  {
    if es != [] {
      var init := es[..|es| - 1];
      EntryCellsValues(o, init);
      assert forall k :: 0 <= k < |init| ==> init[k] == es[k];
    }
  }

  /** A list's items, element by element: the conversion succeeds when every
      element converts, and then holds one item per element, in order. */
  lemma {:induction false} ItemsEach(o: Options, xs: seq<Json>)
    ensures ItemsHtml(o, xs).Success? <==> forall k :: 0 <= k < |xs| ==> Convert(o, xs[k]).Success?
    ensures ItemsHtml(o, xs).Success? ==>
              && |ItemsHtml(o, xs).value| == |xs|
              && forall k :: 0 <= k < |xs| ==> ItemsHtml(o, xs).value[k] == Convert(o, xs[k]).value
  {
    ItemsSucceed(o, xs);
    if ItemsHtml(o, xs).Success? {
      ItemsValues(o, xs);
    }
  }

  lemma {:induction false} ItemsSucceed(o: Options, xs: seq<Json>)
    ensures ItemsHtml(o, xs).Success? <==> forall k :: 0 <= k < |xs| ==> Convert(o, xs[k]).Success?
  {
    if xs != [] {
      var init := xs[..|xs| - 1];
      ItemsSucceed(o, init);
      assert forall k :: 0 <= k < |init| ==> init[k] == xs[k];
    }
  }

  lemma {:induction false} ItemsValues(o: Options, xs: seq<Json>)
    requires ItemsHtml(o, xs).Success?
    ensures |ItemsHtml(o, xs).value| == |xs|
    ensures forall k :: 0 <= k < |xs| ==>
              && Convert(o, xs[k]).Success?
              && ItemsHtml(o, xs).value[k] == Convert(o, xs[k]).value
  {
    if xs != [] {
      var init := xs[..|xs| - 1];
      ItemsValues(o, init);
      assert forall k :: 0 <= k < |init| ==> init[k] == xs[k];
    }
  }

  /** A clubbed row, header by header: one cell per header, holding the item's
      value under that header. */
  lemma {:induction false} RowCellsEach(o: Options, es: seq<Entry>, hs: seq<string>)
    requires forall h :: h in hs ==> h in Keys(es)
    ensures RowCells(o, es, hs).Success? <==>
              forall k :: 0 <= k < |hs| ==> Convert(o, es[KeyIndex(Keys(es), hs[k])].value).Success?
    ensures RowCells(o, es, hs).Success? ==>
              && |RowCells(o, es, hs).value| == |hs|
              && forall k :: 0 <= k < |hs| ==>
                   RowCells(o, es, hs).value[k] == Convert(o, es[KeyIndex(Keys(es), hs[k])].value).value
  {
    RowCellsSucceed(o, es, hs);
    if RowCells(o, es, hs).Success? {
      RowCellsValues(o, es, hs);
    }
  }

  lemma {:induction false} RowCellsSucceed(o: Options, es: seq<Entry>, hs: seq<string>)
    requires forall h :: h in hs ==> h in Keys(es)
    ensures RowCells(o, es, hs).Success? <==>
              forall k :: 0 <= k < |hs| ==> Convert(o, es[KeyIndex(Keys(es), hs[k])].value).Success?
  {
    if hs != [] {
      var init := hs[..|hs| - 1];
      assert forall h :: h in init ==> h in hs;
      RowCellsSucceed(o, es, init);
      assert forall k :: 0 <= k < |init| ==> init[k] == hs[k];
      var c := Convert(o, es[KeyIndex(Keys(es), hs[|hs| - 1])].value);
      assert RowCells(o, es, hs).Success? <==> RowCells(o, es, init).Success? && c.Success?;
    }
  }

  lemma {:induction false} RowCellsValues(o: Options, es: seq<Entry>, hs: seq<string>)
    requires forall h :: h in hs ==> h in Keys(es)
    requires RowCells(o, es, hs).Success?
    ensures |RowCells(o, es, hs).value| == |hs|
    ensures forall k :: 0 <= k < |hs| ==>
              && Convert(o, es[KeyIndex(Keys(es), hs[k])].value).Success?
              && RowCells(o, es, hs).value[k] == Convert(o, es[KeyIndex(Keys(es), hs[k])].value).value
  {
    if hs != [] {
      var init := hs[..|hs| - 1];
      assert forall h :: h in init ==> h in hs;
      RowCellsValues(o, es, init);
      assert forall k :: 0 <= k < |init| ==> init[k] == hs[k];
    }
  }

  /** A row that raises makes the whole table raise. */
  lemma {:induction false} RowsFailurePersists(o: Options, xs: seq<Json>, hs: seq<string>, n: nat)
    requires forall x :: x in xs ==> Matches(x, hs)
    requires n <= |xs|
    requires forall x :: x in xs[..n] ==> Matches(x, hs)
    requires RowsHtml(o, xs[..n], hs).Failure?
    ensures RowsHtml(o, xs, hs).Failure?
    decreases |xs| - n
  {
    if n < |xs| {
      assert xs[..n + 1][..n] == xs[..n];
      assert forall x :: x in xs[..n + 1] ==> x in xs;
      RowsFailurePersists(o, xs, hs, n + 1);
    } else {
      assert xs[..n] == xs;
    }
  }

  // ---------------------------------------------------------------- tuples

  /** `j` with every tuple, at any depth, turned into a list. */
  function Listify(j: Json): Json
    decreases j, 1
  {
    match j
    case Dict(es) => Dict(ListifyEntries(es))
    case List(xs) => List(ListifyAll(xs))
    case Tuple(xs) => List(ListifyAll(xs))
    case _ => j
  }

  function ListifyAll(xs: seq<Json>): (ys: seq<Json>)
    decreases xs, 0
    ensures |ys| == |xs|
  {
    seq(|xs|, k requires 0 <= k < |xs| => Listify(xs[k]))
  }

  function ListifyEntries(es: seq<Entry>): (fs: seq<Entry>)
    decreases es, 0
    ensures |fs| == |es|
  {
    seq(|es|, k requires 0 <= k < |es| => Entry(es[k].key, Listify(es[k].value)))
  }

  lemma {:induction false} ListifyKeys(es: seq<Entry>)
    ensures Keys(ListifyEntries(es)) == Keys(es)
  {
  }

  lemma {:induction false} ListifyMatches(x: Json, hs: seq<string>)
    ensures Matches(Listify(x), hs) == Matches(x, hs)
    ensures Listify(x).Dict? == x.Dict?
  {
    if x.Dict? {
      ListifyKeys(x.entries);
    }
  }

  lemma {:induction false} ListifyCheckEntries(hs: seq<string>, xs: seq<Json>)
    ensures CheckEntries(hs, ListifyAll(xs)) == CheckEntries(hs, xs)
  {
    if xs != [] {
      ListifyMatches(xs[0], hs);
      assert ListifyAll(xs)[1..] == ListifyAll(xs[1..]);
      ListifyCheckEntries(hs, xs[1..]);
    }
  }

  lemma {:induction false} ListifyColumnHeaders(xs: seq<Json>)
    ensures ColumnHeaders(ListifyAll(xs)) == ColumnHeaders(xs)
  {
    if xs != [] {
      ListifyMatches(xs[0], []);
      if xs[0].Dict? {
        ListifyKeys(xs[0].entries);
        ListifyCheckEntries(Keys(xs[0].entries), xs);
      }
    }
  }

  /** Tuples are rendered exactly as lists: turning every tuple into a list, at
      any depth, leaves the output (and whether it raises) unchanged. */
  lemma {:induction false} ConvertListify(o: Options, j: Json)
    ensures Convert(o, Listify(j)) == Convert(o, j)
    decreases j, 3
  {
    match j
    case Dict(es) => ListifyEntryCells(o, es);
    case List(xs) => ListifyListHtml(o, xs);
    case Tuple(xs) => ListifyListHtml(o, xs);
    case _ =>
  }

  lemma {:induction false} ListifyEntryCells(o: Options, es: seq<Entry>)
    ensures EntryCells(o, ListifyEntries(es)) == EntryCells(o, es)
    decreases es, 1
  {
    if es != [] {
      assert ListifyEntries(es)[..|es| - 1] == ListifyEntries(es[..|es| - 1]);
      ListifyEntryCells(o, es[..|es| - 1]);
      ConvertListify(o, es[|es| - 1].value);
    }
  }

  lemma {:induction false} ListifyListHtml(o: Options, xs: seq<Json>)
    ensures ListHtml(o, ListifyAll(xs)) == ListHtml(o, xs)
    decreases xs, 2
  {
    if xs != [] {
      ListifyColumnHeaders(xs);
      ListifyItems(o, xs);
      if o.clubbing && ColumnHeaders(xs).Success? && ColumnHeaders(xs).value.Some? {
        ListifyRows(o, xs, ColumnHeaders(xs).value.value);
      }
    }
  }

  lemma {:induction false} ListifyItems(o: Options, xs: seq<Json>)
    ensures ItemsHtml(o, ListifyAll(xs)) == ItemsHtml(o, xs)
    decreases xs, 1
  {
    if xs != [] {
      assert ListifyAll(xs)[..|xs| - 1] == ListifyAll(xs[..|xs| - 1]);
      ListifyItems(o, xs[..|xs| - 1]);
      ConvertListify(o, xs[|xs| - 1]);
    }
  }

  lemma {:induction false} ListifyRows(o: Options, xs: seq<Json>, hs: seq<string>)
    requires forall x :: x in xs ==> Matches(x, hs)
    ensures forall y :: y in ListifyAll(xs) ==> Matches(y, hs)
    ensures RowsHtml(o, ListifyAll(xs), hs) == RowsHtml(o, xs, hs)
    decreases xs, 1
  {
    forall y | y in ListifyAll(xs)
      ensures Matches(y, hs)
    {
      var k :| 0 <= k < |xs| && ListifyAll(xs)[k] == y;
      assert xs[k] in xs;
      ListifyMatches(xs[k], hs);
    }
    if xs != [] {
      var init := xs[..|xs| - 1];
      var last := xs[|xs| - 1];
      assert forall x :: x in init ==> x in xs;
      assert ListifyAll(xs)[..|xs| - 1] == ListifyAll(init);
      ListifyRows(o, init, hs);
      assert last in xs;
      ListifyKeys(last.entries);
      ListifyRowCells(o, last.entries, hs);
    }
  }

  lemma {:induction false} ListifyRowCells(o: Options, es: seq<Entry>, hs: seq<string>)
    requires forall h :: h in hs ==> h in Keys(es)
    ensures Keys(ListifyEntries(es)) == Keys(es)
    ensures RowCells(o, ListifyEntries(es), hs) == RowCells(o, es, hs)
    decreases es, 0, |hs|
  {
    ListifyKeys(es);
    if hs != [] {
      var init := hs[..|hs| - 1];
      assert forall h :: h in init ==> h in hs;
      ListifyRowCells(o, es, init);
      var k := KeyIndex(Keys(es), hs[|hs| - 1]);
      ConvertListify(o, es[k].value);
    }
  }

  // ---------------------------------------------------------------- examples

  /** The options `ToHtml` uses by default. */
  function DefaultOptions(): Options
  {
    MakeOptions("border=\"1\"", true, true)
  }

  lemma {:induction false} DefaultTableMarkup()
    ensures DefaultOptions().tableInitMarkup == "<table border=\"1\">"
  {
    assert "<table " + "border=\"1\"" + ">" == "<table border=\"1\">";
  }

  /** The header names of a clubbed table are inserted verbatim. */
  lemma {:induction false} ClubbedHeaderVerbatim(h: string, i: int)
    ensures ToHtml(List([Dict([Entry(h, Int(i))])]))
            == Success("<table border=\"1\"><thead><tr><th>" + h + "</th></tr></thead><tbody><tr><td>"
                       + IntToString(i) + "</td></tr></tbody></table>")
  {
    var o := DefaultOptions();
    var es := [Entry(h, Int(i))];
    var x := Dict(es);
    var hs := [h];
    assert Keys(es) == hs;
    CheckEntriesAllMatch(hs, [x]);
    assert ColumnHeaders([x]) == Success(Some(hs));
    assert KeyIndex(hs, h) == 0;
    var noCells: seq<string> := [];
    var v := IntToString(i);
    assert hs[..0] == [] && noCells + [v] == [v];
    assert RowCells(o, es, hs) == Success([v]);
    var row := "<tr><td>" + v + "</td></tr>";
    assert [x][..0] == [] && "" + row == row;
    assert RowsHtml(o, [x], hs) == Success(row);
    assert ListHtml(o, [x]) == Success(ClubbedTable(o, hs, row));
    assert ToHtml(List([x])) == Convert(o, List([x]));
    DefaultTableMarkup();
    assert Join("</th><th>", hs) == h;
    ClubbedString(h, v);
  }

  lemma {:induction false} ClubbedString(h: string, v: string)
    ensures "<table border=\"1\">" + "<thead>" + "<tr><th>" + h + "</th></tr>" + "</thead>" + "<tbody>"
            + ("<tr><td>" + v + "</td></tr>") + "</tbody>" + "</table>"
            == "<table border=\"1\"><thead><tr><th>" + h + "</th></tr></thead><tbody><tr><td>" + v + "</td></tr></tbody></table>"
  {
    Regroup3(
      "<table border=\"1\">", "<thead>", "<tr><th>", h, "</th></tr>", "</thead>", "<tbody>",
      "<tr><td>", v, "</td></tr>", "</tbody>", "</table>");
    ClubbedOpening();
    ClubbedMiddle();
    ClubbedClosing();
  }

  lemma {:induction false} ClubbedOpening()
    ensures "<table border=\"1\"><thead><tr><th>" == "<table border=\"1\">" + "<thead>" + "<tr><th>"
  {
  }

  lemma {:induction false} ClubbedMiddle()
    ensures "</th></tr></thead><tbody><tr><td>" == "</th></tr>" + "</thead>" + "<tbody>" + "<tr><td>"
  {
  }

  lemma {:induction false} ClubbedClosing()
    ensures "</td></tr></tbody></table>" == "</td></tr>" + "</tbody>" + "</table>"
  {
  }

  /** Regrouping a concatenation of twelve strings around `h` and `v`. */
  lemma {:induction false} Regroup3(a: string, b: string, c: string, h: string, d: string, e: string, f: string,
                 g: string, v: string, k: string, i: string, j: string)
    ensures a + b + c + h + d + e + f + (g + v + k) + i + j
         == (a + b + c) + h + (d + e + f + g) + v + (k + i + j)
  {
    ConcatAssoc(a + b + c + h + d + e + f, g + v, k);
    ConcatAssoc(a + b + c + h + d + e + f, g, v);
    ConcatAssoc(a + b + c + h, d + e + f, g);
    ConcatAssoc(a + b + c + h + (d + e + f + g) + v + k, i, j);
    ConcatAssoc(a + b + c + h + (d + e + f + g) + v, k, i + j);
    ConcatAssoc(a + b + c + h, d + e, f);
    ConcatAssoc(a + b + c + h, d, e);
  }

  lemma {:induction false} ConcatAssoc(a: string, b: string, c: string)
    ensures a + (b + c) == a + b + c
  {
  }

  /** A key of a mapping rendered as a table is escaped like any other string. */
  lemma {:induction false} ObjectKeyEscaped(k: string, i: int)
    ensures ToHtml(Dict([Entry(k, Int(i))]))
            == Success("<table border=\"1\"><tr><th>" + Escape(k) + "</th><td>" + IntToString(i) + "</td></tr></table>")
  {
    var o := DefaultOptions();
    var es := [Entry(k, Int(i))];
    var cell := "<th>" + Escape(k) + "</th><td>" + IntToString(i) + "</td>";
    var noCells: seq<string> := [];
    assert es[..0] == [] && noCells + [cell] == [cell];
    assert EntryCells(o, es) == Success([cell]);
    assert Convert(o, Dict(es)) == Success(ObjectTable(o, [cell]));
    assert ToHtml(Dict(es)) == Convert(o, Dict(es));
    DefaultTableMarkup();
    assert Join("</tr><tr>", [cell]) == cell;
    ObjectString(Escape(k), IntToString(i));
  }

  lemma {:induction false} ObjectString(k: string, v: string)
    ensures "<table border=\"1\">" + "<tr>" + ("<th>" + k + "</th><td>" + v + "</td>") + "</tr></table>"
            == "<table border=\"1\"><tr><th>" + k + "</th><td>" + v + "</td></tr></table>"
  {
    assert "<table border=\"1\"><tr><th>" == "<table border=\"1\">" + "<tr>" + "<th>";
    assert "</td></tr></table>" == "</td>" + "</tr></table>";
  }

  /** With clubbing on, a list whose first item is not a mapping raises. */
  lemma {:induction false} ListOfStringsRaises(a: string, b: string)
    ensures ToHtml(List([Str(a), Str(b)])) == Failure(AttributeError)
  {
    var xs := [Str(a), Str(b)];
    assert ToHtml(List(xs)) == Convert(DefaultOptions(), List(xs));
    assert ColumnHeaders(xs) == Failure(AttributeError);
    assert ListHtml(DefaultOptions(), xs) == Failure(AttributeError);
  }

  lemma {:induction false} TwoStringItems(o: Options, a: string, b: string)
    requires o.escape
    ensures ItemsHtml(o, [Str(a), Str(b)]) == Success([Escape(a), Escape(b)])
  {
    var xs := [Str(a), Str(b)];
    var noItems: seq<string> := [];
    assert xs[..1] == [Str(a)];
    assert xs[..1][..0] == [] && noItems + [Escape(a)] == [Escape(a)];
    assert ItemsHtml(o, xs[..1]) == Success([Escape(a)]);
    assert xs[|xs| - 1] == Str(b) && [Escape(a)] + [Escape(b)] == [Escape(a), Escape(b)];
  }

  /** With clubbing off, the same list is a bullet list of the escaped strings. */
  lemma {:induction false} ListOfStringsBulleted(a: string, b: string)
    ensures ToHtml(List([Str(a), Str(b)]), clubbing := false)
            == Success("<ul><li>" + Escape(a) + "</li><li>" + Escape(b) + "</li></ul>")
  {
    var o := MakeOptions("border=\"1\"", false, true);
    var xs := [Str(a), Str(b)];
    TwoStringItems(o, a, b);
    assert [Escape(a), Escape(b)][..1] == [Escape(a)];
    assert ToHtml(List(xs), clubbing := false) == Convert(o, List(xs));
    assert Join("</li><li>", [Escape(a), Escape(b)]) == Escape(a) + "</li><li>" + Escape(b);
    assert ListHtml(o, xs) == Success(BulletList([Escape(a), Escape(b)]));
    assert BulletList([Escape(a), Escape(b)]) == "<ul><li>" + Escape(a) + "</li><li>" + Escape(b) + "</li></ul>";
  }
}
