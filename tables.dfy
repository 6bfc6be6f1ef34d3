/**
 * `parse_users_table` and its two halves: the header row is read from the
 * sort links of the `th.column_heading` cells, the data rows from the
 * `td.data` cells of every `tr` of the body.
 */
module Tables {
  import opened Dom
  import opened Errors

  const DataTable := ByClass("table", "data")
  const Head := ByTag("thead")
  const Body := ByTag("tbody")
  const HeadingCell := ByClass("th", "column_heading")
  const SortLink := ByClass("a", "sortlink")
  const Row := ByTag("tr")
  const DataCell := ByClass("td", "data")

  datatype ScrapedTable = ScrapedTable(header: seq<string>, rows: seq<seq<string>>)

  /** The content of the first child of `cs` that is a text node, skipping the
      elements before it and never looking inside them. */
  function FirstDirectText(cs: seq<Node>): (r: Option<string>)
    ensures r.None? <==> forall i :: 0 <= i < |cs| ==> !cs[i].Text?
    ensures r.Some? ==>
      exists i :: 0 <= i < |cs| && cs[i] == Text(r.value) && forall j :: 0 <= j < i ==> !cs[j].Text?
  {
    if cs == [] then None
    else if cs[0].Text? then Some(cs[0].content)
    else
      var r := FirstDirectText(cs[1..]);
      assert forall i :: 1 <= i < |cs| ==> cs[i] == cs[1..][i - 1];
      r
  }

  /** Only the kind of each child and the direct text nodes decide the name:
      whatever text sits inside the link's nested elements (`<small>`,
      `<span>`, badges) can change without changing it. */
  lemma {:induction false} FirstDirectTextIgnoresNestedText(cs: seq<Node>, ds: seq<Node>)
    requires |cs| == |ds|
    requires forall i :: 0 <= i < |cs| ==> (cs[i].Text? <==> ds[i].Text?) && (cs[i].Text? ==> cs[i] == ds[i])
    ensures FirstDirectText(cs) == FirstDirectText(ds)
  {
    if cs != [] && !cs[0].Text? {
      assert forall i :: 0 <= i < |cs| - 1 ==> cs[1..][i] == cs[i + 1] && ds[1..][i] == ds[i + 1];
      FirstDirectTextIgnoresNestedText(cs[1..], ds[1..]);
    }
  }

  function OptionToSeq(o: Option<string>): seq<string>
  {
    if o.None? then [] else [o.value]
  }

  /** What heading cell `h` contributes: the first direct text child of its
      sort link, if it has one, or an error when the cell has no sort link. */
  function HeadingName(h: Node): (r: Result<Option<string>>)
    ensures r.Err? ==> r.error == NotFound(SortLink)
  {
    match Find(h, SortLink)
    case None => Err(NotFound(SortLink))
    case Some(link) => Ok(FirstDirectText(link.children))
  }

  /** A heading cell fails exactly when it has no sort link, and otherwise
      names the first text node among the link's own children; text inside
      the link's nested elements is never a name. */
  lemma HeadingNameSpec(h: Node)
    ensures HeadingName(h).Err? <==> forall x :: x in Descendants(h) ==> !Matches(x, SortLink)
    ensures HeadingName(h).Err? ==> HeadingName(h).error == NotFound(SortLink)
    ensures HeadingName(h).Ok? ==>
      var link := Find(h, SortLink).value;
      && link in Descendants(h) && Matches(link, SortLink)
      && (HeadingName(h).value.None? <==> forall i :: 0 <= i < |link.children| ==> !link.children[i].Text?)
      && (HeadingName(h).value.Some? ==>
            exists i :: 0 <= i < |link.children| && link.children[i] == Text(HeadingName(h).value.value) &&
              forall j :: 0 <= j < i ==> !link.children[j].Text?)
  {
    FindSpec(h, SortLink);
  }

  /** The names of the heading cells, one contribution per cell in order. */
  function HeadingNames(hs: seq<Node>): seq<Result<Option<string>>>
  {
    seq(|hs|, j requires 0 <= j < |hs| => HeadingName(hs[j]))
  }

  /** Joins the cells' contributions into the header row: at most one name per
      cell, and the cell's error when one has no sort link. */
  function CollectNames(parts: seq<Result<Option<string>>>): (r: Result<seq<string>>)
    ensures r.Err? <==> exists j :: 0 <= j < |parts| && parts[j].Err?
    ensures r.Ok? ==> |r.value| <= |parts|
  {
    if parts == [] then Ok([])
    else
      var prefix := CollectNames(parts[..|parts| - 1]);
      assert forall j :: 0 <= j < |parts| - 1 ==> parts[..|parts| - 1][j] == parts[j];
      match prefix
      case Err(e) => Err(e)
      case Ok(names) =>
        match parts[|parts| - 1]
        case Err(e) => Err(e)
        case Ok(name) => Ok(names + OptionToSeq(name))
  }

  /** The header row the heading cells `hs` give. */
  function HeaderNames(hs: seq<Node>): Result<seq<string>>
  {
    CollectNames(HeadingNames(hs))
  }

  /** A failing header row fails with the error of its first failing cell. */
  lemma {:induction false} CollectNamesError(parts: seq<Result<Option<string>>>)
    requires CollectNames(parts).Err?
    ensures exists j :: (0 <= j < |parts| && parts[j] == Err(CollectNames(parts).error) &&
      forall k :: 0 <= k < j ==> parts[k].Ok?)
  {
    var init := parts[..|parts| - 1];
    assert forall k :: 0 <= k < |init| ==> init[k] == parts[k];
    if CollectNames(init).Err? {
      CollectNamesError(init);
      var j :| 0 <= j < |init| && init[j] == Err(CollectNames(init).error) &&
        forall k :: 0 <= k < j ==> init[k].Ok?;
      assert parts[j] == Err(CollectNames(parts).error);
    } else {
      assert forall k :: 0 <= k < |init| ==> parts[k].Ok?;
    }
  }

  /** Taking one more cell that has a sort link appends its name, if any. */
  lemma CollectNamesSnoc(parts: seq<Result<Option<string>>>, i: nat)
    requires i < |parts| && CollectNames(parts[..i]).Ok? && parts[i].Ok?
    ensures CollectNames(parts[..i + 1]) == Ok(CollectNames(parts[..i]).value + OptionToSeq(parts[i].value))
  {
    assert parts[..i + 1][..i] == parts[..i];
    assert parts[..i + 1][i] == parts[i];
  }

  /** Once a prefix of the cells fails, the whole header row fails the same way. */
  lemma {:induction false} CollectNamesErrorSticks(parts: seq<Result<Option<string>>>, m: nat)
    requires m <= |parts| && CollectNames(parts[..m]).Err?
    ensures CollectNames(parts) == CollectNames(parts[..m])
    decreases |parts| - m
  {
    if m < |parts| {
      assert parts[..m + 1][..m] == parts[..m];
      CollectNamesErrorSticks(parts, m + 1);
    } else {
      assert parts[..m] == parts;
    }
  }

  /** The positions of the cells that name something, in increasing order. */
  ghost function NamePositions(parts: seq<Result<Option<string>>>): (pos: seq<nat>)
    ensures forall k :: 0 <= k < |pos| ==> pos[k] < |parts|
  {
    if parts == [] then []
    else
      var last := parts[|parts| - 1];
      NamePositions(parts[..|parts| - 1]) + if last.Ok? && last.value.Some? then [|parts| - 1] else []
  }

  /** Every header name is the name of a cell, the k-th name that of the cell
      at the k-th position in `NamePositions`, and names keep the order of
      their cells. */
  lemma {:induction false} CollectNamesFromParts(parts: seq<Result<Option<string>>>)
    requires CollectNames(parts).Ok?
    ensures var names := CollectNames(parts).value;
      var pos := NamePositions(parts);
      && |pos| == |names|
      && (forall k :: 0 <= k < |pos| ==> parts[pos[k]] == Ok(Some(names[k])))
      && (forall k, l :: 0 <= k < l < |pos| ==> pos[k] < pos[l])
  {
    if parts != [] {
      var init := parts[..|parts| - 1];
      CollectNamesFromParts(init);
      var names0 := CollectNames(init).value;
      var pos0 := NamePositions(init);
      assert forall k :: 0 <= k < |pos0| ==> init[pos0[k]] == parts[pos0[k]];
      var last := parts[|parts| - 1];
      if last.value.Some? {
        assert CollectNames(parts).value == names0 + [last.value.value];
        assert NamePositions(parts) == pos0 + [|parts| - 1];
      } else {
        assert CollectNames(parts).value == names0;
        assert NamePositions(parts) == pos0;
      }
    }
  }

  /** One name per cell exactly when every cell names something. */
  lemma {:induction false} CollectNamesFull(parts: seq<Result<Option<string>>>)
    requires CollectNames(parts).Ok?
    ensures |CollectNames(parts).value| == |parts| <==>
      forall j :: 0 <= j < |parts| ==> parts[j].Ok? && parts[j].value.Some?
  {
    if parts != [] {
      var init := parts[..|parts| - 1];
      CollectNamesFull(init);
      assert forall j :: 0 <= j < |init| ==> init[j] == parts[j];
    }
  }

  /** The inner loop of `parse_table_headers`: append the first direct text
      child of a sort link to the header row, and stop there. */
  method AppendLinkName(headerRow: seq<string>, children: seq<Node>) returns (row: seq<string>)
    ensures row == headerRow + OptionToSeq(FirstDirectText(children))
  {
    row := headerRow;
    var j := 0;
    while j < |children|
      invariant 0 <= j <= |children|
      invariant row == headerRow
      invariant FirstDirectText(children) == FirstDirectText(children[j..])
    {
      if children[j].Text? {
        row := row + [children[j].content];
        break;
      }
      assert children[j..][1..] == children[j + 1..];
      j := j + 1;
    }
  }

  /** `parse_table_headers`. */
  method ParseTableHeaders(thead: Node) returns (r: Result<seq<string>>)
    ensures r == HeaderNames(FindAll(thead, HeadingCell))
  {
    var headings := FindAll(thead, HeadingCell);
    ghost var parts := HeadingNames(headings);
    assert |parts| == |headings|;
    var headerRow: seq<string> := [];
    var i := 0;
    while i < |headings|
      invariant 0 <= i <= |headings|
      invariant CollectNames(parts[..i]) == Ok(headerRow)
    {
      var link := Find(headings[i], SortLink);
      assert parts[i] == HeadingName(headings[i]);
      if link.None? {
        assert parts[..i + 1][..i] == parts[..i];
        CollectNamesErrorSticks(parts, i + 1);
        return Err(NotFound(SortLink));
      }
      headerRow := AppendLinkName(headerRow, link.value.children);
      CollectNamesSnoc(parts, i);
      i := i + 1;
    }
    assert parts[..i] == parts;
    r := Ok(headerRow);
  }

  /** The `get_text()` of each `td.data` cell of `tr`, in document order. */
  function RowTexts(tr: Node): (r: seq<string>)
  {
    var cells := FindAll(tr, DataCell);
    seq(|cells|, j requires 0 <= j < |cells| => GetText(cells[j]))
  }

  /** One row per `tr` of the body, in document order. */
  function TableRows(tbody: Node): (r: seq<seq<string>>)
  {
    var trs := FindAll(tbody, Row);
    seq(|trs|, i requires 0 <= i < |trs| => RowTexts(trs[i]))
  }

  /** `parse_table_divs`. */
  method ParseTableDivs(tbody: Node) returns (dataRows: seq<seq<string>>)
    ensures |dataRows| == |FindAll(tbody, Row)|
    ensures forall i :: 0 <= i < |dataRows| ==>
      var cells := FindAll(FindAll(tbody, Row)[i], DataCell);
      |dataRows[i]| == |cells| && forall j :: 0 <= j < |cells| ==> dataRows[i][j] == GetText(cells[j])
    ensures dataRows == TableRows(tbody)
  {
    dataRows := [];
    var rawRows := FindAll(tbody, Row);
    var i := 0;
    while i < |rawRows|
      invariant 0 <= i <= |rawRows|
      invariant |dataRows| == i
      invariant forall k :: 0 <= k < i ==> dataRows[k] == RowTexts(rawRows[k])
    {
      var parsedRow: seq<string> := [];
      var tableDivs := FindAll(rawRows[i], DataCell);
      var j := 0;
      while j < |tableDivs|
        invariant 0 <= j <= |tableDivs|
        invariant |parsedRow| == j
        invariant forall k :: 0 <= k < j ==> parsedRow[k] == GetText(tableDivs[k])
      {
        parsedRow := parsedRow + [GetText(tableDivs[j])];
        j := j + 1;
      }
      dataRows := dataRows + [parsedRow];
      i := i + 1;
    }
  }

  /** What `parse_users_table` returns for the fragment `doc`: the table, its
      head and the header names are looked up before the body. */
  function ParsedTable(doc: Node): (r: Result<ScrapedTable>)
    ensures r.Err? ==> r.error in {NotFound(DataTable), NotFound(Head), NotFound(SortLink), NotFound(Body)}
  {
    match Find(doc, DataTable)
    case None => Err(NotFound(DataTable))
    case Some(table) =>
      match Find(table, Head)
      case None => Err(NotFound(Head))
      case Some(thead) =>
        match HeaderNames(FindAll(thead, HeadingCell))
        case Err(e) =>
          CollectNamesError(HeadingNames(FindAll(thead, HeadingCell)));
          Err(e)
        case Ok(header) =>
          match Find(table, Body)
          case None => Err(NotFound(Body))
          case Some(tbody) => Ok(ScrapedTable(header, TableRows(tbody)))
  }

  /** `parse_users_table`. */
  method ParseUsersTable(doc: Node) returns (r: Result<ScrapedTable>)
    ensures r == ParsedTable(doc)
  {
    var table := Find(doc, DataTable);
    if table.None? {
      return Err(NotFound(DataTable));
    }
    var thead := Find(table.value, Head);
    if thead.None? {
      return Err(NotFound(Head));
    }
    var headerRow := ParseTableHeaders(thead.value);
    if headerRow.Err? {
      return Err(headerRow.error);
    }
    var tbody := Find(table.value, Body);
    if tbody.None? {
      return Err(NotFound(Body));
    }
    var dataRows := ParseTableDivs(tbody.value);
    r := Ok(ScrapedTable(headerRow.value, dataRows));
  }

  /** `parse_users_table` succeeds exactly when the table, its head and its
      body are all present and every heading cell has a sort link. */
  lemma ParsedTableSucceeds(doc: Node)
    ensures ParsedTable(doc).Ok? <==>
      && Find(doc, DataTable).Some?
      && Find(Find(doc, DataTable).value, Head).Some?
      && Find(Find(doc, DataTable).value, Body).Some?
      && forall h :: h in FindAll(Find(Find(doc, DataTable).value, Head).value, HeadingCell) ==>
           exists x :: x in Descendants(h) && Matches(x, SortLink)
  {
    var t := Find(doc, DataTable);
    if t.Some? && Find(t.value, Head).Some? {
      var hs := FindAll(Find(t.value, Head).value, HeadingCell);
      var parts := HeadingNames(hs);
      assert |parts| == |hs| && forall j :: 0 <= j < |hs| ==> parts[j] == HeadingName(hs[j]);
      forall j | 0 <= j < |hs| {
        HeadingNameSpec(hs[j]);
      }
      if CollectNames(parts).Err? {
        var j :| 0 <= j < |parts| && parts[j].Err?;
        assert hs[j] in hs;
      }
    }
  }

  /** Which error `parse_users_table` raises for a fragment that lacks part of
      the table, in the order the source looks for the parts. */
  lemma ParsedTableErrors(doc: Node)
    ensures (forall x :: x in Descendants(doc) ==> !Matches(x, DataTable)) ==>
      ParsedTable(doc) == Err(NotFound(DataTable))
    ensures Find(doc, DataTable).Some? ==>
      var table := Find(doc, DataTable).value;
      && ((forall x :: x in Descendants(table) ==> !Matches(x, Head)) ==>
            ParsedTable(doc) == Err(NotFound(Head)))
      && (Find(table, Head).Some? && HeaderNames(FindAll(Find(table, Head).value, HeadingCell)).Err? ==>
            ParsedTable(doc) == Err(NotFound(SortLink)))
      && (Find(table, Head).Some? && HeaderNames(FindAll(Find(table, Head).value, HeadingCell)).Ok? &&
          (forall x :: x in Descendants(table) ==> !Matches(x, Body)) ==>
            ParsedTable(doc) == Err(NotFound(Body)))
  {
    FindSpec(doc, DataTable);
    if Find(doc, DataTable).Some? {
      var table := Find(doc, DataTable).value;
      FindSpec(table, Head);
      FindSpec(table, Body);
      if Find(table, Head).Some? {
        var parts := HeadingNames(FindAll(Find(table, Head).value, HeadingCell));
        if CollectNames(parts).Err? {
          CollectNamesError(parts);
          var j :| 0 <= j < |parts| && parts[j] == Err(CollectNames(parts).error) &&
            forall k :: 0 <= k < j ==> parts[k].Ok?;
          HeadingNameSpec(FindAll(Find(table, Head).value, HeadingCell)[j]);
        }
      }
    }
  }

  /** A table whose body has no rows is not an error: it gives its header and
      no rows. */
  lemma EmptyBodyIsNotAnError(doc: Node)
    requires Find(doc, DataTable).Some?
    requires Find(Find(doc, DataTable).value, Head).Some?
    requires Find(Find(doc, DataTable).value, Body).Some?
    requires forall h :: h in FindAll(Find(Find(doc, DataTable).value, Head).value, HeadingCell) ==>
               exists x :: x in Descendants(h) && Matches(x, SortLink)
    requires forall x :: x in Descendants(Find(Find(doc, DataTable).value, Body).value) ==> !Matches(x, Row)
    ensures var table := Find(doc, DataTable).value;
      var header := HeaderNames(FindAll(Find(table, Head).value, HeadingCell));
      header.Ok? && ParsedTable(doc) == Ok(ScrapedTable(header.value, []))
  {
    ParsedTableSucceeds(doc);
    var tbody := Find(Find(doc, DataTable).value, Body).value;
    var d := Descendants(tbody);
    assert forall i :: 0 <= i < |d| ==> d[i] in d;
    FilterNone(d, Row);
    assert FindAll(tbody, Row) == [];
    assert TableRows(tbody) == [];
    var thead := Find(Find(doc, DataTable).value, Head).value;
    assert ParsedTable(doc) == Ok(ScrapedTable(HeaderNames(FindAll(thead, HeadingCell)).value, TableRows(tbody)));
  }
}
