/**
 * The run end to end on small documents: a login page with its form, and a
 * table fragment whose heading carries a badge next to its label.
 */
module Scenarios {
  import opened Dom
  import opened Errors
  import opened Auth
  import opened Tables

  function Leaf(tag: string, attrs: map<string, string>, classes: set<string>): Node
  {
    Element(tag, attrs, classes, [])
  }

  const LoginPage: Node :=
    Element("[document]", map[], {}, [
      Element("form", map["id" := "login_form"], {}, [
        Leaf("input", map["name" := "pma_username"], {}),
        Leaf("input", map["name" := "set_session", "value" := "xyz789"], {}),
        Leaf("input", map["name" := "token", "value" := "abc123"], {})
      ])
    ])

  /** The token and the session marker are read from the form verbatim,
      whatever order the inputs come in. */
  lemma LoginPageExample()
    ensures GetToken(LoginPage) == Ok(("abc123", "xyz789"))
  {
    var form := LoginPage.children[0];
    var inputs := form.children;
    assert forall k :: 0 <= k < 3 ==> Descendants(inputs[k]) == [];
    assert DescendantsFrom(form, 3) == [];
    assert Descendants(form) == inputs;
    assert DescendantsFrom(LoginPage, 1) == [];
    assert Descendants(LoginPage) == [form] + inputs;
    GetTokenComplete(LoginPage, 0, 2, 1);
  }

  const Badge: Node := Element("small", map[], {"badge"}, [Text("PK")])

  const Link: Node := Element("a", map[], {"sortlink"}, [Text("Username"), Badge])
  const Heading: Node := Element("th", map[], {"column_heading"}, [Link])
  const UsersHead: Node := Element("thead", map[], {}, [Element("tr", map[], {}, [Heading])])
  const Cell: Node := Element("td", map[], {"data"}, [Element("span", map[], {}, [Text("alice")])])
  const UserRow: Node := Element("tr", map[], {}, [Leaf("td", map[], {"checkbox"}), Cell])
  const UsersBody: Node := Element("tbody", map[], {}, [UserRow])
  const UsersTable: Node := Element("table", map[], {"data"}, [UsersHead, UsersBody])
  const UsersFragment: Node := Element("[document]", map[], {}, [UsersTable])

  lemma HeadDescendants()
    ensures Descendants(Heading) == [Link, Text("Username"), Badge, Text("PK")]
    ensures Descendants(UsersHead) == [UsersHead.children[0], Heading, Link, Text("Username"), Badge, Text("PK")]
  {
    var headRow := UsersHead.children[0];
    assert Badge.children == [Text("PK")] && DescendantsFrom(Badge, 1) == [];
    assert Descendants(Badge) == [Text("PK")];
    assert Link.children == [Text("Username"), Badge] && DescendantsFrom(Link, 2) == [];
    assert DescendantsFrom(Link, 1) == [Badge] + Descendants(Badge);
    assert Descendants(Text("Username")) == [];
    assert DescendantsFrom(Link, 0) == [Text("Username")] + DescendantsFrom(Link, 1);
    assert Descendants(Link) == [Text("Username"), Badge, Text("PK")];
    assert Heading.children == [Link] && DescendantsFrom(Heading, 1) == [];
    assert Descendants(Heading) == [Link] + Descendants(Link);
    assert headRow.children == [Heading] && DescendantsFrom(headRow, 1) == [];
    assert Descendants(headRow) == [Heading] + Descendants(Heading);
    assert UsersHead.children == [headRow] && DescendantsFrom(UsersHead, 1) == [];
  }

  lemma BodyDescendants()
    ensures Descendants(UserRow) == [UserRow.children[0], Cell, Cell.children[0], Text("alice")]
    ensures Descendants(UsersBody) == [UserRow] + Descendants(UserRow)
    ensures GetText(Cell) == "alice"
  {
    var span := Cell.children[0];
    var checkbox := UserRow.children[0];
    assert span.children == [Text("alice")] && DescendantsFrom(span, 1) == [];
    assert Descendants(span) == [Text("alice")];
    assert Cell.children == [span] && DescendantsFrom(Cell, 1) == [];
    assert Descendants(Cell) == [span, Text("alice")];
    assert Descendants(checkbox) == [];
    assert UserRow.children == [checkbox, Cell] && DescendantsFrom(UserRow, 2) == [];
    assert DescendantsFrom(UserRow, 1) == [Cell] + Descendants(Cell);
    assert UsersBody.children == [UserRow] && DescendantsFrom(UsersBody, 1) == [];
  }

  lemma TableDescendants()
    ensures Descendants(UsersTable) == [UsersHead] + Descendants(UsersHead) + [UsersBody] + Descendants(UsersBody)
    ensures Descendants(UsersFragment) == [UsersTable] + Descendants(UsersTable)
  {
    assert UsersTable.children == [UsersHead, UsersBody] && DescendantsFrom(UsersTable, 2) == [];
    assert DescendantsFrom(UsersTable, 1) == [UsersBody] + Descendants(UsersBody);
    assert UsersFragment.children == [UsersTable] && DescendantsFrom(UsersFragment, 1) == [];
    assert DescendantsFrom(UsersFragment, 0) == [UsersTable] + Descendants(UsersTable) + DescendantsFrom(UsersFragment, 1);
  }

  /** The header is the label alone, without the badge's text. */
  lemma UsersHeaderExample()
    ensures HeaderNames(FindAll(UsersHead, HeadingCell)) == Ok(["Username"])
  {
    HeadDescendants();
    FilterUnique(Descendants(UsersHead), HeadingCell, 1);
    FilterUnique(Descendants(Heading), SortLink, 0);
    assert FindAll(UsersHead, HeadingCell) == [Heading];
    assert Find(Heading, SortLink) == Some(Link);
    assert FirstDirectText(Link.children) == Some("Username");
    assert HeadingName(Heading) == Ok(Some("Username"));
    var parts := HeadingNames([Heading]);
    assert parts == [Ok(Some("Username"))];
    assert parts[..0] == [] && CollectNames(parts[..0]) == Ok([]);
    assert parts[|parts| - 1] == Ok(Some("Username"));
    assert OptionToSeq(Some("Username")) == ["Username"];
    var expected: Result<seq<string>> := Ok(["Username"]);
    assert CollectNames(parts).value == ["Username"];
    assert CollectNames(parts) == expected;
  }

  /** The row holds only the `td.data` cell's full text. */
  lemma UsersRowsExample()
    ensures TableRows(UsersBody) == [["alice"]]
  {
    BodyDescendants();
    FilterUnique(Descendants(UsersBody), Row, 0);
    FilterUnique(Descendants(UserRow), DataCell, 1);
    assert FindAll(UsersBody, Row) == [UserRow];
    assert FindAll(UserRow, DataCell) == [Cell];
    assert RowTexts(UserRow) == ["alice"];
  }

  /** The whole fragment gives one header and one row. */
  lemma UsersTableExample()
    ensures ParsedTable(UsersFragment) == Ok(ScrapedTable(["Username"], [["alice"]]))
  {
    HeadDescendants();
    BodyDescendants();
    TableDescendants();
    FilterUnique(Descendants(UsersFragment), DataTable, 0);
    FilterUnique(Descendants(UsersTable), Head, 0);
    FilterUnique(Descendants(UsersTable), Body, 7);
    UsersHeaderExample();
    UsersRowsExample();
  }

  /** A response that sets both cookies with status 200 logs in; a missing or
      empty cookie is an authentication failure. */
  lemma LoginResponseExample()
    ensures CheckLoginResponse(map[UserCookie := "u", AuthCookie := "a"], true) == Pass
    ensures CheckLoginResponse(map[UserCookie := "u"], true) == Fail(AuthError)
    ensures CheckLoginResponse(map[UserCookie := "", AuthCookie := "a"], true) == Fail(AuthError)
    ensures CheckLoginResponse(map[UserCookie := "u", AuthCookie := "a"], false) == Fail(BadResponse)
  {
  }
}
