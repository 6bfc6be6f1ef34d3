# phpMyAdmin table scraper — a Dafny model

The scraper logs in to a phpMyAdmin console and reads one table. First it
takes the anti-forgery `token` and the `set_session` marker from the login
form. Then it posts them back with the credentials and checks that the reply
set the `pmaUser-1` and `pmaAuth-1` cookies to non-empty values. Last, it parses the table
fragment it is sent into a header row and data rows. Tokens only ever reach
the log as a short preview.

This project models that logic in Dafny without the network or an HTML
parser. A parsed page is a tree (`Dom.Node`: text nodes and elements with a
tag, attributes, a class set and children). BeautifulSoup's `find_all`, `find`
and `get_text` are filters over the pre-order list of a node's descendants.
The login reply is given as the map of its cookies plus the transport's
`ok` flag.

Modules:

- `Dom` (dom.dfy): the tree, the three selector shapes the scraper uses, `Descendants`, `FindAll`, `Find` and `GetText`.
- `Errors` (errors.dfy): the failures. Python raises `AttributeError`/`TypeError` when a `find` came back empty and was then used, and `KeyError` when `value` is missing. These become `NotFound(selector)` and `MissingValue(selector)`. `AuthError` and `BadResponse` are the source's own exceptions.
- `Masking` (masking.dfy): `hide_string_part`.
- `Auth` (auth.dfy): the login form lookup (`get_token`), the credential payload, and the decision `post_auth` makes on the reply.
- `Tables` (tables.dfy): `parse_table_headers` and `parse_table_divs` as methods with loops, proved against specification functions, plus `parse_users_table`.
- `Scenarios` (scenarios.dfy): the run on small concrete pages.

Two points about the code that the model keeps:

- `post_auth` checks the cookies before the status, so a reply without both cookies is an `AuthError` even when its status is bad. `BadResponse` comes only when both cookies are present.
- `post_auth` reads each cookie with the cookie jar's `get`, which reports a cookie with an empty value as absent. So a session cookie that is present but empty is an `AuthError` too.
- Nothing in the code makes a data row as long as the header, so rows hold every `td.data` cell, whatever the header's length.

## Model

| member | source | states |
|---|---|---|
| Dom.FilterSpec | main.py:176 | `find_all` keeps exactly the nodes that match, and the first one it keeps is the first match in document order |
| Dom.FilterAppend | main.py:176 | filtering a concatenation is the concatenation of the filtered parts, so every match is kept once per occurrence and in document order |
| Dom.FindAll | main.py:200 | `find_all` returns no more nodes than the node has descendants |
| Dom.FindAllSpec | main.py:200 | `find_all(sel)` on a node returns exactly its matching descendants |
| Dom.FindAllThroughChild | main.py:200 | in `find_all`'s result, a child comes before its own matching descendants, and those come before the matches under later children |
| Dom.Find | main.py:101 | whatever `find(sel)` returns matches `sel` |
| Dom.FindSpec | main.py:101 | `find(sel)` is empty exactly when no descendant matches; otherwise it is the first matching descendant in document order |
| Dom.FindPosition | main.py:101 | whatever `find(sel)` returns sits at the first matching position among the descendants |
| Dom.FindFirstMatch | main.py:101 | the first matching descendant in document order is what `find(sel)` returns |
| Dom.FilterUnique | main.py:205 | when exactly one descendant matches, `find_all` returns that one node |
| Dom.GetTextOfElement | main.py:207 | `get_text()` of an element is the texts of its children joined in order, nested elements included |
| Masking.HideStringPart | main.py:226-232 | the empty string gives `"..."`; under 11 characters gives first char + `"..."` + last char (length 5); otherwise first 5 + `"..."` + last 5 (length 13) |
| Masking.HideStringPartReveals | main.py:230-232 | the preview is the first and last k characters around `"..."`, k ≤ 5; for inputs of 11+ characters at least one character is hidden |
| Masking.HideStringPartIdempotent | main.py:226-232 | masking a preview again changes nothing, except that the empty string's `"..."` becomes `"....."` |
| Auth.InputValueSpec | main.py:103-104 | the input read is the first matching one in document order: `NotFound` exactly when no input matches; otherwise its `value`, or `MissingValue` when it has none |
| Auth.GetToken | main.py:93-109 | a successful `get_token` found a login form; a failure is one of the five missing pieces: the form, either input, or either `value` |
| Auth.GetTokenSound | main.py:93-109 | a successful `get_token` returns the verbatim `value`s of the first `token` input and the first `set_session` input of the first `form#login_form` of the page |
| Auth.GetTokenErrors | main.py:101-107 | it fails with `NotFound(form)` exactly when there is no login form; then the token input, then its value, then the session input, then its value, each exactly when that is the first thing missing |
| Auth.GetTokenComplete | main.py:101-104 | when the first `token` input and the first `set_session` input of the first login form both carry a `value`, `get_token` returns those two values; other inputs need none |
| Auth.CheckLoginResponse | main.py:84-91 | a reply that passes carries both session cookies and a success status; any failure is `AuthError` or `BadResponse` |
| Auth.CheckLoginResponseOutcomes | main.py:84-91 | `AuthError` exactly when a session cookie is missing or empty, whatever the status; `BadResponse` exactly when both are present and non-empty and the status is bad; success exactly when both cookies are present and non-empty and the status is ok |
| Auth.CredentialPayload | main.py:68-76 | the form has exactly the seven fields: the token and session marker unchanged, the credentials, and `server="1"`, `route="/"`, `lang="ru"` |
| Auth.CredentialPayloadInjective | main.py:68-76 | two payloads are equal only if their token, marker, user and password are |
| Tables.FirstDirectText | main.py:183-190 | the first child that is a text node: nothing exactly when no direct child is text; otherwise the content of a direct text child with no text child before it |
| Tables.FirstDirectTextIgnoresNestedText | main.py:185-188 | text inside the link's nested elements (`small`, `span`) never changes the extracted name |
| Tables.HeadingName | main.py:181-183 | a heading cell fails only with a missing sort link |
| Tables.HeadingNameSpec | main.py:181-190 | a heading fails exactly when it has no `a.sortlink`; otherwise it names the first direct text child of its first sort link, or nothing if that link has no direct text child |
| Tables.CollectNames | main.py:178-192 | the header row fails exactly when some heading fails, and otherwise has at most one name per heading |
| Tables.CollectNamesError | main.py:180-183 | a failing header row fails with the error of its first failing heading |
| Tables.CollectNamesFromParts | main.py:180-190 | the k-th header name is the name of the k-th heading that names something, so names keep the headings' order |
| Tables.CollectNamesFull | main.py:180-190 | there is one name per heading exactly when every sort link has a direct text child |
| Tables.AppendLinkName | main.py:185-190 | the loop over the link's children, with its `break`, appends exactly the first direct text child, or nothing when there is none |
| Tables.ParseTableHeaders | main.py:172-192 | the loop with its early `break` returns the header row those specifications describe, for the `th.column_heading` cells in document order |
| Tables.ParseTableDivs | main.py:194-211 | one row per `tr` of the body, in document order; a row holds the `get_text()` of each of its `td.data` cells, in order, and nothing else |
| Tables.ParsedTable | main.py:150-166 | `parse_users_table` fails only because the table, its `thead`, a sort link or its `tbody` is missing |
| Tables.ParseUsersTable | main.py:150-170 | looks up the table, its `thead`, the header row and then the `tbody`, and returns the header and the rows |
| Tables.ParsedTableSucceeds | main.py:156-166 | parsing succeeds exactly when `table.data`, its `thead` and its `tbody` exist and every heading cell has a sort link |
| Tables.ParsedTableErrors | main.py:156-166 | the error raised names the first missing part: the table, then the `thead`, then a sort link, then the `tbody` |
| Tables.EmptyBodyIsNotAnError | main.py:156-166 | a table with its `thead`, a sort link in every heading and a `tbody` holding no `tr` parses without error, to its header row and no data rows |
| Scenarios.LoginPageExample | main.py:101-109 | a login form with `token="abc123"` and `set_session="xyz789"` gives `("abc123", "xyz789")` |
| Scenarios.UsersTableExample | main.py:150-211 | a heading `Username` with a `PK` badge, and a row whose `td.data` cell holds `alice`, give `(["Username"], [["alice"]])` |
| Scenarios.LoginResponseExample | main.py:84-91 | both cookies with status 200 log in; a missing cookie or an empty one is `AuthError`; both cookies with a bad status is `BadResponse` |

## Left out

- HTTP traffic through the shared `requests.Session` and its cookie jar (`get_login_page`, the POST in `post_auth`, `get_table_sql`). This is network I/O. The model takes the parsed page, or the reply's cookies and `ok` flag, as inputs.
- The query parameters of `get_table_sql` and its call to `json.loads(...)['message']`. These are one request and a foreign library call with a plain field lookup; no logic.
- Parsing markup text into a tree. BeautifulSoup's `html.parser` is a foreign library, so the model starts from the tree. Its `class` matching ("the class list contains X") is set membership here. Comments and other special strings are not modelled, so every text node counts for `get_text()` and for "is a string child".
- Other filter forms: BeautifulSoup's `find` also accepts regular expressions, lists and functions as filters. The model has only the tag, tag-plus-attribute and tag-plus-class queries the scraper uses.
- `print_table` (PrettyTable output), the logger setup and log calls, and the `__main__` driver. These are presentation and glue.
- `config.py`, which reads the user and password from `config.ini`. The credentials are parameters of `Auth.CredentialPayload`.
- The `TypeError` that `hide_string_part` raises for a non-string argument. Dafny's types rule that input out.
- Python's separate exception classes (`AttributeError`, `TypeError`, `KeyError`) are merged into `Errors.Failure` values. The log call before each re-raise is not modelled.
- Dom.FindAll: its own contract gives only the length bound. Membership, order and multiplicity are stated by `FindAllSpec`, `FilterAppend` and `FindAllThroughChild`, which callers invoke. A quantified postcondition on a function this widely used makes the header loop's proof too expensive.
- Dom.GetText: it is specified by `GetTextOfElement`, which relates it to the texts of the children, and it carries no contract of its own.
- Auth.CheckLoginResponse: the cookies are a map, so a reply that sets the same cookie name twice cannot be expressed. The cookie jar raises `CookieConflictError` on such a reply; the model does not capture that error.
