/**
 * The login handshake against the phpMyAdmin console, with the network taken
 * out: the login page arrives as a parsed document, and the answer to the
 * credential submission as its cookie names and values plus the transport's
 * success flag (`response.ok`).
 */
module Auth {
  import opened Dom
  import opened Errors

  /** The login form and its two hidden inputs. */
  const LoginForm := ByAttr("form", "id", "login_form")
  const TokenInput := ByAttr("input", "name", "token")
  const SessionInput := ByAttr("input", "name", "set_session")

  /** The cookies whose presence is the only sign of a successful login. */
  const UserCookie := "pmaUser-1"
  const AuthCookie := "pmaAuth-1"

  /** The `value` attribute of the first `sel` input inside `form`. */
  function InputValue(form: Node, sel: Selector): Result<string>
  {
    match Find(form, sel)
    case None => Err(NotFound(sel))
    case Some(input) =>
      if "value" in input.attrs then Ok(input.attrs["value"]) else Err(MissingValue(sel))
  }

  /** The input looked up is the first matching one in document order: with
      none, the lookup fails with `NotFound`; otherwise its `value` is the
      result, or `MissingValue` when it has none. */
  lemma InputValueSpec(form: Node, sel: Selector)
    ensures (forall x :: x in Descendants(form) ==> !Matches(x, sel)) <==> InputValue(form, sel) == Err(NotFound(sel))
    ensures forall k :: FirstMatchAt(Descendants(form), sel, k) ==>
      InputValue(form, sel) ==
        if "value" in Descendants(form)[k].attrs then Ok(Descendants(form)[k].attrs["value"])
        else Err(MissingValue(sel))
  {
    FindSpec(form, sel);
    forall k | FirstMatchAt(Descendants(form), sel, k) {
      FindFirstMatch(form, sel, k);
    }
  }

  /** `get_token`: the values of the `token` and `set_session` inputs of the
      login form, looked up in that order; the first thing missing is the
      error. */
  function GetToken(page: Node): (r: Result<(string, string)>)
    ensures r.Ok? ==> Find(page, LoginForm).Some?
    ensures r.Err? ==> r.error in {NotFound(LoginForm), NotFound(TokenInput), MissingValue(TokenInput),
                                   NotFound(SessionInput), MissingValue(SessionInput)}
  {
    match Find(page, LoginForm)
    case None => Err(NotFound(LoginForm))
    case Some(form) =>
      match InputValue(form, TokenInput)
      case Err(e) => Err(e)
      case Ok(token) =>
        match InputValue(form, SessionInput)
        case Err(e) => Err(e)
        case Ok(marker) => Ok((token, marker))
  }

  /** What `get_token` returns is read verbatim from the markup: the `value`
      attributes of the first `token` input and the first `set_session` input
      of the first `login_form` form of the page. */
  lemma GetTokenSound(page: Node)
    requires GetToken(page).Ok?
    ensures var (token, marker) := GetToken(page).value;
      var d := Descendants(page);
      exists i, k, l :: FirstMatchAt(d, LoginForm, i)
        && FirstMatchAt(Descendants(d[i]), TokenInput, k)
        && FirstMatchAt(Descendants(d[i]), SessionInput, l)
        && "value" in Descendants(d[i])[k].attrs && Descendants(d[i])[k].attrs["value"] == token
        && "value" in Descendants(d[i])[l].attrs && Descendants(d[i])[l].attrs["value"] == marker
  {
    var form := Find(page, LoginForm).value;
    var t, m := InputValue(form, TokenInput), InputValue(form, SessionInput);
    assert t.Ok? && m.Ok? && GetToken(page).value == (t.value, m.value);
    var i := FindPosition(page, LoginForm);
    var k := FindPosition(form, TokenInput);
    var l := FindPosition(form, SessionInput);
    var e := Descendants(form);
    assert "value" in e[k].attrs && e[k].attrs["value"] == t.value;
    assert "value" in e[l].attrs && e[l].attrs["value"] == m.value;
  }

  /** The failures of `get_token`, in the order the source meets them. */
  lemma GetTokenErrors(page: Node)
    ensures (forall x :: x in Descendants(page) ==> !Matches(x, LoginForm))
      <==> GetToken(page) == Err(NotFound(LoginForm))
    ensures Find(page, LoginForm).Some? ==>
      var form := Find(page, LoginForm).value;
      && ((forall x :: x in Descendants(form) ==> !Matches(x, TokenInput))
          <==> GetToken(page) == Err(NotFound(TokenInput)))
      && (Find(form, TokenInput).Some? && "value" !in Find(form, TokenInput).value.attrs
          <==> GetToken(page) == Err(MissingValue(TokenInput)))
      && (InputValue(form, TokenInput).Ok? && Find(form, SessionInput).None?
          <==> GetToken(page) == Err(NotFound(SessionInput)))
      && (InputValue(form, TokenInput).Ok? && Find(form, SessionInput).Some?
          && "value" !in Find(form, SessionInput).value.attrs
          <==> GetToken(page) == Err(MissingValue(SessionInput)))
  {
    FindSpec(page, LoginForm);
    if Find(page, LoginForm).Some? {
      var form := Find(page, LoginForm).value;
      FindSpec(form, TokenInput);
      FindSpec(form, SessionInput);
    }
  }

  /** Conversely, when the first login form's first `token` input and first
      `set_session` input both carry a `value`, `get_token` returns those two
      values; the form's other inputs play no part. */
  lemma GetTokenComplete(page: Node, i: int, k: int, l: int)
    requires FirstMatchAt(Descendants(page), LoginForm, i)
    requires FirstMatchAt(Descendants(Descendants(page)[i]), TokenInput, k)
    requires FirstMatchAt(Descendants(Descendants(page)[i]), SessionInput, l)
    requires "value" in Descendants(Descendants(page)[i])[k].attrs
    requires "value" in Descendants(Descendants(page)[i])[l].attrs
    ensures var inputs := Descendants(Descendants(page)[i]);
      GetToken(page) == Ok((inputs[k].attrs["value"], inputs[l].attrs["value"]))
  {
    var form := Descendants(page)[i];
    FindFirstMatch(page, LoginForm, i);
    FindFirstMatch(form, TokenInput, k);
    FindFirstMatch(form, SessionInput, l);
  }

  /** Both session cookies are present with a non-empty value. The reply's
      cookie jar reports a cookie whose value is empty as absent, so such a
      cookie does not count. */
  predicate IsAuthenticated(cookies: map<string, string>)
  {
    && UserCookie in cookies && cookies[UserCookie] != ""
    && AuthCookie in cookies && cookies[AuthCookie] != ""
  }

  /** The checks `post_auth` makes on the response, in its order: the
      cookies first, then the status. */
  function CheckLoginResponse(cookies: map<string, string>, ok: bool): (r: Outcome)
    ensures r == Pass ==> UserCookie in cookies && AuthCookie in cookies && ok
    ensures r.Fail? ==> r.error == AuthError || r.error == BadResponse
  {
    if !IsAuthenticated(cookies) then Fail(AuthError)
    else if !ok then Fail(BadResponse)
    else Pass
  }

  /** The login fails with `AuthError` exactly when a session cookie is
      missing, whatever the status; `BadResponse` exactly when both cookies
      are present and the status is not a success; it succeeds exactly when
      both hold. */
  lemma CheckLoginResponseOutcomes(cookies: map<string, string>, ok: bool)
    ensures CheckLoginResponse(cookies, ok) == Fail(AuthError) <==> !IsAuthenticated(cookies)
    ensures CheckLoginResponse(cookies, ok) == Fail(BadResponse) <==> IsAuthenticated(cookies) && !ok
    ensures CheckLoginResponse(cookies, ok) == Pass <==> IsAuthenticated(cookies) && ok
    ensures !IsAuthenticated(cookies) ==> CheckLoginResponse(cookies, true) == CheckLoginResponse(cookies, false)
  {
  }

  /** The form fields submitted with the credentials. */
  function CredentialPayload(token: string, marker: string, user: string, password: string):
    (r: map<string, string>)
    ensures r.Keys == {"set_session", "pma_username", "pma_password", "server", "route", "lang", "token"}
    ensures r["token"] == token && r["set_session"] == marker
    ensures r["pma_username"] == user && r["pma_password"] == password
    ensures r["server"] == "1" && r["route"] == "/" && r["lang"] == "ru"
  {
    map[
      "set_session" := marker,
      "pma_username" := user,
      "pma_password" := password,
      "server" := "1",
      "route" := "/",
      "lang" := "ru",
      "token" := token
    ]
  }

  /** The payload carries the challenge and the credentials unchanged: two
      payloads are equal only when everything they were built from is. */
  lemma CredentialPayloadInjective(t1: string, m1: string, u1: string, p1: string,
                                   t2: string, m2: string, u2: string, p2: string)
    requires CredentialPayload(t1, m1, u1, p1) == CredentialPayload(t2, m2, u2, p2)
    ensures t1 == t2 && m1 == m2 && u1 == u2 && p1 == p2
  {
  }
}
