/**
 * The session provider of context/SessionContext.tsx: on mount it reads the
 * stored session, keeps it only when it parses, names an email and an expiry,
 * and has not expired, and otherwise removes it from storage; on every change
 * it decides whether to send the browser to the login page or to the
 * dashboard. Storage, `JSON.parse` and the clock are parameters.
 */
module Session {
  import opened Common

  /** A parsed stored session reduced to what the provider reads. `JNull` is
      `null`, on which reading a field throws. Any other value carries the
      truthiness of its `email` field and, when its `expiresAt` field is
      truthy, the time in milliseconds `new Date(expiresAt)` denotes, or
      `None` for an invalid date. */
  datatype Json = JNull | JValue(hasEmail: bool, expiresAt: Option<Expiry>)

  datatype Expiry = Expiry(time: Option<int>)

  /** The provider's state: the session, the loading flag, and the storage
      entry `'session'`. */
  datatype State = State(session: Option<Json>, loading: bool, stored: Option<string>)

  /** Before the mount effect has run (lines 14-15). */
  function Initial(stored: Option<string>): (s: State)
    ensures s.session.None? && s.loading && s.stored == stored
  {
    State(None, true, stored)
  }

  /** `if (storedSession)`: present and not the empty string. */
  predicate Truthy(stored: Option<string>)
    ensures !Truthy(stored) <==> stored == None || stored == Some("")
  {
    stored.Some? && stored.value != ""
  }

  /** The stored session is still valid at `now`: it names an email and an
      expiry that is a valid date later than `now`. An invalid date compares
      false with everything. */
  predicate Valid(v: Json, now: int)
    ensures Valid(v, now) ==> v != JNull && v.hasEmail
  {
    && v.JValue? && v.hasEmail && v.expiresAt.Some?
    && v.expiresAt.value.time.Some? && v.expiresAt.value.time.value > now
  }

  /** The mount effect (lines 18-49). `parse` is `JSON.parse`, `None` when it
      throws. */
  function Mount(stored: Option<string>, parse: string -> Option<Json>, now: int): (s: State)
    ensures !s.loading
    ensures s.session.Some? ==> s.stored == stored && Truthy(stored)
    ensures s.session.None? ==> s.stored == (if Truthy(stored) then None else stored)
  {
    if !Truthy(stored) then State(None, false, stored)
    else match parse(stored.value)
      case None => State(None, false, None)
      case Some(JNull) => State(None, false, None)
      case Some(v) =>
        if !v.hasEmail || v.expiresAt.None? then State(None, false, None)
        else match v.expiresAt.value.time
          case Some(t) =>
            if t > now then State(Some(v), false, stored) else State(None, false, None)
          case None => State(None, false, None)
  }

  /** A session is installed exactly when the stored text parses to a valid
      session, and it is the parsed value itself. */
  lemma MountInstallsIff(stored: Option<string>, parse: string -> Option<Json>, now: int)
    ensures Mount(stored, parse, now).session.Some?
        <==> Truthy(stored) && parse(stored.value).Some? && Valid(parse(stored.value).value, now)
    ensures Mount(stored, parse, now).session.Some? ==>
      Mount(stored, parse, now).session == parse(stored.value)
  {
  }

  /** Nothing stored, or the empty string: no session and storage untouched. */
  lemma NothingStored(stored: Option<string>, parse: string -> Option<Json>, now: int)
    requires !Truthy(stored)
    ensures Mount(stored, parse, now) == State(None, false, stored)
  {
  }

  /** Text that does not parse, or parses to `null`: the entry is removed. */
  lemma UnparseableRemoved(stored: Option<string>, parse: string -> Option<Json>, now: int)
    requires Truthy(stored) && (parse(stored.value).None? || parse(stored.value) == Some(JNull))
    ensures Mount(stored, parse, now) == State(None, false, None)
  {
  }

  /** A session without an email or an expiry is removed. */
  lemma MissingFieldRemoved(stored: Option<string>, parse: string -> Option<Json>, now: int)
    requires Truthy(stored) && parse(stored.value).Some? && parse(stored.value).value.JValue?
    requires !parse(stored.value).value.hasEmail || parse(stored.value).value.expiresAt.None?
    ensures Mount(stored, parse, now) == State(None, false, None)
  {
  }

  /** An expired session, or one whose expiry is not a date, is removed. */
  lemma ExpiredRemoved(stored: Option<string>, parse: string -> Option<Json>, now: int)
    requires Truthy(stored) && parse(stored.value).Some?
    requires var v := parse(stored.value).value;
      v.JValue? && v.hasEmail && v.expiresAt.Some?
      && (v.expiresAt.value.time.None? || v.expiresAt.value.time.value <= now)
    ensures Mount(stored, parse, now) == State(None, false, None)
  {
  }

  /** A session kept at one time would have been kept at any earlier time. */
  lemma KeptEarlier(stored: Option<string>, parse: string -> Option<Json>, now: int, earlier: int)
    requires earlier <= now && Mount(stored, parse, now).session.Some?
    ensures Mount(stored, parse, earlier) == Mount(stored, parse, now)
  {
    MountInstallsIff(stored, parse, now);
    MountInstallsIff(stored, parse, earlier);
  }

  // ---------------------------------------------------------------------------
  // The route guard

  const PublicPaths: seq<string> := ["/", "/signup"]
  const LoginPage := "/"
  const Dashboard := "/dashboard"

  /** The second effect (lines 52-65): where to `router.push`, if anywhere. */
  function Guard(loading: bool, session: Option<Json>, path: string): (r: Option<string>)
    ensures loading ==> r.None?
    ensures r.Some? ==> r.value == LoginPage || r.value == Dashboard
  {
    if loading then None
    else if session.None? && path !in PublicPaths then Some(LoginPage)
    else if session.Some? && path in PublicPaths then Some(Dashboard)
    else None
  }

  /** The guard sends to the login page exactly the visitors without a session
      on a page that is not public. */
  lemma ToLoginIff(loading: bool, session: Option<Json>, path: string)
    ensures Guard(loading, session, path) == Some(LoginPage)
        <==> !loading && session.None? && path != "/" && path != "/signup"
  {
  }

  /** The guard sends to the dashboard exactly the visitors with a session on
      a public page. */
  lemma ToDashboardIff(loading: bool, session: Option<Json>, path: string)
    ensures Guard(loading, session, path) == Some(Dashboard)
        <==> !loading && session.Some? && (path == "/" || path == "/signup")
  {
  }

  /** No redirect: still loading, or the page suits the session. */
  lemma StaysIff(loading: bool, session: Option<Json>, path: string)
    ensures Guard(loading, session, path).None?
        <==> loading || (session.None? == (path == "/" || path == "/signup"))
  {
  }

  /** With the session held fixed, the page redirected to is not redirected
      from. */
  lemma GuardIdempotent(session: Option<Json>, path: string)
    requires Guard(false, session, path).Some?
    ensures Guard(false, session, Guard(false, session, path).value).None?
  {
    assert PublicPaths[0] == LoginPage;
  }

  /** A visitor whose stored session has expired, opening the dashboard, is
      sent to the login page once loading ends; before, nothing happens. */
  lemma ExpiredOnDashboard(stored: Option<string>, parse: string -> Option<Json>, now: int)
    requires Truthy(stored) && parse(stored.value).Some? && !Valid(parse(stored.value).value, now)
    ensures Guard(Initial(stored).loading, Initial(stored).session, Dashboard).None?
    ensures Guard(false, Mount(stored, parse, now).session, Dashboard) == Some(LoginPage)
  {
    MountInstallsIff(stored, parse, now);
  }

  /** A visitor with a valid stored session opening the login page is sent to
      the dashboard once loading ends. */
  lemma ValidOnLogin(stored: Option<string>, parse: string -> Option<Json>, now: int)
    requires Truthy(stored) && parse(stored.value).Some? && Valid(parse(stored.value).value, now)
    ensures Guard(false, Mount(stored, parse, now).session, LoginPage) == Some(Dashboard)
  {
    MountInstallsIff(stored, parse, now);
  }
}
