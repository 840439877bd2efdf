/**
 * The signup handler of pages/api/signup.ts: a fixed sequence of checks on
 * the request, the first failing one deciding the response, then a lookup of
 * the email among the registered users and the insertion of the new user.
 * The user collection is a set of registered emails; the database being
 * unreachable, the password hash and the generated id are parameters.
 */
module Signup {
  import opened Common
  import opened Strings

  // ---------------------------------------------------------------------------
  // The email pattern /^[^\s@]+@[^\s@]+\.[^\s@]+$/

  /** A non-empty run of characters matched by `[^\s@]`. */
  predicate Segment(s: string) {
    |s| > 0 && forall i | 0 <= i < |s| :: !IsJsSpace(s[i]) && s[i] != '@'
  }

  /** The regular expression read directly: a segment, '@', a segment, '.',
      and a segment, covering the whole string. */
  ghost predicate MatchesEmailPattern(e: string)
    ensures MatchesEmailPattern(e) ==> 5 <= |e| && '@' in e && '.' in e
  {
    exists at: nat, dot: nat | at < dot < |e| ::
      && e[at] == '@' && e[dot] == '.'
      && Segment(e[..at]) && Segment(e[at + 1..dot]) && Segment(e[dot + 1..])
  }

  /** The position of the first `c` in `s`, or `|s|` when there is none. */
  function IndexOf(s: string, c: char): (k: nat)
    ensures k <= |s|
    ensures k < |s| ==> s[k] == c
    ensures forall j | 0 <= j < k :: s[j] != c
  {
    if |s| == 0 then 0
    else if s[0] == c then 0
    else 1 + IndexOf(s[1..], c)
  }

  /** The check as it is executed: no whitespace, exactly one '@' with
      something before it, and a '.' that has at least one character between
      it and the '@' and at least one after it. */
  predicate ValidEmail(e: string)
    ensures ValidEmail(e) ==> 5 <= |e| && '@' in e && '.' in e
  {
    var at := IndexOf(e, '@');
    && (forall i | 0 <= i < |e| :: !IsJsSpace(e[i]))
    && 0 < at < |e|
    && (forall i | at < i < |e| :: e[i] != '@')
    && (exists dot | at + 1 < dot < |e| - 1 :: e[dot] == '.')
  }

  lemma ValidEmailMatches(e: string)
    requires ValidEmail(e)
    ensures MatchesEmailPattern(e)
  {
    var at := IndexOf(e, '@');
    var dot :| at + 1 < dot < |e| - 1 && e[dot] == '.';
    assert Segment(e[..at]);
    assert Segment(e[at + 1..dot]);
    assert Segment(e[dot + 1..]);
  }

  lemma {:induction false} IndexOfIs(s: string, c: char, k: nat)
    requires k < |s| && s[k] == c
    requires forall j | 0 <= j < k :: s[j] != c
    ensures IndexOf(s, c) == k
    decreases k
  {
    if k > 0 {
      IndexOfIs(s[1..], c, k - 1);
    }
  }

  /** The three segments of a match, their separators, and nothing else. */
  lemma SegmentsCover(e: string, at: nat, dot: nat, i: nat)
    requires at < dot < |e| && i < |e| && i != at && i != dot
    requires Segment(e[..at]) && Segment(e[at + 1..dot]) && Segment(e[dot + 1..])
    ensures !IsJsSpace(e[i]) && e[i] != '@'
  {
    if i < at {
      assert e[..at][i] == e[i];
    } else if i < dot {
      assert e[at + 1..dot][i - at - 1] == e[i];
    } else {
      assert e[dot + 1..][i - dot - 1] == e[i];
    }
  }

  lemma MatchesValidEmail(e: string)
    requires MatchesEmailPattern(e)
    ensures ValidEmail(e)
  {
    var at: nat, dot: nat :| at < dot < |e| && e[at] == '@' && e[dot] == '.'
      && Segment(e[..at]) && Segment(e[at + 1..dot]) && Segment(e[dot + 1..]);
    forall j | 0 <= j < at
      ensures e[j] != '@'
    {
      SegmentsCover(e, at, dot, j);
    }
    IndexOfIs(e, '@', at);
    forall i | 0 <= i < |e|
      ensures !IsJsSpace(e[i])
    {
      if i != at && i != dot {
        SegmentsCover(e, at, dot, i);
      }
    }
    forall i | at < i < |e|
      ensures e[i] != '@'
    {
      if i != dot {
        SegmentsCover(e, at, dot, i);
      }
    }
  }

  /** The executed check accepts exactly the strings the pattern matches. */
  lemma EmailCheckIff(e: string)
    ensures ValidEmail(e) <==> MatchesEmailPattern(e)
  {
    if ValidEmail(e) {
      ValidEmailMatches(e);
    }
    if MatchesEmailPattern(e) {
      MatchesValidEmail(e);
    }
  }

  lemma AcceptedEmail()
    ensures ValidEmail("a@b.co")
  {
    assert IndexOf("a@b.co", '@') == 1;
    assert "a@b.co"[3] == '.';
  }

  /** A dot right after the '@' does not end the domain: the middle segment
      may itself contain dots. */
  lemma AcceptedDotAfterAt()
    ensures ValidEmail("a@.b.c")
  {
    assert IndexOf("a@.b.c", '@') == 1;
    assert "a@.b.c"[4] == '.';
  }

  lemma RejectedEmails()
    ensures !ValidEmail("a@b")
    ensures !ValidEmail("a@.b")
  {
    assert IndexOf("a@b", '@') == 1;
    assert IndexOf("a@.b", '@') == 1;
  }

  lemma RejectedEmailsSecondAt()
    ensures !ValidEmail("a@b@c.d")
    ensures !ValidEmail("a b@c.d")
  {
    assert IndexOf("a@b@c.d", '@') == 1;
    assert "a@b@c.d"[3] == '@';
    assert "a b@c.d"[1] == ' ';
  }

  // ---------------------------------------------------------------------------
  // The handler

  /** The request body: absent (`null` or `undefined`, whose destructuring
      throws), or an object whose fields may each be missing. */
  datatype Body = NoBody | Fields(email: Option<string>, password: Option<string>, name: Option<string>)

  datatype Request = Request(httpMethod: string, body: Body)

  /** What `insertOne` returns and what the response echoes back. */
  datatype Created = Created(id: nat, email: string, name: string)

  datatype Response = Response(status: nat, success: bool, error: Option<string>, data: Option<Created>)

  /** The database as the handler sees it: whether it can be reached at all,
      and the emails already registered. */
  datatype Store = Store(up: bool, users: set<string>)

  const MethodNotAllowed := "Method not allowed"
  const FieldsRequired := "Email, password, and name are required"
  const InvalidEmail := "Invalid email format"
  const PasswordTooShort := "Password must be at least 8 characters long"
  const AlreadyRegistered := "Email already registered"
  const InternalError := "Internal server error"

  function Failure(status: nat, message: string): Response {
    Response(status, false, Some(message), None)
  }

  /** JavaScript truthiness of a field: present and not the empty string. */
  predicate Truthy(v: Option<string>) {
    v.Some? && v.value != ""
  }

  /** The handler: the response and the registered emails afterwards. */
  function Handle(req: Request, store: Store, newId: nat): (r: (Response, set<string>))
    ensures r.0.status == 201 ==> r.0.success && r.0.data.Some? && r.1 == store.users + {r.0.data.value.email}
    ensures r.0.status != 201 ==> !r.0.success && r.0.data.None? && r.1 == store.users
  {
    if req.httpMethod != "POST" then (Failure(405, MethodNotAllowed), store.users)
    else match req.body
      case NoBody => (Failure(500, InternalError), store.users)
      case Fields(email, password, name) =>
        if !Truthy(email) || !Truthy(password) || !Truthy(name) then
          (Failure(400, FieldsRequired), store.users)
        else if !ValidEmail(email.value) then (Failure(400, InvalidEmail), store.users)
        else if Utf16Length(password.value) < 8 then (Failure(400, PasswordTooShort), store.users)
        else if !store.up then (Failure(500, InternalError), store.users)
        else if email.value in store.users then (Failure(409, AlreadyRegistered), store.users)
        else
          (Response(201, true, None, Some(Created(newId, email.value, name.value))),
           store.users + {email.value})
  }

  /** Every check before the database passes. */
  ghost predicate PassesValidation(req: Request) {
    && req.httpMethod == "POST"
    && req.body.Fields?
    && Truthy(req.body.email) && Truthy(req.body.password) && Truthy(req.body.name)
    && MatchesEmailPattern(req.body.email.value)
    && Utf16Length(req.body.password.value) >= 8
  }

  /** Anything but POST is refused before the body is looked at. */
  lemma MethodIff(req: Request, store: Store, newId: nat)
    ensures Handle(req, store, newId).0.status == 405 <==> req.httpMethod != "POST"
    ensures req.httpMethod != "POST" ==> Handle(req, store, newId) == (Failure(405, MethodNotAllowed), store.users)
  {
  }

  lemma RequiredIff(req: Request, store: Store, newId: nat)
    ensures Handle(req, store, newId).0.error == Some(FieldsRequired)
        <==> && req.httpMethod == "POST" && req.body.Fields?
             && !(Truthy(req.body.email) && Truthy(req.body.password) && Truthy(req.body.name))
  {
  }

  lemma InvalidEmailIff(req: Request, store: Store, newId: nat)
    ensures Handle(req, store, newId).0.error == Some(InvalidEmail)
        <==> && req.httpMethod == "POST" && req.body.Fields?
             && Truthy(req.body.email) && Truthy(req.body.password) && Truthy(req.body.name)
             && !MatchesEmailPattern(req.body.email.value)
  {
    if req.body.Fields? && req.body.email.Some? {
      EmailCheckIff(req.body.email.value);
    }
  }

  lemma PasswordIff(req: Request, store: Store, newId: nat)
    ensures Handle(req, store, newId).0.error == Some(PasswordTooShort)
        <==> && req.httpMethod == "POST" && req.body.Fields?
             && Truthy(req.body.email) && Truthy(req.body.password) && Truthy(req.body.name)
             && MatchesEmailPattern(req.body.email.value)
             && Utf16Length(req.body.password.value) < 8
  {
    if req.body.Fields? && req.body.email.Some? {
      EmailCheckIff(req.body.email.value);
    }
  }

  /** Only a request passing every check reaches the lookup; a registered
      email is refused and nothing is inserted. */
  lemma ConflictIff(req: Request, store: Store, newId: nat)
    ensures Handle(req, store, newId).0.status == 409
        <==> PassesValidation(req) && store.up && req.body.email.value in store.users
    ensures Handle(req, store, newId).0.status == 409 ==> Handle(req, store, newId).1 == store.users
  {
    if req.body.Fields? && req.body.email.Some? {
      EmailCheckIff(req.body.email.value);
    }
  }

  /** Success adds exactly the new email and echoes the email and the name. */
  lemma CreatedIff(req: Request, store: Store, newId: nat)
    ensures Handle(req, store, newId).0.status == 201
        <==> PassesValidation(req) && store.up && req.body.email.value !in store.users
    ensures Handle(req, store, newId).0.status == 201 ==>
      && Handle(req, store, newId).1 == store.users + {req.body.email.value}
      && Handle(req, store, newId).0.data == Some(Created(newId, req.body.email.value, req.body.name.value))
  {
    if req.body.Fields? && req.body.email.Some? {
      EmailCheckIff(req.body.email.value);
    }
  }

  /** A missing body or an unreachable database after the checks gives 500. */
  lemma InternalErrorIff(req: Request, store: Store, newId: nat)
    ensures Handle(req, store, newId).0.status == 500
        <==> req.httpMethod == "POST" && (req.body.NoBody? || (PassesValidation(req) && !store.up))
  {
    if req.body.Fields? && req.body.email.Some? {
      EmailCheckIff(req.body.email.value);
    }
  }

  /** Signing up the same user twice, one request after the other: the second
      attempt is refused. Requests that overlap are not covered, because the
      handler's lookup and insert are separate steps. */
  lemma SecondSignupConflicts(req: Request, store: Store, id1: nat, id2: nat)
    requires Handle(req, store, id1).0.status == 201
    ensures Handle(req, Store(store.up, Handle(req, store, id1).1), id2).0.status == 409
  {
    CreatedIff(req, store, id1);
    ConflictIff(req, Store(store.up, Handle(req, store, id1).1), id2);
  }
}
