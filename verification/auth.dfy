/** The in-memory authentication routes: a list of users seeded with one
    demo account, `register` and `login` that issue the bearer token
    `"token-" + id`, and `me` that reads the id back out of the token.
    Each handler is a pure transition from the user list to a new list and
    a response. */
module Auth {
  import opened Wrappers
  import opened Js
  import Strings
  import Numbers

  datatype User = User(id: int, name: JsValue, email: JsValue, password: JsValue)

  /** A user as every response shows it: the type has no password. */
  datatype PublicUser = PublicUser(id: int, name: JsValue, email: JsValue)

  datatype Body =
    | Message(message: string)
    | Session(token: string, user: PublicUser)
    | Profile(user: PublicUser)

  datatype Response = Response(status: int, body: Body)

  /** The user list after a request, and the response to it. */
  datatype Outcome = Outcome(users: seq<User>, response: Response)

  const MissingFields := "Please provide all fields"
  const UserExists := "User already exists"
  const MissingCredentials := "Please provide email and password"
  const InvalidCredentials := "Invalid credentials"
  const NoToken := "No token provided"
  const UserNotFound := "User not found"

  /** The list the server starts with. */
  const Seed: seq<User> := [User(1, Str("Demo User"), Str("demo@test.com"), Str("password123"))]

  function Public(u: User): (p: PublicUser)
    ensures p.id == u.id && p.name == u.name && p.email == u.email
  {
    PublicUser(u.id, u.name, u.email)
  }

  /** The token `register` and `login` issue for a user id. */
  function TokenFor(id: int): string {
    "token-" + Numbers.IntToDecimal(id)
  }

  /** `Array.prototype.find`, as the index of the first match. */
  function FindFirst<T>(s: seq<T>, p: T -> bool): (r: Option<nat>)
    ensures r.Some? ==> r.value < |s| && p(s[r.value]) && forall j :: 0 <= j < r.value ==> !p(s[j])
    ensures r.None? ==> forall j :: 0 <= j < |s| ==> !p(s[j])
  {
    if s == [] then None
    else if p(s[0]) then Some(0)
    else
      match FindFirst(s[1..], p)
      case None => None
      case Some(i) => Some(i + 1)
  }

  /** Ids follow positions (the first user has id 1, the next 2, ...), and
      no two users have `===` emails. */
  predicate WellFormed(users: seq<User>) {
    (forall i :: 0 <= i < |users| ==> users[i].id == i + 1)
    && (forall i, j :: 0 <= i < j < |users| ==> !StrictEquals(users[i].email, users[j].email))
  }

  predicate EmailTaken(users: seq<User>, email: JsValue) {
    exists i :: 0 <= i < |users| && StrictEquals(users[i].email, email)
  }

  /** `POST /register`. */
  function Register(users: seq<User>, name: JsValue, email: JsValue, password: JsValue): (out: Outcome)
    ensures !Truthy(name) || !Truthy(email) || !Truthy(password) ==>
              out == Outcome(users, Response(400, Message(MissingFields)))
    ensures Truthy(name) && Truthy(email) && Truthy(password) && EmailTaken(users, email) ==>
              out == Outcome(users, Response(400, Message(UserExists)))
    ensures out.response.status == 201 <==>
              Truthy(name) && Truthy(email) && Truthy(password) && !EmailTaken(users, email)
    ensures out.response.status == 201 ==>
              var id := |users| + 1;
              out.users == users + [User(id, name, email, password)]
              && out.response.body == Session(TokenFor(id), PublicUser(id, name, email))
    ensures out.response.status != 201 ==> out.users == users
  {
    if !Truthy(name) || !Truthy(email) || !Truthy(password) then
      Outcome(users, Response(400, Message(MissingFields)))
    else
      match FindFirst(users, (u: User) => StrictEquals(u.email, email))
      case Some(_) => Outcome(users, Response(400, Message(UserExists)))
      case None =>
        var user := User(|users| + 1, name, email, password);
        Outcome(users + [user], Response(201, Session(TokenFor(user.id), Public(user))))
  }

  predicate Matches(u: User, email: JsValue, password: JsValue) {
    StrictEquals(u.email, email) && StrictEquals(u.password, password)
  }

  /** `POST /login`; it never changes the user list. */
  function Login(users: seq<User>, email: JsValue, password: JsValue): (r: Response)
    ensures !Truthy(email) || !Truthy(password) ==> r == Response(400, Message(MissingCredentials))
    ensures Truthy(email) && Truthy(password) ==>
              (r.status == 200 <==> exists i :: 0 <= i < |users| && Matches(users[i], email, password))
    ensures r.status == 200 ==>
              exists i :: 0 <= i < |users| && Matches(users[i], email, password)
                && (forall j :: 0 <= j < i ==> !Matches(users[j], email, password))
                && r.body == Session(TokenFor(users[i].id), Public(users[i]))
    ensures r.status != 200 && Truthy(email) && Truthy(password) ==> r == Response(401, Message(InvalidCredentials))
  {
    if !Truthy(email) || !Truthy(password) then Response(400, Message(MissingCredentials))
    else
      match FindFirst(users, (u: User) => Matches(u, email, password))
      case None => Response(401, Message(InvalidCredentials))
      case Some(i) => Response(200, Session(TokenFor(users[i].id), Public(users[i])))
  }

  /** `req.headers.authorization?.split(' ')[1]`: the second space-separated
      word of the header; the first word is not looked at. There is a
      token exactly when the header holds a space. */
  function BearerToken(authorization: Option<string>): (t: JsValue)
    ensures t == Undefined || t.Str?
    ensures t.Str? <==> authorization.Some? && ' ' in authorization.value
    ensures t.Str? ==> ' ' !in t.s
  {
    match authorization
    case None => Undefined
    case Some(h) =>
      var words := Strings.Split(h, ' ');
      if |words| >= 2 then Str(words[1]) else Undefined
  }

  /** `parseInt(token.split('-')[1])`: the piece between the first and the
      second `-`, read as an integer; `None` is `NaN`. A token without a
      `-` reads `parseInt(undefined)`, which is `NaN`. */
  function TokenUserId(token: string): (r: Option<int>)
    ensures '-' !in token ==> r == None
  {
    var pieces := Strings.Split(token, '-');
    var userId := if |pieces| >= 2 then Str(pieces[1]) else Undefined;
    ParseIntOfNonNumeric(Undefined);
    ParseIntOf(userId)
  }

  predicate HasId(u: User, id: Option<int>) {
    id.Some? && u.id == id.value
  }

  /** `users.find(u => u.id === id)`, answered as `/me` answers it. */
  function Lookup(users: seq<User>, id: Option<int>): (r: Response)
    ensures r.status == 200 <==> exists i :: 0 <= i < |users| && HasId(users[i], id)
    ensures r.status != 200 ==> r == Response(401, Message(UserNotFound))
    ensures r.status == 200 ==>
              exists i :: 0 <= i < |users| && HasId(users[i], id)
                && (forall j :: 0 <= j < i ==> !HasId(users[j], id))
                && r.body == Profile(Public(users[i]))
  {
    match FindFirst(users, (u: User) => HasId(u, id))
    case None => Response(401, Message(UserNotFound))
    case Some(i) => Response(200, Profile(Public(users[i])))
  }

  /** `GET /me`; it never changes the user list. */
  function Me(users: seq<User>, authorization: Option<string>): (r: Response)
    ensures !Truthy(BearerToken(authorization)) ==> r == Response(401, Message(NoToken))
    ensures r.status == 200 || r.status == 401
    ensures r.status == 200 ==> exists i :: 0 <= i < |users| && r.body == Profile(Public(users[i]))
    ensures Truthy(BearerToken(authorization)) ==>
              r == Lookup(users, TokenUserId(BearerToken(authorization).s))
  {
    var token := BearerToken(authorization);
    if !Truthy(token) then Response(401, Message(NoToken))
    else Lookup(users, TokenUserId(token.s))
  }

  datatype Request =
    | RegisterRequest(name: JsValue, email: JsValue, password: JsValue)
    | LoginRequest(email: JsValue, password: JsValue)
    | MeRequest(authorization: Option<string>)

  /** One request against the current list. Only a successful registration
      changes the list, and then only by appending one user. */
  function Handle(users: seq<User>, req: Request): (out: Outcome)
    ensures out.users == users || (|out.users| == |users| + 1 && out.users[..|users|] == users)
    ensures !(req.RegisterRequest? && out.response.status == 201) ==> out.users == users
  {
    match req
    case RegisterRequest(name, email, password) =>
      var out := Register(users, name, email, password);
      assert out.users == users || out.users[..|users|] == users;
      out
    case LoginRequest(email, password) => Outcome(users, Login(users, email, password))
    case MeRequest(authorization) => Outcome(users, Me(users, authorization))
  }

  /** The list after serving `reqs` one after another. */
  function Run(users: seq<User>, reqs: seq<Request>): seq<User>
    decreases |reqs|
  {
    if reqs == [] then users else Run(Handle(users, reqs[0]).users, reqs[1..])
  }

  lemma SeedWellFormed()
    ensures WellFormed(Seed)
  {
  }

  /** Registration keeps ids sequential and emails unique. */
  lemma RegisterPreservesWellFormed(users: seq<User>, name: JsValue, email: JsValue, password: JsValue)
    requires WellFormed(users)
    ensures WellFormed(Register(users, name, email, password).users)
  {
    var out := Register(users, name, email, password);
    if out.response.status == 201 {
      var n := |users|;
      var us := out.users;
      assert us[n].email == email;
      forall i, j | 0 <= i < j < |us| ensures !StrictEquals(us[i].email, us[j].email) {
        if j == n {
          assert us[i] == users[i] && us[j].email == email;
        } else {
          assert us[i] == users[i] && us[j] == users[j];
        }
      }
    }
  }

  /** Every list the server can reach from its seed is well formed. */
  lemma {:induction false} RunPreservesWellFormed(users: seq<User>, reqs: seq<Request>)
    requires WellFormed(users)
    ensures WellFormed(Run(users, reqs))
    decreases |reqs|
  {
    if reqs != [] {
      var next := Handle(users, reqs[0]).users;
      if reqs[0].RegisterRequest? {
        var r := reqs[0];
        RegisterPreservesWellFormed(users, r.name, r.email, r.password);
      }
      RunPreservesWellFormed(next, reqs[1..]);
    }
  }

  lemma ReachableWellFormed(reqs: seq<Request>)
    ensures WellFormed(Run(Seed, reqs))
  {
    SeedWellFormed();
    RunPreservesWellFormed(Seed, reqs);
  }

  /** Users are never removed or renumbered: each list extends the one
      before it. */
  lemma {:induction false} RunExtends(users: seq<User>, reqs: seq<Request>)
    ensures |users| <= |Run(users, reqs)| && Run(users, reqs)[..|users|] == users
    decreases |reqs|
  {
    if reqs != [] {
      var next := Handle(users, reqs[0]).users;
      RunExtends(next, reqs[1..]);
      assert Run(users, reqs)[..|users|] == Run(next, reqs[1..])[..|next|][..|users|];
    }
  }

  /** Once an email is registered, registering it again is refused and
      changes nothing. */
  lemma DuplicateRegistrationRefused(users: seq<User>, name: JsValue, email: JsValue, password: JsValue,
                                     name2: JsValue, password2: JsValue)
    requires Register(users, name, email, password).response.status == 201
    requires IsPrimitive(email) && Truthy(name2) && Truthy(password2)
    ensures var after := Register(users, name, email, password).users;
            Register(after, name2, email, password2) == Outcome(after, Response(400, Message(UserExists)))
  {
    var after := Register(users, name, email, password).users;
    assert after[|users|].email == email;
    assert EmailTaken(after, email);
  }

  /** The digits of a positive id contain neither a space nor a `-`. */
  lemma DecimalHasNoSeparators(id: nat)
    ensures ' ' !in Numbers.IntToDecimal(id) && '-' !in Numbers.IntToDecimal(id)
  {
    var d := Numbers.IntToDecimal(id);
    forall i | 0 <= i < |d| ensures d[i] != ' ' && d[i] != '-' {
      assert Numbers.IsDecimalDigit(d[i]);
    }
  }

  /** The second word of the header is the token whatever the first word
      is, and any words after it are ignored: `"Basic t"` carries `t` as
      well as `"Bearer t"` does. */
  lemma AnySchemeCarriesToken(scheme: string, t: string, more: string)
    requires ' ' !in scheme && ' ' !in t
    requires more == [] || more[0] == ' '
    ensures BearerToken(Some(scheme + " " + t + more)) == Str(t)
  {
    assert scheme + " " + t + more == scheme + [' '] + (t + more);
    Strings.SplitAfterFirst(scheme, ' ', t + more);
    Strings.SplitFirstPiece(t, ' ', more);
  }

  /** The id is read from the second `-`-separated piece only: whatever
      comes before the first `-`, and whatever follows the second, is
      ignored, so `"token-1-2"` names user 1. */
  lemma TokenIdIsSecondPiece(a: string, b: string, c: string)
    requires '-' !in a && '-' !in b
    requires c == [] || c[0] == '-'
    ensures TokenUserId(a + "-" + b + c) == Numbers.ParseInt(b)
  {
    assert a + "-" + b + c == a + ['-'] + (b + c);
    Strings.SplitAfterFirst(a, '-', b + c);
    Strings.SplitFirstPiece(b, '-', c);
  }

  /** The piece is read as `parseInt` reads it, so text after its digits
      is ignored as well: `"token-1x"` also names user 1. */
  lemma TokenIdIgnoresTrailingText(a: string, k: nat, rest: string)
    requires '-' !in a && '-' !in rest
    requires rest == [] || (!Numbers.IsRadixDigit(rest[0], 10) && (k == 0 ==> rest[0] != 'x' && rest[0] != 'X'))
    ensures TokenUserId(a + "-" + (Numbers.IntToDecimal(k) + rest)) == Some(k)
  {
    var d := Numbers.IntToDecimal(k);
    DecimalHasNoSeparators(k);
    assert '-' !in d + rest;
    TokenIdIsSecondPiece(a, d + rest, []);
    assert a + "-" + (d + rest) + [] == a + "-" + (d + rest);
    Numbers.DecimalThenText(k, rest);
  }

  /** The header `"Bearer " + t` carries the token `t` when `t` has no
      space. */
  lemma BearerOfToken(t: string)
    requires ' ' !in t
    ensures BearerToken(Some("Bearer " + t)) == Str(t)
  {
    AnySchemeCarriesToken("Bearer", t, []);
    assert "Bearer" + " " + t + [] == "Bearer " + t;
  }

  /** Whatever precedes the first `-`, a token ending in `-` and the
      decimal form of `k` reads as `k`: the `token` prefix is not checked. */
  lemma PrefixedIdReadsBack(prefix: string, k: nat)
    requires '-' !in prefix
    ensures TokenUserId(prefix + "-" + Numbers.IntToDecimal(k)) == Some(k)
    ensures ' ' !in prefix ==> ' ' !in prefix + "-" + Numbers.IntToDecimal(k)
  {
    var d := Numbers.IntToDecimal(k);
    DecimalHasNoSeparators(k);
    var t := prefix + "-" + d;
    assert t == prefix + ['-'] + d;
    Strings.SplitAfterFirst(prefix, '-', d);
    Strings.SplitNoSeparator(d, '-');
    Numbers.DecimalRoundTrip(k);
    if ' ' !in prefix {
      forall i | 0 <= i < |t| ensures t[i] != ' ' {
        if i < |prefix| {
          assert t[i] == prefix[i];
        } else if i > |prefix| {
          assert t[i] == d[i - |prefix| - 1];
        }
      }
    }
  }

  /** The token of an id reads back as that id. */
  lemma TokenRoundTrip(id: nat)
    ensures ' ' !in TokenFor(id)
    ensures TokenUserId(TokenFor(id)) == Some(id)
  {
    var d := Numbers.IntToDecimal(id);
    var prefix := "token";
    assert '-' !in prefix && ' ' !in prefix;
    assert TokenFor(id) == prefix + "-" + d;
    PrefixedIdReadsBack(prefix, id);
  }

  /** In a well-formed list, user `k` is at position `k - 1`. */
  lemma LookupById(users: seq<User>, k: int)
    requires WellFormed(users) && 1 <= k <= |users|
    ensures Lookup(users, Some(k)) == Response(200, Profile(Public(users[k - 1])))
  {
    assert HasId(users[k - 1], Some(k));
    var r := Lookup(users, Some(k));
    var i :| 0 <= i < |users| && HasId(users[i], Some(k))
                && (forall j :: 0 <= j < i ==> !HasId(users[j], Some(k)))
                && r.body == Profile(Public(users[i]));
    assert users[i].id == i + 1;
  }

  /** Anyone holding `"token-" + k` is treated as user `k`: the token is
      not signed, so `me` trusts every well-formed one. */
  lemma MeTrustsToken(users: seq<User>, k: nat)
    requires WellFormed(users) && 1 <= k <= |users|
    ensures Me(users, Some("Bearer " + TokenFor(k))) == Response(200, Profile(Public(users[k - 1])))
  {
    var t := TokenFor(k);
    TokenRoundTrip(k);
    BearerOfToken(t);
    LookupById(users, k);
  }

  /** Round trip: the token a successful registration returns identifies
      the user it created. */
  lemma RegisterThenMe(users: seq<User>, name: JsValue, email: JsValue, password: JsValue)
    requires WellFormed(users)
    requires Register(users, name, email, password).response.status == 201
    ensures var out := Register(users, name, email, password);
            Me(out.users, Some("Bearer " + out.response.body.token))
              == Response(200, Profile(out.response.body.user))
  {
    var out := Register(users, name, email, password);
    RegisterPreservesWellFormed(users, name, email, password);
    MeTrustsToken(out.users, |users| + 1);
  }

  /** Round trip: the token a successful login returns identifies the user
      who logged in. */
  lemma LoginThenMe(users: seq<User>, email: JsValue, password: JsValue)
    requires WellFormed(users)
    requires Login(users, email, password).status == 200
    ensures var r := Login(users, email, password);
            Me(users, Some("Bearer " + r.body.token)) == Response(200, Profile(r.body.user))
  {
    var r := Login(users, email, password);
    var i :| 0 <= i < |users| && Matches(users[i], email, password)
               && r.body == Session(TokenFor(users[i].id), Public(users[i]));
    MeTrustsToken(users, i + 1);
  }

  /** `me` authenticates any header whose second word ends in `-k`, for
      any scheme word and any prefix before the `-`: `"Basic token-1"` and
      `"Bearer abc-1"` both identify user 1. */
  lemma MeIgnoresSchemeAndPrefix(users: seq<User>, scheme: string, prefix: string, k: nat)
    requires WellFormed(users) && 1 <= k <= |users|
    requires ' ' !in scheme && ' ' !in prefix && '-' !in prefix
    ensures Me(users, Some(scheme + " " + (prefix + "-" + Numbers.IntToDecimal(k))))
              == Response(200, Profile(Public(users[k - 1])))
  {
    var t := prefix + "-" + Numbers.IntToDecimal(k);
    PrefixedIdReadsBack(prefix, k);
    AnySchemeCarriesToken(scheme, t, []);
    assert scheme + " " + t + [] == scheme + " " + t;
    LookupById(users, k);
  }

  /** A well-formed token for an id no user has is answered `User not
      found`: `"Bearer token-2"` against the seed list, for instance. */
  lemma MeUnknownUser(users: seq<User>, scheme: string, prefix: string, k: nat)
    requires WellFormed(users) && !(1 <= k <= |users|)
    requires ' ' !in scheme && ' ' !in prefix && '-' !in prefix
    ensures Me(users, Some(scheme + " " + (prefix + "-" + Numbers.IntToDecimal(k))))
              == Response(401, Message(UserNotFound))
  {
    var t := prefix + "-" + Numbers.IntToDecimal(k);
    PrefixedIdReadsBack(prefix, k);
    AnySchemeCarriesToken(scheme, t, []);
    assert scheme + " " + t + [] == scheme + " " + t;
    forall i | 0 <= i < |users| ensures !HasId(users[i], Some(k)) {
      assert users[i].id == i + 1;
    }
  }

  /** Without a second word in the header there is no token. */
  lemma MeWithoutToken(users: seq<User>, h: string)
    requires ' ' !in h
    ensures Me(users, Some(h)) == Response(401, Message(NoToken))
    ensures Me(users, None) == Response(401, Message(NoToken))
  {
    Strings.SplitNoSeparator(h, ' ');
  }
}
