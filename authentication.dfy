/**
 * The header decision of the `authenticate` middleware
 * (cmd/api/middleware.go:101-169). The credentials follow the "Bearer" scheme
 * of section 2.1 of RFC 6750, read more strictly than that section allows:
 * the scheme name is matched case-sensitively and the header is split on
 * every single space, so "bearer x" and "Bearer  x" are both rejected.
 */
module Authentication {

  const Space: char := ' '
  const BearerScheme: string := "Bearer"

  /** The user a request runs as: the anonymous user, or a stored account. */
  datatype User = AnonymousUser | Account(id: int, activated: bool)

  /** `strings.Split(s, " ")`: the pieces between single spaces, empty pieces kept. */
  function Split(s: string): (parts: seq<string>)
    ensures |parts| >= 1
    ensures forall i :: 0 <= i < |parts| ==> Space !in parts[i]
  {
    if s == [] then [[]]
    else
      var rest := Split(s[1..]);
      if s[0] == Space then [[]] + rest
      else [[s[0]] + rest[0]] + rest[1..]
  }

  /** `strings.Join(parts, " ")`, the inverse of `Split`. */
  function Join(parts: seq<string>): (s: string)
    requires |parts| >= 1
  {
    if |parts| == 1 then parts[0] else parts[0] + [Space] + Join(parts[1..])
  }

  /** Joining the pieces of a split gives back the string. */
  lemma {:induction false} JoinSplit(s: string)
    ensures Join(Split(s)) == s
  {
    if s != [] {
      var rest := Split(s[1..]);
      JoinSplit(s[1..]);
      if s[0] == Space {
        assert Split(s) == [[]] + rest;
        assert ([[]] + rest)[1..] == rest;
        assert Join(Split(s)) == [] + [Space] + Join(rest);
      } else {
        var parts := Split(s);
        assert parts == [[s[0]] + rest[0]] + rest[1..];
        if |rest| == 1 {
          assert Join(parts) == [s[0]] + rest[0];
        } else {
          assert parts[1..] == rest[1..];
          assert Join(rest) == rest[0] + [Space] + Join(rest[1..]);
          assert Join(parts) == [s[0]] + rest[0] + [Space] + Join(rest[1..]);
        }
      }
    }
  }

  /** A string without spaces splits into itself alone. */
  lemma {:induction false} SplitSpaceFree(a: string)
    requires Space !in a
    ensures Split(a) == [a]
  {
    if a != [] {
      SplitSpaceFree(a[1..]);
      assert a == [a[0]] + a[1..];
    }
  }

  /** A space-free piece followed by a space is split off as the first part. */
  lemma {:induction false} SplitAfterPiece(a: string, rest: string)
    requires Space !in a
    ensures Split(a + [Space] + rest) == [a] + Split(rest)
  {
    var s := a + [Space] + rest;
    if a == [] {
      assert s[1..] == rest;
    } else {
      assert s[1..] == a[1..] + [Space] + rest;
      SplitAfterPiece(a[1..], rest);
      assert [a[0]] + a[1..] == a;
    }
  }

  /** A string splits into exactly two parts iff it is two space-free pieces around one space. */
  lemma SplitTwo(s: string, a: string, b: string)
    ensures Split(s) == [a, b] <==> s == a + [Space] + b && Space !in a && Space !in b
  {
    if Split(s) == [a, b] {
      JoinSplit(s);
      assert Join([a, b]) == a + [Space] + Join([b]);
    }
    if s == a + [Space] + b && Space !in a && Space !in b {
      SplitAfterPiece(a, b);
      SplitSpaceFree(b);
    }
  }

  /** What the `Authorization` header carries: nothing, something malformed, or a token. */
  datatype Credentials = NoCredentials | Malformed | Bearer(token: string)

  /**
   * The split at middleware.go:116-134: an empty header means the anonymous
   * user; otherwise it must split into exactly "Bearer" and one more part,
   * which is the token.
   */
  function ParseAuthorization(header: string): (c: Credentials)
    ensures c == NoCredentials <==> header == ""
    ensures c.Bearer? ==> header == BearerScheme + [Space] + c.token && Space !in c.token
  {
    if header == "" then NoCredentials
    else
      var parts := Split(header);
      if |parts| != 2 || parts[0] != BearerScheme then Malformed
      else
        SplitTwo(header, parts[0], parts[1]);
        Bearer(parts[1])
  }

  /** The header names token `t` exactly when it is "Bearer", one space and a space-free `t`. */
  lemma BearerIff(header: string, t: string)
    ensures ParseAuthorization(header) == Bearer(t) <==> header == BearerScheme + [Space] + t && Space !in t
  {
    if header == BearerScheme + [Space] + t && Space !in t {
      SplitTwo(header, BearerScheme, t);
    }
  }

  /** The scheme name is case-sensitive. */
  lemma LowercaseSchemeRejected(t: string)
    ensures ParseAuthorization("bearer " + t) == Malformed
  {
    var h := "bearer " + t;
    assert h[0] == 'b';
  }

  /** A second space between the scheme and the token is not tolerated. */
  lemma DoubleSpaceRejected(t: string)
    ensures ParseAuthorization("Bearer  " + t) == Malformed
  {
    var h := "Bearer  " + t;
    assert h[7] == Space;
  }

  /** The result of `Users.GetForToken`: a user, no matching record, or another error. */
  datatype TokenLookup = Found(user: User) | RecordNotFound | LookupError

  /** Proceed: `next` runs as that user. Otherwise the 401 or 500 response is sent. */
  datatype AuthOutcome = Proceed(user: User) | InvalidToken | ServerError

  /**
   * The whole of `authenticate`, with the token-format check
   * (`ValidateTokenPlaintext`) and the token lookup given as parameters.
   */
  function Authenticate(header: string, wellFormed: string -> bool, getForToken: string -> TokenLookup): (r: AuthOutcome)
    ensures header == "" ==> r == Proceed(AnonymousUser)
    ensures ParseAuthorization(header).Malformed? ==> r == InvalidToken
    ensures r == ServerError ==> ParseAuthorization(header).Bearer?
  {
    match ParseAuthorization(header)
    case NoCredentials => Proceed(AnonymousUser)
    case Malformed => InvalidToken
    case Bearer(token) =>
      if !wellFormed(token) then InvalidToken
      else
        match getForToken(token)
        case Found(user) => Proceed(user)
        case RecordNotFound => InvalidToken
        case LookupError => ServerError
  }

  /**
   * For a header "Bearer <t>", the token checked and looked up is `t` itself:
   * a badly formed token or one with no record is an invalid token, a lookup
   * error is a server error, and a found user becomes the request's user.
   */
  lemma AuthenticateBearer(t: string, wellFormed: string -> bool, getForToken: string -> TokenLookup)
    requires Space !in t
    ensures Authenticate(BearerScheme + [Space] + t, wellFormed, getForToken) ==
      if !wellFormed(t) then InvalidToken
      else match getForToken(t)
        case Found(user) => Proceed(user)
        case RecordNotFound => InvalidToken
        case LookupError => ServerError
  {
    BearerIff(BearerScheme + [Space] + t, t);
  }
}
