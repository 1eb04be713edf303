/** Bearer-token extraction and the authentication middleware of crates/gateway/src/router.rs. */
module Gateway {
  import Aes
  import Base64
  import Cbc
  import Decimal
  import Token
  import Utf8
  import opened Integers
  import opened Wrappers

  const MAX_TOKEN_LENGTH := 512
  const MAX_USERNAME_LENGTH := 64
  const PUBLIC_PATHS := ["/", "/api/home", "/api/hello", "/api/user/register", "/api/user/login"]

  datatype GatewayError = Unauthorized | InternalServerError | GrpcError(code: GrpcCode)

  /** The status codes of gRPC other than OK. */
  datatype GrpcCode =
    | Cancelled
    | Unknown
    | InvalidArgument
    | DeadlineExceeded
    | NotFound
    | AlreadyExists
    | PermissionDenied
    | ResourceExhausted
    | FailedPrecondition
    | Aborted
    | OutOfRange
    | Unimplemented
    | Internal
    | Unavailable
    | DataLoss
    | Unauthenticated

  predicate IsPublicPath(path: string) {
    path in PUBLIC_PATHS
  }

  /** Of the routes only these five go on without a token; the other twelve need one. */
  lemma RoutesArePublicIff(path: string)
    ensures IsPublicPath(path) <==>
            || path == "/" || path == "/api/home" || path == "/api/hello"
            || path == "/api/user/register" || path == "/api/user/login"
    ensures path in ["/api/user/logout", "/api/question/add", "/api/question/detail", "/api/question/update",
                     "/api/question/delete", "/api/question/find_latest", "/api/answer/add", "/api/answer/update",
                     "/api/answer/delete", "/api/answer/find_one", "/api/answer/find_list", "/api/user_vote/add"] ==>
            !IsPublicPath(path)
  {
  }

  /** `HeaderValue::to_str` accepts visible ASCII, the space and the tab. */
  predicate Visible(s: string) {
    forall i :: 0 <= i < |s| ==> ' ' <= s[i] <= '~' || s[i] == '\t'
  }

  predicate IsAsciiWhitespace(c: char) {
    c == ' ' || c == '\t' || c == '\n' || c == '\r' || c as int == 12
  }

  function ToLower(c: char): char {
    if 'A' <= c <= 'Z' then (c as int + 32) as char else c
  }

  predicate EqIgnoreAsciiCase(a: string, b: string) {
    |a| == |b| && forall i :: 0 <= i < |a| ==> ToLower(a[i]) == ToLower(b[i])
  }

  function SplitOnce(s: string, sep: char): Option<(string, string)> {
    if s == "" then None
    else if s[0] == sep then Some(("", s[1..]))
    else match SplitOnce(s[1..], sep)
      case None => None
      case Some((head, tail)) => Some(([s[0]] + head, tail))
  }

  predicate AcceptableToken(token: string) {
    token != "" && |token| <= MAX_TOKEN_LENGTH && forall i :: 0 <= i < |token| ==> !IsAsciiWhitespace(token[i])
  }

  function AuthorizationToken(header: Option<string>): Result<string, GatewayError> {
    match header
    case None => Err(Unauthorized)
    case Some(value) =>
      if !Visible(value) then Err(Unauthorized)
      else match SplitOnce(value, ' ')
        case None => Err(Unauthorized)
        case Some((scheme, token)) =>
          if !EqIgnoreAsciiCase(scheme, "Bearer") || !AcceptableToken(token) then Err(Unauthorized)
          else Ok(token)
  }

  lemma {:induction false} SplitOnceIff(s: string, sep: char, head: string, tail: string)
    ensures SplitOnce(s, sep) == Some((head, tail)) <==> s == head + [sep] + tail && sep !in head
  {
    if s != "" && s[0] != sep {
      if head != "" {
        SplitOnceIff(s[1..], sep, head[1..], tail);
        assert head == [head[0]] + head[1..];
        if s == head + [sep] + tail {
          assert s[1..] == head[1..] + [sep] + tail;
        }
        if SplitOnce(s, sep) == Some((head, tail)) {
          var (h, t) := SplitOnce(s[1..], sep).value;
          assert ([s[0]] + h)[1..] == h;
          assert s == [s[0]] + s[1..];
        }
      }
    } else if s != "" {
      if s == head + [sep] + tail && sep !in head {
        assert head == "";
      }
      assert s == "" + [sep] + s[1..];
    }
  }

  /** The word "bearer" in any case and a space. */
  predicate BearerPrefix(s: string) {
    && |s| >= 7 && s[6] == ' '
    && s[0] in ['B', 'b'] && s[1] in ['E', 'e'] && s[2] in ['A', 'a']
    && s[3] in ['R', 'r'] && s[4] in ['E', 'e'] && s[5] in ['R', 'r']
  }

  /** One to 512 characters, none of them a space, tab, line feed, form feed or carriage return. */
  predicate OneWord(token: string) {
    1 <= |token| <= 512 && forall c :: c in token ==> c as int !in [32, 9, 10, 12, 13]
  }

  lemma BearerScheme(scheme: string)
    ensures EqIgnoreAsciiCase(scheme, "Bearer") <==> |scheme| == 6 && BearerPrefix(scheme + " ")
  {
    if |scheme| == 6 {
      assert forall i :: 0 <= i < 6 ==> (scheme + " ")[i] == scheme[i];
    }
    if EqIgnoreAsciiCase(scheme, "Bearer") {
      assert ToLower(scheme[0]) == 'b' && ToLower(scheme[1]) == 'e' && ToLower(scheme[2]) == 'a';
      assert ToLower(scheme[3]) == 'r' && ToLower(scheme[4]) == 'e' && ToLower(scheme[5]) == 'r';
    }
  }

  /** Exactly which headers carry a given token: "bearer" in any case, a space and the token, which is one
      word, all of it visible ASCII. Every other header is unauthorized. */
  lemma AuthorizationTokenIff(value: string, token: string)
    ensures AuthorizationToken(Some(value)) == Ok(token) <==>
            && (forall c :: c in value ==> 32 <= c as int <= 126 || c as int == 9)
            && BearerPrefix(value) && value[7..] == token && OneWord(token)
    ensures AuthorizationToken(Some(value)).Err? ==> AuthorizationToken(Some(value)) == Err(Unauthorized)
    ensures AuthorizationToken(None) == Err(Unauthorized)
  {
    VisibleIff(value);
    AcceptableIff(token);
    if AuthorizationToken(Some(value)) == Ok(token) {
      var scheme := SplitOnce(value, ' ').value.0;
      SplitOnceIff(value, ' ', scheme, token);
      BearerScheme(scheme);
      assert value[..7] == scheme + " ";
      assert value[7..] == token;
    }
    if |value| >= 7 && BearerPrefix(value) && value[7..] == token {
      var scheme := value[..6];
      assert value == scheme + [' '] + token;
      assert scheme + " " == value[..7];
      SplitOnceIff(value, ' ', scheme, token);
      BearerScheme(scheme);
    }
  }

  lemma VisibleIff(value: string)
    ensures Visible(value) <==> forall c :: c in value ==> 32 <= c as int <= 126 || c as int == 9
  {
    if Visible(value) {
      forall c | c in value
        ensures 32 <= c as int <= 126 || c as int == 9
      {
        var i :| 0 <= i < |value| && value[i] == c;
      }
    }
    assert forall i :: 0 <= i < |value| ==> value[i] in value;
  }

  lemma AcceptableIff(token: string)
    ensures AcceptableToken(token) <==> OneWord(token)
  {
    assert forall i :: 0 <= i < |token| ==> token[i] in token;
    if AcceptableToken(token) {
      forall c | c in token
        ensures c as int !in [32, 9, 10, 12, 13]
      {
        var i :| 0 <= i < |token| && token[i] == c;
      }
    }
  }

  lemma BearerPasses(token: string)
    requires 0 < |token| <= MAX_TOKEN_LENGTH
    requires forall i :: 0 <= i < |token| ==> Base64.InAlphabet(token[i]) || token[i] == '='
    ensures AuthorizationToken(Some("Bearer " + token)) == Ok(token)
  {
    var value := "Bearer " + token;
    assert value[7..] == token;
    forall c | c in token
      ensures 33 <= c as int <= 126
    {
      var i :| 0 <= i < |token| && token[i] == c;
    }
    assert forall c :: c in value ==> c in "Bearer " || c in token;
    AuthorizationTokenIff(value, token);
  }

  lemma PayloadLength(loginId: string, openid: string, expiry: i64)
    requires Utf8.Ascii(loginId) && |loginId| == 32
    requires |Utf8.Encode(openid)| == 32
    ensures |Utf8.Encode(Token.Payload(loginId, openid, expiry))| <= 86
  {
    var head, tail := loginId + ":", ":" + Decimal.ToDecimal(expiry);
    Decimal.DecimalLength(expiry);
    Decimal.DecimalChars(expiry);
    Utf8.AsciiLength(head);
    Utf8.AsciiLength(tail);
    assert Token.Payload(loginId, openid, expiry) == head + openid + tail;
    Utf8.EncodeConcat(head + openid, tail);
    Utf8.EncodeConcat(head, openid);
  }

  lemma TokenLength(payloadLength: nat)
    requires payloadLength <= 86
    ensures 0 < ((payloadLength / 16 + 1) * 16 + 2) / 3 * 4 <= 128
  {
  }

  /** Every token `user_login` can issue passes the gateway unchanged. */
  lemma IssuedTokenPasses(cipher: Cbc.BlockCipher, crypto: Aes.AesCBCCrypto,
                          loginId: string, openid: string, expiry: i64)
    requires crypto.Valid()
    requires Utf8.Ascii(loginId) && |loginId| == 32
    requires |Utf8.Encode(openid)| == 32
    ensures var token := crypto.Encrypt(cipher, Token.Payload(loginId, openid, expiry)).value;
            |token| <= 128 && AuthorizationToken(Some("Bearer " + token)) == Ok(token)
  {
    PayloadLength(loginId, openid, expiry);
    var payload := Token.Payload(loginId, openid, expiry);
    Aes.CiphertextShape(cipher, crypto, payload);
    TokenLength(|Utf8.Encode(payload)|);
    BearerPasses(crypto.Encrypt(cipher, payload).value);
  }

  // The middleware

  datatype Verification = Timeout | Failed(code: GrpcCode) | Verified(state: int, username: string)

  datatype Principal = Principal(username: string, token: string)

  function MapVerificationError(code: GrpcCode): GatewayError {
    if code.InvalidArgument? || code.Unauthenticated? || code.PermissionDenied? then Unauthorized
    else GrpcError(code)
  }

  function AuthenticatedUsername(state: int, username: string): Result<string, GatewayError> {
    if state != 1 || username == "" || |Utf8.Encode(username)| > MAX_USERNAME_LENGTH then Err(Unauthorized)
    else Ok(username)
  }

  class Request {
    const path: string
    const authorization: Option<string>
    var principal: Option<Principal>

    constructor (path: string, authorization: Option<string>)
      ensures this.path == path && this.authorization == authorization && principal == None
    {
      this.path, this.authorization, principal := path, authorization, None;
    }
  }

  /** The middleware: `verify` answers the `verify_token` call for a token. The request goes on
      iff its path is one of five or its token was verified for a usable name, and then carries exactly
      that name and token. */
  method VerifyToken(request: Request, verify: string -> Verification) returns (r: Result<(), GatewayError>)
    requires request.principal == None
    modifies request
    ensures request.path in ["/", "/api/home", "/api/hello", "/api/user/register", "/api/user/login"] ==>
              r.Ok? && request.principal == None
    ensures request.path !in ["/", "/api/home", "/api/hello", "/api/user/register", "/api/user/login"] ==>
              match AuthorizationToken(request.authorization)
              case Err(_) => r == Err(Unauthorized) && request.principal == None
              case Ok(token) =>
                match verify(token)
                case Timeout => r == Err(InternalServerError) && request.principal == None
                case Failed(code) =>
                  && request.principal == None
                  && r == Err(if code in {InvalidArgument, Unauthenticated, PermissionDenied} then Unauthorized
                              else GrpcError(code))
                case Verified(state, username) =>
                  if state == 1 && 1 <= |Utf8.Encode(username)| <= 64
                  then r.Ok? && request.principal == Some(Principal(username, token))
                  else r == Err(Unauthorized) && request.principal == None
  {
    if IsPublicPath(request.path) {
      return Ok(());
    }
    var token := AuthorizationToken(request.authorization);
    if token.Err? {
      return Err(token.error);
    }
    match verify(token.value)
    case Timeout =>
      return Err(InternalServerError);
    case Failed(code) =>
      return Err(MapVerificationError(code));
    case Verified(state, username) =>
      var name := AuthenticatedUsername(state, username);
      if name.Err? {
        return Err(name.error);
      }
      request.principal := Some(Principal(name.value, token.value));
      return Ok(());
  }
}
