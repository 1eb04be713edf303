/** The token grammar of `user_login` and `check_token`. */
module Token {
  import Aes
  import Cbc
  import Decimal
  import Text
  import Utf8
  import opened Integers
  import opened Wrappers

  const OPENID_LENGTH := 32

  datatype TokenError =
    | EmptyToken
    | Undecryptable(error: Aes.AesError)
    | Malformed
    | OpenidLength
    | ExpiryFormat
    | Expired

  function Payload(loginId: string, openid: string, expiry: i64): string {
    loginId + ":" + openid + ":" + Decimal.ToDecimal(expiry)
  }

  function CheckPayload(payload: string, now: i64): Result<string, TokenError> {
    var parts := Text.Split(payload, ':');
    if |parts| != 3 then Err(Malformed)
    else if |Utf8.Encode(parts[1])| != OPENID_LENGTH then Err(OpenidLength)
    else match Decimal.ParseI64(parts[2])
      case None => Err(ExpiryFormat)
      case Some(expiry) => if now >= expiry then Err(Expired) else Ok(parts[1])
  }

  /** `now` is the clock in whole seconds. */
  function CheckToken(cipher: Cbc.BlockCipher, crypto: Aes.AesCBCCrypto, token: string, now: i64)
    : Result<string, TokenError>
  {
    if token == "" then Err(EmptyToken)
    else match crypto.Decrypt(cipher, token)
      case Err(error) => Err(Undecryptable(error))
      case Ok(payload) => CheckPayload(payload, now)
  }

  predicate IsOpenid(openid: string) {
    ':' !in openid && |Utf8.Encode(openid)| == 32
  }

  lemma PayloadSplits(loginId: string, openid: string, expiry: string)
    requires ':' !in loginId && ':' !in openid && ':' !in expiry
    ensures Text.Split(loginId + ":" + openid + ":" + expiry, ':') == [loginId, openid, expiry]
  {
    var tail := openid + [':'] + expiry;
    assert loginId + ":" + openid + ":" + expiry == loginId + [':'] + tail;
    Text.SplitAtFirst(loginId, tail, ':');
    Text.SplitAtFirst(openid, expiry, ':');
    Text.SplitPlain(expiry, ':');
  }

  lemma JoinThree(parts: seq<string>)
    requires |parts| == 3
    ensures Text.Join(parts, ':') == parts[0] + ":" + parts[1] + ":" + parts[2]
  {
    var tail := parts[1..];
    assert tail[1..] == [parts[2]];
    assert Text.Join(tail, ':') == parts[1] + ":" + parts[2];
  }

  /** `payload` is three fields without a colon, joined by colons. */
  predicate ThreeFields(payload: string, loginId: string, openid: string, expiry: string) {
    payload == loginId + ":" + openid + ":" + expiry && ':' !in loginId && ':' !in openid && ':' !in expiry
  }

  /** The fields of what `user_login` writes. */
  lemma PayloadFields(loginId: string, openid: string, expiry: i64)
    requires ':' !in loginId && ':' !in openid
    ensures ThreeFields(Payload(loginId, openid, expiry), loginId, openid, Decimal.ToDecimal(expiry))
  {
    Decimal.DecimalChars(expiry);
  }

  /** How a payload of three fields is answered: by the length of its second, by whether its third is a
      number, and by the clock. */
  lemma CheckPayloadFields(payload: string, loginId: string, openid: string, expiry: string, now: i64)
    requires ThreeFields(payload, loginId, openid, expiry)
    ensures var r, at := CheckPayload(payload, now), Decimal.ParseI64(expiry);
            && (r == Err(OpenidLength) <==> |Utf8.Encode(openid)| != 32)
            && (r == Err(ExpiryFormat) <==> |Utf8.Encode(openid)| == 32 && at.None?)
            && (r == Err(Expired) <==> |Utf8.Encode(openid)| == 32 && at.Some? && at.value <= now)
            && (r == Ok(openid) <==> |Utf8.Encode(openid)| == 32 && at.Some? && now < at.value)
            && (r.Ok? ==> r.value == openid)
  {
    PayloadSplits(loginId, openid, expiry);
  }

  /** Any other payload is malformed. */
  lemma MalformedIff(payload: string, now: i64)
    ensures CheckPayload(payload, now) == Err(Malformed) <==>
            forall loginId, openid, expiry :: !ThreeFields(payload, loginId, openid, expiry)
  {
    var parts := Text.Split(payload, ':');
    forall loginId, openid, expiry | ThreeFields(payload, loginId, openid, expiry)
      ensures |parts| == 3
    {
      PayloadSplits(loginId, openid, expiry);
    }
    if |parts| == 3 {
      Text.JoinSplit(payload, ':');
      JoinThree(parts);
      assert ThreeFields(payload, parts[0], parts[1], parts[2]);
    }
  }

  lemma PayloadRoundTrip(loginId: string, openid: string, expiry: i64, now: i64)
    requires ':' !in loginId && IsOpenid(openid)
    ensures CheckPayload(Payload(loginId, openid, expiry), now) == if now < expiry then Ok(openid) else Err(Expired)
  {
    Decimal.DecimalChars(expiry);
    PayloadSplits(loginId, openid, Decimal.ToDecimal(expiry));
    Decimal.ParseRoundTrip(expiry);
  }

  /** The token issued for an openid and an expiry is read back as that openid until the expiry
      and is expired from then on. */
  lemma IssuedTokenChecks(cipher: Cbc.BlockCipher, key: string, iv: string, size: Aes.AesKeySize,
                          loginId: string, openid: string, expiry: i64, now: i64)
    requires Aes.New(key, iv, size).Ok?
    requires ':' !in loginId && IsOpenid(openid)
    ensures var crypto := Aes.New(key, iv, size).value;
            var token := crypto.Encrypt(cipher, Payload(loginId, openid, expiry));
            && token.Ok?
            && CheckToken(cipher, crypto, token.value, now) == if now < expiry then Ok(openid) else Err(Expired)
  {
    var crypto := Aes.New(key, iv, size).value;
    Aes.RoundTrip(cipher, key, iv, size, Payload(loginId, openid, expiry));
    Aes.CiphertextShape(cipher, crypto, Payload(loginId, openid, expiry));
    PayloadRoundTrip(loginId, openid, expiry, now);
  }

  /** `text` is a three-field payload for `openid` that is not yet expired. */
  ghost predicate PayloadFor(text: string, openid: string, now: i64) {
    exists loginId: string, expiry: string ::
      && text == loginId + ":" + openid + ":" + expiry
      && ':' !in loginId && ':' !in expiry
      && Decimal.ParseI64(expiry).Some? && now < Decimal.ParseI64(expiry).value
  }

  lemma CheckPayloadIff(payload: string, openid: string, now: i64)
    ensures CheckPayload(payload, now) == Ok(openid) <==> IsOpenid(openid) && PayloadFor(payload, openid, now)
  {
    var parts := Text.Split(payload, ':');
    if CheckPayload(payload, now) == Ok(openid) {
      Text.JoinSplit(payload, ':');
      JoinThree(parts);
      assert payload == parts[0] + ":" + openid + ":" + parts[2];
    }
    if IsOpenid(openid) && PayloadFor(payload, openid, now) {
      var loginId, expiry :| payload == loginId + ":" + openid + ":" + expiry
                             && ':' !in loginId && ':' !in expiry
                             && Decimal.ParseI64(expiry).Some? && now < Decimal.ParseI64(expiry).value;
      PayloadSplits(loginId, openid, expiry);
    }
  }

  lemma CheckTokenDecrypts(cipher: Cbc.BlockCipher, crypto: Aes.AesCBCCrypto, token: string, now: i64)
    ensures var r, text := CheckToken(cipher, crypto, token, now), crypto.Decrypt(cipher, token);
            && (r == Err(EmptyToken) <==> token == "")
            && (r.Err? && r.error.Undecryptable? <==> token != "" && text.Err?)
            && (token != "" && text.Ok? ==> r == CheckPayload(text.value, now))
  {
  }

  /** No text encrypts to this. */
  ghost predicate NoEncryption(cipher: Cbc.BlockCipher, crypto: Aes.AesCBCCrypto, token: string) {
    forall text :: crypto.Encrypt(cipher, text) != Ok(token)
  }

  lemma DecryptFailsIff(cipher: Cbc.BlockCipher, key: string, iv: string, size: Aes.AesKeySize, token: string)
    requires Aes.New(key, iv, size).Ok?
    ensures var crypto := Aes.New(key, iv, size).value;
            crypto.Decrypt(cipher, token).Err? <==> NoEncryption(cipher, crypto, token)
  {
    var crypto := Aes.New(key, iv, size).value;
    if crypto.Decrypt(cipher, token).Ok? {
      Aes.DecryptCanonical(cipher, crypto, token);
    }
    forall text
      ensures crypto.Encrypt(cipher, text) == Ok(token) ==> crypto.Decrypt(cipher, token) == Ok(text)
    {
      Aes.DecryptIffEncrypt(cipher, key, iv, size, text, token);
    }
  }

  /** The empty token is refused, and so is any that is not an encryption. */
  lemma UndecryptableIff(cipher: Cbc.BlockCipher, key: string, iv: string, size: Aes.AesKeySize,
                         token: string, now: i64)
    requires Aes.New(key, iv, size).Ok?
    ensures var crypto := Aes.New(key, iv, size).value;
            var r := CheckToken(cipher, crypto, token, now);
            && (r == Err(EmptyToken) <==> token == "")
            && (r.Err? && r.error.Undecryptable? <==> token != "" && NoEncryption(cipher, crypto, token))
  {
    CheckTokenDecrypts(cipher, Aes.New(key, iv, size).value, token, now);
    DecryptFailsIff(cipher, key, iv, size, token);
  }

  /** Any other token is answered as its payload is. */
  lemma CheckTokenAnswers(cipher: Cbc.BlockCipher, key: string, iv: string, size: Aes.AesKeySize,
                          text: string, token: string, now: i64)
    requires Aes.New(key, iv, size).Ok? && Aes.New(key, iv, size).value.Encrypt(cipher, text) == Ok(token)
    ensures CheckToken(cipher, Aes.New(key, iv, size).value, token, now) == CheckPayload(text, now)
  {
    Aes.DecryptIffEncrypt(cipher, key, iv, size, text, token);
    Aes.CiphertextShape(cipher, Aes.New(key, iv, size).value, text);
    CheckTokenDecrypts(cipher, Aes.New(key, iv, size).value, token, now);
  }

  /** Exactly which strings are accepted: the encryptions of unexpired three-field payloads. */
  lemma CheckTokenIff(cipher: Cbc.BlockCipher, key: string, iv: string, size: Aes.AesKeySize,
                      token: string, openid: string, now: i64)
    requires Aes.New(key, iv, size).Ok?
    ensures var crypto := Aes.New(key, iv, size).value;
            CheckToken(cipher, crypto, token, now) == Ok(openid) <==>
            && IsOpenid(openid)
            && exists payload :: crypto.Encrypt(cipher, payload) == Ok(token) && PayloadFor(payload, openid, now)
  {
    var crypto := Aes.New(key, iv, size).value;
    if CheckToken(cipher, crypto, token, now) == Ok(openid) {
      var payload := crypto.Decrypt(cipher, token).value;
      Aes.DecryptCanonical(cipher, crypto, token);
      CheckPayloadIff(payload, openid, now);
    }
    if && IsOpenid(openid)
       && exists payload :: crypto.Encrypt(cipher, payload) == Ok(token) && PayloadFor(payload, openid, now) {
      var payload :| crypto.Encrypt(cipher, payload) == Ok(token) && PayloadFor(payload, openid, now);
      Aes.RoundTrip(cipher, key, iv, size, payload);
      Aes.CiphertextShape(cipher, crypto, payload);
      CheckPayloadIff(payload, openid, now);
    }
  }
}
