/** The token cipher of crates/core/src/aes.rs: UTF-8, PKCS#7, CBC and Base64 composed. */
module Aes {
  import Base64
  import Cbc
  import Utf8
  import opened Integers
  import opened Wrappers

  datatype AesError =
    | InvalidKeyLength(expected: nat, actual: nat)
    | InvalidIvLength(expected: nat, actual: nat)
    | EncryptError
    | DecryptError
    | Base64DecodeError
    | Utf8Error

  datatype AesKeySize = Size128 | Size192 | Size256

  function KeyLength(size: AesKeySize): nat {
    match size
    case Size128 => 16
    case Size192 => 24
    case Size256 => 32
  }

  datatype AesCBCCrypto = AesCBCCrypto(key: seq<byte>, iv: seq<byte>, keySize: AesKeySize) {
    predicate Valid() {
      |key| == KeyLength(keySize) && |iv| == Cbc.BLOCK_SIZE
    }

    function Encrypt(cipher: Cbc.BlockCipher, data: string): Result<string, AesError> {
      if !Valid() then Err(EncryptError)
      else
        Cbc.UnpadPad(Utf8.Encode(data));
        Ok(Base64.Encode(Cbc.Encrypt(cipher, key, iv, Cbc.Pad(Utf8.Encode(data)))))
    }

    function Decrypt(cipher: Cbc.BlockCipher, encrypted: string): Result<string, AesError> {
      match Base64.Decode(encrypted)
      case None => Err(Base64DecodeError)
      case Some(bytes) =>
        if !Valid() || |bytes| % Cbc.BLOCK_SIZE != 0 then Err(DecryptError)
        else match Cbc.Unpad(Cbc.Decrypt(cipher, key, iv, bytes))
          case None => Err(DecryptError)
          case Some(plain) =>
            match Utf8.Decode(plain)
            case None => Err(Utf8Error)
            case Some(text) => Ok(text)
    }
  }

  function New(key: string, iv: string, size: AesKeySize): Result<AesCBCCrypto, AesError> {
    var keyBytes, ivBytes := Utf8.Encode(key), Utf8.Encode(iv);
    if |keyBytes| != KeyLength(size) then Err(InvalidKeyLength(KeyLength(size), |keyBytes|))
    else if |ivBytes| != Cbc.BLOCK_SIZE then Err(InvalidIvLength(Cbc.BLOCK_SIZE, |ivBytes|))
    else Ok(AesCBCCrypto(keyBytes, ivBytes, size))
  }

  /** Exactly which keys and initial vectors are accepted, and the refusal of the others. */
  lemma NewIff(key: string, iv: string, size: AesKeySize)
    ensures var expected := match size case Size128 => 16 case Size192 => 24 case Size256 => 32;
            var r := New(key, iv, size);
            && (r.Ok? <==> |Utf8.Encode(key)| == expected && |Utf8.Encode(iv)| == 16)
            && (r.Ok? ==> r.value == AesCBCCrypto(Utf8.Encode(key), Utf8.Encode(iv), size) && r.value.Valid())
            && (r.Err? ==> r.error == if |Utf8.Encode(key)| != expected
                                      then InvalidKeyLength(expected, |Utf8.Encode(key)|)
                                      else InvalidIvLength(16, |Utf8.Encode(iv)|))
  {
  }

  /** `padded` is `data` and up to the next multiple of 16 bytes that each are their number. */
  ghost predicate IsPadded(padded: seq<byte>, data: seq<byte>) {
    && |padded| == (|data| / 16 + 1) * 16
    && (forall j :: 0 <= j < |data| ==> padded[j] == data[j])
    && (forall j :: |data| <= j < |padded| ==> padded[j] == 16 - |data| % 16)
  }

  /** What a ciphertext is: the Base64 of blocks, each the encryption under the key of the exclusive or of
      a block of the padded UTF-8 text and the ciphertext block before it, or the initial vector. */
  lemma EncryptedBlocks(cipher: Cbc.BlockCipher, crypto: AesCBCCrypto, text: string)
    returns (padded: seq<byte>, bytes: seq<byte>)
    requires crypto.Valid()
    ensures crypto.Encrypt(cipher, text) == Ok(Base64.Encode(bytes))
    ensures IsPadded(padded, Utf8.Encode(text)) && |bytes| == |padded|
    ensures forall at :: 0 <= at < |bytes| && at % 16 == 0 ==>
              at + 16 <= |bytes| && Cbc.ChainedAt(cipher, crypto.key, crypto.iv, padded, bytes, at)
  {
    padded := Cbc.Pad(Utf8.Encode(text));
    Cbc.UnpadPad(Utf8.Encode(text));
    Cbc.PadBytes(Utf8.Encode(text));
    bytes := Cbc.Encrypt(cipher, crypto.key, crypto.iv, padded);
    forall at | 0 <= at < |bytes| && at % 16 == 0
      ensures at + 16 <= |bytes| && Cbc.ChainedAt(cipher, crypto.key, crypto.iv, padded, bytes, at)
    {
      Cbc.EncryptChains(cipher, crypto.key, crypto.iv, padded, at);
    }
  }

  /** Whatever the permutation, a constructed cipher encrypts every text, and decrypting gives
      exactly that text back. */
  lemma RoundTrip(cipher: Cbc.BlockCipher, key: string, iv: string, size: AesKeySize, text: string)
    requires New(key, iv, size).Ok?
    ensures var crypto := New(key, iv, size).value;
            && crypto.Encrypt(cipher, text).Ok?
            && crypto.Decrypt(cipher, crypto.Encrypt(cipher, text).value) == Ok(text)
  {
    var crypto := New(key, iv, size).value;
    var padded := Cbc.Pad(Utf8.Encode(text));
    Cbc.UnpadPad(Utf8.Encode(text));
    Cbc.DecryptEncrypt(cipher, crypto.key, crypto.iv, padded);
    Base64.RoundTrip(Cbc.Encrypt(cipher, crypto.key, crypto.iv, padded));
    Utf8.RoundTrip(text);
  }

  /** A text decrypts only if it is what encrypting its plaintext writes. */
  lemma DecryptCanonical(cipher: Cbc.BlockCipher, crypto: AesCBCCrypto, encrypted: string)
    requires crypto.Decrypt(cipher, encrypted).Ok?
    ensures crypto.Encrypt(cipher, crypto.Decrypt(cipher, encrypted).value) == Ok(encrypted)
  {
    var bytes := Base64.Decode(encrypted).value;
    var padded := Cbc.Decrypt(cipher, crypto.key, crypto.iv, bytes);
    var plain := Cbc.Unpad(padded).value;
    Base64.Canonical(encrypted);
    Cbc.EncryptDecrypt(cipher, crypto.key, crypto.iv, bytes);
    Cbc.PadUnpad(padded);
    Utf8.Canonical(plain);
  }

  /** Encryption and decryption are inverse relations, for every pair of texts. */
  lemma DecryptIffEncrypt(cipher: Cbc.BlockCipher, key: string, iv: string, size: AesKeySize, text: string,
                          encrypted: string)
    requires New(key, iv, size).Ok?
    ensures var crypto := New(key, iv, size).value;
            crypto.Decrypt(cipher, encrypted) == Ok(text) <==> crypto.Encrypt(cipher, text) == Ok(encrypted)
  {
    var crypto := New(key, iv, size).value;
    RoundTrip(cipher, key, iv, size, text);
    if crypto.Decrypt(cipher, encrypted) == Ok(text) {
      DecryptCanonical(cipher, crypto, encrypted);
    }
  }

  /** The refusals of decryption told apart: not canonical Base64, not an encryption of padded data, and an
      encryption of bytes that are not UTF-8. */
  lemma DecryptRefusals(cipher: Cbc.BlockCipher, crypto: AesCBCCrypto, encrypted: string)
    requires crypto.Valid()
    ensures var r := crypto.Decrypt(cipher, encrypted);
            && (r == Err(Base64DecodeError) <==> forall b :: Base64.Encode(b) != encrypted)
            && (r == Err(DecryptError) <==>
                  && (exists b :: Base64.Encode(b) == encrypted)
                  && forall data :: PaddedText(cipher, crypto, data) != encrypted)
            && (r == Err(Utf8Error) <==>
                  exists data :: PaddedText(cipher, crypto, data) == encrypted && forall s :: Utf8.Encode(s) != data)
            && (r.Err? ==> r.error in {Base64DecodeError, DecryptError, Utf8Error})
  {
    var decoded := Base64.Decode(encrypted);
    forall b | Base64.Encode(b) == encrypted
      ensures decoded == Some(b)
    {
      Base64.RoundTrip(b);
    }
    forall data | PaddedText(cipher, crypto, data) == encrypted
      ensures decoded.Some? && |decoded.value| % 16 == 0
      ensures Cbc.Unpad(Cbc.Decrypt(cipher, crypto.key, crypto.iv, decoded.value)) == Some(data)
    {
      Cbc.UnpadPad(data);
      Base64.RoundTrip(Cbc.Encrypt(cipher, crypto.key, crypto.iv, Cbc.Pad(data)));
      Cbc.DecryptEncrypt(cipher, crypto.key, crypto.iv, Cbc.Pad(data));
    }
    if decoded.Some? {
      Base64.Canonical(encrypted);
      if |decoded.value| % 16 == 0 {
        UnpaddedText(cipher, crypto, decoded.value);
      }
    }
  }

  function PaddedText(cipher: Cbc.BlockCipher, crypto: AesCBCCrypto, data: seq<byte>): string
    requires crypto.Valid()
  {
    Cbc.UnpadPad(data);
    Base64.Encode(Cbc.Encrypt(cipher, crypto.key, crypto.iv, Cbc.Pad(data)))
  }

  lemma UnpaddedText(cipher: Cbc.BlockCipher, crypto: AesCBCCrypto, bytes: seq<byte>)
    requires crypto.Valid() && |bytes| % 16 == 0
    ensures var plain := Cbc.Unpad(Cbc.Decrypt(cipher, crypto.key, crypto.iv, bytes));
            && (plain.Some? ==> PaddedText(cipher, crypto, plain.value) == Base64.Encode(bytes))
            && (plain.Some? ==> (Utf8.Decode(plain.value).None? <==> forall s :: Utf8.Encode(s) != plain.value))
  {
    var padded := Cbc.Decrypt(cipher, crypto.key, crypto.iv, bytes);
    if Cbc.Unpad(padded).Some? {
      var plain := Cbc.Unpad(padded).value;
      Cbc.PadUnpad(padded);
      Cbc.EncryptDecrypt(cipher, crypto.key, crypto.iv, bytes);
      forall s | Utf8.Encode(s) == plain
        ensures Utf8.Decode(plain) == Some(s)
      {
        Utf8.RoundTrip(s);
      }
      if Utf8.Decode(plain).Some? {
        Utf8.Canonical(plain);
      }
    }
  }

  /** The exact length of a ciphertext, and its alphabet. */
  lemma CiphertextShape(cipher: Cbc.BlockCipher, crypto: AesCBCCrypto, text: string)
    requires crypto.Encrypt(cipher, text).Ok?
    ensures var encrypted := crypto.Encrypt(cipher, text).value;
            && |encrypted| == ((|Utf8.Encode(text)| / 16 + 1) * 16 + 2) / 3 * 4
            && forall i :: 0 <= i < |encrypted| ==> Base64.InAlphabet(encrypted[i]) || encrypted[i] == '='
  {
    var padded := Cbc.Pad(Utf8.Encode(text));
    Cbc.UnpadPad(Utf8.Encode(text));
    var bytes := Cbc.Encrypt(cipher, crypto.key, crypto.iv, padded);
    Base64.Length(bytes);
    Base64.Alphabet(bytes);
  }
}
