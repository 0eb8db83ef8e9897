/**
  Field encryption of task descriptions (backend/src/utils/encryption.js).

  An envelope is the hex of a 16-byte IV, a colon, and the hex of the
  AES-256-CBC ciphertext. The block cipher itself is a parameter: a `Cipher`
  holds the encryption and decryption functions Node's `crypto` provides, and
  the predicates `Inverts` and `Padded` state what AES-256-CBC with PKCS#7
  padding guarantees of them.
*/
module Encryption {
  import opened Wrappers
  import opened Errors
  import opened Config
  import opened Bytes
  import opened Text

  const IV_LENGTH := 16
  const KEY_LENGTH := 32

  /**
    `enc(key, iv, plaintext)` is the ciphertext `createCipheriv` produces
    (`update` followed by `final`); `dec(key, iv, ciphertext)` is the plaintext
    `createDecipheriv` recovers, or `None` when `final` throws (bad padding or a
    ciphertext that is not a whole number of blocks).
  */
  datatype Cipher = Cipher(
    enc: (seq<byte>, seq<byte>, string) -> seq<byte>,
    dec: (seq<byte>, seq<byte>, seq<byte>) -> Option<string>)

  /** Decryption under the same key and IV undoes encryption. */
  ghost predicate Inverts(c: Cipher) {
    forall key, iv, p :: c.dec(key, iv, c.enc(key, iv, p)) == Some(p)
  }

  /** PKCS#7 padding: every ciphertext is one or more whole 16-byte blocks. */
  ghost predicate Padded(c: Cipher) {
    forall key, iv, p :: |c.enc(key, iv, p)| > 0 && |c.enc(key, iv, p)| % 16 == 0
  }

  /**
    `getKey`: the secret must be configured (present and not empty) and must
    be exactly 32 bytes once UTF-8 encoded; the key is those bytes.
  */
  function GetKey(env: Env): (r: Result<seq<byte>, Error>)
    ensures !Truthy(env.aesSecret) ==> r == Err(ConfigError(AesSecretMissing))
    ensures Truthy(env.aesSecret) && |Utf8(env.aesSecret.value)| != KEY_LENGTH ==>
              r == Err(ConfigError(AesSecretLength))
    ensures r.Ok? <==> Truthy(env.aesSecret) && |Utf8(env.aesSecret.value)| == KEY_LENGTH
    ensures r.Ok? ==> r.value == Utf8(env.aesSecret.value) && |r.value| == KEY_LENGTH
  {
    if !Truthy(env.aesSecret) then Err(ConfigError(AesSecretMissing))
    else
      var keyBuffer := Utf8(env.aesSecret.value);
      if |keyBuffer| != KEY_LENGTH then Err(ConfigError(AesSecretLength))
      else Ok(keyBuffer)
  }

  /**
    For an ASCII secret the byte length is the character count, so exactly
    the 32-character secrets are accepted.
  */
  lemma AsciiSecretKey(env: Env)
    requires Truthy(env.aesSecret) && IsAscii(env.aesSecret.value)
    ensures GetKey(env).Ok? <==> |env.aesSecret.value| == KEY_LENGTH
  {
    Utf8LengthIsAscii(env.aesSecret.value);
  }

  /**
    The check counts bytes, not characters: a 32-character secret with one
    two-byte character is refused although the message asks for 32 characters.
  */
  lemma NonAsciiSecretOf32CharsRefused(env: Env)
    requires env.aesSecret == Some(seq(31, i => 'k') + ['é'])
    ensures |env.aesSecret.value| == 32
    ensures GetKey(env) == Err(ConfigError(AesSecretLength))
  {
    var s := env.aesSecret.value;
    var t := seq(31, i => 'k');
    assert s == t + ['é'];
    assert s[1..] == t[1..] + ['é'];
    Utf8LengthIsAscii(t);
    Utf8Append(t, ['é']);
    assert Utf8(['é']) == Utf8Char('é');
  }

  /** The shape of every envelope `encryptText` writes. */
  predicate WellFormedEnvelope(e: string) {
    |e| > 2 * IV_LENGTH + 1 && e[2 * IV_LENGTH] == ':' &&
    (forall i :: 0 <= i < |e| && i != 2 * IV_LENGTH ==> IsLowerHexDigit(e[i]))
  }

  /**
    `encryptText`: the IV (drawn by `crypto.randomBytes(16)` in the source) is
    a parameter; the envelope is the hex IV, `:`, and the hex ciphertext.
  */
  function EncryptText(plainText: string, iv: seq<byte>, env: Env, c: Cipher): (r: Result<string, Error>)
    requires |iv| == IV_LENGTH
    ensures r.Err? <==> GetKey(env).Err?
    ensures r.Err? ==> r.error == GetKey(env).error
    ensures r.Ok? ==> |r.value| > 2 * IV_LENGTH && r.value[..2 * IV_LENGTH] == HexEncode(iv) && r.value[2 * IV_LENGTH] == ':'
    ensures r.Ok? ==> ':' !in r.value[2 * IV_LENGTH + 1..]
  {
    match GetKey(env)
    case Err(e) => Err(e)
    case Ok(key) =>
      var ct := c.enc(key, iv, plainText);
      var e := HexEncode(iv) + ":" + HexEncode(ct);
      HexHasNoColon(ct);
      assert e[..2 * IV_LENGTH] == HexEncode(iv) && e[2 * IV_LENGTH + 1..] == HexEncode(ct);
      Ok(e)
  }

  /**
    `decryptText`: an absent or empty value decrypts to `""`; a value whose
    first or second colon-separated field is missing or empty is returned as
    it is; otherwise the first field is the hex IV and the second the hex
    ciphertext, and anything after a second colon is ignored.
  */
  function DecryptText(cipherText: Option<string>, env: Env, c: Cipher): (r: Result<string, Error>)
    ensures r.Err? ==> r.error.ConfigError? || r.error.CipherError? || r.error.TypeError?
  {
    if !Truthy(cipherText) then Ok("")
    else
      var s := cipherText.value;
      var fields := Split(s, ':');
      if fields[0] == "" || |fields| < 2 || fields[1] == "" then Ok(s)
      else DecryptFields(fields[0], fields[1], env, c)
  }

  /**
    The cipher step of `decryptText`, once the hex IV and hex ciphertext are
    split off. `Buffer.from` reads the IV leniently, but `decipher.update`
    refuses a hex ciphertext of odd length before decrypting anything.
  */
  function DecryptFields(ivHex: string, encrypted: string, env: Env, c: Cipher): (r: Result<string, Error>)
    ensures GetKey(env).Err? ==> r == Err(GetKey(env).error)
    ensures GetKey(env).Ok? && |HexDecode(ivHex)| != IV_LENGTH ==> r == Err(CipherError(InvalidIv))
    ensures GetKey(env).Ok? && |HexDecode(ivHex)| == IV_LENGTH && |encrypted| % 2 != 0 ==>
      r == Err(TypeError(OddHexLength(|encrypted|)))
    ensures r.Ok? ==> |HexDecode(ivHex)| == IV_LENGTH && |encrypted| % 2 == 0
    ensures r.Ok? ==> c.dec(GetKey(env).value, HexDecode(ivHex), HexDecode(encrypted)) == Some(r.value)
  {
    var iv := HexDecode(ivHex);
    match GetKey(env)
    case Err(e) => Err(e)
    case Ok(key) =>
      if |iv| != IV_LENGTH then Err(CipherError(InvalidIv))
      else if |encrypted| % 2 != 0 then Err(TypeError(OddHexLength(|encrypted|)))
      else
        match c.dec(key, iv, HexDecode(encrypted))
        case None => Err(CipherError(BadDecrypt))
        case Some(p) => Ok(p)
  }

  /** A value whose first two colon-separated fields are both non-empty goes to the cipher step. */
  lemma DecryptsFields(s: string, env: Env, c: Cipher)
    requires |Split(s, ':')| >= 2 && Split(s, ':')[0] != "" && Split(s, ':')[1] != ""
    ensures DecryptText(Some(s), env, c) == DecryptFields(Split(s, ':')[0], Split(s, ':')[1], env, c)
  {
  }

  /** The TypeError Node's `decipher.update` throws for a hex string of odd length `n`. */
  function OddHexLength(n: nat): string {
    "The argument 'encoding' is invalid for data of length " + DecimalString(n) + ". Received 'hex'"
  }

  // ---------------------------------------------------------------- properties

  /** Encryption fails exactly when the key is refused, and then with the key's error. */
  lemma EncryptFailsOnlyOnKey(p: string, iv: seq<byte>, env: Env, c: Cipher)
    requires |iv| == IV_LENGTH
    ensures EncryptText(p, iv, env, c).Err? <==> GetKey(env).Err?
    ensures GetKey(env).Err? ==> EncryptText(p, iv, env, c) == Err(GetKey(env).error)
  {
  }

  /**
    Every envelope is 32 lower-case hex digits, a colon and at least one more
    hex digit; its first 32 characters decode to the IV that was drawn.
  */
  lemma EnvelopeShape(p: string, iv: seq<byte>, env: Env, c: Cipher)
    requires |iv| == IV_LENGTH && Padded(c)
    requires EncryptText(p, iv, env, c).Ok?
    ensures var e := EncryptText(p, iv, env, c).value;
      WellFormedEnvelope(e) && HexDecode(e[..2 * IV_LENGTH]) == iv
  {
    var key := GetKey(env).value;
    var ct := c.enc(key, iv, p);
    var e := EncryptText(p, iv, env, c).value;
    assert |ct| > 0;
    assert e == HexEncode(iv) + ":" + HexEncode(ct);
    forall i | 0 <= i < |e| && i != 2 * IV_LENGTH ensures IsLowerHexDigit(e[i]) {
      if i < 2 * IV_LENGTH {
        assert e[i] == HexEncode(iv)[i];
      } else {
        assert e[i] == HexEncode(ct)[i - 2 * IV_LENGTH - 1];
      }
    }
    assert e[..2 * IV_LENGTH] == HexEncode(iv);
    HexRoundTrip(iv);
  }

  /** A well-formed envelope holds exactly one colon, so it splits into exactly two fields. */
  lemma EnvelopeFields(e: string)
    requires WellFormedEnvelope(e)
    ensures Split(e, ':') == [e[..2 * IV_LENGTH], e[2 * IV_LENGTH + 1..]]
  {
    var a, b := e[..2 * IV_LENGTH], e[2 * IV_LENGTH + 1..];
    assert ':' !in a by {
      forall i | 0 <= i < |a| ensures a[i] != ':' {
        assert a[i] == e[i];
      }
    }
    assert ':' !in b by {
      forall i | 0 <= i < |b| ensures b[i] != ':' {
        assert b[i] == e[i + 2 * IV_LENGTH + 1];
      }
    }
    assert e == a + [':'] + b;
    SplitAfterField(a, ':', b);
  }

  /**
    The round trip: under the same configuration, decrypting what
    `encryptText` produced gives back the plaintext, for every plaintext and IV.
  */
  lemma DecryptEncrypt(p: string, iv: seq<byte>, env: Env, c: Cipher)
    requires |iv| == IV_LENGTH && Inverts(c) && Padded(c)
    requires EncryptText(p, iv, env, c).Ok?
    ensures DecryptText(Some(EncryptText(p, iv, env, c).value), env, c) == Ok(p)
  {
    var key := GetKey(env).value;
    var ct := c.enc(key, iv, p);
    var a, b := HexEncode(iv), HexEncode(ct);
    assert |ct| > 0;
    HexHasNoColon(iv);
    HexHasNoColon(ct);
    SplitTwoFields(a, b, "", ':');
    assert a + [':'] + b + "" == EncryptText(p, iv, env, c).value;
    DecryptsFields(a + [':'] + b, env, c);
    HexRoundTrip(iv);
    HexRoundTrip(ct);
    assert c.dec(key, iv, ct) == Some(p);
  }

  lemma HexHasNoColon(bs: seq<byte>)
    ensures ':' !in HexEncode(bs)
  {
    var r := HexEncode(bs);
    forall i | 0 <= i < |r| ensures r[i] != ':' {
      assert IsLowerHexDigit(r[i]);
    }
  }

  /** An absent or empty value decrypts to the empty string. */
  lemma DecryptEmpty(env: Env, c: Cipher)
    ensures DecryptText(None, env, c) == Ok("")
    ensures DecryptText(Some(""), env, c) == Ok("")
  {
  }

  /** A value without a colon is not an envelope and comes back unchanged. */
  lemma DecryptWithoutColon(s: string, env: Env, c: Cipher)
    requires ':' !in s
    ensures DecryptText(Some(s), env, c) == Ok(s)
  {
  }

  /**
    A value whose first or second field is empty comes back unchanged: here
    the value is `a:b`, or `a:b:` followed by anything.
  */
  lemma DecryptEmptyField(a: string, b: string, tail: string, env: Env, c: Cipher)
    requires ':' !in a && ':' !in b
    requires a == "" || b == ""
    requires tail == "" || tail[0] == ':'
    ensures DecryptText(Some(a + [':'] + b + tail), env, c) == Ok(a + [':'] + b + tail)
  {
    SplitTwoFields(a, b, tail, ':');
  }

  /**
    Only the first two colon-separated fields matter: appending a colon and
    anything at all to `a:b` leaves its decryption unchanged.
  */
  lemma DecryptIgnoresThirdField(a: string, b: string, rest: string, env: Env, c: Cipher)
    requires ':' !in a && ':' !in b && a != "" && b != ""
    ensures DecryptText(Some(a + [':'] + b + [':'] + rest), env, c) == DecryptText(Some(a + [':'] + b), env, c)
  {
    SplitTwoFields(a, b, [':'] + rest, ':');
    SplitTwoFields(a, b, "", ':');
    assert a + [':'] + b + "" == a + [':'] + b;
    assert a + [':'] + b + ([':'] + rest) == a + [':'] + b + [':'] + rest;
    SameFieldsSameDecryption(a + [':'] + b + [':'] + rest, a + [':'] + b, env, c);
  }

  lemma SameFieldsSameDecryption(s: string, t: string, env: Env, c: Cipher)
    requires s != "" && t != ""
    requires |Split(s, ':')| >= 2 && |Split(t, ':')| >= 2
    requires Split(s, ':')[..2] == Split(t, ':')[..2]
    requires Split(s, ':')[0] != "" && Split(s, ':')[1] != ""
    ensures DecryptText(Some(s), env, c) == DecryptText(Some(t), env, c)
  {
    var fs, ft := Split(s, ':'), Split(t, ':');
    assert fs[0] == fs[..2][0] == ft[..2][0] == ft[0];
    assert fs[1] == fs[..2][1] == ft[..2][1] == ft[1];
    assert DecryptText(Some(s), env, c) == DecryptFields(fs[0], fs[1], env, c);
  }

  /**
    Plain text that contains a colon is not returned as it is: a first field
    shorter than an IV in hex is taken for one, and decoding it yields too
    few bytes, so `decryptText` throws. A legacy description such as
    "note: buy milk" fails this way.
  */
  lemma ShortFirstFieldThrows(a: string, b: string, env: Env, c: Cipher)
    requires ':' !in a && ':' !in b && a != "" && b != ""
    requires |a| < 2 * IV_LENGTH && GetKey(env).Ok?
    ensures DecryptText(Some(a + [':'] + b), env, c) == Err(CipherError(InvalidIv))
  {
    SplitTwoFields(a, b, "", ':');
    assert a + [':'] + b + "" == a + [':'] + b;
  }

  lemma ColonPlainTextThrows(env: Env, c: Cipher)
    requires GetKey(env).Ok?
    ensures DecryptText(Some("note: buy milk"), env, c) == Err(CipherError(InvalidIv))
  {
    assert "note: buy milk" == "note" + [':'] + " buy milk";
    ShortFirstFieldThrows("note", " buy milk", env, c);
  }

  /**
    Once the key and the IV are accepted, a ciphertext field of odd length is
    refused by `decipher.update` with a TypeError that names its length.
  */
  lemma OddCiphertextThrows(a: string, b: string, env: Env, c: Cipher)
    requires ':' !in a && ':' !in b && a != "" && b != ""
    requires |HexDecode(a)| == IV_LENGTH && GetKey(env).Ok? && |b| % 2 == 1
    ensures DecryptText(Some(a + [':'] + b), env, c) == Err(TypeError(OddHexLength(|b|)))
  {
    SplitTwoFields(a, b, "", ':');
    assert a + [':'] + b + "" == a + [':'] + b;
    DecryptsFields(a + [':'] + b, env, c);
  }

  /**
    An envelope with one more hex digit appended no longer decrypts: its
    ciphertext field now has odd length, so `decryptText` throws.
  */
  lemma ExtendedEnvelopeThrows(p: string, iv: seq<byte>, env: Env, c: Cipher)
    requires |iv| == IV_LENGTH && Padded(c)
    requires EncryptText(p, iv, env, c).Ok?
    ensures var e := EncryptText(p, iv, env, c).value + "0";
      DecryptText(Some(e), env, c) == Err(TypeError(OddHexLength(|e| - 2 * IV_LENGTH - 1)))
  {
    var ct := c.enc(GetKey(env).value, iv, p);
    var a, b := HexEncode(iv), HexEncode(ct) + "0";
    HexHasNoColon(iv);
    HexHasNoColon(ct);
    assert ':' !in b;
    HexRoundTrip(iv);
    assert EncryptText(p, iv, env, c).value + "0" == a + [':'] + b;
    OddCiphertextThrows(a, b, env, c);
  }

}
