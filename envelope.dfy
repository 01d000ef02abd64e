/** encrypt and decrypt: AES-256-GCM under a key fetched by secret name.
    The envelope is the 12-byte IV followed by the cipher's output
    (ciphertext, then the 16-byte tag), carried as Base64 text.

    The cipher is not opened: an Aead value supplies seal and open, and
    Aead.Valid() is what the model takes from NIST SP 800-38D. The IV comes
    from the caller in place of SecureRandom, and the secrets manager is a
    map from secret names to their stored strings. */
module AeadEnvelope {
  import opened UdfTypes
  import Base64

  const GcmIvLength: nat := 12
  const GcmTagLength: nat := 16
  /** Byte.SIZE */
  const ByteSize: nat := 8
  /** Key length of the AES_256 transformation, in bytes. */
  const AesKeyLength: nat := 32

  /** javax.crypto.spec.GCMParameterSpec: the tag length in bits and the IV. */
  datatype GcmParameterSpec = GcmParameterSpec(tLen: nat, iv: Bytes)

  /** getGCMSpecEncryption: a 128-bit tag and the 12 bytes random drew. */
  function GcmSpecEncryption(random: Bytes): (spec: GcmParameterSpec)
    requires |random| == GcmIvLength
    ensures spec.tLen == 128 && |spec.iv| == 12 && spec.iv == random
  {
    GcmParameterSpec(GcmTagLength * ByteSize, random)
  }

  /** getGCMSpecDecryption: a 128-bit tag and the first 12 bytes of the
      envelope as IV; a shorter envelope makes GCMParameterSpec throw. */
  function GcmSpecDecryption(encryptedText: Bytes): (r: Result<GcmParameterSpec>)
    ensures r.Ok? <==> |encryptedText| >= 12
    ensures r.Err? ==> r.error == ShortCiphertext
    ensures r.Ok? ==> r.value.tLen == 128 && r.value.iv == encryptedText[..12]
  {
    if |encryptedText| < GcmIvLength then Err(ShortCiphertext)
    else Ok(GcmParameterSpec(GcmTagLength * ByteSize, encryptedText[..GcmIvLength]))
  }

  /** AES-256-GCM as Cipher.doFinal runs it: seal gives the ciphertext
      followed by the tag; open verifies the tag and gives the plaintext
      back, or None where AEADBadTagException is thrown. */
  datatype Aead = Aead(
    seal: (Bytes, GcmParameterSpec, Bytes) -> Bytes,
    open: (Bytes, GcmParameterSpec, Bytes) -> Option<Bytes>)
  {
    /** Under a 256-bit key, open undoes seal, seal adds exactly the tag
        (tLen bits) to the plaintext's length, and open rejects input too
        short to hold a tag. */
    ghost predicate Valid() {
      && (forall key, spec, p | |key| == AesKeyLength ::
            open(key, spec, seal(key, spec, p)) == Some(p)
            && |seal(key, spec, p)| == |p| + spec.tLen / ByteSize)
      && (forall key, spec: GcmParameterSpec, c | |key| == AesKeyLength && |c| < spec.tLen / ByteSize ::
            open(key, spec, c) == None)
    }
  }

  /** CachableSecretsManager.getSecret: the stored string, or failure. */
  function Lookup(store: map<string, string>, name: string): Result<string> {
    if name in store then Ok(store[name]) else Err(SecretUnavailable)
  }

  /** Base64.getDecoder().decode(secretString): the key bytes. */
  function DecodeKey(secret: string): Result<Bytes> {
    match Base64.Decode(secret)
    case None => Err(MalformedSecret)
    case Some(key) => Ok(key)
  }

  /** The secrets manager the handler holds: store is what each secret name
      resolves to, requests every name it has been asked for, in order. */
  class SecretsManager {
    const store: map<string, string>
    var requests: seq<string>

    constructor (store: map<string, string>)
      ensures this.store == store && requests == []
    {
      this.store := store;
      requests := [];
    }

    method GetSecret(name: string) returns (r: Result<string>)
      modifies this
      ensures requests == old(requests) + [name]
      ensures r == Lookup(store, name)
    {
      requests := requests + [name];
      r := Lookup(store, name);
    }
  }

  /** java.nio.ByteBuffer as encrypt uses it: allocate, then bulk puts. */
  class ByteBuffer {
    var data: array<byte>
    var position: nat

    ghost predicate Valid()
      reads this
    {
      position <= data.Length
    }

    /** allocate(capacity): a fresh buffer of that many zero bytes. */
    constructor Allocate(capacity: nat)
      ensures Valid() && fresh(data) && data.Length == capacity && position == 0
      ensures data[..] == seq(capacity, _ => 0)
    {
      data := new byte[capacity](_ => 0);
      position := 0;
    }

    /** put(src): copies src at the position and moves the position past it. */
    method Put(src: Bytes)
      requires Valid() && position + |src| <= data.Length
      modifies this, data
      ensures Valid() && data == old(data)
      ensures position == old(position) + |src|
      ensures data[..old(position)] == old(data[..position])
      ensures data[old(position)..position] == src
      ensures data[position..] == old(data[..])[position..]
    {
      var p := position;
      forall i | 0 <= i < |src| {
        data[p + i] := src[i];
      }
      position := p + |src|;
    }
  }

  /** The envelope for a plaintext: the IV, then what the cipher wrote. */
  function Seal(aead: Aead, key: Bytes, random: Bytes, plaintext: Bytes): Result<Bytes>
    requires |random| == GcmIvLength
  {
    if |key| != AesKeyLength then Err(KeyRejected)
    else Ok(random + aead.seal(key, GcmSpecEncryption(random), plaintext))
  }

  /** The plaintext of an envelope: the IV is bytes [0, 12), and bytes
      [12, length) go to the cipher. */
  function Open(aead: Aead, key: Bytes, envelope: Bytes): Result<Bytes> {
    var spec :- GcmSpecDecryption(envelope);
    if |key| != AesKeyLength then Err(KeyRejected)
    else
      match aead.open(key, spec, envelope[GcmIvLength..])
      case None => Err(AuthenticationFailed)
      case Some(p) => Ok(p)
  }

  /** What encrypt returns. */
  function EncryptSpec(aead: Aead, store: map<string, string>, secretName: string, random: Bytes,
                       plaintext: Option<Bytes>): Result<Option<string>>
    requires |random| == GcmIvLength
  {
    match plaintext
    case None => Ok(None)
    case Some(p) =>
      var secret :- Lookup(store, secretName);
      var key :- DecodeKey(secret);
      var envelope :- Seal(aead, key, random, p);
      Ok(Some(Base64.Encode(envelope)))
  }

  /** What decrypt returns. */
  function DecryptSpec(aead: Aead, store: map<string, string>, secretName: string,
                       ciphertext: Option<string>): Result<Option<Bytes>>
  {
    match ciphertext
    case None => Ok(None)
    case Some(c) =>
      var secret :- Lookup(store, secretName);
      var key :- DecodeKey(secret);
      var envelope :- (if Base64.Decode(c).None? then Err(IllegalBase64) else Ok(Base64.Decode(c).value));
      var p :- Open(aead, key, envelope);
      Ok(Some(p))
  }

  /** encrypt: null gives null before any secret is fetched; otherwise the
      key is fetched and decoded, the plaintext sealed under the fresh IV,
      and IV and cipher output are put into one buffer, Base64-encoded. */
  method Encrypt(secrets: SecretsManager, aead: Aead, random: Bytes, plaintext: Option<Bytes>, secretName: string)
    returns (r: Result<Option<string>>)
    requires |random| == GcmIvLength
    modifies secrets
    ensures plaintext.None? ==> r == Ok(None) && secrets.requests == old(secrets.requests)
    ensures plaintext.Some? ==> secrets.requests == old(secrets.requests) + [secretName]
    ensures r == EncryptSpec(aead, secrets.store, secretName, random, plaintext)
  {
    if plaintext.None? {
      return Ok(None);
    }
    var secretString := secrets.GetSecret(secretName);
    if secretString.Err? {
      return Err(secretString.error);
    }
    var plaintextKey := Base64.Decode(secretString.value);
    if plaintextKey.None? {
      return Err(MalformedSecret);
    }
    var spec := GcmSpecEncryption(random);
    if |plaintextKey.value| != AesKeyLength {
      return Err(KeyRejected);
    }
    var encryptedContent := aead.seal(plaintextKey.value, spec, plaintext.value);
    var byteBuffer := new ByteBuffer.Allocate(GcmIvLength + |encryptedContent|);
    byteBuffer.Put(spec.iv);
    byteBuffer.Put(encryptedContent);
    assert byteBuffer.data[..] == byteBuffer.data[..GcmIvLength] + byteBuffer.data[GcmIvLength..byteBuffer.position];
    r := Ok(Some(Base64.Encode(byteBuffer.data[..])));
  }

  /** decrypt: null gives null before any secret is fetched; otherwise the
      key is fetched and decoded, the text Base64-decoded, and the envelope
      opened. */
  method Decrypt(secrets: SecretsManager, aead: Aead, ciphertext: Option<string>, secretName: string)
    returns (r: Result<Option<Bytes>>)
    modifies secrets
    ensures ciphertext.None? ==> r == Ok(None) && secrets.requests == old(secrets.requests)
    ensures ciphertext.Some? ==> secrets.requests == old(secrets.requests) + [secretName]
    ensures r == DecryptSpec(aead, secrets.store, secretName, ciphertext)
  {
    if ciphertext.None? {
      return Ok(None);
    }
    var secretString := secrets.GetSecret(secretName);
    if secretString.Err? {
      return Err(secretString.error);
    }
    var plaintextKey := Base64.Decode(secretString.value);
    if plaintextKey.None? {
      return Err(MalformedSecret);
    }
    var encryptedContent := Base64.Decode(ciphertext.value);
    if encryptedContent.None? {
      return Err(IllegalBase64);
    }
    var envelope := encryptedContent.value;
    var spec := GcmSpecDecryption(envelope);
    if spec.Err? {
      return Err(spec.error);
    }
    if |plaintextKey.value| != AesKeyLength {
      return Err(KeyRejected);
    }
    var plainTextBytes := aead.open(plaintextKey.value, spec.value, envelope[GcmIvLength..]);
    if plainTextBytes.None? {
      return Err(AuthenticationFailed);
    }
    r := Ok(Some(plainTextBytes.value));
  }

  // ---------------------------------------------------------------------
  // Properties of the envelope
  // ---------------------------------------------------------------------

  /** Splitting a framed envelope gives back its IV and its cipher output. */
  lemma FrameSplit(iv: Bytes, sealed: Bytes)
    requires |iv| == GcmIvLength
    ensures (iv + sealed)[..GcmIvLength] == iv && (iv + sealed)[GcmIvLength..] == sealed
  {
  }

  /** What encrypt returns Base64-decodes to exactly the IV followed by the
      cipher output, GcmIvLength + |plaintext| + GcmTagLength bytes in all. */
  lemma EncryptFraming(aead: Aead, store: map<string, string>, secretName: string, key: Bytes,
                       random: Bytes, plaintext: Bytes)
    requires aead.Valid() && |random| == GcmIvLength
    requires secretName in store && Base64.Decode(store[secretName]) == Some(key) && |key| == AesKeyLength
    ensures var r := EncryptSpec(aead, store, secretName, random, Some(plaintext));
      var sealed := aead.seal(key, GcmSpecEncryption(random), plaintext);
      && r.Ok? && r.value.Some?
      && Base64.Decode(r.value.value) == Some(random + sealed)
      && |random + sealed| == GcmIvLength + |plaintext| + GcmTagLength
  {
    var sealed := aead.seal(key, GcmSpecEncryption(random), plaintext);
    Base64.DecodeEncode(random + sealed);
  }

  /** decrypt(encrypt(p, s), s) == p: decrypting what encrypt returned,
      with the same secrets, gives the plaintext back. */
  lemma DecryptInvertsEncrypt(aead: Aead, store: map<string, string>, secretName: string,
                              random: Bytes, plaintext: Bytes)
    requires aead.Valid() && |random| == GcmIvLength
    requires EncryptSpec(aead, store, secretName, random, Some(plaintext)).Ok?
    ensures DecryptSpec(aead, store, secretName, EncryptSpec(aead, store, secretName, random, Some(plaintext)).value)
      == Ok(Some(plaintext))
  {
    var key := DecodeKey(store[secretName]).value;
    var spec := GcmSpecEncryption(random);
    var sealed := aead.seal(key, spec, plaintext);
    Base64.DecodeEncode(random + sealed);
    FrameSplit(random, sealed);
  }

  /** Encrypting one plaintext under two different IVs gives two different
      texts. */
  lemma FreshIvDistinctCiphertexts(aead: Aead, store: map<string, string>, secretName: string,
                                   random1: Bytes, random2: Bytes, plaintext: Bytes)
    requires |random1| == GcmIvLength && |random2| == GcmIvLength && random1 != random2
    requires EncryptSpec(aead, store, secretName, random1, Some(plaintext)).Ok?
    ensures EncryptSpec(aead, store, secretName, random1, Some(plaintext))
      != EncryptSpec(aead, store, secretName, random2, Some(plaintext))
  {
    var key := DecodeKey(store[secretName]).value;
    var e1 := random1 + aead.seal(key, GcmSpecEncryption(random1), plaintext);
    var e2 := random2 + aead.seal(key, GcmSpecEncryption(random2), plaintext);
    FrameSplit(random1, e1[GcmIvLength..]);
    FrameSplit(random2, e2[GcmIvLength..]);
    if Base64.Encode(e1) == Base64.Encode(e2) {
      Base64.EncodeInjective(e1, e2);
    }
  }

  /** A secret the manager cannot resolve fails both operations with
      SecretUnavailable, before any decoding or cipher work. */
  lemma MissingSecretFailsBoth(aead: Aead, store: map<string, string>, secretName: string,
                               random: Bytes, plaintext: Bytes, ciphertext: string)
    requires |random| == GcmIvLength && secretName !in store
    ensures EncryptSpec(aead, store, secretName, random, Some(plaintext)) == Err(SecretUnavailable)
    ensures DecryptSpec(aead, store, secretName, Some(ciphertext)) == Err(SecretUnavailable)
  {
  }

  /** encrypt fails only for its key: the secret is missing, is not Base64,
      or is not a 256-bit key. */
  lemma EncryptFailsOnlyForKey(aead: Aead, store: map<string, string>, secretName: string,
                               random: Bytes, plaintext: Bytes)
    requires |random| == GcmIvLength
    ensures EncryptSpec(aead, store, secretName, random, Some(plaintext)).Err? <==>
      secretName !in store || DecodeKey(store[secretName]).Err? || |DecodeKey(store[secretName]).value| != AesKeyLength
  {
  }

  /** An envelope shorter than the IV is rejected before the cipher runs;
      one with an IV but too short for the tag fails authentication. */
  lemma ShortEnvelopeRejected(aead: Aead, key: Bytes, envelope: Bytes)
    requires aead.Valid() && |key| == AesKeyLength
    requires |envelope| < GcmIvLength + GcmTagLength
    ensures Open(aead, key, envelope) ==
      if |envelope| < GcmIvLength then Err(ShortCiphertext) else Err(AuthenticationFailed)
  {
    if |envelope| >= GcmIvLength {
      var spec := GcmSpecDecryption(envelope).value;
      assert |envelope[GcmIvLength..]| < spec.tLen / ByteSize;
    }
  }
}
