/**
 The two key rings of `auth/crypto.go`: FieldCipher, a versioned AES-256-GCM
 ring with a fallback for unversioned blobs, and LookupHasher, an HMAC ring
 whose retired keys stay readable.
 */
module FieldCiphers {
  import opened Wrappers

  const KEY_BYTES := 32
  const NONCE_BYTES := 12

  /** AES-GCM, reduced to the one law rotation needs. */
  datatype Aead = Aead(seal: (Bytes, Bytes, string) -> Bytes, open: (Bytes, Bytes, Bytes) -> Option<string>) {
    ghost predicate Lawful() {
      forall key: Bytes, nonce: Bytes, text: string ::
        open(key, nonce, seal(key, nonce, text)) == Some(text)
    }
  }

  datatype CipherError = NotConfigured | InvalidCiphertext | InvalidKeys

  datatype FieldCipher = FieldCipher(keys: map<Byte, Bytes>, primary: Byte, legacy: Option<Bytes>) {

    /** What NewFieldCipherRing guarantees of every ring it returns. */
    ghost predicate Valid() {
      && primary != 0 && primary in keys
      && (forall v :: v in keys ==> v != 0 && |keys[v]| == KEY_BYTES)
      && (legacy.Some? ==> |legacy.value| == KEY_BYTES)
    }

    predicate NeedsRotation(blob: Bytes) {
      blob == [] || blob[0] != primary
    }

    function Seal(aead: Aead, nonce: Bytes, text: string): Result<Bytes, CipherError> {
      if primary !in keys || |keys[primary]| != KEY_BYTES then Err(NotConfigured)
      else Ok([primary] + nonce + aead.seal(keys[primary], nonce, text))
    }

    function Versioned(aead: Aead, blob: Bytes): Option<string> {
      if blob != [] && blob[0] in keys then GcmOpen(aead, keys[blob[0]], blob[1..]) else None
    }

    /** The version byte selects a key; whatever that does not open is tried whole with the legacy key. */
    function Open(aead: Aead, blob: Bytes): Result<string, CipherError> {
      if |keys| == 0 then Err(NotConfigured)
      else
        match Versioned(aead, blob)
        case Some(text) => Ok(text)
        case None =>
          match legacy
          case None => Err(InvalidCiphertext)
          case Some(key) =>
            match GcmOpen(aead, key, blob)
            case Some(text) => Ok(text)
            case None => Err(InvalidCiphertext)
    }

    /** The blob carries the primary version, and the primary key opens what follows as this text. */
    ghost predicate Carries(aead: Aead, blob: Bytes, text: string) {
      blob != [] && blob[0] == primary && primary in keys && GcmOpen(aead, keys[primary], blob[1..]) == Some(text)
    }

    /** The ring an operator is left with after retiring every older version. */
    function Retired(): FieldCipher
      requires primary in keys
    {
      FieldCipher(map[primary := keys[primary]], primary, legacy)
    }

    function WithoutLegacy(): FieldCipher {
      this.(legacy := None)
    }
  }

  function GcmOpen(aead: Aead, key: Bytes, blob: Bytes): Option<string> {
    if |blob| < NONCE_BYTES then None
    else aead.open(key, blob[..NONCE_BYTES], blob[NONCE_BYTES..])
  }

  /** Copies the caller's keys one by one and refuses the ring at the first bad one. */
  method NewFieldCipherRing(primary: Byte, keys: map<Byte, Bytes>, legacy: Bytes)
    returns (r: Result<FieldCipher, CipherError>)
    ensures r.Ok? <==>
      primary != 0 && primary in keys && forall v :: v in keys ==> v != 0 && |keys[v]| == 32
    ensures r.Ok? ==> r.value.Valid() && r.value.keys == keys && r.value.primary == primary
    ensures r.Ok? ==> r.value.legacy == if |legacy| == 32 then Some(legacy) else None
  {
    if primary == 0 || primary !in keys || |keys[primary]| != KEY_BYTES {
      return Err(InvalidKeys);
    }
    var ring: map<Byte, Bytes> := map[];
    var rest := keys.Keys;
    while rest != {}
      invariant rest <= keys.Keys && ring.Keys == keys.Keys - rest
      invariant forall v :: v in ring ==> ring[v] == keys[v] && v != 0 && |keys[v]| == KEY_BYTES
      decreases rest
    {
      var v :| v in rest;
      if v == 0 || |keys[v]| != KEY_BYTES {
        return Err(InvalidKeys);
      }
      ring, rest := ring[v := keys[v]], rest - {v};
    }
    assert ring == keys;
    return Ok(FieldCipher(ring, primary, if |legacy| == KEY_BYTES then Some(legacy) else None));
  }

  /** A blob sealed under any version of the ring opens to its plaintext. */
  lemma VersionOpens(aead: Aead, c: FieldCipher, version: Byte, nonce: Bytes, text: string)
    requires aead.Lawful() && version in c.keys && |nonce| == NONCE_BYTES
    ensures c.Open(aead, [version] + nonce + aead.seal(c.keys[version], nonce, text)) == Ok(text)
  {
    var body := aead.seal(c.keys[version], nonce, text);
    var blob := [version] + nonce + body;
    assert blob[1..][..NONCE_BYTES] == nonce && blob[1..][NONCE_BYTES..] == body;
    assert |c.keys.Keys| != 0;
  }

  /** A fresh seal opens to its plaintext and is up to date. */
  lemma SealedOpens(aead: Aead, c: FieldCipher, nonce: Bytes, text: string)
    requires aead.Lawful() && c.Valid() && |nonce| == NONCE_BYTES
    ensures var sealed := c.Seal(aead, nonce, text);
      sealed.Ok? && c.Open(aead, sealed.value) == Ok(text) && !c.NeedsRotation(sealed.value)
      && c.Carries(aead, sealed.value, text)
  {
    CarriedAt(aead, c, nonce, text);
    CarriedOpens(aead, c, [c.primary] + nonce + aead.seal(c.keys[c.primary], nonce, text), text);
  }

  lemma CarriedAt(aead: Aead, c: FieldCipher, nonce: Bytes, text: string)
    requires aead.Lawful() && c.primary in c.keys && |nonce| == NONCE_BYTES
    ensures c.Carries(aead, [c.primary] + nonce + aead.seal(c.keys[c.primary], nonce, text), text)
  {
    var body := aead.seal(c.keys[c.primary], nonce, text);
    var blob := [c.primary] + nonce + body;
    assert blob[1..][..NONCE_BYTES] == nonce && blob[1..][NONCE_BYTES..] == body;
  }

  /** What the primary key carries opens, is up to date, and needs neither a retired version nor the legacy key. */
  lemma CarriedOpens(aead: Aead, c: FieldCipher, blob: Bytes, text: string)
    requires c.Carries(aead, blob, text)
    ensures c.Open(aead, blob) == Ok(text) && !c.NeedsRotation(blob)
    ensures c.Retired().WithoutLegacy().Open(aead, blob) == Ok(text)
  {
    assert |c.keys.Keys| != 0;
  }

  // ---- blobs from before there were versions -------------------------------

  /** What the legacy key sealed has no version byte: a 12-byte nonce and the sealed text. */
  lemma LegacyOpens(aead: Aead, c: FieldCipher, key: Bytes, nonce: Bytes, text: string)
    requires aead.Lawful() && |c.keys| > 0 && c.legacy == Some(key) && |nonce| == 12 && nonce[0] !in c.keys
    ensures c.Open(aead, nonce + aead.seal(key, nonce, text)) == Ok(text)
  {
    var body := aead.seal(key, nonce, text);
    assert (nonce + body)[..NONCE_BYTES] == nonce && (nonce + body)[NONCE_BYTES..] == body;
  }

  /**
   If the nonce happens to start with a version of the ring, that version's key
   is tried first, and the text comes back exactly when it opens nothing, or
   the same text.
   */
  lemma LegacyOpensExactlyWhen(aead: Aead, c: FieldCipher, key: Bytes, nonce: Bytes, text: string)
    requires aead.Lawful() && c.legacy == Some(key) && |nonce| == 12 && nonce[0] in c.keys
    ensures var blob := nonce + aead.seal(key, nonce, text);
      var other := GcmOpen(aead, c.keys[nonce[0]], blob[1..]);
      c.Open(aead, blob) == Ok(text) <==> other.None? || other == Some(text)
  {
    var body := aead.seal(key, nonce, text);
    assert |c.keys.Keys| != 0;
    assert (nonce + body)[..NONCE_BYTES] == nonce && (nonce + body)[NONCE_BYTES..] == body;
  }

  /** What neither its version's key nor the legacy key opens is refused, and a ring without keys refuses everything. */
  lemma UnknownBlobIsRefused(aead: Aead, c: FieldCipher, blob: Bytes)
    requires blob != [] && blob[0] in c.keys ==> GcmOpen(aead, c.keys[blob[0]], blob[1..]).None?
    requires c.legacy.Some? ==> GcmOpen(aead, c.legacy.value, blob).None?
    ensures c.Open(aead, blob) == Err(if |c.keys| == 0 then NotConfigured else InvalidCiphertext)
  {
  }

  /** A blob that needs no rotation reads the same once every other version is retired. */
  lemma RetiredRingAgrees(aead: Aead, c: FieldCipher, blob: Bytes)
    requires c.Valid() && !c.NeedsRotation(blob)
    ensures c.Retired().Open(aead, blob) == c.Open(aead, blob)
  {
  }

  /**
   NeedsRotation looks at one byte, so an unversioned blob whose nonce happens
   to start with the primary version is never rewritten. A readable
   up-to-date blob survives dropping the legacy key exactly when the primary
   key opens what follows its first byte.
   */
  lemma LegacyKeyStillNeeded(aead: Aead, c: FieldCipher, blob: Bytes)
    requires c.Valid() && !c.NeedsRotation(blob) && c.Open(aead, blob).Ok?
    ensures c.Retired().WithoutLegacy().Open(aead, blob) == c.Open(aead, blob)
      <==> GcmOpen(aead, c.keys[c.primary], blob[1..]).Some?
  {
  }

  /** What `account-tool erase` leaves in accounts.email_ciphertext. */
  const TOMBSTONE: Bytes := [0]

  /** No configurable ring opens the erased-account marker or an empty value, and every ring wants to rewrite them. */
  lemma TombstoneNeverOpens(aead: Aead, c: FieldCipher)
    requires c.Valid()
    ensures c.NeedsRotation(TOMBSTONE) && c.Open(aead, TOMBSTONE).Err?
    ensures c.NeedsRotation([]) && c.Open(aead, []).Err?
  {
  }

  // ---- LookupHasher -------------------------------------------------------

  type Hmac = (Bytes, string) -> Bytes

  /** No two different values hash alike, under whatever keys. */
  ghost predicate CollisionFree(hmac: Hmac) {
    forall k: Bytes, k': Bytes, v: string, v': string :: hmac(k, v) == hmac(k', v') ==> v == v'
  }

  datatype LookupHasher = LookupHasher(primary: Bytes, secondary: seq<Bytes>) {
    function Hash(hmac: Hmac, value: string): Bytes {
      hmac(primary, value)
    }

    predicate NeedsRotation(hmac: Hmac, stored: Bytes, value: string) {
      stored != Hash(hmac, value)
    }

    function CandidateHashes(hmac: Hmac, value: string): seq<Bytes> {
      [Hash(hmac, value)] + seq(|secondary|, i requires 0 <= i < |secondary| => hmac(secondary[i], value))
    }
  }

  /** The primary hash first, then one per retired key. */
  method Candidates(hmac: Hmac, h: LookupHasher, value: string) returns (out: seq<Bytes>)
    ensures |out| == 1 + |h.secondary| && out[0] == hmac(h.primary, value)
    ensures forall i :: 0 <= i < |h.secondary| ==> out[1 + i] == hmac(h.secondary[i], value)
    ensures out == h.CandidateHashes(hmac, value)
  {
    out := [h.Hash(hmac, value)];
    for i := 0 to |h.secondary|
      invariant |out| == 1 + i && out[0] == h.Hash(hmac, value)
      invariant forall j :: 0 <= j < i ==> out[1 + j] == hmac(h.secondary[j], value)
    {
      out := out + [hmac(h.secondary[i], value)];
    }
  }

  /** A key the ring can read with: the primary one or a retired one. */
  ghost predicate Configures(h: LookupHasher, key: Bytes) {
    key == h.primary || key in h.secondary
  }

  /** The candidates of a value are its hashes under the configured keys, under every one of them and no other. */
  lemma CandidatesExactly(hmac: Hmac, h: LookupHasher, value: string, stored: Bytes)
    ensures stored in h.CandidateHashes(hmac, value)
      <==> exists key :: Configures(h, key) && stored == hmac(key, value)
  {
    var all := h.CandidateHashes(hmac, value);
    if key :| Configures(h, key) && stored == hmac(key, value) {
      if key == h.primary {
        assert all[0] == stored;
      } else {
        var i :| 0 <= i < |h.secondary| && h.secondary[i] == key;
        assert all[1 + i] == stored;
      }
    }
    if stored in all {
      var i :| 0 <= i < |all| && all[i] == stored;
      assert Configures(h, if i == 0 then h.primary else h.secondary[i - 1]);
    }
  }

  /** A stored hash made by a configured key answers exactly the lookups of its own value. */
  lemma CandidateMatchesOwner(hmac: Hmac, h: LookupHasher, stored: Bytes, owner: string, probe: string)
    requires CollisionFree(hmac) && exists key :: Configures(h, key) && stored == hmac(key, owner)
    ensures stored in h.CandidateHashes(hmac, probe) <==> probe == owner
  {
    CandidatesExactly(hmac, h, probe, stored);
  }
}
