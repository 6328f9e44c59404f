/**
 A cipher that meets the law assumed of AES-GCM and refuses what was not sealed
 under the same key and nonce: it frames the text with both. It hides nothing
 and serves to show concrete blobs.
 */
module FramedCipher {
  import opened Wrappers
  import opened FieldCiphers

  function CharBytes(c: char): (b: Bytes)
    ensures |b| == 3
  {
    var q := c as int / 256;
    [q / 256, q % 256, c as int % 256]
  }

  function BytesChar(high: int, middle: int, low: int): Option<char> {
    var n := (high * 256 + middle) * 256 + low;
    if 0 <= n < 0xD800 || 0xE000 <= n < 0x11_0000 then Some(n as char) else None
  }

  function Encode(text: string): Bytes {
    if text == "" then [] else CharBytes(text[0]) + Encode(text[1..])
  }

  function Decode(b: Bytes): Option<string> {
    if b == [] then Some("")
    else if |b| < 3 || BytesChar(b[0], b[1], b[2]).None? then None
    else
      match Decode(b[3..])
      case None => None
      case Some(rest) => Some([BytesChar(b[0], b[1], b[2]).value] + rest)
  }

  lemma CharComesBack(c: char)
    ensures BytesChar(CharBytes(c)[0], CharBytes(c)[1], CharBytes(c)[2]) == Some(c)
  {
    var n := c as int;
    var q := n / 256;
    assert (q / 256 * 256 + q % 256) * 256 + n % 256 == n;
  }

  lemma DecodesFirst(head: Bytes, rest: Bytes, c: char, text: string)
    requires |head| == 3 && BytesChar(head[0], head[1], head[2]) == Some(c) && Decode(rest) == Some(text)
    ensures Decode(head + rest) == Some([c] + text)
  {
    assert (head + rest)[3..] == rest;
  }

  lemma {:induction false} DecodesEncoded(text: string)
    ensures Decode(Encode(text)) == Some(text)
    decreases |text|
  {
    if text != "" {
      CharComesBack(text[0]);
      DecodesEncoded(text[1..]);
      DecodesFirst(CharBytes(text[0]), Encode(text[1..]), text[0], text[1..]);
      assert text == [text[0]] + text[1..];
    }
  }

  function Seal(key: Bytes, nonce: Bytes, text: string): Bytes {
    key + nonce + Encode(text)
  }

  function Open(key: Bytes, nonce: Bytes, body: Bytes): Option<string> {
    if key + nonce <= body then Decode(body[|key + nonce|..]) else None
  }

  const FRAMED := Aead(Seal, Open)

  lemma FramedIsLawful()
    ensures FRAMED.Lawful()
  {
    forall key: Bytes, nonce: Bytes, text: string
      ensures FRAMED.open(key, nonce, FRAMED.seal(key, nonce, text)) == Some(text)
    {
      DecodesEncoded(text);
      assert Seal(key, nonce, text)[|key + nonce|..] == Encode(text);
    }
  }

  function Key(b: Byte): Bytes {
    seq(KEY_BYTES, i => b)
  }

  /** One version and a legacy key. */
  const RING := FieldCipher(map[1 := Key(11)], 1, Some(Key(12)))

  /** A nonce that happens to start with the primary version. */
  const NONCE: Bytes := [1, 0, 0, 0, 0, 0, 0, 0, 0, 0, 0, 0]

  /**
   An unversioned blob under the legacy key whose nonce starts with the primary
   version looks up to date, reads well, and is lost with the legacy key.
   */
  lemma OldBlobLooksUpToDate(text: string)
    ensures var blob := NONCE + FRAMED.seal(Key(12), NONCE, text);
      FRAMED.Lawful() && RING.Valid() && !RING.NeedsRotation(blob) && RING.Open(FRAMED, blob) == Ok(text)
      && RING.Retired().WithoutLegacy().Open(FRAMED, blob).Err?
  {
    var sealed := Seal(Key(12), NONCE, text);
    var blob := NONCE + sealed;
    FramedIsLawful();
    DecodesEncoded(text);
    assert sealed[|Key(12) + NONCE|..] == Encode(text);
    assert blob[..NONCE_BYTES] == NONCE && blob[NONCE_BYTES..] == sealed;
    assert blob[1..][NONCE_BYTES..][0] == Key(12)[1] && Key(11)[0] == 11;
    assert GcmOpen(FRAMED, Key(11), blob[1..]).None?;
    LegacyKeyStillNeeded(FRAMED, RING, blob);
  }
}
