/**
 The one-time codes of `auth/mfa.go`: RFC 6238 steps of 30 seconds, codes
 truncated as in section 5.3 of RFC 4226, and a window of one step either way.
 Instants are nanoseconds since the epoch.
 */
module Totp {
  import opened Wrappers
  import opened Text

  /** HMAC-SHA-1 of an 8-byte counter. */
  datatype Mac = Mac(sum: (Bytes, Bytes) -> Bytes) {
    ghost predicate Sha1() {
      forall secret: Bytes, counter: Bytes :: |sum(secret, counter)| == 20
    }
  }

  const SECOND := 1_000_000_000
  const PERIOD := 30
  const DIGITS := 6
  const MODULUS := 1_000_000
  const TWO_31 := 0x8000_0000

  /** binary.BigEndian.PutUint64 of a non-negative counter. */
  function BigEndian(n: nat, width: nat): (b: Bytes)
    ensures |b| == width
  {
    if width == 0 then [] else BigEndian(n / 256, width - 1) + [n % 256]
  }

  function BigEndianValue(b: Bytes): nat {
    if b == [] then 0 else BigEndianValue(b[..|b| - 1]) * 256 + b[|b| - 1]
  }

  /** The truncation offset: the low four bits of the last byte of the digest. */
  function Offset(digest: Bytes): (o: nat)
    requires |digest| == 20
    ensures o + 4 <= 19 && o == digest[19] % 16
  {
    digest[19] % 16
  }

  /** The code of a digest: four bytes from the offset, the top bit dropped, the last six decimal digits. */
  function Truncate(digest: Bytes): (code: string)
    requires |digest| == 20
    ensures |code| == 6 && forall i :: 0 <= i < 6 ==> IsDigit(code[i])
  {
    var word := digest[Offset(digest)..Offset(digest) + 4];
    PadDigits(BigEndianValue(word) % TWO_31 % MODULUS, DIGITS)
  }

  function Code(mac: Mac, secret: Bytes, step: nat): string {
    var digest := mac.sum(secret, BigEndian(step, 8));
    if |digest| == 20 then Truncate(digest) else ""
  }

  /** The four bytes from the offset that the last byte's low four bits name, without the top bit, modulo a million. */
  ghost function Number(digest: Bytes): nat
    requires |digest| == 20
  {
    var o := digest[19] % 16;
    Word(digest[o] % 128, digest[o + 1], digest[o + 2], digest[o + 3]) % 1_000_000
  }

  ghost function Word(a: int, b: int, c: int, d: int): int {
    a * 0x100_0000 + b * 0x1_0000 + c * 0x100 + d
  }

  lemma FourBytes(a: Byte, b: Byte, c: Byte, d: Byte)
    ensures BigEndianValue([a, b, c, d]) % TWO_31 == Word(a % 128, b, c, d)
  {
    var q, rest: int := a / 128, Word(a % 128, b, c, d);
    assert [a, b, c, d][..3] == [a, b, c] && [a, b, c][..2] == [a, b] && [a, b][..1] == [a] && [a][..0] == [];
    assert BigEndianValue([a]) == a && BigEndianValue([a, b]) == a * 256 + b;
    assert BigEndianValue([a, b, c]) == (a * 256 + b) * 256 + c;
    assert BigEndianValue([a, b, c, d]) == ((a * 256 + b) * 256 + c) * 256 + d == q * TWO_31 + rest;
    assert 0 <= rest < TWO_31;
    QuotientOf(q, rest);
  }

  lemma QuotientOf(q: nat, r: nat)
    requires r < TWO_31
    ensures (q * TWO_31 + r) % TWO_31 == r
  {
  }

  /** The code is that number written with six decimal digits. */
  lemma TruncateIsNumber(digest: Bytes)
    requires |digest| == 20
    ensures |Truncate(digest)| == 6 && AllDigits(Truncate(digest)) && DigitsValue(Truncate(digest)) == Number(digest)
  {
    var o := digest[19] % 16;
    assert digest[Offset(digest)..Offset(digest) + 4] == [digest[o], digest[o + 1], digest[o + 2], digest[o + 3]];
    FourBytes(digest[o], digest[o + 1], digest[o + 2], digest[o + 3]);
    assert Pow10(6) == 10 * Pow10(5) && Pow10(5) == 10 * Pow10(4) && Pow10(4) == 10 * Pow10(3);
    assert Pow10(3) == 1000;
    PadDigitsValue(Number(digest), 6);
  }

  /** Two digests print the same code exactly when their truncated numbers agree modulo a million. */
  lemma CodesAgree(a: Bytes, b: Bytes)
    requires |a| == 20 && |b| == 20
    ensures Truncate(a) == Truncate(b) <==> Number(a) == Number(b)
  {
    TruncateIsNumber(a);
    TruncateIsNumber(b);
    PadDigitsOfValue(Truncate(a));
    PadDigitsOfValue(Truncate(b));
  }

  /** The digest of section 5.4 of RFC 4226, as far as it matters, gives the code it gives there. */
  lemma Rfc4226Example(digest: Bytes)
    requires |digest| == 20 && digest[19] == 0x5a
    requires digest[10] == 0x50 && digest[11] == 0xef && digest[12] == 0x7f && digest[13] == 0x19
    ensures Truncate(digest) == "872921"
  {
    TruncateIsNumber(digest);
    assert Number(digest) == 872921;
    Digits872921();
    PadDigitsOfValue(Truncate(digest));
    PadDigitsOfValue("872921");
  }

  lemma Digits872921()
    ensures DigitsValue("872921") == 872921
  {
    assert "872921"[..5] == "87292" && "87292"[..4] == "8729" && "8729"[..3] == "872" && "872"[..2] == "87";
    assert "87"[..1] == "8" && "8"[..0] == "";
  }

  /** Different counters below 2^64 are sent to the MAC as different blocks. */
  lemma {:induction false} BigEndianRoundTrip(n: nat, width: nat)
    requires n < Pow256(width)
    ensures BigEndianValue(BigEndian(n, width)) == n
    decreases width
  {
    if width > 0 {
      BigEndianRoundTrip(n / 256, width - 1);
      var b := BigEndian(n, width);
      assert b[..|b| - 1] == BigEndian(n / 256, width - 1);
    }
  }

  function Pow256(width: nat): nat {
    if width == 0 then 1 else 256 * Pow256(width - 1)
  }

  /** time.Unix rounds down; Go's integer division then truncates toward zero. */
  function StepAt(instant: int): int {
    var unix := instant / SECOND;
    if unix >= 0 then unix / PERIOD else -((-unix) / PERIOD)
  }

  ghost predicate AcceptedStep(mac: Mac, secret: Bytes, code: string, instant: int, step: int) {
    && step >= 0 && StepAt(instant) - 1 <= step <= StepAt(instant) + 1
    && Trim(code) == Code(mac, secret, step)
  }

  /** Some step of the window has this code. */
  ghost predicate Accepts(mac: Mac, secret: Bytes, code: string, instant: int) {
    exists step :: AcceptedStep(mac, secret, code, instant, step)
  }

  /** Tries the previous, the current and the next step, in that order, and returns the first that matches. */
  method VerifyTOTP(mac: Mac, secret: Bytes, raw: string, instant: int) returns (step: int, ok: bool)
    requires mac.Sha1()
    ensures ok <==> Accepts(mac, secret, raw, instant)
    ensures ok ==> AcceptedStep(mac, secret, raw, instant, step)
    ensures ok ==> forall s :: AcceptedStep(mac, secret, raw, instant, s) ==> step <= s
  {
    var code := Trim(raw);
    if |code| != 6 {
      return 0, false;
    }
    for i := 0 to |code|
      invariant forall j :: 0 <= j < i ==> IsDigit(code[j])
    {
      if !IsDigit(code[i]) {
        return 0, false;
      }
    }
    var current := StepAt(instant);
    for offset: int := -1 to 2
      invariant forall s :: AcceptedStep(mac, secret, raw, instant, s) ==> s >= current + offset
    {
      var candidate := current + offset;
      if candidate >= 0 {
        if Code(mac, secret, candidate) == code {
          assert AcceptedStep(mac, secret, raw, instant, candidate);
          return candidate, true;
        }
      }
    }
    return 0, false;
  }

  lemma {:induction false} BigEndianOfValue(b: Bytes)
    ensures BigEndian(BigEndianValue(b), |b|) == b
    decreases |b|
  {
    if b != [] {
      var n := |b| - 1;
      BigEndianOfValue(b[..n]);
      assert BigEndianValue(b) / 256 == BigEndianValue(b[..n]) && BigEndianValue(b) % 256 == b[n];
    }
  }

  /** The code of section 4.2 of RFC 6238 for a number of time steps: of the 8-byte block that has it as its value. */
  ghost predicate RfcCode(mac: Mac, secret: Bytes, code: string, steps: nat)
    requires mac.Sha1()
  {
    exists block: Bytes :: |block| == 8 && BigEndianValue(block) == steps && code == Truncate(mac.sum(secret, block))
  }

  lemma CodeIsRfcCode(mac: Mac, secret: Bytes, code: string, steps: nat)
    requires mac.Sha1() && steps < Pow256(8)
    ensures RfcCode(mac, secret, code, steps) <==> code == Code(mac, secret, steps)
  {
    BigEndianRoundTrip(steps, 8);
    if block: Bytes :|
      |block| == 8 && BigEndianValue(block) == steps && code == Truncate(mac.sum(secret, block)) {
      BigEndianOfValue(block);
    }
    if code == Code(mac, secret, steps) {
      var block := BigEndian(steps, 8);
      assert |block| == 8 && BigEndianValue(block) == steps && code == Truncate(mac.sum(secret, block));
    }
  }

  lemma EightBytes()
    ensures Pow256(8) == 0x1_0000_0000_0000_0000
  {
    assert Pow256(4) == 0x1_0000_0000;
    assert Pow256(8) == 256 * (256 * (256 * (256 * Pow256(4))));
  }

  /** What is accepted is exactly a code of the present, the previous or the next period of 30 seconds. */
  lemma AcceptsExactlyRfcCodes(mac: Mac, secret: Bytes, code: string, instant: nat)
    requires mac.Sha1() && instant < 0x8000_0000_0000_0000
    ensures Accepts(mac, secret, code, instant) <==>
      exists steps: nat :: -1 <= steps - instant / 30_000_000_000 <= 1 && RfcCode(mac, secret, Trim(code), steps)
  {
    EightBytes();
    assert StepAt(instant) == instant / 30_000_000_000;
    if step :| AcceptedStep(mac, secret, code, instant, step) {
      CodeIsRfcCode(mac, secret, Trim(code), step);
      assert -1 <= step - instant / 30_000_000_000 <= 1 && RfcCode(mac, secret, Trim(code), step);
    }
    if steps: nat :| -1 <= steps - instant / 30_000_000_000 <= 1 && RfcCode(mac, secret, Trim(code), steps) {
      CodeIsRfcCode(mac, secret, Trim(code), steps);
      assert AcceptedStep(mac, secret, code, instant, steps);
    }
  }

  /** A code read at one instant is accepted at every instant of a non-negative clock up to 30 seconds away. */
  lemma CodeAcceptedNearby(mac: Mac, secret: Bytes, made: int, used: int)
    requires mac.Sha1() && made >= 0 && used >= 0
    requires -30 * SECOND <= used - made <= 30 * SECOND
    ensures Accepts(mac, secret, Code(mac, secret, StepAt(made)), used)
  {
    var step := StepAt(made);
    assert StepAt(made) == made / (30 * SECOND) && StepAt(used) == used / (30 * SECOND);
    var code := Code(mac, secret, step);
    assert |code| == 6 && IsDigit(code[0]) && IsDigit(code[5]);
    TrimIsTrimmed(code);
    assert AcceptedStep(mac, secret, code, used, step);
  }

  /** The step an accepted code belongs to starts and ends within 60 seconds of the check. */
  lemma AcceptedCodeIsRecent(mac: Mac, secret: Bytes, code: string, instant: int, step: int, within: int)
    requires instant >= 0 && AcceptedStep(mac, secret, code, instant, step)
    requires step * 30 * SECOND <= within <= (step + 1) * 30 * SECOND
    ensures -60 * SECOND <= within - instant <= 60 * SECOND
  {
  }
}
