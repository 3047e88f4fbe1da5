/**
  The one-time-password engine of pkg/totp/totp.go: HOTP codes (RFC 4226, section 5.3) over
  an eight-byte counter message, the TOTP window scan (RFC 6238, section 4), and the
  generators of two-factor secrets, recovery codes and otpauth:// enrolment URLs.

  HMAC-SHA1 is a parameter `hmac` (key, message) -> 20-byte digest; the clock is a parameter
  `now` (Unix seconds); crypto/rand is a parameter `draw` (the outcome of the i-th one-byte
  read) and rand.Text a parameter `text` (the i-th text drawn); url.QueryEscape is a
  parameter `escape`.
 */
module Totp {
  import opened Wrappers
  import opened Numerals
  import opened Strings
  import opened Base32

  /** An HMAC-SHA1 output: 20 bytes. */
  type Digest = h: seq<byte> | |h| == 20 witness seq(20, _ => 0 as byte)

  type Hmac = (seq<byte>, seq<byte>) -> Digest

  const DefaultTimeStep := 30
  const DefaultDigits := 6

  // ------------------------------------------------------------ HOTP

  /** byte(x >> k): an arithmetic shift right by k bits, then the low eight bits. */
  function ShiftByte(x: int, k: nat): byte {
    (x / Pow2(k)) % 256
  }

  /** The message generateOTPForCounter authenticates. */
  function CounterMessage(counter: int): seq<byte> {
    [0, 0, 0, 0, ShiftByte(counter, 24), ShiftByte(counter, 16), ShiftByte(counter, 8),
     ShiftByte(counter, 0)]
  }

  /** The message is eight bytes: four zero bytes, then the low 32 bits of the counter,
      big-endian. RFC 4226 puts the whole counter there; the two agree below 2^32. */
  lemma CounterMessageLayout(counter: int)
    ensures var msg := CounterMessage(counter);
      |msg| == 8 && msg[..4] == [0, 0, 0, 0] && BigEndian(msg[4..]) == counter % 0x1_0000_0000
  {
    var msg := CounterMessage(counter);
    LowBytes(counter);
    assert msg[4..] == [ShiftByte(counter, 24), ShiftByte(counter, 16),
                        ShiftByte(counter, 8), ShiftByte(counter, 0)];
  }

  lemma LowBytes(x: int)
    ensures BigEndian([ShiftByte(x, 24), ShiftByte(x, 16), ShiftByte(x, 8), ShiftByte(x, 0)])
         == x % 0x1_0000_0000
  {
    assert Pow2(8) == 0x100 && Pow2(16) == 0x1_0000 && Pow2(24) == 0x100_0000;
    var q1 := x / 0x100;
    var q2 := q1 / 0x100;
    var q3 := q2 / 0x100;
    var b1, b2, b3 := q2 % 0x100, q1 % 0x100, x % 0x100;
    DivMod(x, 0x1_0000, q2, b2 * 0x100 + b3);
    DivMod(x, 0x100_0000, q3, b1 * 0x1_0000 + b2 * 0x100 + b3);
    DivMod(x, 0x1_0000_0000, q3 / 0x100, (q3 % 0x100) * 0x100_0000 + b1 * 0x1_0000 + b2 * 0x100 + b3);
    BigEndianOfFour([q3 % 0x100, b1, b2, b3]);
  }

  lemma BigEndianOfFour(s: seq<byte>)
    requires |s| == 4
    ensures BigEndian(s) == s[0] as int * 0x100_0000 + s[1] as int * 0x1_0000 + s[2] as int * 0x100 + s[3] as int
  {
    assert s[..3][..2][..1] == [s[0]];
    assert s[..3][..2] == s[..2] && s[..3][2] == s[2] && s[..2][1] == s[1];
    assert BigEndian(s[..1]) == s[0];
  }

  /** Dynamic truncation: the low nibble of the last byte picks an offset (at most 15, so the
      four bytes read lie inside the digest), and the 31 bits below the top bit of the four
      bytes there, big-endian, are the code. The source combines the masked bytes with `|`;
      their bit ranges are disjoint, so that is the sum written here. */
  function DynamicTruncation(h: Digest): (code: nat)
    ensures code < 0x8000_0000
  {
    var offset := h[19] % 16;
    (h[offset] as int % 128) * 0x100_0000 + h[offset + 1] as int * 0x1_0000
      + h[offset + 2] as int * 0x100 + h[offset + 3] as int
  }

  /** RFC 4226, section 5.3: the code is the four bytes at the offset with the top bit masked. */
  lemma DynamicTruncationMasksTopBit(h: Digest)
    ensures var offset := h[19] % 16;
      DynamicTruncation(h) == BigEndian(h[offset..offset + 4]) % 0x8000_0000
  {
    var offset := h[19] % 16;
    var s := h[offset..offset + 4];
    var top: int := s[0];
    var low: int := s[1] as int * 0x1_0000 + s[2] as int * 0x100 + s[3] as int;
    BigEndianOfFour(s);
    assert top * 0x100_0000 == (top / 128) * 0x8000_0000 + (top % 128) * 0x100_0000;
  }

  /** The modulus generateOTPForCounter computes: ten to the power `digits`, multiplied out in
      Go's 64-bit int, which wraps from 19 digits on. */
  function Modulus(digits: nat): int {
    Wrap64(Pow10(digits))
  }

  /** A modulus of zero makes `code % mod` a run-time panic (from 64 digits on). */
  predicate DigitsSupported(digits: int) {
    digits <= 0 || Modulus(digits) != 0
  }

  /** The default six digits reduce modulo one million. */
  lemma DefaultModulus()
    ensures Modulus(DefaultDigits) == 1_000_000
  {
    assert Pow10(2) == 100;
    assert Pow10(4) == 10_000;
  }

  /** The digits VerifyOTP and GenerateOTP use give a modulus that is not zero. */
  lemma EffectiveDigitsSupported(digits: int)
    requires DigitsSupported(digits)
    ensures Modulus(EffectiveDigits(digits)) != 0
  {
    if digits <= 0 {
      DefaultModulus();
    }
  }

  /** Up to 18 digits, 10^digits fits in 64 bits and the modulus is exact. */
  lemma SmallModulus(digits: nat)
    requires digits <= 18
    ensures Modulus(digits) == Pow10(digits)
  {
    Pow10Monotone(digits, 18);
    assert Pow10(3) == 1_000;
    assert Pow10(6) == 1_000_000;
    assert Pow10(9) == 1_000_000_000;
    assert Pow10(12) == 1_000_000_000_000;
    assert Pow10(15) == 1_000_000_000_000_000;
    assert Pow10(18) == 1_000_000_000_000_000_000;
  }

  /** The HOTP value of a key and a counter, rendered with fmt's "%0<digits>d". */
  function Hotp(key: seq<byte>, counter: int, digits: nat, hmac: Hmac): string
    requires Modulus(digits) != 0
  {
    var code := DynamicTruncation(hmac(key, CounterMessage(counter)));
    ZeroPadded(Rem(code, Modulus(digits)), digits)
  }

  /** Up to 18 digits the code is exactly `digits` decimal digits, and its value is the
      truncated HMAC modulo 10^digits. */
  lemma HotpShape(key: seq<byte>, counter: int, digits: nat, hmac: Hmac)
    requires 1 <= digits <= 18
    ensures Modulus(digits) == Pow10(digits)
    ensures var otp := Hotp(key, counter, digits, hmac);
      |otp| == digits && IsDecimal(otp)
      && ParseDecimal(otp) == DynamicTruncation(hmac(key, CounterMessage(counter))) % Pow10(digits)
  {
    SmallModulus(digits);
    var code := DynamicTruncation(hmac(key, CounterMessage(counter)));
    ZeroPaddedWidth(code % Pow10(digits), digits);
  }

  /** For every digit count with a modulus that is not zero, the code has exactly `digits`
      decimal digits: the truncated value is below 2^31, under 10^10, and its remainder modulo
      the modulus, wrapped or not, is no larger. */
  lemma HotpDigits(key: seq<byte>, counter: int, digits: nat, hmac: Hmac)
    requires 1 <= digits && Modulus(digits) != 0
    ensures var otp := Hotp(key, counter, digits, hmac); |otp| == digits && IsDecimal(otp)
  {
    if digits <= 18 {
      HotpShape(key, counter, digits, hmac);
    } else {
      var code := DynamicTruncation(hmac(key, CounterMessage(counter)));
      var r := Rem(code, Modulus(digits));
      RemNoLarger(code, Modulus(digits));
      TenDigitsBound();
      Pow10Monotone(10, digits);
      ZeroPaddedWidth(r, digits);
    }
  }

  /** Go's remainder of a non-negative value is no larger than the value. */
  lemma RemNoLarger(code: nat, m: int)
    requires m != 0
    ensures 0 <= Rem(code, m) <= code
  {
    var a := Abs(m);
    assert code == a * (code / a) + code % a && code / a >= 0;
  }

  /** A truncated value, below 2^31, is below 10^10. */
  lemma TenDigitsBound()
    ensures 0x8000_0000 < Pow10(10) == 10_000_000_000
  {
    assert Pow10(5) == 100_000;
  }

  /** What generateOTPForCounter returns: None for its base-32 error, else the code. */
  function OtpForCounter(secret: string, counter: int, digits: nat, hmac: Hmac): Option<string>
    requires Modulus(digits) != 0
  {
    match Decode(secret)
    case None => None
    case Some(key) => Some(Hotp(key, counter, digits, hmac))
  }

  /** generateOTPForCounter: decode the secret, authenticate the counter message, truncate,
      reduce and pad. Its callers pass a positive number of digits. */
  method GenerateOtpForCounter(secret: string, counter: int, digits: nat, hmac: Hmac)
    returns (r: Option<string>)
    requires 1 <= digits && Modulus(digits) != 0
    ensures r == OtpForCounter(secret, counter, digits, hmac)
  {
    var key := Base32Decode(secret);
    if key.None? {
      return None;
    }
    var otp := HotpOfKey(key.value, counter, digits, hmac);
    return Some(otp);
  }

  /** The part of generateOTPForCounter after the secret has decoded to `key`. */
  method HotpOfKey(key: seq<byte>, counter: int, digits: nat, hmac: Hmac) returns (otp: string)
    requires 1 <= digits && Modulus(digits) != 0
    ensures otp == Hotp(key, counter, digits, hmac)
  {
    var msg := CounterBytes(counter);
    var hash := hmac(key, msg);
    var offset := hash[|hash| - 1] % 16;
    var code := (hash[offset] as int % 128) * 0x100_0000 + hash[offset + 1] as int * 0x1_0000
      + hash[offset + 2] as int * 0x100 + hash[offset + 3] as int;
    assert code == DynamicTruncation(hash);
    var mod := PowerOfTen(digits);
    code := Rem(code, mod);
    assert code == Rem(DynamicTruncation(hmac(key, CounterMessage(counter))), Modulus(digits));
    otp := ZeroPadded(code, digits);
  }

  /** The eight-byte counter message, filled in byte by byte as generateOTPForCounter does. */
  method CounterBytes(counter: int) returns (msg: seq<byte>)
    ensures msg == CounterMessage(counter)
  {
    var buffer := new byte[8](_ => 0);
    buffer[4] := ShiftByte(counter, 24);
    buffer[5] := ShiftByte(counter, 16);
    buffer[6] := ShiftByte(counter, 8);
    buffer[7] := ShiftByte(counter, 0);
    msg := buffer[..];
  }

  /** The modulus loop of generateOTPForCounter: ten multiplied in `digits` times, in 64 bits. */
  method PowerOfTen(digits: nat) returns (mod: int)
    ensures mod == Modulus(digits)
  {
    mod := 1;
    for i := 0 to digits
      invariant mod == Wrap64(Pow10(i))
    {
      Wrap64Times10(Pow10(i));
      mod := Wrap64(mod * 10);
    }
  }

  // ------------------------------------------------------------ TOTP

  /** The code for the counter `offset` steps away from `current`. */
  function OtpAt(key: seq<byte>, current: int, offset: int, digits: nat, hmac: Hmac): string
    requires Modulus(digits) != 0
  {
    Hotp(key, current + offset, digits, hmac)
  }

  /** Some counter in [current - window, current + window] yields otp. */
  predicate InWindow(key: seq<byte>, otp: string, current: int, window: int, digits: nat, hmac: Hmac)
    requires Modulus(digits) != 0
  {
    exists i :: -window <= i <= window && OtpAt(key, current, i, digits, hmac) == otp
  }

  /** The results generateOTPForCounter yields for the counters around `current`, by offset. */
  function CodesAround(secret: string, current: int, digits: nat, hmac: Hmac): int -> Option<string>
    requires Modulus(digits) != 0
  {
    offset => OtpForCounter(secret, current + offset, digits, hmac)
  }

  /** The scan of VerifyOTP over the results `codes` from offset i up to the window: false at
      the first error, true at the first code equal to otp, false past the window. */
  predicate ScanFrom(codes: int -> Option<string>, otp: string, i: int, window: int)
    decreases window - i
  {
    if i > window then false
    else match codes(i)
      case None => false
      case Some(generated) => generated == otp || ScanFrom(codes, otp, i + 1, window)
  }

  /** Over the codes around `current`, the scan from i accepts exactly when the secret decodes
      and some offset in [i, window] yields otp. */
  lemma {:induction false} ScanFromFinds(secret: string, otp: string, current: int, i: int,
                                         window: int, digits: nat, hmac: Hmac)
    requires Modulus(digits) != 0
    ensures ScanFrom(CodesAround(secret, current, digits, hmac), otp, i, window) <==>
      Decode(secret).Some?
      && (exists j :: i <= j <= window && OtpAt(Decode(secret).value, current, j, digits, hmac) == otp)
    decreases window - i
  {
    if i <= window {
      ScanFromFinds(secret, otp, current, i + 1, window, digits, hmac);
      OtpForCounterAt(secret, current, i, digits, hmac);
      if Decode(secret).Some? {
        var key := Decode(secret).value;
        if exists j :: i <= j <= window && OtpAt(key, current, j, digits, hmac) == otp {
          var j :| i <= j <= window && OtpAt(key, current, j, digits, hmac) == otp;
          if j > i {
            assert i + 1 <= j <= window && OtpAt(key, current, j, digits, hmac) == otp;
          }
        }
      }
    }
  }

  /** The loop of VerifyOTP: offsets from -window up to window, stopping at the first error or
      the first match. */
  method ScanWindow(codes: int -> Option<string>, otp: string, window: int) returns (ok: bool)
    ensures ok == ScanFrom(codes, otp, -window, window)
  {
    var i := -window;
    while i <= window
      invariant -window <= i
      invariant ScanFrom(codes, otp, -window, window) == ScanFrom(codes, otp, i, window)
      decreases window - i
    {
      var generated := codes(i);
      if generated.None? {
        return false;
      }
      if generated.value == otp {
        return true;
      }
      i := i + 1;
    }
    return false;
  }

  function EffectiveStep(timeStep: int): (s: int)
    ensures s > 0
  {
    if timeStep <= 0 then DefaultTimeStep else timeStep
  }

  function EffectiveDigits(digits: int): (d: nat)
    ensures d > 0
  {
    if digits <= 0 then DefaultDigits else digits
  }

  /** The counter of the current time step: now / timeStep, truncated as Go divides. */
  function CurrentCounter(timeStep: int, now: int): int {
    Quot(now, EffectiveStep(timeStep))
  }

  /** What VerifyOTP answers: the secret decodes and some counter of the window yields otp. */
  predicate Verifies(secret: string, otp: string, timeStep: int, window: int, digits: int,
                     now: int, hmac: Hmac)
    requires DigitsSupported(digits)
  {
    EffectiveDigitsSupported(digits);
    match Decode(secret)
    case None => false
    case Some(key) =>
      InWindow(key, otp, CurrentCounter(timeStep, now), window, EffectiveDigits(digits), hmac)
  }

  /** VerifyOTP: scan the counters from current - window up to current + window and accept at
      the first match; a secret that does not decode is rejected. */
  method VerifyOtp(secret: string, otp: string, timeStep: int, window: int, digits: int,
                   now: int, hmac: Hmac)
    returns (ok: bool)
    requires DigitsSupported(digits)
    ensures ok == Verifies(secret, otp, timeStep, window, digits, now, hmac)
  {
    EffectiveDigitsSupported(digits);
    var step := timeStep;
    if step <= 0 {
      step := 30;
    }
    var d := digits;
    if d <= 0 {
      d := 6;
    }
    var currentCounter := Quot(now, step);
    assert currentCounter == CurrentCounter(timeStep, now) && d == EffectiveDigits(digits);
    ok := ScanWindow(CodesAround(secret, currentCounter, d, hmac), otp, window);
    ScanVerifies(secret, otp, timeStep, window, digits, now, hmac);
  }

  /** The answer of VerifyOTP's scan over the whole window. */
  predicate Scan(secret: string, otp: string, timeStep: int, window: int, digits: int,
                 now: int, hmac: Hmac)
    requires DigitsSupported(digits)
  {
    EffectiveDigitsSupported(digits);
    var codes := CodesAround(secret, CurrentCounter(timeStep, now), EffectiveDigits(digits), hmac);
    ScanFrom(codes, otp, -window, window)
  }

  /** The scan answers Verifies: it accepts exactly the codes of the window, for a secret that
      decodes. */
  lemma ScanVerifies(secret: string, otp: string, timeStep: int, window: int, digits: int,
                     now: int, hmac: Hmac)
    requires DigitsSupported(digits)
    ensures Scan(secret, otp, timeStep, window, digits, now, hmac)
      == Verifies(secret, otp, timeStep, window, digits, now, hmac)
  {
    EffectiveDigitsSupported(digits);
    ScanFromFinds(secret, otp, CurrentCounter(timeStep, now), -window, window,
                  EffectiveDigits(digits), hmac);
  }

  /** The code generateOTPForCounter yields `offset` steps away from `current`. */
  lemma OtpForCounterAt(secret: string, current: int, offset: int, digits: nat, hmac: Hmac)
    requires Modulus(digits) != 0
    ensures OtpForCounter(secret, current + offset, digits, hmac).Some? <==> Decode(secret).Some?
    ensures OtpForCounter(secret, current + offset, digits, hmac).Some? ==>
      OtpForCounter(secret, current + offset, digits, hmac).value
        == OtpAt(Decode(secret).value, current, offset, digits, hmac)
  {
  }

  /** What GenerateOTP returns for the current time step. */
  function CurrentOtp(secret: string, timeStep: int, digits: int, now: int, hmac: Hmac): Option<string>
    requires DigitsSupported(digits)
  {
    EffectiveDigitsSupported(digits);
    OtpForCounter(secret, CurrentCounter(timeStep, now), EffectiveDigits(digits), hmac)
  }

  /** GenerateOTP: the code of the current time step. */
  method GenerateOtp(secret: string, timeStep: int, digits: int, now: int, hmac: Hmac)
    returns (r: Option<string>)
    requires DigitsSupported(digits)
    ensures r == CurrentOtp(secret, timeStep, digits, now, hmac)
  {
    EffectiveDigitsSupported(digits);
    var step := timeStep;
    if step <= 0 {
      step := 30;
    }
    var d := digits;
    if d <= 0 {
      d := 6;
    }
    var counter := Quot(now, step);
    r := GenerateOtpForCounter(secret, counter, d, hmac);
  }

  /** With window 0, VerifyOTP accepts exactly the code GenerateOTP yields at the same time. */
  lemma WindowZeroIsCurrentOtp(secret: string, otp: string, timeStep: int, digits: int,
                               now: int, hmac: Hmac)
    requires DigitsSupported(digits)
    ensures Verifies(secret, otp, timeStep, 0, digits, now, hmac)
        <==> CurrentOtp(secret, timeStep, digits, now, hmac) == Some(otp)
  {
    var current := CurrentCounter(timeStep, now);
    var d := EffectiveDigits(digits);
    if Decode(secret).Some? {
      var key := Decode(secret).value;
      if CurrentOtp(secret, timeStep, digits, now, hmac) == Some(otp) {
        assert OtpAt(key, current, 0, d, hmac) == otp;
      }
    }
  }

  /** A wider window accepts everything a narrower one does. */
  lemma WindowMonotone(secret: string, otp: string, timeStep: int, window: int, wider: int,
                       digits: int, now: int, hmac: Hmac)
    requires DigitsSupported(digits) && window <= wider
    requires Verifies(secret, otp, timeStep, window, digits, now, hmac)
    ensures Verifies(secret, otp, timeStep, wider, digits, now, hmac)
  {
    var key := Decode(secret).value;
    var i :| -window <= i <= window
      && OtpAt(key, CurrentCounter(timeStep, now), i, EffectiveDigits(digits), hmac) == otp;
    assert -wider <= i <= wider;
  }

  /** The code generated now is accepted now, with any window that is not negative. */
  lemma GeneratedCodeVerifies(secret: string, timeStep: int, window: int, digits: int,
                              now: int, hmac: Hmac)
    requires DigitsSupported(digits) && window >= 0
    requires CurrentOtp(secret, timeStep, digits, now, hmac).Some?
    ensures Verifies(secret, CurrentOtp(secret, timeStep, digits, now, hmac).value, timeStep,
                     window, digits, now, hmac)
  {
    var otp := CurrentOtp(secret, timeStep, digits, now, hmac).value;
    WindowZeroIsCurrentOtp(secret, otp, timeStep, digits, now, hmac);
    WindowMonotone(secret, otp, timeStep, 0, window, digits, now, hmac);
  }

  /** Fail-closed: a negative window or a secret that does not decode accepts nothing. */
  lemma VerifyFailsClosed(secret: string, otp: string, timeStep: int, window: int,
                          digits: int, now: int, hmac: Hmac)
    requires DigitsSupported(digits) && (window < 0 || Decode(secret).None?)
    ensures !Verifies(secret, otp, timeStep, window, digits, now, hmac)
  {
  }

  /** Only strings of exactly `digits` decimal digits (6 by default) can be accepted. */
  lemma AcceptedCodesAreNumerals(secret: string, otp: string, timeStep: int, window: int,
                                 digits: int, now: int, hmac: Hmac)
    requires DigitsSupported(digits)
    requires Verifies(secret, otp, timeStep, window, digits, now, hmac)
    ensures |otp| == EffectiveDigits(digits) && IsDecimal(otp)
  {
    EffectiveDigitsSupported(digits);
    InWindowNumerals(Decode(secret).value, otp, CurrentCounter(timeStep, now), window,
                     EffectiveDigits(digits), hmac);
  }

  lemma InWindowNumerals(key: seq<byte>, otp: string, current: int, window: int, digits: nat,
                         hmac: Hmac)
    requires 1 <= digits && Modulus(digits) != 0
    requires InWindow(key, otp, current, window, digits, hmac)
    ensures |otp| == digits && IsDecimal(otp)
  {
    var i :| -window <= i <= window && OtpAt(key, current, i, digits, hmac) == otp;
    HotpDigits(key, current + i, digits, hmac);
  }

  /** The empty secret, which a user without two-factor secret has, decodes to the empty key,
      so its codes are accepted like any other. */
  lemma EmptySecretVerifies(timeStep: int, now: int, hmac: Hmac)
    ensures Decode("") == Some([])
    ensures Verifies("", Hotp([], CurrentCounter(timeStep, now), 6, hmac), timeStep, 0, 0, now, hmac)
  {
    assert Upper("") == "";
    var current := CurrentCounter(timeStep, now);
    assert OtpAt([], current, 0, 6, hmac) == Hotp([], current, 6, hmac);
  }

  /** The check the two-factor handlers make: VerifyOTP(secret, code, 0, 0, 0) at `now`, that
      is 30-second steps, no window and six digits. */
  function HandlerCheck(now: int, hmac: Hmac): (string, string) -> bool {
    (secret, code) => Verifies(secret, code, 0, 0, 0, now, hmac)
  }

  /** The handlers accept exactly the code GenerateOTP yields for the same instant. */
  lemma HandlerCheckIsCurrentCode(secret: string, code: string, now: int, hmac: Hmac)
    ensures Modulus(DefaultDigits) == 1_000_000
    ensures HandlerCheck(now, hmac)(secret, code) <==> OtpForCounter(secret, Quot(now, 30), 6, hmac) == Some(code)
  {
    DefaultModulus();
    WindowZeroIsCurrentOtp(secret, code, 0, 0, now, hmac);
  }

  // ------------------------------------------------------------ generators

  /** The secret GenerateTwoFactorSecret builds from its sixteen one-byte reads: the symbol of
      each byte modulo 32, or "" when a read fails. */
  function SecretFromDraws(draw: nat -> Option<byte>): string {
    if forall i :: 0 <= i < 16 ==> draw(i).Some? then
      seq(16, i requires 0 <= i < 16 => Symbol(draw(i).value % 32))
    else ""
  }

  /** GenerateTwoFactorSecret: sixteen symbols, one random byte each. */
  method GenerateTwoFactorSecret(draw: nat -> Option<byte>) returns (secret: string)
    ensures secret == SecretFromDraws(draw)
  {
    var buffer := new char[16];
    for i := 0 to 16
      invariant forall j :: 0 <= j < i ==> draw(j).Some? && buffer[j] == Symbol(draw(j).value % 32)
    {
      var b := draw(i);
      if b.None? {
        return "";
      }
      buffer[i] := Alphabet[b.value % 32];
    }
    secret := buffer[..];
  }

  /** A generated secret is "" or sixteen symbols, which decode to a ten-byte key. */
  lemma GeneratedSecretDecodes(draw: nat -> Option<byte>)
    ensures var s := SecretFromDraws(draw);
      s == [] || (|s| == 16 && IsBase32(s) && Decode(s).Some? && |Decode(s).value| == 10)
  {
    var s := SecretFromDraws(draw);
    if s != [] {
      DecodeOfBase32(s);
    }
  }

  /** What GenerateRecoveryCodes returns: one drawn text per i in 0..count, inclusive. */
  function RecoveryCodes(count: int, text: nat -> string): seq<string> {
    if count < 0 then [] else seq(count + 1, i requires 0 <= i => text(i))
  }

  /** GenerateRecoveryCodes: append rand.Text() for i from 0 to count inclusive. */
  method GenerateRecoveryCodes(count: int, text: nat -> string) returns (codes: seq<string>)
    ensures codes == RecoveryCodes(count, text)
  {
    codes := [];
    var i := 0;
    while i <= count
      invariant 0 <= i <= if count < 0 then 0 else count + 1
      invariant |codes| == i && forall k :: 0 <= k < i ==> codes[k] == text(k)
      decreases count - i
    {
      codes := codes + [text(i)];
      i := i + 1;
    }
    assert forall k :: 0 <= k < i ==> RecoveryCodes(count, text)[k] == text(k);
  }

  /** A request for `count` codes yields count + 1 of them, and none for a negative count. */
  lemma RecoveryCodesCount(count: int, text: nat -> string)
    ensures |RecoveryCodes(count, text)| == if count < 0 then 0 else count + 1
    ensures forall i :: 0 <= i < |RecoveryCodes(count, text)| ==> RecoveryCodes(count, text)[i] == text(i)
  {
  }

  /** BuildUrl: an otpauth://totp/ URL labelled with the escaped "issuer:email", whose query is
      url.Values.Encode of the five parameters: "key=value" fields, keys in sorted order
      (QueryEscape leaves these lower-case keys as they are) and values escaped, joined with
      '&'. */
  function BuildUrl(secret: string, email: string, issuer: string, escape: string -> string): string {
    var accountName := escape(issuer + ":" + email);
    var query := Join([Param("algorithm", escape("SHA1")), Param("digits", escape("6")),
                       Param("issuer", escape(issuer)), Param("period", escape("30")),
                       Param("secret", escape(secret))], '&');
    "otpauth://totp/" + accountName + "?" + query
  }

  /** One "key=value" field of an encoded query. */
  function Param(key: string, value: string): string {
    key + "=" + value
  }

  /** Free of the characters that separate the parts of a URL, as url.QueryEscape's output is:
      it escapes '&', '=', '?' and '#'. */
  predicate QuerySafe(s: string) {
    '&' !in s && '=' !in s && '?' !in s && '#' !in s
  }

  /** The path of a URL as a URL parser reads it: before the fragment and before the query. */
  function UrlPath(u: string): string {
    Before(Before(u, '#'), '?')
  }

  /** The query of a URL as a URL parser reads it: the text between the first '?' and the
      fragment, cut at each '&' into fields, each field a key and, after its first '=', a
      value (left escaped). */
  function QueryParams(u: string): seq<(string, string)> {
    var fields := Fields(After(Before(u, '#'), '?'), '&');
    seq(|fields|, i requires 0 <= i < |fields| => (Before(fields[i], '='), After(fields[i], '=')))
  }

  /** a comes strictly before b in byte-wise lexicographic order, the order sort.Strings uses. */
  predicate LexLess(a: string, b: string)
    decreases |a|
  {
    b != [] && (a == [] || a[0] < b[0] || (a[0] == b[0] && LexLess(a[1..], b[1..])))
  }

  /** The keys of a query, in order, are strictly increasing. */
  predicate KeysSorted(params: seq<(string, string)>) {
    forall i :: 0 <= i < |params| - 1 ==> LexLess(params[i].0, params[i + 1].0)
  }

  /** Read back, the URL has the path "otpauth://totp/" plus the escaped "issuer:email", and
      exactly the five query parameters algorithm=SHA1, digits=6, issuer, period=30 and the
      secret, with their values escaped and their keys sorted. */
  lemma UrlReadsBack(secret: string, email: string, issuer: string, escape: string -> string)
    requires forall t :: QuerySafe(escape(t))
    ensures var u := BuildUrl(secret, email, issuer, escape);
      && UrlPath(u) == "otpauth://totp/" + escape(issuer + ":" + email)
      && QueryParams(u) == [("algorithm", escape("SHA1")), ("digits", escape("6")),
                            ("issuer", escape(issuer)), ("period", escape("30")),
                            ("secret", escape(secret))]
      && KeysSorted(QueryParams(u))
  {
    var e1, e2, e3, e4, e5 := escape("SHA1"), escape("6"), escape(issuer), escape("30"), escape(secret);
    var path := "otpauth://totp/" + escape(issuer + ":" + email);
    assert QuerySafe(e1) && QuerySafe(e2) && QuerySafe(e3) && QuerySafe(e4) && QuerySafe(e5);
    assert QuerySafe(escape(issuer + ":" + email));
    var fields := [Param("algorithm", e1), Param("digits", e2), Param("issuer", e3),
                   Param("period", e4), Param("secret", e5)];
    var u := BuildUrl(secret, email, issuer, escape);
    ReadBack(u, path, fields);
    ReadFive(QueryParams(u), e1, e2, e3, e4, e5);
    SortedKeys(e1, e2, e3, e4, e5);
  }

  /** The five parameters of BuildUrl, read back as written. */
  lemma ReadFive(params: seq<(string, string)>, e1: string, e2: string, e3: string, e4: string,
                 e5: string)
    requires var fields := [Param("algorithm", e1), Param("digits", e2), Param("issuer", e3),
                            Param("period", e4), Param("secret", e5)];
      && |params| == |fields|
      && forall i :: 0 <= i < |fields| ==> params[i] == (Before(fields[i], '='), After(fields[i], '='))
    ensures params == [("algorithm", e1), ("digits", e2), ("issuer", e3), ("period", e4),
                       ("secret", e5)]
  {
    var fields := [Param("algorithm", e1), Param("digits", e2), Param("issuer", e3),
                   Param("period", e4), Param("secret", e5)];
    assert fields[0] == Param("algorithm", e1) && fields[1] == Param("digits", e2);
    assert fields[2] == Param("issuer", e3) && fields[3] == Param("period", e4);
    assert fields[4] == Param("secret", e5);
    ReadParam(params[0], "algorithm", e1);
    ReadParam(params[1], "digits", e2);
    ReadParam(params[2], "issuer", e3);
    ReadParam(params[3], "period", e4);
    ReadParam(params[4], "secret", e5);
    ListOfFive(params);
  }

  lemma ListOfFive<T>(s: seq<T>)
    requires |s| == 5
    ensures s == [s[0], s[1], s[2], s[3], s[4]]
  {
  }

  /** A URL made of a path, a '?' and '&'-joined fields, with no separator where it does not
      belong, reads back as that path and those fields. */
  lemma ReadBack(u: string, path: string, fields: seq<string>)
    requires |fields| >= 1 && u == path + "?" + Join(fields, '&')
    requires '?' !in path && '#' !in path
    requires forall i :: 0 <= i < |fields| ==> '&' !in fields[i] && '#' !in fields[i]
    ensures UrlPath(u) == path && |QueryParams(u)| == |fields|
    ensures forall i :: 0 <= i < |fields| ==>
      QueryParams(u)[i] == (Before(fields[i], '='), After(fields[i], '='))
  {
    var query := Join(fields, '&');
    JoinAvoids(fields, '&', '#');
    Uncut(u, '#');
    CutAtFirst(path, '?', query);
    SplitJoin(fields, '&');
  }

  lemma SortedKeys(e1: string, e2: string, e3: string, e4: string, e5: string)
    ensures KeysSorted([("algorithm", e1), ("digits", e2), ("issuer", e3), ("period", e4), ("secret", e5)])
  {
  }

  lemma ReadParam(p: (string, string), key: string, value: string)
    requires '=' !in key && p == (Before(Param(key, value), '='), After(Param(key, value), '='))
    ensures p == (key, value)
  {
    CutAtFirst(key, '=', value);
  }

  /** For one email and issuer, the URL determines the escaped secret: different escaped
      secrets give different URLs. */
  lemma UrlDeterminesSecret(secret: string, other: string, email: string, issuer: string,
                            escape: string -> string)
    requires BuildUrl(secret, email, issuer, escape) == BuildUrl(other, email, issuer, escape)
    ensures escape(secret) == escape(other)
  {
    var head := "otpauth://totp/" + escape(issuer + ":" + email) + "?";
    var fields := [Param("algorithm", escape("SHA1")), Param("digits", escape("6")),
                   Param("issuer", escape(issuer)), Param("period", escape("30"))];
    var x, y := Param("secret", escape(secret)), Param("secret", escape(other));
    assert fields + [x] == [Param("algorithm", escape("SHA1")), Param("digits", escape("6")),
                            Param("issuer", escape(issuer)), Param("period", escape("30")), x];
    assert fields + [y] == [Param("algorithm", escape("SHA1")), Param("digits", escape("6")),
                            Param("issuer", escape(issuer)), Param("period", escape("30")), y];
    var jx, jy := Join(fields + [x], '&'), Join(fields + [y], '&');
    assert jx == (head + jx)[|head|..];
    assert jy == (head + jy)[|head|..];
    JoinLast(fields, x, y, '&');
    assert escape(secret) == x[7..] && escape(other) == y[7..];
  }
}
