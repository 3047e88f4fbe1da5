# Identity service: one-time passwords, the two-factor state machine and login gating

A Dafny model of the core of the GoAuction identity service (Go). It covers:

- **The one-time-password engine** of `pkg/totp/totp.go`:
  - base-32 decoding of secrets;
  - HOTP per RFC 4226: the counter message, dynamic truncation, reduction modulo 10^digits and zero padding;
  - the TOTP window scan of `VerifyOTP` per RFC 6238;
  - secret and recovery-code generation, and the otpauth URL.
- **The users table** behind `infra/postgres/repository.go`. It is a class, `Postgres.UserStore`, whose map of rows the repository methods update in place. Each `UPDATE ... SET` clause is a `Change` that sets exactly its columns.
- **The handlers** of `app/identity`. The ones that write (enable, verify, disable, register) are methods over the store, each proved equal to a specification function of the old rows. The read-only ones (login, two-factor challenge, recovery codes) are functions.
- **Token claims and the acceptance rule** of `pkg/jwt/jwt.go`, the bearer-header middleware, and the error values of `pkg/httperror`.

Foreign primitives are parameters, gathered in `Platform.Env`:

- HMAC-SHA1, SHA-256 in hex, URL escaping, JSON (un)marshalling, JWT signing and parsing;
- the random byte reads and `rand.Text` draws (as `draw` and `text` functions);
- the clock (as `now`);
- the token id (as `jti`).

A store failure is injected per statement through a set of `Query` values. A faulted statement changes nothing and reports a connection error.

The central results are in `TwoFactorFlows`:

- a fresh registration logs straight in;
- after enable and verify, the same login is challenged;
- enabling without verifying leaves the second factor bypassed;
- a challenged login completes with the current code;
- recovery codes survive a disable.

## Model

| member | source | states |
|---|---|---|
| Base32.Decode | pkg/totp/totp.go:90-121 | computes base32Decode's result: none when some character of the upper-cased text is outside the alphabet, otherwise the bit string of the symbols packed eight bits to a byte |
| Base32.Base32Decode | pkg/totp/totp.go:90-121 | base32Decode's two loops compute `Decode`: none for a character outside the alphabet after upper-casing, otherwise the packed bit buffer |
| Base32.FillBitBuffer | pkg/totp/totp.go:94-106 | the first loop yields five binary digits per symbol (the symbol's index, zero-padded), or the error on the first non-symbol |
| Base32.ConsumeBitBuffer | pkg/totp/totp.go:108-118 | the second loop cuts one byte per leading eight bits and drops the remaining fewer than eight |
| Base32.SymbolBits | pkg/totp/totp.go:100-104 | FormatInt(idx, 2) left-padded with '0' is the 5-digit binary numeral of idx |
| Base32.AlphabetIndex | pkg/totp/totp.go:96 | IndexRune over the alphabet gives the symbol's value, -1 outside it |
| Base32.AlphabetIsRfc4648 | pkg/totp/totp.go:91 | the alphabet is A-Z then 2-7, as in section 6 of RFC 4648 |
| Base32.Symbol | pkg/totp/totp.go:91 | the symbol for each 5-bit value has that value |
| Base32.Upper | pkg/totp/totp.go:92 | ToUpper works rune by rune and keeps the length |
| Base32.DecodeFailsIff | pkg/totp/totp.go:95-99 | decoding fails exactly when some upper-cased character is not a symbol, '=' included |
| Base32.DecodeLength | pkg/totp/totp.go:100-120 | n symbols decode to floor(5n/8) bytes |
| Base32.DecodeLowerCase | pkg/totp/totp.go:92 | lower-case text decodes as its upper-case form |
| Base32.DecodeByte | pkg/totp/totp.go:108-118 | byte j of the key is bits 8j..8j+7 of the symbols' big-endian bit stream |
| Base32.PrefixBitsSymbol | pkg/totp/totp.go:95-106 | symbol i fills bits 5i..5i+4 of the buffer, most significant first |
| Base32.PackByte | pkg/totp/totp.go:109-117 | byte j of the packed stream is ParseInt of bits 8j..8j+7 |
| Base32.DecodeEncode | pkg/totp/totp.go:90-121 | decoding inverts unpadded base-32 encoding of every byte string |
| Base32.BitStringSymbols | pkg/totp/totp.go:95-106 | the bit buffer of the symbols of a bit string is that bit string |
| Base32.PackByteBits | pkg/totp/totp.go:108-118 | packing the bits of bytes followed by fewer than eight extra bits gives the bytes back |
| Numerals.Binary | pkg/totp/totp.go:100-104 | the w-digit binary numeral of v has length w and reads back as v |
| Numerals.FormatBinary | pkg/totp/totp.go:100 | FormatInt(n, 2) is a binary numeral of at least one digit that reads back as n |
| Numerals.FormatBinaryWidth | pkg/totp/totp.go:100-104 | a value below 2^w needs at most w binary digits, so padding to five never cuts |
| Numerals.BinaryOfParse | pkg/totp/totp.go:113 | a w-digit binary string is the w-digit numeral of its own value |
| Numerals.FormatDecimalValue | pkg/totp/totp.go:86-87 | Itoa gives decimal digits that read back as n |
| Numerals.ZeroPaddedValue | pkg/totp/totp.go:86-87 | "%0<w>d" reads back as n and has w characters unless n needs more |
| Numerals.ZeroPaddedWidth | pkg/totp/totp.go:86-87 | below 10^w the padded numeral has exactly w digits |
| Numerals.Quot | pkg/totp/totp.go:24 | Go's truncating division agrees with Euclidean division on non-negative operands |
| Numerals.Wrap64 | pkg/totp/totp.go:80-83 | int64 wrap-around lands in [-2^63, 2^63) and is the identity there |
| Numerals.Wrap64Times10 | pkg/totp/totp.go:81-83 | multiplying by ten step by step in 64 bits wraps like the exact product |
| Totp.CounterMessageLayout | pkg/totp/totp.go:59-67 | the HOTP message is 8 bytes: four zero bytes, then the low 32 bits of the counter, big-endian |
| Totp.CounterBytes | pkg/totp/totp.go:59-67 | the byte-by-byte fill builds that message |
| Totp.DynamicTruncation | pkg/totp/totp.go:73-78 | the truncated value is below 2^31 |
| Totp.DynamicTruncationMasksTopBit | pkg/totp/totp.go:73-78 | the value is the four bytes at offset `last & 0x0F` (at most 15, so inside the 20-byte hash) with the top bit cleared |
| Totp.PowerOfTen | pkg/totp/totp.go:80-83 | the modulus loop yields ten to the digits, wrapped in 64 bits |
| Totp.DefaultModulus | pkg/totp/totp.go:80-84 | six digits reduce modulo one million |
| Totp.SmallModulus | pkg/totp/totp.go:80-83 | up to 18 digits the modulus is exactly 10^digits |
| Totp.EffectiveDigitsSupported | pkg/totp/totp.go:19-21 | the digits VerifyOTP and GenerateOTP use give a non-zero modulus |
| Totp.Hotp | pkg/totp/totp.go:59-87 | computes generateOTPForCounter's code for a key: HMAC of the counter message, dynamic truncation, Go's remainder by the 64-bit modulus, "%0<digits>d" |
| Totp.HotpShape | pkg/totp/totp.go:84-87 | for 1..18 digits the code has exactly that many decimal digits and its value is the truncation modulo 10^digits |
| Totp.HotpDigits | pkg/totp/totp.go:80-87 | for every digit count whose 64-bit modulus is not zero, the code has exactly `digits` decimal digits, because the truncated value is below 2^31 < 10^10 and Go's remainder of it is never larger |
| Totp.HotpOfKey | pkg/totp/totp.go:59-87 | the steps after decoding compute the HOTP code of the key and counter |
| Totp.GenerateOtpForCounter | pkg/totp/totp.go:53-88 | generateOTPForCounter yields none for an undecodable secret, else the HOTP code |
| Totp.ScanWindow | pkg/totp/totp.go:26-37 | the loop tries offsets -window..window in increasing order and stops at the first error or match |
| Totp.ScanFromFinds | pkg/totp/totp.go:26-37 | the scan accepts exactly when the secret decodes and some counter in the window yields the code |
| Totp.Verifies | pkg/totp/totp.go:15-38 | computes VerifyOTP's answer: false for a secret that does not decode, otherwise whether some counter current+i with -window <= i <= window yields the code, with the defaulted step and digits |
| Totp.ScanVerifies | pkg/totp/totp.go:26-37 | the scan's answer is `Verifies` |
| Totp.VerifyOtp | pkg/totp/totp.go:15-38 | VerifyOTP defaults the step to 30 and digits to 6, then answers `Verifies` |
| Totp.EffectiveStep | pkg/totp/totp.go:16-18 | the step used is always positive |
| Totp.EffectiveDigits | pkg/totp/totp.go:19-21 | the digits used are always positive |
| Totp.OtpForCounterAt | pkg/totp/totp.go:53-57 | a code exists exactly when the secret decodes, and it is the HOTP code of the key |
| Totp.GenerateOtp | pkg/totp/totp.go:40-51 | GenerateOTP yields the code of the current step |
| Totp.WindowZeroIsCurrentOtp | pkg/totp/totp.go:15-51 | with window 0, VerifyOTP accepts exactly the code GenerateOTP yields at the same instant |
| Totp.WindowMonotone | pkg/totp/totp.go:26 | a wider window accepts everything a narrower one accepts |
| Totp.GeneratedCodeVerifies | pkg/totp/totp.go:15-51 | the code generated now is accepted now under any non-negative window |
| Totp.VerifyFailsClosed | pkg/totp/totp.go:26-31 | a negative window or an undecodable secret accepts nothing |
| Totp.AcceptedCodesAreNumerals | pkg/totp/totp.go:80-87 | for every supported digit count, only strings of exactly `digits` (by default 6) decimal digits can be accepted |
| Totp.EmptySecretVerifies | pkg/totp/totp.go:90-121 | the empty secret decodes to the empty key, whose current code is accepted |
| Totp.HandlerCheckIsCurrentCode | pkg/totp/totp.go:15-51 | the handlers' check VerifyOTP(secret, code, 0, 0, 0) accepts exactly the 6-digit code of counter now/30, modulo one million |
| Totp.GenerateTwoFactorSecret | pkg/totp/totp.go:123-138 | sixteen symbols, the i-th from read i mod 32, or "" when a read fails |
| Totp.GeneratedSecretDecodes | pkg/totp/totp.go:123-138 | a generated secret is "" or sixteen alphabet symbols, which decode to a ten-byte key |
| Totp.GenerateRecoveryCodes | pkg/totp/totp.go:153-160 | the loop appends one drawn text per i in 0..count inclusive |
| Totp.RecoveryCodesCount | pkg/totp/totp.go:156 | `count` requested gives count+1 codes, none for a negative count, the i-th being draw i |
| Totp.BuildUrl | pkg/totp/totp.go:140-151 | computes "otpauth://totp/", the escaped "issuer:email", '?', then the five "key=value" fields in sorted key order with escaped values, joined with '&' as url.Values.Encode writes them |
| Totp.UrlReadsBack | pkg/totp/totp.go:140-151 | read back by an independent URL reader (cut at '#' and '?', split at '&', each field cut at '='), the URL has path otpauth://totp/ plus the escaped label and exactly the parameters algorithm=SHA1, digits=6, issuer, period=30 and secret, keys sorted, whenever escaping leaves no '&', '=', '?' or '#' |
| Totp.UrlDeterminesSecret | pkg/totp/totp.go:140-151 | for one email and issuer, equal URLs carry equal escaped secrets |
| Strings.IndexRune | pkg/totp/totp.go:96 | the first index of c, or -1 exactly when c is absent |
| Strings.TrimSpace | app/identity/login_handler.go:34-35 | the result has no white space at either end and is empty exactly when the input is all white space |
| Strings.TrimSpaceIsInfix | app/identity/register_handler.go:38-40 | trimming removes white space from the two ends and nothing else |
| Strings.TrimSpaceOfPadded | internal/middleware/bearer_auth.go:17 | trimming white space around an already trimmed string gives it back |
| Strings.TrimSpaceIdempotent | app/identity/two_factor_challenge_handler.go:31-32 | trimming twice is trimming once |
| Strings.SplitFirstSpace | internal/middleware/bearer_auth.go:22 | SplitN(s, " ", 2): one or two parts; one part, s itself, exactly when s has no space; otherwise a first part without a space, then the rest |
| HttpError.New | pkg/httperror/error.go:19-38 | status 0 becomes 500, an empty code "internal_server_error", an empty message the status text; everything else is kept |
| HttpError.StatusText | pkg/httperror/error.go:28-30 | the standard text is non-empty exactly for the statuses the constructors use |
| HttpError.NewIdempotent | pkg/httperror/error.go:19-38 | New applied to its own result changes nothing |
| HttpError.MessageNeverEmpty | pkg/httperror/error.go:28-30 | with a status the service uses, the message is never empty |
| HttpError.NamedConstructors | pkg/httperror/error.go:40-70 | each named constructor fixes its status (400, 401, 409, 404, 500, 422, 204, 202) and keeps code and message |
| HttpError.Text | pkg/httperror/error.go:15-17 | Error() is the code, ": ", then the message |
| Jwt.Payload | pkg/jwt/jwt.go:34-48 | computes the claims of a token issued for the user at `now` with token id `jti` |
| Jwt.CreateToken | pkg/jwt/jwt.go:21-32 | computes the signing of `Payload` with the configured secret, passing on the signer's error |
| Jwt.Decode | pkg/jwt/jwt.go:50-70 | computes Decode's result: the parsed claims when the HMAC-signed token is valid and has a subject, otherwise empty claims with the library's error |
| Jwt.PayloadClaims | pkg/jwt/jwt.go:34-48 | issuer "Identity", subject the user id, audience ["api"], name and email copied, not-before = issued-at = now, expiry 5 h later, distinct token ids give distinct claims |
| Jwt.DecodeAcceptance | pkg/jwt/jwt.go:50-70 | Decode returns the parsed claims exactly when the token parsed, is valid, has the claims type and a subject; otherwise empty claims with the library's error |
| Jwt.DecodeRejectsNonHmac | pkg/jwt/jwt.go:53-58 | a non-HMAC signing method is refused with an error |
| Jwt.DecodeWithoutSubject | pkg/jwt/jwt.go:64-66 | a valid token without a subject yields empty claims and a nil error |
| Jwt.CreatedTokenDecodes | pkg/jwt/jwt.go:21-70 | a created token that the library reads back decodes to its own payload |
| BearerAuth.BearerToken | internal/middleware/bearer_auth.go:17-27 | computes the token of a header: trimmed, cut at its first space, a scheme equal to "Bearer" up to case and a non-blank trimmed rest |
| BearerAuth.Authenticate | internal/middleware/bearer_auth.go:16-55 | computes the middleware's decision: the 401 answer for a missing token, a parse error, an invalid token or one without claims or subject; otherwise subject, email and token |
| BearerAuth.RejectionsAreUniform | internal/middleware/bearer_auth.go:58-69 | every refusal is the same 401 "identity.auth.unauthorized" answer |
| BearerAuth.AuthenticateAgreesWithDecode | internal/middleware/bearer_auth.go:16-55 | a request passes exactly when the header yields a token that Decode accepts with a subject; the context carries subject, email and token |
| BearerAuth.BearerTokenOfPadded | internal/middleware/bearer_auth.go:17-27 | any case of "Bearer", a space, optional spaces and a token, with white space around, yields the token |
| BearerAuth.BearerTokenSound | internal/middleware/bearer_auth.go:17-27 | a token is found only after a "Bearer" in any case and a space, and is the trimmed, non-empty rest |
| BearerAuth.SchemeHasNoSpace | internal/middleware/bearer_auth.go:22-25 | a scheme equal to "Bearer" up to case holds no space |
| BearerAuth.SplitAtWord | internal/middleware/bearer_auth.go:22 | a word without spaces, a space and a rest split into exactly that word and that rest |
| Domain.ValidatePassword | domain/user.go:23-26 | computes whether the hex SHA-256 of the candidate equals the stored password |
| Postgres.LookupEmailFinds | infra/postgres/repository.go:35-42 | with unique emails, FindByEmail finds the one row with that email, and reports no row exactly for an unused email |
| Postgres.ReadsAgree | infra/postgres/repository.go:26-42 | reads by id and by email agree, and NULL secret or codes read as "" |
| Postgres.ChangeFrames | infra/postgres/repository.go:65-163 | each SET clause sets exactly its columns: enable keeps verified and the codes; disable clears the secret and both flags and keeps the codes; mark-verified ignores enabled; set-codes touches nothing else |
| Postgres.Written | infra/postgres/repository.go:65-163 | computes a two-factor UPDATE's result and rows: a connection error on a fault, the change applied to the row with the id, ErrNoRows for a missing id |
| Postgres.WrittenFrames | infra/postgres/repository.go:65-163 | an update changes only the row with the id, keeps the ids, and fails with no row exactly for a missing id |
| Postgres.DisableIdempotent | infra/postgres/repository.go:90-114 | disabling twice is disabling once |
| Postgres.WrittenKeepsEmailsUnique | infra/postgres/repository.go:65-163 | the two-factor updates keep emails unique |
| Postgres.Inserted | infra/postgres/repository.go:48-55 | computes Create's result and rows: a connection error on a fault, 23505 on a taken id or email, otherwise the new row under the id |
| Postgres.InsertedRow | infra/postgres/repository.go:48-55 | Create adds one row under a fresh id with two-factor off, fails with 23505 exactly on a duplicate, and keeps emails unique |
| Postgres.Updated | infra/postgres/repository.go:57-63 | computes Update's result and rows: a connection error on a fault, no error and no change for a missing id, 23505 for an email another row has, otherwise email and name set |
| Postgres.UpdatedRow | infra/postgres/repository.go:57-63 | Update sets only email and name, and is not an error for a missing id |
| Postgres.UserStore.FindByID | infra/postgres/repository.go:26-33 | returns the user of the row with the id, or no row |
| Postgres.UserStore.FindByEmail | infra/postgres/repository.go:35-42 | returns the user of a row with the email, or no row |
| Postgres.UserStore.Create | infra/postgres/repository.go:48-55 | the rows become those of `Inserted`; emails stay unique |
| Postgres.UserStore.Update | infra/postgres/repository.go:57-63 | the rows become those of `Updated`; emails stay unique |
| Postgres.UserStore.EnableTwoFactor | infra/postgres/repository.go:65-88 | the row gets enabled = true and the secret |
| Postgres.UserStore.DisableTwoFactor | infra/postgres/repository.go:90-114 | the row gets enabled = false, no secret, verified = false |
| Postgres.UserStore.MarkTwoFactorVerified | infra/postgres/repository.go:116-138 | the row gets verified = true |
| Postgres.UserStore.SetRecoveryCodes | infra/postgres/repository.go:140-163 | the row gets the codes |
| EnableTwoFactorHandler.Enabled | app/identity/enable_two_factor_handler.go:26-60 | computes the enable answer and rows: 404 for a failed lookup; otherwise the stored secret if enabled, else a fresh one, written with enabled = true; 500 if the write fails, else the URL |
| EnableTwoFactorHandler.Handle | app/identity/enable_two_factor_handler.go:26-60 | answer and new rows are `Enabled` of the old rows |
| EnableTwoFactorHandler.EnableFailures | app/identity/enable_two_factor_handler.go:30-53 | a failed lookup is 404 "invalid_user_id"; a store failure is 500; failures write nothing |
| EnableTwoFactorHandler.EnablePersistsSecret | app/identity/enable_two_factor_handler.go:39-59 | the stored secret is reused when enabled; verified and codes are kept; the URL is built from the persisted secret, the email and "Auction Identity" |
| EnableTwoFactorHandler.EnableTwice | app/identity/enable_two_factor_handler.go:39-46 | a second enable yields the same URL and rows, whatever it draws |
| VerifyTwoFactorHandler.Verified | app/identity/verify_two_factor_handler.go:29-64 | computes the verify answer and rows: 404 for a failed lookup, 400 when the trimmed code fails the check, else mark verified, draw count+1 codes and store their JSON, 500 after either failed write |
| VerifyTwoFactorHandler.Handle | app/identity/verify_two_factor_handler.go:29-64 | answer and new rows are `Verified` of the old rows, with VerifyOTP(secret, code, 0, 0, 0) as the check |
| VerifyTwoFactorHandler.RejectionsWriteNothing | app/identity/verify_two_factor_handler.go:35-43 | a 404 or a 400 writes nothing |
| VerifyTwoFactorHandler.WrongCodeRefused | app/identity/verify_two_factor_handler.go:30-43 | the trimmed code failing the check is 400 "invalid_code", with no write |
| VerifyTwoFactorHandler.SuccessStoresElevenCodes | app/identity/verify_two_factor_handler.go:45-63 | success answers 11 codes, stores their JSON, marks verified, and changes nothing else |
| VerifyTwoFactorHandler.PartialFailure | app/identity/verify_two_factor_handler.go:45-59 | a failure storing the codes leaves the user verified with the old codes, and answers 500 |
| VerifyTwoFactorHandler.AcceptedCodeSucceeds | app/identity/verify_two_factor_handler.go:40-63 | without store faults, a code the check accepts succeeds |
| VerifyTwoFactorHandler.VerifiesWithoutEnabling | app/identity/verify_two_factor_handler.go:40 | a user who never enabled two-factor is verified by the current code of the empty secret, and stays not enabled |
| VerifyTwoFactorHandler.DecimalIsTrimmed | app/identity/verify_two_factor_handler.go:30 | a numeric code is unchanged by trimming |
| DisableTwoFactorHandler.Disabled | app/identity/disable_two_factor_handler.go:24-47 | computes the disable answer and rows: 404 for a failed lookup, else the disable write, 500 if it fails, 204 otherwise |
| DisableTwoFactorHandler.Handle | app/identity/disable_two_factor_handler.go:24-47 | answer and new rows are `Disabled` of the old rows |
| DisableTwoFactorHandler.DisableOutcome | app/identity/disable_two_factor_handler.go:28-46 | 404 exactly for a failed lookup, 500 exactly for a store failure, otherwise 204 with the secret and both flags cleared and the codes kept |
| DisableTwoFactorHandler.DisableTwice | app/identity/disable_two_factor_handler.go:37 | a second disable answers 204 and changes nothing |
| GetRecoveryCodesHandler.GetRecoveryCodes | app/identity/get_recovery_codes_handler.go:26-54 | computes the answer: 404 for a failed lookup, otherwise the JSON decoding of the stored codes ("[]" when none), 500 when it fails |
| GetRecoveryCodesHandler.RecoveryCodesOutcome | app/identity/get_recovery_codes_handler.go:26-54 | 404 exactly for a failed lookup; NULL or "" codes decode "[]"; stored codes are decoded, malformed ones give 500 |
| GetRecoveryCodesHandler.ReadsOnlyTheCodes | app/identity/get_recovery_codes_handler.go:30-48 | the answer depends only on the user's stored codes |
| LoginHandler.Login | app/identity/login_handler.go:33-103 | computes the login answer: the credential stage on the trimmed email and password, then the token stage for the signed-in user |
| LoginHandler.BlankFieldsRefused | app/identity/login_handler.go:34-43 | 400 "invalid_payload" exactly when the trimmed email or password is empty |
| LoginHandler.SignedInErrors | app/identity/login_handler.go:34-68 | the credential stage fails only with 400, 401 or 500 |
| LoginHandler.IssuedErrors | app/identity/login_handler.go:70-101 | the token stage fails only with 202 or 500 |
| LoginHandler.SignedInRefusals | app/identity/login_handler.go:45-68 | a failed lookup is 500; an unknown email and a wrong password are the same 401 |
| LoginHandler.SignedInUser | app/identity/login_handler.go:45-68 | a signed-in user is the user of a row with that email whose password hash matches |
| LoginHandler.SameAnswerForUnknownEmailAndWrongPassword | app/identity/login_handler.go:45-68 | unknown email and wrong password get the same 401, and 401 means nothing else; lookup failure is 500 "lookup_failed" |
| LoginHandler.SecondFactorGate | app/identity/login_handler.go:70-103 | with the right password: enabled and verified gives 202 with the token and expires_at now+1h (the token's own expiry is now+5h); otherwise the token itself |
| LoginHandler.TokenOnlyForRightPassword | app/identity/login_handler.go:62-103 | a token answered directly was signed for the row with that email and password, one without both two-factor flags |
| TwoFactorChallengeHandler.Challenge | app/identity/two_factor_challenge_handler.go:30-56 | computes the challenge answer: 500 for a decode error, 404 for a failed lookup of the subject, 400 when the trimmed code fails the check, otherwise a new token for the user, 500 if signing fails |
| TwoFactorChallengeHandler.DecodeErrorIsServerError | app/identity/two_factor_challenge_handler.go:34-37 | a decode error is answered 500, not 401 |
| TwoFactorChallengeHandler.ChallengeSuccess | app/identity/two_factor_challenge_handler.go:30-56 | a token answered is signed for the user the token's subject names, after the check accepted the trimmed code |
| TwoFactorChallengeHandler.ChallengeAccepts | app/identity/two_factor_challenge_handler.go:39-55 | a decoded subject of a stored user, an accepted code and a successful signing give the token |
| TwoFactorChallengeHandler.SubjectlessToken | app/identity/two_factor_challenge_handler.go:34-46 | a token without a subject passes decoding and leads to a lookup of id "" |
| TwoFactorChallengeHandler.FlagsIgnored | app/identity/two_factor_challenge_handler.go:30-56 | the enabled and verified flags never change the answer |
| TwoFactorChallengeHandler.CurrentCodeOpens | app/identity/two_factor_challenge_handler.go:44-55 | with the real check, the user's current code opens the challenge |
| RegisterHandler.Registered | app/identity/register_handler.go:37-74 | computes the register answer and rows: the first blank trimmed field's 400, else the insert of the trimmed fields with the hashed password; 409 on a unique violation, 500 on another failure, else id, name and email |
| RegisterHandler.Handle | app/identity/register_handler.go:37-74 | answer and new rows are `Registered` of the old rows |
| RegisterHandler.TrimRequest | app/identity/register_handler.go:38-40 | the trimmed fields have no white space at either end |
| RegisterHandler.ValidationOrder | app/identity/register_handler.go:45-55 | each blank field has its own 400 error, the first in the order email, password, name |
| RegisterHandler.UniqueViolationOnly | app/identity/register_handler.go:76-82 | only a driver error with SQLSTATE 23505 is a unique violation |
| RegisterHandler.RefusalsWriteNothing | app/identity/register_handler.go:45-71 | refusals write nothing; a taken email gives 409 "email_exists"; a store failure gives 500 "create_failed" |
| RegisterHandler.SuccessStoresUser | app/identity/register_handler.go:42-73 | success stores the trimmed email and name with the SHA-256 hex of the trimmed password, which ValidatePassword then accepts; the answer echoes id, name and email |
| TwoFactorFlows.RegisterThenLogin | app/identity/login_handler.go:94-103 | a registered user's login with the registered password gets a token directly |
| TwoFactorFlows.EnrolledLoginIsChallenged | app/identity/login_handler.go:70-91 | after enable and verify, the same credentials get the 202 challenge |
| TwoFactorFlows.EnabledButUnverifiedBypasses | app/identity/login_handler.go:70 | after enable alone, the user is enabled but not verified and still gets a token directly |
| TwoFactorFlows.ChallengedLoginCompletes | app/identity/two_factor_challenge_handler.go:30-56 | the intermediate token of a challenged login, with the current code, is exchanged for a token of the same user |
| TwoFactorFlows.CodesSurviveDisable | app/identity/get_recovery_codes_handler.go:37-48 | after verify then disable (204), the user is neither enabled nor verified but still gets the codes verify answered |
| TwoFactorFlows.TokenOfSameAccount | pkg/jwt/jwt.go:34-48 | signing depends only on the user's id, name and email |

## Left out

- Time: each handler reads the clock once, as `now`. The source reads it separately for the token's expiry, not-before and issued-at, for the OTP check and for the advertised expiry.
- Token ids: the token id (`uuid.New`) is a parameter `jti`.
- Foreign primitives: HMAC-SHA1, SHA-256/hex, `url.QueryEscape`, JSON, JWT signing and parsing, `crypto/rand` and `rand.Text` are uninterpreted parameters.
  - The format of the `rand.Text` strings is not modelled.
  - `Totp.UrlReadsBack` takes as a hypothesis what `url.QueryEscape` guarantees: its output holds no '&', '=', '?' or '#'. The reader leaves values escaped, since unescaping is not modelled.
  - The JSON round trip is a hypothesis of the lemmas that need it (`TwoFactorFlows.JsonRoundTrips`).
- The `json.Marshal` error branch of the verify handler (verify_two_factor_handler.go:52-54) is left out, because marshalling a list of strings cannot fail.
- Totp.Hotp: the digit counts that make the modulus wrap to zero in 64 bits (a run-time panic) are excluded by a precondition.
- Totp.HotpShape: the value equation is proved only up to 18 digits, where 10^digits fits in 64 bits; beyond that the modulus wraps. The length is proved for every supported digit count by `Totp.HotpDigits`. The handlers use 6.
- Totp.ScanWindow: it takes the codes of the window as a function from offset to result, because `generateOTPForCounter` is pure. The counter `current + i` is not wrapped to 64 bits.
- Handler checks: the handler specifications take the code check as a parameter. Each `Handle` method fixes it to `Totp.HandlerCheck`, and so do `TwoFactorChallengeHandler.ChallengeAt` and the lemmas that name the current code.
- Repository methods: only two driver failures are modelled, a missing row and the 23505 unique violation. Connection and other failures are modelled as injected faults, which change nothing.
- Database schema: emails and ids are assumed unique, which is the database's unique constraint. New rows are assumed to default to two-factor off with NULL secret and codes.
- `created_at`/`updated_at` columns are not part of this model.
- Request context: the handlers read the user id from the request context. The model takes it as a parameter, and the type assertion on the context is not modelled.
- `domain.User.TwoFactorSecret` is a `sql.NullString` in the source. The model uses a string, with "" for NULL, as the COALESCE reads return it.
- Transport and configuration: main.go (routing, binding, error mapping, shutdown), pkg/config/config.go, app/identity/get_user_handler.go, app/identity/validate_handler.go and internal/middleware/set_response_headers.go are not part of this model.
- The JWT secret is taken as a parameter instead of being read from the global configuration.
- Concurrency: each request is one sequential call against the store.
- HttpError.StatusText: it gives the standard text only for the eight statuses the constructors use, and "" for the others.
- EqualFold: it is compared against "Bearer" with ASCII case folding only. The Unicode folds of 'k' and 's' do not arise because "Bearer" has neither letter.
- Recovery code count: the verify handler asks for 10 recovery codes and stores 11, because `GenerateRecoveryCodes` loops from 0 to count inclusive. The model follows the code.
- Verify handler errors: its lookup failure uses the challenge handler's error code "identity.two_factor_challenge.not_found", as the source does.
