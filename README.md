# mod_md crypto core, modelled in Dafny

This project models the logic at the heart of mod_md's crypto layer
(`src/md_crypt.c`) and its JWS signing (`mod_md/md_jws.c`), and proves what
that code promises.

## Modules

- **Base** (`base.dfy`) holds the shared pieces:
  - `Option`, `Result` and the APR status codes used by the core;
  - `INT_MAX`;
  - C's truncating division and remainder, `CDiv` and `CMod`.
- **Calendar** (`calendar.dfy`) holds the Julian-day arithmetic of the LibreSSL time fallback:
  - `leap_year`;
  - `date_to_julian`, as a function;
  - `julian_to_date`, as a method.
  - It proves that the two conversions are inverse, order-preserving and injective, and how they relate to the 1900–9999 window.
- **GmTime** (`gmtime.dfy`) models `struct tm` as the class `Tm`, whose fields the code updates in place. It covers:
  - `determine_days`, with the proof that Zeller's congruence gives the weekday;
  - `julian_adj`;
  - `OPENSSL_gmtime_adj`;
  - `OPENSSL_gmtime_diff`.
- **Asn1Time** (`asn1_time.dfy`) covers ASN.1 UTCTime and GeneralizedTime:
  - a declarative grammar, `Parse`, and its inverse, `Encode`, with both round trips proved;
  - the cursor-driven parser `asn1_time_to_tm` as a method, proved to accept exactly what the grammar accepts and to fill `tm` only on success;
  - `ASN1_TIME_diff`.
  - Strict mode follows section 4.1.2.5 of RFC 5280.
- **Text** (`text.dfy`) holds the case handling that key specs and domain lookups use:
  - ASCII case folding;
  - `apr_strnatcasecmp` equality against a fixed word.
- **Json** (`json.dfy`) is the part of the md_json API the core calls:
  - JSON objects as maps;
  - `md_json_sets`, `md_json_setl`, `md_json_gets` and `md_json_getl` on key paths;
  - the document as the class `JsonDoc`.
- **PKeySpec** (`pkey_spec.dfy`) covers the key specs: `md_pkey_spec_to_json`, `md_pkey_spec_from_json` and `md_pkey_spec_eq`.
- **DigestHex** (`digest_hex.dfy`) covers the `hex_const` table and the buffer loop of `md_crypt_sha256_digest_hex`.
- **Certs** (`certs.dfy`) covers:
  - the subjectAltName names of a certificate;
  - the cached `alt_names` field of `md_cert_t`;
  - `md_cert_covers_domain` and `md_cert_covers_md`;
  - `md_chain_fappend` over an array of certificates;
  - the guards of `md_cert_read_http`.
- **CsrNames** (`csr_names.dfy`) covers:
  - `alt_name`, `alt_names` and `sk_add_alt_names`;
  - the validity in days of a self-signed certificate.
- **Guards** (`guards.dfy`) covers:
  - the argument guards of `md_rand_bytes` and `pkey_to_buffer`;
  - the `pem_passwd` callback.
- **Jws** (`jws.dfy`) covers:
  - `header_set`;
  - `md_jws_sign`, with the protected header, the signing input and the three-member message.

The code has no literal values for several constants in the files modelled
here. The model takes these values: `MD_PKEY_RSA_BITS_MIN` and
`MD_PKEY_RSA_BITS_DEF` are 2048, `MD_SECS_PER_DAY` is 86400, and the JSON
keys `MD_KEY_TYPE` and `MD_KEY_BITS` are `"type"` and `"bits"`.
`MD_PKEY_TYPE_DEFAULT` is taken to be the zero value of the key type
enumeration, so a zero-filled spec is the default key.
`src/md_crypt.h` and `md_json.c` are not part of this model.

## Behaviours worth knowing

Three behaviours of the code are easy to miss. The model states each one.

- **Protected header.** The caller's header fields can overwrite `alg`, `kid` and `jwk`. `header_set` stores every table entry with `md_json_sets`, after the key members are set (mod_md/md_jws.c:27-31, 58). `Jws.HeaderTableWins` states this.
- **Spec equality.** `md_pkey_spec_eq` is true for two NULL specs, because it compares the pointers first (src/md_crypt.c:652-654). The contract of `PKeySpec.SpecEq` states this.
- **Unknown key type.** `md_pkey_spec_from_json` leaves an unknown type string as the zero-filled spec, which is the default key (src/md_crypt.c:627, 633-645). The contract of `PKeySpec.FromJson` states this.

## Model

| member | source | states |
|---|---|---|
| Base.CMod | src/md_crypt.c:186-189 | C's `%`: the dividend is divisor times the truncated quotient plus the remainder, and the remainder has the sign of the dividend |
| Base.CDivNonNegative | src/md_crypt.c:1616 | for non-negative operands C's `/` and `%` agree with floor division |
| Calendar.LeapYear | src/md_crypt.c:153-158 | leap_year is 0 or 1, and 1 only for years divisible by 4 |
| Calendar.DaysInMonth | src/md_crypt.c:409-416 | a month has 28 to 31 days, February 28 plus leap_year |
| Calendar.DateToJulian | src/md_crypt.c:195-200 | no contract of its own: date_to_julian's integer formula with C's truncating division; JulianDayOfYear, JulianYearLength, DateToJulianInjective and JulianToDate state what it computes |
| Calendar.JulianDayOfYear | src/md_crypt.c:195-200 | date_to_julian counts the days since January 1 exactly as the ydays table plus the leap day does |
| Calendar.JulianYearLength | src/md_crypt.c:195-200 | consecutive New Years' Julian days differ by 365 + leap_year |
| Calendar.WithinYear | src/md_crypt.c:195-200 | every valid date lies between January 1 and December 31 of its year, and December 31 is followed by the next January 1 |
| Calendar.JulianYearOrder | src/md_crypt.c:195-200 | date_to_julian is increasing across years |
| Calendar.DateToJulianInjective | src/md_crypt.c:195-200 | two valid dates with the same Julian day are the same date |
| Calendar.FromYear | src/md_crypt.c:195-200 | a date is in year lo or later exactly when its Julian day is at least that of January 1 of lo |
| Calendar.UntilYear | src/md_crypt.c:195-200 | a date is in year hi or earlier exactly when its Julian day is at most that of December 31 of hi |
| Calendar.JulianToDate | src/md_crypt.c:202-216 | for every non-negative Julian day, julian_to_date yields a valid date whose date_to_julian is that day (with DateToJulianInjective, the two conversions are inverse) |
| Calendar.JulianDayLimits | src/md_crypt.c:273-276 | the Julian days of 1900-01-01 and 9999-12-31 are 2415021 and 5373484 |
| Calendar.GmtimeYearRange | src/md_crypt.c:273-276 | a date's year is in 1900..9999 exactly when its Julian day is in 2415021..5373484 |
| GmTime.Tm.constructor | src/md_crypt.c:360 | a struct tm zero-filled as by memset |
| GmTime.Tm.SetDateTime | src/md_crypt.c:280-286 | sets the six calendar and clock fields and keeps tm_wday and tm_yday |
| GmTime.Tm.SetDays | src/md_crypt.c:176-189 | sets tm_yday and tm_wday and keeps the other fields |
| GmTime.Tm.CopyFrom | src/md_crypt.c:501-502 | `*tm = tmp`: every field is copied |
| GmTime.ZellerCongruence | src/md_crypt.c:186-189 | for years from 1 on, the Zeller sum is the Julian day plus one, modulo 7 |
| GmTime.DetermineDays | src/md_crypt.c:166-190 | determine_days keeps the date and time fields, sets tm_yday to the days since January 1, and sets tm_wday to the weekday (0 = Sunday) for years from 1 on |
| GmTime.JulianAdj | src/md_crypt.c:219-260 | on success the day is non-negative and day*86400 + sec equals the instant plus the offset; for a valid time of day it succeeds exactly when that sum is non-negative, and then sec is in [0, 86400) |
| GmTime.ClockSplit | src/md_crypt.c:284-286 | splitting a second of the day into hours, minutes and seconds loses nothing and gives hour < 24, minute < 60, second < 60 |
| GmTime.AcceptedSeconds | src/md_crypt.c:273-276 | the year check is the same as the instant lying in [1900-01-01, 10000-01-01) |
| GmTime.GmtimeAdj | src/md_crypt.c:262-290 | on failure tm is unchanged; on success the date is valid, the year is in 1900..9999, the instant moved by exactly the offset, the time of day stays valid and wday/yday are kept; for a valid time of day it succeeds exactly when the new instant is within the window |
| GmTime.SecondsOfFields | src/md_crypt.c:231-252 | the instant of a tm is its Julian day times 86400 plus its second of the day |
| GmTime.GmtimeDiff | src/md_crypt.c:292-320 | on success day*86400 + sec is to minus from, abs(sec) < 86400 and day and sec are never of opposite signs; for valid times of day it fails exactly when an instant is negative |
| GmTime.TruncatedSplit | src/md_crypt.c:301-311 | day and second of the difference are C's truncated quotient and remainder by 86400 |
| Asn1Time.Parse | src/md_crypt.c:322-507 | no contract of its own: the grammar asn1_time_to_tm accepts, as a function; EncodeParse and Asn1TimeToTm state what it accepts and yields |
| Asn1Time.Encode | src/md_crypt.c:322-507 | no contract of its own: the text of a valid timestamp; ParseEncode and EncodeParse state that it is the inverse of Parse |
| Asn1Time.ParseEncode | src/md_crypt.c:322-507 | every valid timestamp encodes to a string the grammar reads back as the same timestamp |
| Asn1Time.EncodeParse | src/md_crypt.c:322-507 | every accepted string is a valid timestamp and is exactly the encoding of what was read |
| Asn1Time.AcceptedLength | src/md_crypt.c:339-369 | an accepted string is at least 11/13 characters (lenient) or 13/15 (strict) long |
| Asn1Time.HeaderFields | src/md_crypt.c:370-430 | the date and time header is valid exactly when every two-digit field is digits within the min/max tables and the day fits the month |
| Asn1Time.ReadZone | src/md_crypt.c:458-498 | a "Z", or in lenient mode a sign and exactly four digits of hours ≤ 12 and minutes ≤ 59, reads back as that zone |
| Asn1Time.WriteZone | src/md_crypt.c:458-498 | an accepted zone is "Z" or, only in lenient mode, a ±HHMM offset within range that ends the string |
| Asn1Time.ReadFraction | src/md_crypt.c:436-451 | a fraction is read only for lenient GeneralizedTime, as a point followed by one or more digits |
| Asn1Time.WriteFraction | src/md_crypt.c:436-451 | an accepted fraction is empty, or lenient GeneralizedTime digits after a point |
| Asn1Time.ReadSeconds | src/md_crypt.c:370-388 | seconds are two digits ≤ 59, optional only in lenient mode before the zone |
| Asn1Time.WriteSeconds | src/md_crypt.c:370-388 | accepted seconds are within range or, in lenient mode only, absent before a zone letter |
| Asn1Time.WriteUtcYear | src/md_crypt.c:398-403 | a UTCTime two-digit year n is 2000+n below 50 and 1900+n otherwise |
| Asn1Time.SetDay | src/md_crypt.c:407-419 | the day is accepted exactly when it fits the month (February + leap_year); then it is stored and yday/wday are determined |
| Asn1Time.ScanPair | src/md_crypt.c:375-387 | two digits are read only when both are digits and input remains after them |
| Asn1Time.StoreField | src/md_crypt.c:389-429 | a field is stored exactly when it is within the min/max tables (and the day within its month) |
| Asn1Time.ScanFields | src/md_crypt.c:370-430 | the field loop succeeds exactly when the header is valid and the seconds are well formed, leaving tmp holding the fields |
| Asn1Time.ScanFraction | src/md_crypt.c:436-451 | the fraction step succeeds exactly when the grammar accepts the fraction, and the cursor ends after it |
| Asn1Time.ScanZone | src/md_crypt.c:458-504 | the zone step accepts exactly the grammar's zones, ends the cursor at the string length, and applies a non-zero offset through OPENSSL_gmtime_adj, failing when that does |
| Asn1Time.StoredTime | src/md_crypt.c:389-430 | the fields stored in tmp give a valid date and time whose instant plus the zone shift is the timestamp's instant |
| Asn1Time.Asn1TimeToTm | src/md_crypt.c:322-507 | asn1_time_to_tm fails on every string the grammar rejects; on the others it succeeds unless a non-zero offset moves the time out of 1900..9999 (when tm is given); tm is written only on success and then holds the timestamp |
| Asn1Time.InstantNonNegative | src/md_crypt.c:322-507 | a timestamp without an offset is never before Julian day 0 |
| Asn1Time.ConvertedInstant | src/md_crypt.c:509-522 | a converted tm has a valid time of day and the timestamp's non-negative instant |
| Asn1Time.Asn1TimeDiff | src/md_crypt.c:524-534 | ASN1_TIME_diff succeeds exactly when both times convert, and then returns their difference split into days and seconds of the same sign |
| Text.Upper | src/md_crypt.c:633-636 | ASCII case folding: a lower-case letter becomes the same letter in upper case (same distance from 'A' as from 'a'), every other character stays |
| Text.SqueezeNoSpace | src/md_crypt.c:633-636 | on a word without spaces, the natural comparison sees every character, folded |
| Text.SpellingMatches | src/md_crypt.c:633-636 | any case-insensitive spelling of a letters-only word compares equal to it under apr_strnatcasecmp |
| Json.SetPath | mod_md/md_json.h:43 | setting a path adds at most its first key and keeps every other member |
| Json.Sets | mod_md/md_json.h:43 | md_json_sets keeps every other member, adds no other key, and, for a non-NULL value, leaves the string readable at the path |
| Json.SetsTop | mod_md/md_json.h:43 | setting a single key is a map update |
| Json.SetsNested | mod_md/md_json.h:43 | setting a two-key path updates the child object, created if missing; a NULL value only creates it |
| Json.GetSetPath | mod_md/md_json.h:42-43 | a value set at a path reads back from it |
| Json.GetsAfterSets | src/md_crypt.c:603-648 | md_json_gets reads back the string md_json_sets stored under a key, md_json_getl the number md_json_setl stored; both getters see no change under any other key |
| Json.JsonDoc.constructor | mod_md/md_json.h:30 | md_json_create gives an empty object |
| Json.JsonDoc.SetString | mod_md/md_json.h:43 | the document becomes Sets of its old content |
| Json.JsonDoc.SetLong | src/md_crypt.c:614 | md_json_setl stores the number at the path |
| PKeySpec.ToJson | src/md_crypt.c:603-623 | the document holds the type, read back as "Default" or "RSA", and holds the bits exactly for an RSA key of at least the minimum size; no other member |
| PKeySpec.SpecToJson | src/md_crypt.c:603-623 | md_pkey_spec_to_json fills a new document with md_json_sets and md_json_setl, giving exactly ToJson of the spec |
| PKeySpec.FromJson | src/md_crypt.c:625-648 | a missing type gives Default; the result is RSA exactly when the type compares equal to "RSA" and not to "Default"; RSA bits ≥ the minimum are kept (as unsigned int), otherwise the default size |
| PKeySpec.FromToJson | src/md_crypt.c:603-648 | reading back a written spec gives it again, with a too small RSA size replaced by the default |
| PKeySpec.FromJsonIgnoresCase | src/md_crypt.c:633-645 | any case spelling of "RSA" without bits reads as RSA with the default size |
| PKeySpec.SpecEq | src/md_crypt.c:650-667 | md_pkey_spec_eq is equality of the specs between two non-NULL pointers, and between NULL and a pointer holds only when both are NULL |
| DigestHex.HexDigit | src/md_crypt.c:984-1001 | every table digit is 0-9 or a-f |
| DigestHex.HexValueDigit | src/md_crypt.c:984-1001 | a nibble's digit reads back as the nibble |
| DigestHex.HexConst | src/md_crypt.c:984-1001 | each table entry is two lower-case hex digits that read back as the byte, high nibble first |
| DigestHex.HexEncode | src/md_crypt.c:1003-1026 | the encoding is two characters per byte |
| DigestHex.HexEncodeAt | src/md_crypt.c:1018-1022 | characters 2i and 2i+1 are the lower-case hex digits of byte i, high nibble first |
| DigestHex.HexRoundTrip | src/md_crypt.c:984-1026 | the hex string decodes back to the digest |
| DigestHex.HexEncodeSnoc | src/md_crypt.c:1018-1022 | one more loop iteration appends exactly the byte's two digits |
| DigestHex.Sha256DigestHex | src/md_crypt.c:1003-1026 | on success the result is the 2*blen-character hex encoding of the digest; on failure the digest's status and no string |
| Certs.CollectNamesAsWritten | src/md_crypt.c:1184-1197 | as written: a collected entry whose UTF-8 conversion fails still pushes what the buffer holds; at most one name per entry |
| Certs.StaleNameListed | src/md_crypt.c:1184-1197 | an IP address entry, whose OCTET STRING does not convert, puts into the list a name no entry holds |
| Certs.CollectNames | src/md_crypt.c:1184-1197 | corrected: an entry whose conversion fails is skipped; at most one name per entry |
| Certs.CollectNamesAgree | src/md_crypt.c:1184-1197 | when every collected entry converts, the loop as written and the corrected one give the same names |
| Certs.CollectNamesMembers | src/md_crypt.c:1184-1197 | the collected names are exactly the converted DNS, URI and IP address entries |
| Certs.AltNames | src/md_crypt.c:1171-1202 | names come back exactly when the certificate has a subjectAltName extension |
| Certs.Cert.constructor | src/md_crypt.c:1047-1055 | make_cert holds the certificate with an empty alt_names cache |
| Certs.Cert.LoadAltNames | src/md_crypt.c:1104-1106 | the cache is filled only while empty, and once filled never changes |
| Certs.Cert.CoversDomain | src/md_crypt.c:1102-1111 | true exactly when the cached names list the domain, ignoring case; false without the extension |
| Certs.Cert.CoversMd | src/md_crypt.c:1113-1138 | true exactly when the certificate has the extension and every domain is listed; false without it even for no domains |
| Certs.CoveredByName | src/md_crypt.c:1171-1202 | a certificate whose extension has a DNS entry for a domain covers it |
| Certs.EmptyChainAccepted | src/md_crypt.c:1340-1359 | an empty chain is accepted only from a file under 1024 bytes or of unknown size, and a non-empty one whenever reading ended normally |
| Certs.CertArray.Push | src/md_crypt.c:1336 | APR_ARRAY_PUSH appends one certificate |
| Certs.ChainFappend | src/md_crypt.c:1323-1365 | a file that does not open changes nothing; otherwise one new certificate per PEM entry is appended in order, and the status follows the acceptance rule |
| Certs.CertReadHttp | src/md_crypt.c:1280-1313 | succeeds exactly for a body of at most 1 MiB with Content-Type application/pkix-cert that decodes; a missing body or other type is APR_ENOENT; a failure to measure or flatten the body passes that status on; an oversized or undecodable body is APR_EINVAL |
| CsrNames.AltName | src/md_crypt.c:1413-1416 | the entry is "DNS:" followed by the domain |
| CsrNames.Joined | src/md_crypt.c:1418-1429 | the value is empty exactly for no domains, and otherwise starts with a "DNS:" entry |
| CsrNames.AltNames | src/md_crypt.c:1418-1429 | alt_names builds the entries of the domains, in order, separated by commas |
| CsrNames.SplitJoined | src/md_crypt.c:1418-1429 | when no domain holds a comma, the value splits into exactly one DNS entry per domain |
| CsrNames.JoinedRoundTrip | src/md_crypt.c:1418-1429 | splitting the value and stripping "DNS:" gives the domains back |
| CsrNames.SkAddAltNames | src/md_crypt.c:1454-1467 | with domains, their joined entries are pushed as one extension, or APR_EGENERAL when OpenSSL cannot build it; without domains nothing changes |
| CsrNames.SelfSignDays | src/md_crypt.c:1616 | for a non-negative validity, the days are the least number of whole days covering its whole seconds |
| Guards.RandBytes | src/md_crypt.c:570-581 | a length above INT_MAX is APR_ENOTIMPL and writes nothing; otherwise the init status, and on success the first len bytes come from the random source |
| Guards.PasswdCopied | src/md_crypt.c:591-596 | min(pass_len, size) bytes are copied for a positive length, none otherwise |
| Guards.PemPasswd | src/md_crypt.c:588-598 | as written: copies PasswdCopied bytes and returns pass_len |
| Guards.PemPasswdOverstates | src/md_crypt.c:588-598 | for a pass phrase longer than the buffer, fewer bytes are copied than reported |
| Guards.PemPasswdCopied | src/md_crypt.c:588-598 | corrected: the reported length is the copied count, within the buffer, and the whole pass phrase when it fits |
| Guards.PkeyToBuffer | src/md_crypt.c:730-776 | succeeds exactly when the BIO exists, pass_len ≤ INT_MAX, the cipher exists if encrypting, and the write worked; a failed PEM write is APR_EINVAL; encryption exactly for a non-empty pass phrase; the buffer holds the PEM text only when there is some |
| Jws.TableInOrder | mod_md/md_jws.c:58 | apr_table_do visits the entries in table order: an entry at the end of the table is one more md_json_sets after all the others |
| Jws.ApplyKeys | mod_md/md_jws.c:27-58 | the header_set calls drop no member, and each leaves its key a member |
| Jws.ApplyAvoids | mod_md/md_jws.c:58 | table entries under other keys leave a member alone |
| Jws.ApplyLastWins | mod_md/md_jws.c:58 | after the table, a key holds the value of its last entry |
| Jws.KeyHeaderContents | mod_md/md_jws.c:49-57 | the key members are exactly alg "RS256" with kid, or alg with jwk {e, kty "RSA", n} |
| Jws.Header | mod_md/md_jws.c:47-58 | the protected header always has alg, and kid or jwk as a key id is given or not |
| Jws.HeaderAlg | mod_md/md_jws.c:49-58 | alg is "RS256" unless the caller's table sets it |
| Jws.HeaderKid | mod_md/md_jws.c:50-58 | with a key id, kid is it unless the table sets it, and there is no jwk unless the table adds one |
| Jws.HeaderJwk | mod_md/md_jws.c:53-58 | without a key id, jwk holds e, kty "RSA" and n unless the table sets jwk |
| Jws.HeaderTableWins | mod_md/md_jws.c:27-58 | every table key ends up holding its last value, overwriting alg, kid or jwk |
| Jws.EnvelopeBuilt | mod_md/md_jws.c:67-75 | the three md_json_sets on the message give exactly protected, payload and signature |
| Jws.SigningInput | mod_md/md_jws.c:71 | the signed text is prot64, a period, then pay64 |
| Jws.Signed | mod_md/md_jws.c:59-87 | a failure never reports APR_SUCCESS, and a success is a message with exactly protected, payload and signature |
| Jws.SignedParts | mod_md/md_jws.c:64-87 | a signed message holds the base64url header and payload and a signature over exactly their signing input; a failure is APR_ENOMEM or the signer's status |
| Jws.HeaderSet | mod_md/md_jws.c:27-31 | stores the entry as a string under its key and returns 1 |
| Jws.SetKeyMembers | mod_md/md_jws.c:49-57 | the new header holds the key members |
| Jws.BuildProtected | mod_md/md_jws.c:47-58 | the protected header is the key members followed by the whole caller table |
| Jws.JwsSign | mod_md/md_jws.c:33-88 | the status is success exactly when every step worked; on failure the status is the failing step's and *pmsg stays NULL; on success *pmsg is a new message holding exactly the signed envelope |

## Left out

- Wall-clock paths (`ASN1_TIME_to_tm(NULL, …)`, `md_cert_get_not_after/before`, `md_cert_is_valid_now`) use the system clock and are not modelled.
- RNG seeding (`seed_RAND`, `rand_choosenum`, `md_crypt_init`) depends on entropy and floating point. It is not modelled; `md_crypt_init`'s status is a parameter of `RandBytes`.
- OpenSSL work enters as parameters or uninterpreted functions:
  - key generation and the digest;
  - PEM and DER reading and writing;
  - X.509 and CSR construction and extension encoding;
  - base64url, the JSON writer and `md_crypt_sign64`.
- File and HTTP I/O, and the bucket brigade of `md_cert_read_http`: only the guards and outcomes are modelled.
- Memory allocation: `md_json_create`, `apr_psprintf`, `apr_pcalloc` and the `!dhex` path of the digest are taken to succeed.
- JSON objects are maps. Member order and serialisation are not modelled. `md_json.c` is not part of this model: `md_json_sets` is modelled as creating missing parent objects and setting the string member, and as creating only the parents for a NULL value.
- `md_json_getl`: the JSON number is taken to fit in a `long`.
- `md_pkey_spec_to_json`'s `"Unsupported"` branch cannot be reached: the model's spec has only the default and RSA variants.
- Certs.CollectNamesMembers: it states the corrected loop, which skips a name whose conversion fails. The loop as written pushes an uninitialised or already freed buffer; see Findings.
- Guards.RandBytes: the status of `RAND_bytes` is ignored, as in the code. The random bytes are a parameter.
- Text.SpellingMatches: `apr_strnatcasecmp` is modelled only as equality with a fixed letters-only word (spaces skipped, ASCII case folded). Its digit-run ordering is not modelled.
- GmTime.DetermineDays: the weekday is stated only for years from 1 on. For January and February of year 0, C's truncating division gives a different weekday than the proleptic calendar.
- GmTime.JulianAdj: `offset_day` and `offset_hms` are C `int`s, but the model computes them unbounded. A `long` offset whose day count does not fit in an `int` is not modelled as overflowing. The only caller in this file passes `off_day` 0 and an offset under 13 hours (src/md_crypt.c:493); there both fit.
- GmTime.GmtimeAdj: its `off_day` and `offset_sec` go to `julian_adj` with the same unbounded arithmetic, for the same reason.
- GmTime.GmtimeDiff: the `int` casts of the day and second counts are not modelled, because they fit for years 1900–9999.
- CsrNames.SelfSignDays: the `(int)` cast of the day count is not modelled. `apr_time_sec` is taken as truncating division by 1 000 000.
- Guards.PemPasswd: `memcpy`'s reading past a pass phrase shorter than `pass_len` is excluded by the requirement `passLen <= |passPhrase|`.
- `md_cert_get_issuers_uri`, `md_cert_to_base64url`, `md_cert_state_get`, `md_chain_fload`/`md_chain_fsave`, `md_cert_req_create` and `md_cert_self_sign` are not modelled beyond the pieces above, because they are OpenSSL and file plumbing.

## Findings

| source | as written | input that shows it | evidently intended | confidence | as-written member | corrected member |
|---|---|---|---|---|---|---|
| src/md_crypt.c:1184-1197 | the result of `ASN1_STRING_to_UTF8` is not checked, so a failed conversion still pushes `buf`, which is uninitialised, or still points to the freed string of an earlier entry | a certificate whose subjectAltName has an IP address entry (`GEN_IPADD` holds an OCTET STRING, which `ASN1_STRING_to_UTF8` does not convert) | skip an entry whose conversion fails | not executed | Certs.CollectNamesAsWritten, Certs.StaleNameListed | Certs.CollectNames |
| src/md_crypt.c:588-598 | `pem_passwd` copies at most `size` bytes but returns `pass_len` | pass_len = size + 1 (a pass phrase longer than OpenSSL's buffer) | return the number of bytes copied into the buffer | not executed | Guards.PemPasswd, Guards.PemPasswdOverstates | Guards.PemPasswdCopied |
