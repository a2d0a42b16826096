# Trust-bundle builder, modelled in Dafny

This project models the core of a small Node.js tool that maintains a local trust
bundle for a certificate ecosystem (`src/utils.js`). Given the CA certificates, it
builds the CA bundle. In production it also downloads every CA's certificate
revocation list (CRL), frames each one as PEM and reports the earliest "next update"
date among them.

Modules, one per concern of the source:

- `Subject` (`subject.dfy`): the certificate record, the root-CA predicate
  `isBrcacCA`, and the common-name extraction inside `createCerts`.
- `CrlDate` (`crl_date.dfy`): `parseCRLDate`, the date order, the reducer
  `getShortestCRLNextUpdate` and its fold.
- `Pem` (`pem.dfy`): the `/.{1,64}/g` line cutting and the `BEGIN/END X509 CRL`
  framing (section 2 of RFC 7468).
- `Base64` (`base64.dfy`): `Buffer.toString('base64')` (section 4 of RFC 4648),
  proved against a decoder.
- `Bundle` (`bundle.dfy`): the `createCerts` loop. It is a method over local
  lists (`CreateCerts`), proved equal to a fold-style specification (`Process`),
  and the properties are lemmas about that specification. `Step` states the
  whole new state of one iteration. `LookupUrl` (the truthiness test), `Pems`
  (each certificate's PEM text), `Finish` (the two files), and the per-certificate
  references `FetchUrl`, `FetchUrls` and `ThrownBy` are plain definitions. The
  lemmas `PemCAsInInputOrder`, `CasFileHoldsEveryCert`, `FetchedInInputOrder`,
  `ThrowsIffSomeCertThrows` and `FirstFailureThrows` state what the loop does in
  terms of them.
- `JsString` and `Wrappers`: the JavaScript string operations the code uses
  (`split`, `join`, `startsWith`, `includes`), plus `Option`/`Result`.

What stands for the outside world:

- The network fetch in `downloadCRL` is the `download` field of `Bundle.Config`: a
  function from URL to the response body, or to the status text of a failed response.
- The `jsrsasign` CRL parser is `nextUpdateOf`, a function from PEM text to the
  `nextUpdate` text. `ValidConfig` requires that this text starts with twelve digits.
- The address table is the injected map `addresses`.
- The two output files are the contents `createCerts` would write (`Outcome.casFile`,
  `Outcome.crlsFile`).

Where the code and its design description disagree, the model follows the code:

- A subject with no `CN=` line is not skipped with a warning. The code reads
  `.substring` of `undefined` (src/utils.js:23). That `TypeError` escapes
  `createCerts` and ends the run, the same as a failed download
  (`Bundle.Failure.NoCommonName`).
- An empty CRL body also ends the run. Its base64 text is empty, so `match` returns
  `null` and `.join` throws (`Bundle.Failure.EmptyCrlBody`).
- A CA counts as found only when its table entry is a non-empty string. This
  follows the truthiness test `if (crlDownloadAddresses[cn])`.
- The year is always 2000 plus the two digits. RFC 5280 (section 4.1.2.5.1) reads
  `YY >= 50` as 19YY; the code does not, and this is a deliberate limitation.
  A `nextUpdate` in the GeneralizedTime layout (section 4.1.2.5.2, four-digit
  year, used from 2050 on) also starts with twelve digits. The code misreads its
  fields, and so does the model, but the two misreadings can order dates
  differently: `20500101000000Z` parses to the fields year 2020, month 49, day 1, hour 1,
  which the model puts before `210101000000Z` (1 January 2021), whereas
  `Date.UTC` carries month 49 over into February 2024, after 2021. See the
  `Date.UTC` line under "Left out".

## Model

| member | source | states |
|---|---|---|
| `Subject.IsBrcacCA` | src/utils.js:9-11 | true exactly when the literal `Autoridade Certificadora Raiz Brasileira v10` occurs at some position of the issuer |
| `JsString.Includes` | src/utils.js:10 | `includes` is true exactly when the needle occurs at some index of the string |
| `JsString.Split` | src/utils.js:23 | `split('\n')` gives at least one piece, no piece holds the separator, and joining the pieces with it gives back the string |
| `JsString.SplitJoin` | src/utils.js:23 | splitting a join of separator-free pieces gives back exactly those pieces |
| `Subject.CnLines` | src/utils.js:23 | the filter keeps only lines starting with `CN=`; it is empty exactly when no line does, and its head is the first such line, with no earlier line starting with `CN=` |
| `Subject.ExtractCN` | src/utils.js:23 | no result (the `TypeError`) exactly when no subject line starts with `CN=`; otherwise the result is what follows `CN=` on the first such line |
| `Subject.ExtractCNExample` | src/utils.js:23 | subject `CN=Example CA\nO=Org` gives `Example CA` |
| `CrlDate.ParseCRLDate` | src/utils.js:66-76 | year in 2000..2099, month in -1..98 (zero-based), the other fields in 0..99 |
| `CrlDate.ParseFormat` | src/utils.js:66-75 | parsing the digits written for any timestamp in range gives back that timestamp: year = 2000 + digits 0-1, month = digits 2-3 minus 1, then day, hours, minutes, seconds |
| `CrlDate.FormatParse` | src/utils.js:66-75 | each two-digit field is read on its own: writing the parsed timestamp gives back the first twelve characters |
| `CrlDate.ParseExample` | src/utils.js:66-76 | `240615120000` is 15 June 2024 (month index 5), 12:00:00 |
| `CrlDate.NextUpdateFromCRL` | src/utils.js:79-82 | the next-update date of a CRL is always one `parseCRLDate` can produce: year 2000..2099, month -1..98, the other fields 0..99 |
| `CrlDate.NextUpdateFromDigits` | src/utils.js:79-82 | writing a CRL's next-update date back as digits gives the first twelve characters of its `nextUpdate` text, so nothing after them counts |
| `CrlDate.BeforeIsDigitOrder` | src/utils.js:86 | on parsed dates, `d < currentDate` holds exactly when the twelve `UTCTime` digits of `d`, read as one number, are smaller |
| `CrlDate.BeforeIsStrictTotalOrder` | src/utils.js:86 | the date comparison is irreflexive, transitive, asymmetric and total on distinct dates |
| `CrlDate.ShortestNextUpdate` | src/utils.js:84-87 | with no current date, the CRL's date; otherwise one of the two, earlier than neither, and the CRL's date only when strictly earlier or equal |
| `CrlDate.ShortestOf` | src/utils.js:16-28 | the reducer folded from `null` over the CRLs gives no date exactly when there are none, and otherwise the next-update date of one of them |
| `CrlDate.ShortestOfIsEarliest` | src/utils.js:84-86 | the fold from `null` gives no date exactly when there are no CRLs, and otherwise a date of one of them that no CRL's date precedes |
| `CrlDate.EarliestIsUnique` | src/utils.js:84-86 | two CRL lists with the same elements have the same earliest date |
| `CrlDate.ShortestOfOrderIndependent` | src/utils.js:84-86 | folding the reducer over any reordering of the same CRLs gives the same result |
| `Base64.Encode` | src/utils.js:26 | output length is 4 * ceil(n / 3), every character is in the base64 alphabet or `=`, and it is empty exactly for an empty body |
| `Base64.DecodeEncode` | src/utils.js:26 | decoding the encoding of any byte string gives back that byte string |
| `Pem.Chunks` | src/utils.js:26 | the `/.{1,64}/g` match is empty exactly for empty text; every piece has 1 to 64 characters, every piece but the last has 64, and the pieces concatenated give back the text |
| `Pem.WrapCrl` | src/utils.js:26 | fails (the `null.join` `TypeError`) exactly for empty base64 text; otherwise starts with `-----BEGIN X509 CRL-----\n` and ends with `\n-----END X509 CRL-----\n` |
| `Pem.WrapCrlRoundTrip` | src/utils.js:26 | reading the lines between header and footer gives back exactly the pieces `Chunks` cuts the base64 text into |
| `Bundle.CrlPem` | src/utils.js:26 | the PEM for a downloaded body fails exactly when the body is empty, and is framed by header and footer otherwise |
| `Bundle.CrlPemRoundTrip` | src/utils.js:26 | the PEM made from a non-empty CRL body decodes back to exactly that body |
| `Bundle.Step` | src/utils.js:18-32 | each certificate appends its PEM to `pemCAs`, and outside production nothing else changes. In production: no `CN=` line throws; a CN missing from the table or mapped to `""` changes nothing else; otherwise the URL is appended to the fetched list, a failed download or an empty body throws with the CRLs and date unchanged, and a non-empty body appends its PEM to `pemCRLs` and folds that CRL's date into `shortestCRLDate` |
| `Bundle.Process` | src/utils.js:18-33 | the loop processes at most one certificate per input, all of them unless something throws and at least one if it does; it fetches at most one URL per certificate processed and keeps at most one CRL per fetch |
| `Bundle.ProcessAfterThrow` | src/utils.js:25 | once a certificate throws (a failed download or a missing CN), the remaining certificates change nothing |
| `Bundle.CreateCerts` | src/utils.js:13-46 | the loop over local lists gives exactly the outcome of the specification `CreateCertsSpec` |
| `Bundle.PemCAsInInputOrder` | src/utils.js:18-19 | `pemCAs` is the certificates' PEM text in input order, up to the one that threw; with no exception, it has every certificate's, in any environment |
| `Bundle.NonProductionSkipsCrls` | src/utils.js:21 | outside production no URL is fetched, no CRL is kept, the date stays unset and nothing throws |
| `Bundle.CrlsMatchDownloads` | src/utils.js:24-28 | each fetch either appends one CRL or throws; the k-th kept CRL is the PEM text of the non-empty body downloaded from the k-th fetched URL, and it decodes back to that body |
| `Bundle.FetchedInInputOrder` | src/utils.js:18-25 | the fetched URLs are, in input order, the table entries of the processed certificates that have a `CN=` line and a non-empty entry, in production only |
| `Bundle.ThrowsIffSomeCertThrows` | src/utils.js:23-26 | a run throws exactly when some certificate, in production, has no `CN=` line or has a table entry whose download fails or comes back empty |
| `Bundle.FirstFailureThrows` | src/utils.js:23-26 | a run that throws throws what the first such certificate throws, and processes no certificate after it |
| `Bundle.ShortestTracksCrls` | src/utils.js:28 | `shortestCRLDate` is always the reducer folded over the kept CRLs in the order they were kept |
| `Bundle.ShortestIsEarliest` | src/utils.js:16-28 | after the loop the date is unset exactly when no CRL was kept, and otherwise is the earliest next-update date among the kept CRLs |
| `Bundle.ShortestOrderIndependent` | src/utils.js:28 | two runs that keep the same CRLs in any order report the same shortest date |
| `Bundle.CasFileHoldsEveryCert` | src/utils.js:36-45 | the CA bundle is written exactly when the run does not throw and there are certificates, and it is their PEM text in input order; outside production no CRL file is written |

## Left out

- `NODE_TLS_REJECT_UNAUTHORIZED` (src/utils.js:1): process-wide environment setting with no effect on the logic.
- `fetch` and `Buffer.from` (src/utils.js:56-64): network I/O. The model uses the oracle `Config.download`. Because it is a function of the URL, two fetches of the same URL in one run give the same answer.
- The `jsrsasign` CRL parser (src/utils.js:79-82): a foreign ASN.1 library. The model uses the oracle `Config.nextUpdateOf`. A parser exception on malformed PEM is not modelled.
- `parseInt` on text that is not two digits (a `NaN` field): `ParseCRLDate` requires twelve leading digits.
- `CrlDate.Before`: does not model `Date.UTC` normalisation of out-of-range fields (src/utils.js:75). A date is the six parsed field values, compared field by field. Wherever a field is out of its calendar range, this order can disagree with the order of the instants `Date.UTC` makes, and can even reverse it. `240231000000` (31 February 2024, which `Date.UTC` turns into 2 March) comes before `240301000000` (1 March) in the model, but after it in the code. So when some CRL's `nextUpdate` has an out-of-range field, the earliest date the model reports (`ShortestNextUpdate`, `ShortestOf`, `ShortestIsEarliest`) can differ from the one the code reports. On dates with every field in its calendar range the two orders agree.
- `saveFile` / `fs.writeFile` (src/utils.js:48-54): file-system I/O, fire-and-forget. The model records only what would be written; write errors are not modelled.
- `console.log` / `console.warn` and `Date()` for log text (src/utils.js:30, 35-44): logging only.
- The contents of `crlDownloadAddresses` (`./crlDownloadList.js` is not part of this model): an injected map. Keys inherited from `Object.prototype` (such as `constructor`) are truthy in JavaScript and are not modelled.
- `async`/`await`: the run is a sequence of calls, which matches the source's sequential `await`s.
- `cert.toString()`: each certificate's PEM text is given as the `Cert.pem` field.
