# pkifind audit core in Dafny

pkifind lists the certificates issued by a Vault PKI mount. It keeps those
whose subject common name contains a search term. For each one it reports the
validity window, the listing key, whether the mount's CRL revokes it, and
whether it has expired. This project models the part of `main.go` that does
this work:

- the `match` record;
- the response check in `getCRL`, which runs before any decoding;
- the audit loop in `main`. It reads, checks and decodes each listed
  certificate, stopping at the first failure. It filters on the common name,
  scans the CRL for the certificate's serial, tests expiry, and appends one
  record per kept certificate.

Files:

- `Wrappers.dfy`: `Option` and `Result`.
- `Strings.dfy`: the two Go library functions the loop relies on.
  `Contains` models `strings.Contains`. `DecimalString` models
  `big.Int.String`, and is proved injective.
- `PkiFind.dfy`: the data model, the response check and decoding, the
  specification functions (`FetchAll`, `Kept`, `Matches`, `AuditSpec`), the
  lemmas, and the methods. `ScanRevoked` is the revocation scan, which loops
  and breaks early. `AuditCertificates` is the audit loop. `Run` is
  everything from `getCRL` onwards.

Modelling choices:

- Every Vault call is a `ReadOutcome`: the `*Secret` (nil or not) paired with
  the `error` (nil or not). A secret's data is abstracted to the value it
  carries. For the CRL and certificate reads that is the PEM text. For the
  list that is the sequence of keys.
- The per-certificate read is a parameter `fetch`, which maps a listing key
  to what reading `<ca>/cert/<key>` returned.
- Decoding is abstract. `PemText` records the block `pem.Decode` finds, if
  any. `DerBytes` records what the x509 parser returns for that block's bytes.
- Timestamps are integers. `main.go` calls `time.Now()` once for each kept
  certificate, so the clock is a parameter `clock`: `clock(i)` is the
  reading taken while processing the i-th listed certificate. Different
  records can therefore be judged against different instants.
- `log.Fatal` becomes a `Failure` result carrying the error.
- Serial numbers are integers. The loop compares their canonical decimal
  strings, as `main.go` does. `DecimalStringInjective` shows that this is
  integer equality.

Two behaviours of the code worth stating:

- A nil response with a transport error is reported as "no value found at
  ...". The transport error is never reported, because the nil check comes
  first.
- A record's `serial` field is the listing key string, not the decoded
  serial number.

## Model

| member | source | states |
|---|---|---|
| Strings.ContainsSpec | main.go:108 | `Contains(s, t)` holds exactly when `t` occurs in `s` at some offset (case-sensitive substring test) |
| Strings.EmptyContained | main.go:56 | the default empty search term is contained in every common name |
| Strings.DecimalStringInjective | main.go:111 | two serials have equal canonical decimal strings exactly when they are equal integers |
| PkiFind.CheckResponse | main.go:29-35 | a nil response gives "no value found at <path>" whatever the error is; a non-nil response with an error gives that error; only a non-nil response with no error succeeds, with that response's data |
| PkiFind.DecodePem | main.go:37-42 | no PEM block gives the no-block error; a parser failure gives the parser's error; success exactly when a block is found and parses, with the parsed value |
| PkiFind.DecodeCertificate | main.go:45-52 | no PEM block gives "failed to parse certificate"; a parser failure gives the parser's error; success exactly when a block is found and parses, with the parsed certificate |
| PkiFind.GetCRL | main.go:28-43 | nil CRL response gives "no value found at <ca>/cert/crl"; a transport error is returned; no PEM block gives "failed to decode crl"; a ParseCRL failure gives the parser's error; success exactly when the response is present and error-free and its PEM block parses, with the parsed CRL |
| PkiFind.FetchItemCases | main.go:95-106 | reading and decoding the certificate under a key gives, in this order of precedence: "no value found at <ca>/cert/<key>" for a nil secret, the backend error, "failed to parse certificate" for a missing PEM block, the parser's error; otherwise the parsed certificate |
| PkiFind.FetchAll | main.go:94-106 | on success every listed certificate was read and decoded, in listing order, one per key; on failure the error is that of the first key whose read or decode failed |
| PkiFind.Kept | main.go:108 | the kept indices are strictly increasing, in range, at most as many as the certificates, and include index i exactly when the term is a substring of certificate i's common name |
| PkiFind.MatchesAreKeptRecords | main.go:117-125 | the output has one record per kept certificate, and the j-th record is the record of the j-th kept certificate, so inventory order is preserved |
| PkiFind.RecordFields | main.go:117-124 | a record copies the common name, not-before and not-after, and the listing key; `revoked` holds exactly when some CRL entry has the same serial number; `expired` holds exactly when the clock reading is after not-after, so not-after equal to the reading is not expired |
| PkiFind.ExpiryFollowsClock | main.go:123 | each record's `expired` flag compares its own clock reading with its not-after; with a clock that never goes back, a later record whose not-after is no later than an expired record's is expired too |
| PkiFind.SameSerial | main.go:111 | the scan's comparison of canonical serial strings holds exactly when the two serial numbers are equal integers |
| PkiFind.RevokedByCanonicalString | main.go:109-115 | some CRL entry has a serial equal to the certificate's as an integer exactly when some entry has the same canonical serial string |
| PkiFind.RevokedIgnoresOrderAndDuplicates | main.go:110-114 | two CRLs holding the same entries, in any order and with any repetition, give the same revoked flag |
| PkiFind.EmptyTermKeepsAll | main.go:108 | with the empty term the output has one record per certificate, the i-th record being certificate i's |
| PkiFind.FailFast | main.go:95-106 | if key i is the first whose read or decode fails, the run fails with that error, whatever matched before it |
| PkiFind.AuditSucceedsIff | main.go:93-126 | the audit succeeds exactly when every listed certificate can be read and decoded, and then yields at most one record per listed certificate |
| PkiFind.ScanRevoked | main.go:109-115 | the scan, which stops at the first match, returns true exactly when some CRL entry carries the serial number |
| PkiFind.ReadCertificate | main.go:95-106 | one iteration's read, response check and decode give exactly `FetchItem`'s outcome |
| PkiFind.AppendIfSelected | main.go:108-125 | one iteration's filter step appends the certificate's record, with the scan's revoked flag and the expiry test against this iteration's clock reading, exactly when the term is in its common name, and otherwise leaves the output unchanged |
| PkiFind.AuditCertificates | main.go:93-126 | the loop's result equals `AuditSpec`: the first per-item error, or the records of the kept certificates in order |
| PkiFind.Run | main.go:79-126 | a CRL failure is returned first, then a failure of the certificate listing, otherwise the audit loop's result over the listed keys |

## Left out

- Vault client setup: `DefaultConfig`, `ReadEnvironment`, the address and token overrides, `NewClient` and `LookupSelf` (main.go:61-77). These are network and process configuration. `Run` starts after them.
- Command-line flags (main.go:55-59). Their values are the parameters `ca` and `term`.
- PEM decoding and X.509 certificate and CRL parsing. These are standard-library parsers whose source is not part of this model. A payload is described by what they return.
- `time.Now()`. It is wall-clock time, so its readings are the parameter `clock`, one per loop position. The `time.Time` representation (nanoseconds, location, monotonic reading) is reduced to one integer scale.
- JSON encoding of the result to standard output (main.go:128-132). This is serialisation and I/O.
- The type assertions `r.Data["certificate"].(string)`, `r.Data["keys"].([]interface{})` and `serial.(string)` panic on unexpected data. The model's read outcomes always carry data of the right shape, so these panics cannot occur in it.
- PkiFind.AuditCertificates: `fetch` is a function of the key, so a key listed twice is modelled as reading the same outcome twice. Vault could answer the two reads differently.
- The process exit of `log.Fatal`. It is an error result.
