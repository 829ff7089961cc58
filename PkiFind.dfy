/**
 * pkifind: list the certificates a Vault PKI mount has issued whose subject
 * common name contains a search term, each with its validity window, its
 * listing key, whether the mount's CRL revokes it and whether it has expired.
 *
 * Vault I/O is abstract: every backend read is a ReadOutcome, the value of a
 * Go call returning (*Secret, error). PEM and X.509 decoding are abstract too:
 * a payload is described by what pem.Decode and the x509 parser make of it.
 * Timestamps are integers on one time scale. The loop reads the clock once
 * per kept certificate; `clock(i)` is the reading taken while processing the
 * i-th listed certificate.
 */
module PkiFind {
  import opened Wrappers
  import opened Strings

  // ---------------------------------------------------------------- data model

  /** A decoded X.509 certificate: the fields the audit reads. */
  datatype Certificate = Certificate(
    commonName: string,
    notBefore: int,
    notAfter: int,
    serialNumber: int)

  /** One entry of a CRL's revokedCertificates list. */
  datatype RevokedCertificate = RevokedCertificate(serialNumber: int)

  /** A decoded CRL, reduced to its revoked entries in the order listed. */
  datatype CertificateList = CertificateList(revokedCertificates: seq<RevokedCertificate>)

  /** The `match` record emitted per selected certificate. */
  datatype Match = Match(
    commonName: string,
    validFrom: int,
    validUntil: int,
    serial: string,
    revoked: bool,
    expired: bool)

  /** The errors that end a run through log.Fatal. */
  datatype Error =
    | NoValueFound(path: string)      // the backend returned a nil secret
    | BackendError(message: string)   // the backend returned an error
    | PemNotFound(message: string)    // pem.Decode found no PEM block
    | X509Error(message: string)      // the x509 parser rejected the DER bytes

  const CRL_PEM_MESSAGE := "failed to decode crl"
  const CERT_PEM_MESSAGE := "failed to parse certificate"

  /** A backend read: the secret (nil or not) and the error (nil or not). */
  datatype ReadOutcome<T> = ReadOutcome(response: Option<T>, err: Option<string>)

  /** DER bytes, described by what the x509 parser returns for them. */
  datatype DerBytes<T> = DerBytes(parsed: Result<T, string>)

  /** PEM text, described by the first block pem.Decode finds in it, if any. */
  datatype PemText<T> = PemText(block: Option<DerBytes<T>>)

  // ------------------------------------------------------ backend and decoding

  /**
   * The response check used for every backend call: a nil secret is
   * reported as "no value found" before the error is looked at.
   */
  function CheckResponse<T>(path: string, read: ReadOutcome<T>): (r: Result<T, Error>)
    ensures read.response.None? ==> r == Failure(NoValueFound(path))
    ensures read.response.Some? && read.err.Some? ==> r == Failure(BackendError(read.err.value))
    ensures r.Success? <==> read.response.Some? && read.err.None?
    ensures r.Success? ==> r.value == read.response.value
  {
    match read.response
    case None => Failure(NoValueFound(path))
    case Some(secret) =>
      if read.err.Some? then Failure(BackendError(read.err.value)) else Success(secret)
  }

  /** pem.Decode followed by an x509 parser; `missing` is the no-block message. */
  function DecodePem<T>(text: PemText<T>, missing: string): (r: Result<T, Error>)
    ensures text.block.None? ==> r == Failure(PemNotFound(missing))
    ensures text.block.Some? && text.block.value.parsed.Failure? ==>
              r == Failure(X509Error(text.block.value.parsed.error))
    ensures r.Success? <==> text.block.Some? && text.block.value.parsed.Success?
    ensures r.Success? ==> r.value == text.block.value.parsed.value
  {
    match text.block
    case None => Failure(PemNotFound(missing))
    case Some(der) =>
      match der.parsed
      case Success(v) => Success(v)
      case Failure(m) => Failure(X509Error(m))
  }

  /** decodeCertificate. */
  function DecodeCertificate(text: PemText<Certificate>): (r: Result<Certificate, Error>)
    ensures text.block.None? ==> r == Failure(PemNotFound(CERT_PEM_MESSAGE))
    ensures text.block.Some? && text.block.value.parsed.Failure? ==>
              r == Failure(X509Error(text.block.value.parsed.error))
    ensures r.Success? <==> text.block.Some? && text.block.value.parsed.Success?
    ensures r.Success? ==> r.value == text.block.value.parsed.value
  {
    DecodePem(text, CERT_PEM_MESSAGE)
  }

  /** getCRL, given what the read of `<ca>/cert/crl` returned. */
  function GetCRL(ca: string, read: ReadOutcome<PemText<CertificateList>>): (r: Result<CertificateList, Error>)
    ensures read.response.None? ==> r == Failure(NoValueFound(ca + "/cert/crl"))
    ensures read.response.Some? && read.err.Some? ==> r == Failure(BackendError(read.err.value))
    ensures read.response.Some? && read.err.None? && read.response.value.block.None? ==>
              r == Failure(PemNotFound(CRL_PEM_MESSAGE))
    ensures read.response.Some? && read.err.None? && read.response.value.block.Some? &&
            read.response.value.block.value.parsed.Failure? ==>
              r == Failure(X509Error(read.response.value.block.value.parsed.error))
    ensures r.Success? <==>
              read.response.Some? && read.err.None? &&
              read.response.value.block.Some? && read.response.value.block.value.parsed.Success?
    ensures r.Success? ==> r.value == read.response.value.block.value.parsed.value
  {
    match CheckResponse(ca + "/cert/crl", read)
    case Failure(e) => Failure(e)
    case Success(text) => DecodePem(text, CRL_PEM_MESSAGE)
  }

  /**
   * The serial comparison of the revocation scan: equal canonical strings,
   * which is equality of the serial numbers.
   */
  function SameSerial(a: int, b: int): (same: bool)
    ensures same <==> a == b
  {
    DecimalStringInjective(a, b);
    DecimalString(a) == DecimalString(b)
  }

  /** The Vault path a certificate is read from. */
  function CertPath(ca: string, key: string): (path: string)
  {
    ca + "/cert/" + key
  }

  /** Reading and decoding the certificate listed under `key` (one loop iteration's fallible part). */
  function FetchItem(ca: string, key: string, fetch: string -> ReadOutcome<PemText<Certificate>>)
    : (r: Result<Certificate, Error>)
  {
    match CheckResponse(CertPath(ca, key), fetch(key))
    case Failure(e) => Failure(e)
    case Success(text) => DecodeCertificate(text)
  }

  /**
   * One listed certificate's read and decode, case by case: a nil secret,
   * then a backend error, then a missing PEM block, then a parser error;
   * otherwise the parsed certificate.
   */
  lemma FetchItemCases(ca: string, key: string, fetch: string -> ReadOutcome<PemText<Certificate>>)
    ensures fetch(key).response.None? ==> FetchItem(ca, key, fetch) == Failure(NoValueFound(CertPath(ca, key)))
    ensures fetch(key).response.Some? && fetch(key).err.Some? ==>
              FetchItem(ca, key, fetch) == Failure(BackendError(fetch(key).err.value))
    ensures fetch(key).response.Some? && fetch(key).err.None? && fetch(key).response.value.block.None? ==>
              FetchItem(ca, key, fetch) == Failure(PemNotFound(CERT_PEM_MESSAGE))
    ensures fetch(key).response.Some? && fetch(key).err.None? && fetch(key).response.value.block.Some? &&
            fetch(key).response.value.block.value.parsed.Failure? ==>
              FetchItem(ca, key, fetch) == Failure(X509Error(fetch(key).response.value.block.value.parsed.error))
    ensures FetchItem(ca, key, fetch).Success? <==>
              fetch(key).response.Some? && fetch(key).err.None? &&
              fetch(key).response.value.block.Some? && fetch(key).response.value.block.value.parsed.Success?
    ensures FetchItem(ca, key, fetch).Success? ==>
              FetchItem(ca, key, fetch).value == fetch(key).response.value.block.value.parsed.value
  {
  }

  // ------------------------------------------------------------- specification

  /** Some entry of the CRL carries this serial number. */
  ghost predicate Revoked(serial: int, crl: CertificateList)
  {
    exists k :: 0 <= k < |crl.revokedCertificates| && crl.revokedCertificates[k].serialNumber == serial
  }

  /** The record the loop builds for certificate `c` listed under `key`, when the clock reads `now`. */
  ghost function Record(key: string, c: Certificate, crl: CertificateList, now: int): (m: Match)
  {
    Match(c.commonName, c.notBefore, c.notAfter, key,
          Revoked(c.serialNumber, crl), now > c.notAfter)
  }

  /** Is the certificate kept by the common-name filter? */
  predicate Selected(c: Certificate, term: string)
  {
    Contains(c.commonName, term)
  }

  /**
   * Fetch and decode every listed certificate in order; the first failure
   * is the result.
   */
  ghost function FetchAll(ca: string, keys: seq<string>, fetch: string -> ReadOutcome<PemText<Certificate>>)
    : (r: Result<seq<Certificate>, Error>)
    ensures r.Success? ==>
              |r.value| == |keys| &&
              forall i :: 0 <= i < |keys| ==> FetchItem(ca, keys[i], fetch) == Success(r.value[i])
    ensures r.Failure? ==>
              exists i :: 0 <= i < |keys| && FetchItem(ca, keys[i], fetch) == Failure(r.error) &&
                          forall j :: 0 <= j < i ==> FetchItem(ca, keys[j], fetch).Success?
    decreases |keys|
  {
    if keys == [] then Success([])
    else
      match FetchItem(ca, keys[0], fetch)
      case Failure(e) => Failure(e)
      case Success(c) =>
        match FetchAll(ca, keys[1..], fetch)
        case Failure(e) => Failure(e)
        case Success(cs) => Success([c] + cs)
  }

  /** The indices of the certificates the filter keeps, in increasing order. */
  ghost function Kept(certs: seq<Certificate>, term: string): (idx: seq<nat>)
    ensures |idx| <= |certs|
    ensures forall j :: 0 <= j < |idx| ==> idx[j] < |certs|
    ensures forall j, k :: 0 <= j < k < |idx| ==> idx[j] < idx[k]
    ensures forall i :: 0 <= i < |certs| ==> (i in idx <==> Selected(certs[i], term))
    decreases |certs|
  {
    if certs == [] then []
    else
      var n := |certs| - 1;
      Kept(certs[..n], term) + (if Selected(certs[n], term) then [n] else [])
  }

  /** The records of the kept certificates, in inventory order. */
  ghost function Matches(keys: seq<string>, certs: seq<Certificate>, crl: CertificateList, term: string, clock: nat -> int)
    : (out: seq<Match>)
    requires |keys| == |certs|
    ensures |out| == |Kept(certs, term)|
    decreases |certs|
  {
    if certs == [] then []
    else
      var n := |certs| - 1;
      Matches(keys[..n], certs[..n], crl, term, clock) +
      (if Selected(certs[n], term) then [Record(keys[n], certs[n], crl, clock(n))] else [])
  }

  /** What the audit loop produces: all certificates decoded, then filtered. */
  ghost function AuditSpec(
    ca: string, crl: CertificateList, keys: seq<string>,
    fetch: string -> ReadOutcome<PemText<Certificate>>, term: string, clock: nat -> int)
    : (r: Result<seq<Match>, Error>)
  {
    match FetchAll(ca, keys, fetch)
    case Failure(e) => Failure(e)
    case Success(certs) => Success(Matches(keys, certs, crl, term, clock))
  }

  // ------------------------------------------------------------------- lemmas

  /**
   * The output is exactly the record of each kept certificate, in order:
   * the j-th record belongs to the j-th kept index, copies that
   * certificate's fields and its listing key, and carries its flags.
   */
  lemma {:induction false} MatchesAreKeptRecords(
    keys: seq<string>, certs: seq<Certificate>, crl: CertificateList, term: string, clock: nat -> int)
    requires |keys| == |certs|
    ensures |Matches(keys, certs, crl, term, clock)| == |Kept(certs, term)|
    ensures forall j :: 0 <= j < |Kept(certs, term)| ==>
              Matches(keys, certs, crl, term, clock)[j] ==
              Record(keys[Kept(certs, term)[j]], certs[Kept(certs, term)[j]], crl, clock(Kept(certs, term)[j]))
    decreases |certs|
  {
    if certs != [] {
      var n := |certs| - 1;
      var keys0, certs0 := keys[..n], certs[..n];
      MatchesAreKeptRecords(keys0, certs0, crl, term, clock);
      var idx0, out0 := Kept(certs0, term), Matches(keys0, certs0, crl, term, clock);
      var idx, out := Kept(certs, term), Matches(keys, certs, crl, term, clock);
      var last := if Selected(certs[n], term) then [Record(keys[n], certs[n], crl, clock(n))] else [];
      assert idx == idx0 + (if Selected(certs[n], term) then [n] else []);
      assert out == out0 + last;
      forall j | 0 <= j < |idx|
        ensures out[j] == Record(keys[idx[j]], certs[idx[j]], crl, clock(idx[j]))
      {
        if j < |idx0| {
          var i := idx0[j];
          assert idx[j] == i && i < n;
          assert out[j] == out0[j] == Record(keys0[i], certs0[i], crl, clock(i));
          assert keys0[i] == keys[i] && certs0[i] == certs[i];
        }
      }
    }
  }

  /** A record's fields, stated field by field. */
  lemma RecordFields(key: string, c: Certificate, crl: CertificateList, now: int)
    ensures Record(key, c, crl, now).commonName == c.commonName
    ensures Record(key, c, crl, now).validFrom == c.notBefore
    ensures Record(key, c, crl, now).validUntil == c.notAfter
    ensures Record(key, c, crl, now).serial == key
    ensures Record(key, c, crl, now).revoked <==>
              exists rc :: rc in crl.revokedCertificates && rc.serialNumber == c.serialNumber
    ensures Record(key, c, crl, now).expired <==> now > c.notAfter
    ensures c.notAfter == now ==> !Record(key, c, crl, now).expired
  {
    if exists rc :: rc in crl.revokedCertificates && rc.serialNumber == c.serialNumber {
      var rc :| rc in crl.revokedCertificates && rc.serialNumber == c.serialNumber;
      var k :| 0 <= k < |crl.revokedCertificates| && crl.revokedCertificates[k] == rc;
    }
  }

  /**
   * Comparing canonical serial strings, as the loop does, decides the same
   * thing as comparing the serial numbers as integers.
   */
  lemma RevokedByCanonicalString(serial: int, crl: CertificateList)
    ensures Revoked(serial, crl) <==>
              exists k :: 0 <= k < |crl.revokedCertificates| &&
                          DecimalString(serial) == DecimalString(crl.revokedCertificates[k].serialNumber)
  {
    forall k | 0 <= k < |crl.revokedCertificates|
      ensures DecimalString(serial) == DecimalString(crl.revokedCertificates[k].serialNumber) <==>
              serial == crl.revokedCertificates[k].serialNumber
    {
      DecimalStringInjective(serial, crl.revokedCertificates[k].serialNumber);
    }
  }

  /**
   * The revoked flag depends only on which entries the CRL holds, not on
   * their order or on repeated entries.
   */
  lemma RevokedIgnoresOrderAndDuplicates(serial: int, a: CertificateList, b: CertificateList)
    requires forall rc :: rc in a.revokedCertificates <==> rc in b.revokedCertificates
    ensures Revoked(serial, a) <==> Revoked(serial, b)
  {
    if Revoked(serial, a) {
      var k :| 0 <= k < |a.revokedCertificates| && a.revokedCertificates[k].serialNumber == serial;
      assert a.revokedCertificates[k] in b.revokedCertificates;
    }
    if Revoked(serial, b) {
      var k :| 0 <= k < |b.revokedCertificates| && b.revokedCertificates[k].serialNumber == serial;
      assert b.revokedCertificates[k] in a.revokedCertificates;
    }
  }

  /** An empty search term keeps every certificate, each in its own place. */
  lemma EmptyTermKeepsAll(keys: seq<string>, certs: seq<Certificate>, crl: CertificateList, clock: nat -> int)
    requires |keys| == |certs|
    ensures |Matches(keys, certs, crl, "", clock)| == |certs|
    ensures forall i :: 0 <= i < |certs| ==>
              Matches(keys, certs, crl, "", clock)[i] == Record(keys[i], certs[i], crl, clock(i))
  {
    forall i | 0 <= i < |certs|
      ensures Selected(certs[i], "")
    {
      EmptyContained(certs[i].commonName);
    }
    KeptAll(certs, "");
    MatchesAreKeptRecords(keys, certs, crl, "", clock);
  }

  /** When every certificate is selected, the kept indices are 0, 1, ..., n-1. */
  lemma {:induction false} KeptAll(certs: seq<Certificate>, term: string)
    requires forall i :: 0 <= i < |certs| ==> Selected(certs[i], term)
    ensures |Kept(certs, term)| == |certs|
    ensures forall i :: 0 <= i < |certs| ==> Kept(certs, term)[i] == i
    decreases |certs|
  {
    if certs != [] {
      var n := |certs| - 1;
      assert forall i :: 0 <= i < n ==> certs[..n][i] == certs[i];
      KeptAll(certs[..n], term);
    }
  }

  /**
   * Each kept certificate is judged against its own clock reading. With a
   * clock that never goes back, once a record is flagged expired, every later
   * record with the same or an earlier not-after is flagged expired too.
   */
  lemma {:induction false} ExpiryFollowsClock(
    keys: seq<string>, certs: seq<Certificate>, crl: CertificateList, term: string, clock: nat -> int,
    j: nat, l: nat)
    requires |keys| == |certs|
    requires forall a: nat, b: nat :: a <= b ==> clock(a) <= clock(b)
    requires j < l < |Matches(keys, certs, crl, term, clock)|
    ensures Matches(keys, certs, crl, term, clock)[j].expired <==>
              clock(Kept(certs, term)[j]) > Matches(keys, certs, crl, term, clock)[j].validUntil
    ensures Matches(keys, certs, crl, term, clock)[j].expired &&
            Matches(keys, certs, crl, term, clock)[l].validUntil <=
            Matches(keys, certs, crl, term, clock)[j].validUntil ==>
              Matches(keys, certs, crl, term, clock)[l].expired
  {
    MatchesAreKeptRecords(keys, certs, crl, term, clock);
    var idx := Kept(certs, term);
    assert idx[j] < idx[l];
    assert clock(idx[j]) <= clock(idx[l]);
  }

  /**
   * Fail fast: when the i-th listed certificate is the first that cannot be
   * read or decoded, the run ends with its error, whatever matched before.
   */
  lemma FailFast(
    ca: string, crl: CertificateList, keys: seq<string>,
    fetch: string -> ReadOutcome<PemText<Certificate>>, term: string, clock: nat -> int, i: nat)
    requires i < |keys|
    requires FetchItem(ca, keys[i], fetch).Failure?
    requires forall j :: 0 <= j < i ==> FetchItem(ca, keys[j], fetch).Success?
    ensures AuditSpec(ca, crl, keys, fetch, term, clock) == Failure(FetchItem(ca, keys[i], fetch).error)
  {
    var r := FetchAll(ca, keys, fetch);
    if r.Failure? {
      var p :| 0 <= p < |keys| && FetchItem(ca, keys[p], fetch) == Failure(r.error) &&
               forall j :: 0 <= j < p ==> FetchItem(ca, keys[j], fetch).Success?;
      assert p == i;
    }
  }

  /** A run succeeds exactly when every listed certificate is read and decoded. */
  lemma AuditSucceedsIff(
    ca: string, crl: CertificateList, keys: seq<string>,
    fetch: string -> ReadOutcome<PemText<Certificate>>, term: string, clock: nat -> int)
    ensures AuditSpec(ca, crl, keys, fetch, term, clock).Success? <==>
              forall i :: 0 <= i < |keys| ==> FetchItem(ca, keys[i], fetch).Success?
    ensures AuditSpec(ca, crl, keys, fetch, term, clock).Success? ==>
              |AuditSpec(ca, crl, keys, fetch, term, clock).value| <= |keys|
  {
    var r := FetchAll(ca, keys, fetch);
    if r.Success? {
      MatchesAreKeptRecords(keys, r.value, crl, term, clock);
    }
  }

  /** Matches grows by at most the record of the next certificate. */
  lemma MatchesSnoc(
    keys: seq<string>, certs: seq<Certificate>, c: Certificate, crl: CertificateList, term: string,
    clock: nat -> int)
    requires |certs| < |keys|
    ensures Matches(keys[..|certs| + 1], certs + [c], crl, term, clock) ==
              Matches(keys[..|certs|], certs, crl, term, clock) +
              (if Selected(c, term) then [Record(keys[|certs|], c, crl, clock(|certs|))] else [])
  {
    var i := |certs|;
    assert keys[..i + 1][..i] == keys[..i];
    assert (certs + [c])[..i] == certs;
  }

  /** When every listed certificate reads and decodes, FetchAll yields exactly those certificates. */
  lemma FetchAllSucceeds(
    ca: string, keys: seq<string>, fetch: string -> ReadOutcome<PemText<Certificate>>, certs: seq<Certificate>)
    requires |certs| == |keys|
    requires forall j :: 0 <= j < |keys| ==> FetchItem(ca, keys[j], fetch) == Success(certs[j])
    ensures FetchAll(ca, keys, fetch) == Success(certs)
  {
    var all := FetchAll(ca, keys, fetch);
    assert all.Success?;
    assert all.value == certs;
  }

  // ------------------------------------------------------------------ methods

  /** The revocation scan: walk the CRL entries, stop at the first equal serial. */
  method ScanRevoked(serial: int, crl: CertificateList) returns (rev: bool)
    ensures rev <==> Revoked(serial, crl)
  {
    var entries := crl.revokedCertificates;
    rev := false;
    for k := 0 to |entries|
      invariant forall j :: 0 <= j < k ==> entries[j].serialNumber != serial
    {
      if SameSerial(serial, entries[k].serialNumber) {
        rev := true;
        break;
      }
    }
  }

  /**
   * The fallible half of one loop iteration: read `<ca>/cert/<key>`, check
   * the response, decode the certificate.
   */
  method ReadCertificate(ca: string, key: string, fetch: string -> ReadOutcome<PemText<Certificate>>)
    returns (r: Result<Certificate, Error>)
    ensures r == FetchItem(ca, key, fetch)
  {
    var checked := CheckResponse(CertPath(ca, key), fetch(key));
    if checked.Failure? {
      return Failure(checked.error);
    }
    r := DecodeCertificate(checked.value);
  }

  /**
   * The filtering half of one loop iteration: if the common name contains
   * the term, scan the CRL, read the clock and append the record.
   */
  method AppendIfSelected(
    out: seq<Match>, key: string, c: Certificate, crl: CertificateList, term: string,
    clock: nat -> int, i: nat)
    returns (out': seq<Match>)
    ensures out' == out + (if Selected(c, term) then [Record(key, c, crl, clock(i))] else [])
  {
    out' := out;
    if Contains(c.commonName, term) {
      var rev := ScanRevoked(c.serialNumber, crl);
      var now := clock(i);
      out' := out + [Match(c.commonName, c.notBefore, c.notAfter, key, rev, now > c.notAfter)];
    }
  }

  /**
   * The audit loop: read, check and decode each listed certificate in
   * order, aborting on the first failure; append a record for each one
   * whose common name contains the term.
   */
  method AuditCertificates(
    ca: string, crl: CertificateList, keys: seq<string>,
    fetch: string -> ReadOutcome<PemText<Certificate>>, term: string, clock: nat -> int)
    returns (res: Result<seq<Match>, Error>)
    ensures res == AuditSpec(ca, crl, keys, fetch, term, clock)
  {
    var out: seq<Match> := [];
    ghost var certs: seq<Certificate> := [];
    for i := 0 to |keys|
      invariant |certs| == i
      invariant forall j :: 0 <= j < i ==> FetchItem(ca, keys[j], fetch) == Success(certs[j])
      invariant out == Matches(keys[..i], certs, crl, term, clock)
    {
      var key := keys[i];
      var decoded := ReadCertificate(ca, key, fetch);
      if decoded.Failure? {
        FailFast(ca, crl, keys, fetch, term, clock, i);
        return Failure(decoded.error);
      }
      var c := decoded.value;
      out := AppendIfSelected(out, key, c, crl, term, clock, i);
      MatchesSnoc(keys, certs, c, crl, term, clock);
      certs := certs + [c];
    }
    assert keys[..|keys|] == keys;
    FetchAllSucceeds(ca, keys, fetch, certs);
    res := Success(out);
  }

  /**
   * A whole run after the client is set up: fetch the CRL, list the
   * certificate keys, then run the audit loop.
   */
  method Run(
    ca: string,
    crlRead: ReadOutcome<PemText<CertificateList>>,
    listRead: ReadOutcome<seq<string>>,
    fetch: string -> ReadOutcome<PemText<Certificate>>,
    term: string, clock: nat -> int)
    returns (res: Result<seq<Match>, Error>)
    ensures GetCRL(ca, crlRead).Failure? ==> res == Failure(GetCRL(ca, crlRead).error)
    ensures GetCRL(ca, crlRead).Success? && CheckResponse(ca + "/certs", listRead).Failure? ==>
              res == Failure(CheckResponse(ca + "/certs", listRead).error)
    ensures GetCRL(ca, crlRead).Success? && CheckResponse(ca + "/certs", listRead).Success? ==>
              res == AuditSpec(ca, GetCRL(ca, crlRead).value, listRead.response.value, fetch, term, clock)
  {
    var crl := GetCRL(ca, crlRead);
    if crl.Failure? {
      return Failure(crl.error);
    }
    var listed := CheckResponse(ca + "/certs", listRead);
    if listed.Failure? {
      return Failure(listed.error);
    }
    res := AuditCertificates(ca, crl.value, listed.value, fetch, term, clock);
  }
}
