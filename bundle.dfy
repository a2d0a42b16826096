/** `createCerts` (src/utils.js:13-46): one pass over the CA certificates that collects
    their PEM text and, in production, downloads each CA's CRL, frames it as PEM and
    keeps the earliest next-update date. The network, the CRL parser and the file
    system are oracles or are left out; the loop itself is `CreateCerts`, proved equal
    to the specification `Process`. */
module Bundle {
  import opened Wrappers
  import opened JsString
  import Base64
  import Pem
  import CrlDate
  import opened Subject

  const Production: string := "production"

  /** What `createCerts` depends on besides its certificates: the `environment`
      argument, the `crlDownloadAddresses` table, `downloadCRL` (the response body,
      or the status text of a response that is not ok) and the CRL parser's
      `getNextUpdate` on a PEM CRL. */
  datatype Config = Config(
    environment: string,
    addresses: map<string, string>,
    download: string -> Result<seq<Base64.Byte>, string>,
    nextUpdateOf: string -> string)

  /** The CRL parser always yields `UTCTime` text. */
  ghost predicate ValidConfig(cfg: Config)
  {
    forall pem :: CrlDate.IsUtcTimeText(cfg.nextUpdateOf(pem))
  }

  /** The exceptions that escape `createCerts`. */
  datatype Failure =
    | NoCommonName(subject: string)   // `.substring` of `undefined` (line 23)
    | DownloadFailed(statusText: string)   // thrown by `downloadCRL` (lines 58-60)
    | EmptyCrlBody(url: string)   // `.join` of `null` (line 26)

  /** The loop's variables, the URLs fetched so far, and the exception thrown, if any. */
  datatype LoopState = LoopState(
    pemCAs: seq<string>,
    pemCRLs: seq<string>,
    shortestCRLDate: Option<CrlDate.Timestamp>,
    fetched: seq<string>,
    thrown: Option<Failure>)

  const Start: LoopState := LoopState([], [], None, [], None)

  /** `if (crlDownloadAddresses[cn])`: the address of a CA, when the table has a
      non-empty one. */
  function LookupUrl(addresses: map<string, string>, cn: string): Option<string>
  {
    if cn in addresses && addresses[cn] != "" then Some(addresses[cn]) else None
  }

  /** The PEM text of each certificate, in order. */
  function Pems(certs: seq<Cert>): seq<string>
  {
    seq(|certs|, k requires 0 <= k < |certs| => certs[k].pem)
  }

  /** The PEM text for a downloaded CRL body; `None` for the exception of an empty body. */
  function CrlPem(body: seq<Base64.Byte>): (pem: Option<string>)
    ensures pem.None? <==> body == []
    ensures pem.Some? ==> StartsWith(pem.value, Pem.Header) && EndsWith(pem.value, Pem.Footer)
  {
    var b64 := Base64.Encode(body);
    Pem.Base64HasNoLineTerminator(b64);
    Pem.WrapCrl(b64)
  }

  /** One iteration of the loop, on a state where nothing was thrown. Every
      certificate's PEM is appended to `pemCAs`; outside production nothing else
      changes. In production a subject without a `CN=` line throws; a CA whose
      address is missing or empty is skipped; otherwise its URL is fetched, and a
      failed download or an empty body throws with the CRLs and the date as they
      were, while a non-empty body is appended as PEM and folded into the date. */
  function Step(st: LoopState, cert: Cert, cfg: Config): (next: LoopState)
    requires ValidConfig(cfg)
    requires st.thrown.None?
    ensures next.pemCAs == st.pemCAs + [cert.pem]
    ensures cfg.environment != Production ==> next == st.(pemCAs := st.pemCAs + [cert.pem])
    ensures cfg.environment == Production ==>
      var st1 := st.(pemCAs := st.pemCAs + [cert.pem]);
      match ExtractCN(cert.subject)
      case None => next == st1.(thrown := Some(NoCommonName(cert.subject)))
      case Some(cn) =>
        if cn !in cfg.addresses || cfg.addresses[cn] == "" then next == st1
        else
          var url := cfg.addresses[cn];
          match cfg.download(url)
          case Failure(status) =>
            next == st1.(fetched := st.fetched + [url], thrown := Some(DownloadFailed(status)))
          case Success(body) =>
            if body == [] then
              next == st1.(fetched := st.fetched + [url], thrown := Some(EmptyCrlBody(url)))
            else
              && CrlPem(body).Some?
              && next == st1.(fetched := st.fetched + [url],
                   pemCRLs := st.pemCRLs + [CrlPem(body).value],
                   shortestCRLDate :=
                     Some(CrlDate.ShortestNextUpdate(st.shortestCRLDate, CrlPem(body).value, cfg.nextUpdateOf)))
  {
    var st1 := st.(pemCAs := st.pemCAs + [cert.pem]);
    if cfg.environment != Production then
      st1
    else
      match ExtractCN(cert.subject)
      case None => st1.(thrown := Some(NoCommonName(cert.subject)))
      case Some(cn) =>
        match LookupUrl(cfg.addresses, cn)
        case None => st1
        case Some(url) =>
          var st2 := st1.(fetched := st1.fetched + [url]);
          match cfg.download(url)
          case Failure(status) => st2.(thrown := Some(DownloadFailed(status)))
          case Success(body) =>
            match CrlPem(body)
            case None => st2.(thrown := Some(EmptyCrlBody(url)))
            case Some(pemCrl) =>
              st2.(pemCRLs := st2.pemCRLs + [pemCrl],
                   shortestCRLDate := Some(CrlDate.ShortestNextUpdate(st2.shortestCRLDate, pemCrl, cfg.nextUpdateOf)))
  }

  /** The loop's state after the certificates `certs`, in order; once an exception is
      thrown the remaining certificates are not looked at. */
  function Process(certs: seq<Cert>, cfg: Config): (st: LoopState)
    requires ValidConfig(cfg)
    ensures |st.pemCAs| <= |certs|
    ensures st.thrown.None? ==> |st.pemCAs| == |certs|
    ensures st.thrown.Some? ==> |st.pemCAs| >= 1
    ensures |st.pemCRLs| <= |st.fetched| <= |st.pemCAs|
    decreases |certs|
  {
    if certs == [] then Start
    else
      var st := Process(certs[..|certs| - 1], cfg);
      if st.thrown.Some? then st else Step(st, certs[|certs| - 1], cfg)
  }

  /** The URL the loop fetches for `cert`, if it fetches one: in production, for a
      subject with a `CN=` line whose CA has a non-empty address. */
  function FetchUrl(cert: Cert, cfg: Config): Option<string>
  {
    if cfg.environment != Production then None
    else
      match ExtractCN(cert.subject)
      case None => None
      case Some(cn) => LookupUrl(cfg.addresses, cn)
  }

  /** The URLs fetched for `certs` when none of them throws, in input order. */
  function FetchUrls(certs: seq<Cert>, cfg: Config): seq<string>
    decreases |certs|
  {
    if certs == [] then []
    else
      FetchUrls(certs[..|certs| - 1], cfg)
        + match FetchUrl(certs[|certs| - 1], cfg) case None => [] case Some(url) => [url]
  }

  /** The exception the loop throws on `cert`, if any: in production, a subject
      without a `CN=` line, and for a fetched URL a failed download or an empty
      body. */
  function ThrownBy(cert: Cert, cfg: Config): Option<Failure>
  {
    if cfg.environment != Production then None
    else
      match ExtractCN(cert.subject)
      case None => Some(NoCommonName(cert.subject))
      case Some(cn) =>
        match LookupUrl(cfg.addresses, cn)
        case None => None
        case Some(url) =>
          match cfg.download(url)
          case Failure(status) => Some(DownloadFailed(status))
          case Success(body) => if body == [] then Some(EmptyCrlBody(url)) else None
  }

  /** What a run leaves behind: the final state and the contents written to
      `./certs/cas.pem` and `./certs/crls.pem` (`None` when that file is not
      written). */
  datatype Outcome = Outcome(state: LoopState, casFile: Option<string>, crlsFile: Option<string>)

  /** Lines 35-45: each file is written only when its list is non-empty, and neither
      is written when an exception escaped the loop. */
  function Finish(st: LoopState): Outcome
  {
    if st.thrown.Some? then Outcome(st, None, None)
    else
      Outcome(st,
        if st.pemCAs != [] then Some(Join(st.pemCAs, "")) else None,
        if st.pemCRLs != [] then Some(Join(st.pemCRLs, "")) else None)
  }

  /** `createCerts` as a whole. */
  function CreateCertsSpec(certs: seq<Cert>, cfg: Config): Outcome
    requires ValidConfig(cfg)
  {
    Finish(Process(certs, cfg))
  }

  /** Once an exception has been thrown by a prefix of the certificates, the rest
      change nothing: no later certificate is processed. */
  lemma {:induction false} ProcessAfterThrow(certs: seq<Cert>, i: nat, cfg: Config)
    requires ValidConfig(cfg)
    requires i <= |certs|
    requires Process(certs[..i], cfg).thrown.Some?
    ensures Process(certs, cfg) == Process(certs[..i], cfg)
    decreases |certs| - i
  {
    if i < |certs| {
      var init := certs[..|certs| - 1];
      assert init[..i] == certs[..i];
      ProcessAfterThrow(init, i, cfg);
    } else {
      assert certs[..i] == certs;
    }
  }

  /** `createCerts` as a loop over local lists, as in the source. */
  method CreateCerts(certs: seq<Cert>, cfg: Config) returns (out: Outcome)
    requires ValidConfig(cfg)
    ensures out == CreateCertsSpec(certs, cfg)
  {
    var pemCRLs: seq<string> := [];
    var pemCAs: seq<string> := [];
    var shortestCRLDate: Option<CrlDate.Timestamp> := None;
    var fetched: seq<string> := [];
    var thrown: Option<Failure> := None;
    var i := 0;
    while i < |certs| && thrown.None?
      invariant 0 <= i <= |certs|
      invariant LoopState(pemCAs, pemCRLs, shortestCRLDate, fetched, thrown) == Process(certs[..i], cfg)
    {
      var cert := certs[i];
      pemCAs := pemCAs + [cert.pem];
      if cfg.environment == Production {
        var cn := ExtractCN(cert.subject);
        if cn.None? {
          thrown := Some(NoCommonName(cert.subject));
        } else {
          var url := LookupUrl(cfg.addresses, cn.value);
          if url.Some? {
            fetched := fetched + [url.value];
            var crl := cfg.download(url.value);
            if crl.Failure? {
              thrown := Some(DownloadFailed(crl.error));
            } else {
              var pemCrl := CrlPem(crl.value);
              if pemCrl.None? {
                thrown := Some(EmptyCrlBody(url.value));
              } else {
                pemCRLs := pemCRLs + [pemCrl.value];
                shortestCRLDate := Some(CrlDate.ShortestNextUpdate(shortestCRLDate, pemCrl.value, cfg.nextUpdateOf));
              }
            }
          }
          // otherwise a warning is logged and the certificate's CRL is skipped
        }
      }
      assert certs[..i + 1][..i] == certs[..i];
      i := i + 1;
    }
    var st := LoopState(pemCAs, pemCRLs, shortestCRLDate, fetched, thrown);
    if thrown.Some? {
      ProcessAfterThrow(certs, i, cfg);
    } else {
      assert certs[..i] == certs;
    }
    if thrown.Some? {
      out := Outcome(st, None, None);
    } else {
      var casFile := if pemCAs != [] then Some(Join(pemCAs, "")) else None;
      var crlsFile := if pemCRLs != [] then Some(Join(pemCRLs, "")) else None;
      out := Outcome(st, casFile, crlsFile);
    }
  }

  /** How a reader recovers the CRL bytes from its PEM text: the lines between header
      and footer, joined and base64-decoded. */
  function DecodeCrlPem(pem: string): Option<seq<Base64.Byte>>
  {
    match Pem.BodyLines(pem)
    case None => None
    case Some(lines) => Base64.Decode(Join(lines, ""))
  }

  /** The PEM text made for a non-empty CRL body reads back as exactly that body. */
  lemma CrlPemRoundTrip(body: seq<Base64.Byte>)
    requires body != []
    ensures CrlPem(body).Some?
    ensures DecodeCrlPem(CrlPem(body).value) == Some(body)
  {
    var b64 := Base64.Encode(body);
    Pem.Base64HasNoLineTerminator(b64);
    Pem.WrapCrlRoundTrip(b64);
    Base64.DecodeEncode(body);
  }

  /** `pemCAs` holds the PEM text of the certificates in input order, one each, up to
      and including the certificate whose processing threw; after a run without an
      exception it holds every certificate's, whatever the environment. */
  lemma {:induction false} PemCAsInInputOrder(certs: seq<Cert>, cfg: Config)
    requires ValidConfig(cfg)
    ensures var st := Process(certs, cfg);
      && |st.pemCAs| <= |certs|
      && st.pemCAs == Pems(certs[..|st.pemCAs|])
      && (st.thrown.None? ==> st.pemCAs == Pems(certs))
      && (st.thrown.Some? ==> st.pemCAs != [])
    decreases |certs|
  {
    if certs != [] {
      var n := |certs|;
      var init := certs[..n - 1];
      PemCAsInInputOrder(init, cfg);
      var st0 := Process(init, cfg);
      if st0.thrown.None? {
        assert certs[..n] == certs;
        assert Pems(certs) == Pems(init) + [certs[n - 1].pem];
      } else {
        assert init[..|st0.pemCAs|] == certs[..|st0.pemCAs|];
      }
    }
  }

  /** Outside production nothing is fetched, no CRL is kept, no date is computed and
      nothing is thrown: only `pemCAs` fills up. */
  lemma {:induction false} NonProductionSkipsCrls(certs: seq<Cert>, cfg: Config)
    requires ValidConfig(cfg)
    requires cfg.environment != Production
    ensures Process(certs, cfg) == LoopState(Pems(certs), [], None, [], None)
    decreases |certs|
  {
    if certs != [] {
      var n := |certs|;
      NonProductionSkipsCrls(certs[..n - 1], cfg);
      assert Pems(certs) == Pems(certs[..n - 1]) + [certs[n - 1].pem];
    }
  }

  /** Each fetch either appends one CRL or throws, and the CRLs appended are, in order,
      the PEM text of the bodies downloaded from the fetched URLs: reading each back
      gives exactly the downloaded bytes. */
  lemma {:induction false} CrlsMatchDownloads(certs: seq<Cert>, cfg: Config)
    requires ValidConfig(cfg)
    ensures var st := Process(certs, cfg);
      && |st.fetched| == |st.pemCRLs| + (if st.thrown.Some? && !st.thrown.value.NoCommonName? then 1 else 0)
      && forall k :: 0 <= k < |st.pemCRLs| ==>
           && cfg.download(st.fetched[k]).Success?
           && cfg.download(st.fetched[k]).value != []
           && st.pemCRLs[k] == CrlPem(cfg.download(st.fetched[k]).value).value
           && DecodeCrlPem(st.pemCRLs[k]) == Some(cfg.download(st.fetched[k]).value)
    decreases |certs|
  {
    if certs != [] {
      var n := |certs|;
      CrlsMatchDownloads(certs[..n - 1], cfg);
      var st0 := Process(certs[..n - 1], cfg);
      if st0.thrown.None? {
        var cert := certs[n - 1];
        var st := Step(st0, cert, cfg);
        assert Process(certs, cfg) == st;
        if cfg.environment == Production && ExtractCN(cert.subject).Some? {
          var cn := ExtractCN(cert.subject).value;
          if cn in cfg.addresses && cfg.addresses[cn] != "" {
            var url := cfg.addresses[cn];
            if cfg.download(url).Success? && cfg.download(url).value != [] {
              var body := cfg.download(url).value;
              CrlPemRoundTrip(body);
              assert st.pemCRLs == st0.pemCRLs + [CrlPem(body).value];
              assert st.fetched == st0.fetched + [url];
            }
          }
        }
      }
    }
  }

  /** One step fetches the URL `FetchUrl` names for the certificate, if any, and
      throws what `ThrownBy` says it throws. */
  lemma StepMatchesReference(st: LoopState, cert: Cert, cfg: Config)
    requires ValidConfig(cfg)
    requires st.thrown.None?
    ensures Step(st, cert, cfg).fetched == st.fetched + FetchUrls([cert], cfg)
    ensures Step(st, cert, cfg).thrown == ThrownBy(cert, cfg)
  {
    assert [cert][..0] == [];
    if cfg.environment == Production && ExtractCN(cert.subject).Some? {
      var cn := ExtractCN(cert.subject).value;
      if cn in cfg.addresses && cfg.addresses[cn] != "" {
        var url := cfg.addresses[cn];
        assert FetchUrl(cert, cfg) == Some(url);
        assert FetchUrls([cert], cfg) == [url];
      }
    }
  }

  /** The URLs fetched for `certs` are those fetched for all but the last, then the
      last's. */
  lemma {:induction false} FetchUrlsAppend(certs: seq<Cert>, cfg: Config)
    requires certs != []
    ensures FetchUrls(certs, cfg) == FetchUrls(certs[..|certs| - 1], cfg) + FetchUrls([certs[|certs| - 1]], cfg)
  {
    assert [certs[|certs| - 1]][..0] == [];
  }

  /** The URLs are fetched in input order, one for each certificate processed that
      has a `CN=` line and a non-empty address, up to and including the one that
      threw. */
  lemma {:induction false} FetchedInInputOrder(certs: seq<Cert>, cfg: Config)
    requires ValidConfig(cfg)
    ensures var st := Process(certs, cfg);
      st.fetched == FetchUrls(certs[..|st.pemCAs|], cfg)
    decreases |certs|
  {
    if certs != [] {
      var n := |certs|;
      var init := certs[..n - 1];
      FetchedInInputOrder(init, cfg);
      var st0 := Process(init, cfg);
      if st0.thrown.None? {
        var cert := certs[n - 1];
        var st := Step(st0, cert, cfg);
        assert Process(certs, cfg) == st;
        StepMatchesReference(st0, cert, cfg);
        FetchUrlsAppend(certs, cfg);
        assert init[..|st0.pemCAs|] == init;
        assert certs[..|st.pemCAs|] == certs;
      } else {
        assert Process(certs, cfg) == st0;
        assert init[..|st0.pemCAs|] == certs[..|st0.pemCAs|];
      }
    }
  }

  /** A run throws exactly when some certificate throws. */
  lemma {:induction false} ThrowsIffSomeCertThrows(certs: seq<Cert>, cfg: Config)
    requires ValidConfig(cfg)
    ensures Process(certs, cfg).thrown.None? <==> forall k :: 0 <= k < |certs| ==> ThrownBy(certs[k], cfg).None?
    decreases |certs|
  {
    if certs != [] {
      var n := |certs|;
      var init := certs[..n - 1];
      ThrowsIffSomeCertThrows(init, cfg);
      var st0 := Process(init, cfg);
      if st0.thrown.None? {
        StepMatchesReference(st0, certs[n - 1], cfg);
        forall k | 0 <= k < n - 1 ensures ThrownBy(certs[k], cfg).None? {
          assert certs[k] == init[k];
        }
        assert Process(certs, cfg) == Step(st0, certs[n - 1], cfg);
        ThrowsAtLast(certs, Process(certs, cfg).thrown, cert => ThrownBy(cert, cfg));
      } else {
        var k :| 0 <= k < |init| && ThrownBy(init[k], cfg).Some?;
        assert certs[k] == init[k];
      }
    }
  }

  /** When all but the last certificate pass the test `throws`, an outcome that is the
      last one's is an exception exactly when some certificate fails the test. */
  lemma {:induction false} ThrowsAtLast(certs: seq<Cert>, thrown: Option<Failure>, throws: Cert -> Option<Failure>)
    requires certs != []
    requires forall k :: 0 <= k < |certs| - 1 ==> throws(certs[k]).None?
    requires thrown == throws(certs[|certs| - 1])
    ensures thrown.None? <==> forall k :: 0 <= k < |certs| ==> throws(certs[k]).None?
  {
  }

  /** A run that throws throws what the first certificate that throws throws, having
      processed the certificates up to that one and no further. */
  lemma {:induction false} FirstFailureThrows(certs: seq<Cert>, cfg: Config)
    requires ValidConfig(cfg)
    ensures var st := Process(certs, cfg);
      st.thrown.Some? ==>
        && st.thrown == ThrownBy(certs[|st.pemCAs| - 1], cfg)
        && forall k :: 0 <= k < |st.pemCAs| - 1 ==> ThrownBy(certs[k], cfg).None?
    decreases |certs|
  {
    if certs != [] {
      var n := |certs|;
      var init := certs[..n - 1];
      FirstFailureThrows(init, cfg);
      var st0 := Process(init, cfg);
      if st0.thrown.None? {
        ThrowsIffSomeCertThrows(init, cfg);
        StepMatchesReference(st0, certs[n - 1], cfg);
        forall k | 0 <= k < n - 1 ensures ThrownBy(certs[k], cfg).None? {
          assert certs[k] == init[k];
        }
      } else {
        var k0 := |st0.pemCAs| - 1;
        assert certs[k0] == init[k0];
        forall k | 0 <= k < k0 ensures ThrownBy(certs[k], cfg).None? {
          assert certs[k] == init[k];
        }
      }
    }
  }

  /** One step either leaves the CRLs and the date alone, or appends one CRL and folds
      its date into `shortestCRLDate`. */
  lemma StepCrlEffect(st: LoopState, cert: Cert, cfg: Config)
    requires ValidConfig(cfg)
    requires st.thrown.None?
    ensures var next := Step(st, cert, cfg);
      || (next.pemCRLs == st.pemCRLs && next.shortestCRLDate == st.shortestCRLDate)
      || (&& |next.pemCRLs| == |st.pemCRLs| + 1
          && next.pemCRLs[..|st.pemCRLs|] == st.pemCRLs
          && next.shortestCRLDate
             == Some(CrlDate.ShortestNextUpdate(st.shortestCRLDate, next.pemCRLs[|st.pemCRLs|], cfg.nextUpdateOf)))
  {
    var next := Step(st, cert, cfg);
    if next.pemCRLs != st.pemCRLs {
      assert next.pemCRLs[..|st.pemCRLs|] == st.pemCRLs;
    }
  }

  /** `shortestCRLDate` is always the fold of `getShortestCRLNextUpdate` over the CRLs
      kept so far, in the order they were kept. */
  lemma {:induction false} ShortestTracksCrls(certs: seq<Cert>, cfg: Config)
    requires ValidConfig(cfg)
    ensures var st := Process(certs, cfg);
      st.shortestCRLDate == CrlDate.ShortestOf(st.pemCRLs, cfg.nextUpdateOf)
    decreases |certs|
  {
    if certs != [] {
      var n := |certs|;
      ShortestTracksCrls(certs[..n - 1], cfg);
      var st0 := Process(certs[..n - 1], cfg);
      if st0.thrown.None? {
        var st := Step(st0, certs[n - 1], cfg);
        assert Process(certs, cfg) == st;
        StepCrlEffect(st0, certs[n - 1], cfg);
      }
    }
  }

  /** After the loop `shortestCRLDate` is unset exactly when no CRL was kept, and is
      otherwise the earliest next-update date among the kept CRLs. */
  lemma ShortestIsEarliest(certs: seq<Cert>, cfg: Config)
    requires ValidConfig(cfg)
    ensures var st := Process(certs, cfg);
      && (st.shortestCRLDate.None? <==> st.pemCRLs == [])
      && (st.pemCRLs != [] ==> CrlDate.IsEarliest(st.shortestCRLDate.value, st.pemCRLs, cfg.nextUpdateOf))
  {
    var st := Process(certs, cfg);
    ShortestTracksCrls(certs, cfg);
    CrlDate.ShortestOfIsEarliest(st.pemCRLs, cfg.nextUpdateOf);
  }

  /** Two runs that keep the same CRLs, in whatever order the certificates came,
      report the same shortest next-update date. */
  lemma ShortestOrderIndependent(certs1: seq<Cert>, certs2: seq<Cert>, cfg: Config)
    requires ValidConfig(cfg)
    requires multiset(Process(certs1, cfg).pemCRLs) == multiset(Process(certs2, cfg).pemCRLs)
    ensures Process(certs1, cfg).shortestCRLDate == Process(certs2, cfg).shortestCRLDate
  {
    var p1, p2 := Process(certs1, cfg).pemCRLs, Process(certs2, cfg).pemCRLs;
    ShortestTracksCrls(certs1, cfg);
    ShortestTracksCrls(certs2, cfg);
    CrlDate.ShortestOfOrderIndependent(p1, p2, cfg.nextUpdateOf);
  }

  /** The CA bundle is written exactly when the run does not throw and there is at
      least one certificate, and it is the certificates' PEM text concatenated in
      input order. Outside production the CRL file is never written. */
  lemma CasFileHoldsEveryCert(certs: seq<Cert>, cfg: Config)
    requires ValidConfig(cfg)
    ensures var out := CreateCertsSpec(certs, cfg);
      && (out.casFile.Some? <==> out.state.thrown.None? && certs != [])
      && (out.casFile.Some? ==> out.casFile.value == Join(Pems(certs), ""))
      && (cfg.environment != Production ==> out.crlsFile.None? && out.state.thrown.None?)
  {
    PemCAsInInputOrder(certs, cfg);
    if cfg.environment != Production {
      NonProductionSkipsCrls(certs, cfg);
    }
  }
}
