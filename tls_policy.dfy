/** The resolution policy of server/tls.go as functions: when TLS is optional,
    which candidate entry is authoritative, and what that entry's certificate
    bundle yields. The functions also return the queries put to the
    environment (`probes`), so that "this entry is never consulted" can be
    stated and proved. */
module TlsPolicy {
  import opened Wrappers

  type Bytes = seq<bv8>

  /** A certificate/key pair as `tls.LoadX509KeyPair` returns it; its
      contents are whatever the environment's loader produced. */
  datatype Certificate = Certificate(chain: seq<Bytes>, privateKey: Bytes)

  /** An `x509.CertPool`: the certificates added to it, in order. */
  datatype CertPool = CertPool(certs: seq<Bytes>)

  /** The two fields of `tls.Config` the resolver sets. `rootCAs == None`
      is Go's nil pool: use the system trust store. */
  datatype Config = Config(rootCAs: Option<CertPool>, certificates: seq<Certificate>)

  /** The error returned to the caller, tagged with where it arose. The
      `cause` strings are the underlying library's error values. */
  datatype Error =
    | ExistsErr(path: string, cause: string)
    | LoadErr(certFile: string, keyFile: string, cause: string)
    | ReadErr(path: string, cause: string)
    | NotFound(dirs: seq<string>)

  /** The filesystem and crypto calls the resolver makes, as total functions:
      `util.FileExists`, `tls.LoadX509KeyPair`, `ioutil.ReadFile`, and the
      distinct certificates `AppendCertsFromPEM` manages to parse out of PEM
      data, in the order they appear. */
  datatype Env = Env(
    fileExists: string -> Result<bool, string>,
    loadX509KeyPair: (string, string) -> Result<Certificate, string>,
    readFile: string -> Result<Bytes, string>,
    parsePemCerts: Bytes -> seq<Bytes>)

  /** One query put to the environment. */
  datatype Query =
    | Stat(path: string)
    | LoadPair(certFile: string, keyFile: string)
    | ReadFile(path: string)

  /** A query together with the index of the candidate entry it was made for. */
  datatype Probe = Probe(dirIndex: nat, query: Query)

  /** The three results of the resolver: (nil, nil), (config, nil), (nil, err). */
  datatype Outcome = Plaintext | Secured(config: Config) | Failed(err: Error)

  /** An outcome together with the probes made to reach it, in order. */
  datatype Resolution = Resolution(outcome: Outcome, probes: seq<Probe>)

  const LocalhostPrefix: string := "localhost:"
  const PublicCrt: string := "/public.crt"
  const PrivateKey: string := "/private.key"
  const CaCrt: string := "/ca.crt"

  /** Start-anchored, case-sensitive literal match: the regular expression
      `\Alocalhost:` applied to `s` is `StartsWith(s, LocalhostPrefix)`. */
  predicate StartsWith(s: string, p: string)
    ensures StartsWith(s, p) ==> |p| <= |s|
  {
    p == [] || (s != [] && s[0] == p[0] && StartsWith(s[1..], p[1..]))
  }

  /** TLS is optional on a `localhost:` binding or when the flag is set. */
  predicate Optional(binding: string, disableTls: bool)
  {
    StartsWith(binding, LocalhostPrefix) || disableTls
  }

  /** A candidate entry the search passes over: empty, or without `public.crt`.
      Any other entry (`public.crt` exists, or checking for it fails) ends
      the search. */
  predicate Skipped(dir: string, env: Env)
  {
    dir == "" || env.fileExists(dir + PublicCrt) == Success(false)
  }

  /** The index of the first entry from `i` on that the search does not pass
      over, or `|dirs|` when it passes over all of them. */
  function FirstCandidate(dirs: seq<string>, i: nat, env: Env): (k: nat)
    requires i <= |dirs|
    ensures i <= k <= |dirs|
    ensures forall j :: i <= j < k ==> Skipped(dirs[j], env)
    ensures k < |dirs| ==> !Skipped(dirs[k], env)
    decreases |dirs| - i
  {
    if i == |dirs| || !Skipped(dirs[i], env) then i else FirstCandidate(dirs, i + 1, env)
  }

  /** The probe the search makes on entry `j` when it passes over it: none
      for an empty entry, else the existence check of its `public.crt`. */
  function SkipProbe(dirs: seq<string>, j: nat): seq<Probe>
    requires j < |dirs|
  {
    if dirs[j] == "" then [] else [Probe(j, Stat(dirs[j] + PublicCrt))]
  }

  /** The probes made while passing over entries `0..k`. */
  function SkipProbes(dirs: seq<string>, k: nat): seq<Probe>
    requires k <= |dirs|
  {
    if k == 0 then [] else SkipProbes(dirs, k - 1) + SkipProbe(dirs, k - 1)
  }

  /** `x509.NewCertPool()`. */
  function NewCertPool(): CertPool
  {
    CertPool([])
  }

  /** `pool.AppendCertsFromPEM(pem)`: adds every certificate that parses.
      The boolean Go returns (whether any did) is ignored by the resolver and
      is not modelled. */
  function AppendCertsFromPem(pool: CertPool, pem: Bytes, env: Env): (r: CertPool)
    ensures |r.certs| == |pool.certs| + |env.parsePemCerts(pem)|
    ensures r.certs[..|pool.certs|] == pool.certs
  {
    CertPool(pool.certs + env.parsePemCerts(pem))
  }

  /** Loading the bundle of directory `dir` (entry `i`) once its `public.crt`
      is known to exist: the key pair, then the optional `ca.crt`. */
  function LoadBundle(i: nat, dir: string, env: Env): (r: Resolution)
    ensures r.outcome.Secured? || (r.outcome.Failed? && !r.outcome.err.NotFound?)
    ensures r.probes != [] && forall p :: p in r.probes ==> p.dirIndex == i
  {
    var pub, key, ca := dir + PublicCrt, dir + PrivateKey, dir + CaCrt;
    var loaded := [Probe(i, LoadPair(pub, key))];
    match env.loadX509KeyPair(pub, key)
    case Failure(e) => Resolution(Failed(LoadErr(pub, key, e)), loaded)
    case Success(cert) =>
      var statted := loaded + [Probe(i, Stat(ca))];
      match env.fileExists(ca)
      case Failure(e) => Resolution(Failed(ExistsErr(ca, e)), statted)
      case Success(false) => Resolution(Secured(Config(None, [cert])), statted)
      case Success(true) =>
        var read := statted + [Probe(i, ReadFile(ca))];
        match env.readFile(ca)
        case Failure(e) => Resolution(Failed(ReadErr(ca, e)), read)
        case Success(pem) =>
          var cas := AppendCertsFromPem(NewCertPool(), pem, env);
          Resolution(Secured(Config(Some(cas), [cert])), read)
  }

  /** What the authoritative entry `k` yields: the error of the existence
      check of its `public.crt`, or the result of loading its bundle. */
  function ResolveAt(k: nat, dir: string, env: Env): (r: Resolution)
    requires !Skipped(dir, env)
    ensures r.probes != [] && r.probes[0] == Probe(k, Stat(dir + PublicCrt))
  {
    var pub := dir + PublicCrt;
    var statted := [Probe(k, Stat(pub))];
    if env.fileExists(pub).Failure? then
      Resolution(Failed(ExistsErr(pub, env.fileExists(pub).error)), statted)
    else
      var bundle := LoadBundle(k, dir, env);
      Resolution(bundle.outcome, statted + bundle.probes)
  }

  /** `findTlsConfigIn(binding, disableTls, dirs)` as a function: plaintext
      when TLS is optional; otherwise the first entry not passed over decides,
      and when there is none the whole list is reported as not found. */
  function Resolve(binding: string, disableTls: bool, dirs: seq<string>, env: Env): (r: Resolution)
    ensures r.outcome.Failed? && r.outcome.err.NotFound? ==> r.outcome.err.dirs == dirs
  {
    if Optional(binding, disableTls) then Resolution(Plaintext, [])
    else
      var k := FirstCandidate(dirs, 0, env);
      if k == |dirs| then Resolution(Failed(NotFound(dirs)), SkipProbes(dirs, k))
      else
        var here := ResolveAt(k, dirs[k], env);
        Resolution(here.outcome, SkipProbes(dirs, k) + here.probes)
  }

  /** The default candidate list `tlsDirectories`, for a given `$HOME`. */
  function DefaultDirs(home: string): (dirs: seq<string>)
    ensures |dirs| == 2 && dirs[0] != "" && dirs[1] != ""
  {
    [home + "/.faktory/tls", "/etc/faktory/tls"]
  }

  /** The outcome as Go's pair of results (`*tls.Config`, `error`). */
  function AsPair(o: Outcome): (Option<Config>, Option<Error>)
  {
    match o
    case Plaintext => (None, None)
    case Secured(c) => (Some(c), None)
    case Failed(e) => (None, Some(e))
  }

  /** How a caller reads Go's pair back: an error wins, then a config, and
      (nil, nil) means plaintext. */
  function FromPair(cfg: Option<Config>, err: Option<Error>): Outcome
  {
    if err.Some? then Failed(err.value)
    else if cfg.Some? then Secured(cfg.value)
    else Plaintext
  }

  /** `Resolve` when entry `k` is the first one not passed over. */
  lemma ResolveAtFirstCandidate(binding: string, disableTls: bool, dirs: seq<string>, k: nat, env: Env)
    requires !Optional(binding, disableTls)
    requires k < |dirs| && !Skipped(dirs[k], env)
    requires forall j :: 0 <= j < k ==> Skipped(dirs[j], env)
    ensures Resolve(binding, disableTls, dirs, env)
         == Resolution(ResolveAt(k, dirs[k], env).outcome, SkipProbes(dirs, k) + ResolveAt(k, dirs[k], env).probes)
  {
    assert FirstCandidate(dirs, 0, env) == k;
  }

  /** `Resolve` when every entry is passed over. */
  lemma ResolveWhenAllSkipped(binding: string, disableTls: bool, dirs: seq<string>, env: Env)
    requires !Optional(binding, disableTls)
    requires forall j :: 0 <= j < |dirs| ==> Skipped(dirs[j], env)
    ensures Resolve(binding, disableTls, dirs, env) == Resolution(Failed(NotFound(dirs)), SkipProbes(dirs, |dirs|))
  {
  }
}
