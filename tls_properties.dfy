/** What the resolver of server/tls.go promises, proved about the policy in
    TlsPolicy (and so, through the methods' postconditions, about the
    imperative resolver in ServerTls). */
module TlsProperties {
  import opened Wrappers
  import opened TlsPolicy

  // ---------------------------------------------------------------------
  // When TLS is optional
  // ---------------------------------------------------------------------

  /** The anchored match is exactly "`p` is a prefix of `s`". */
  lemma {:induction false} StartsWithIsPrefix(s: string, p: string)
    ensures StartsWith(s, p) <==> |p| <= |s| && s[..|p|] == p
  {
    if p != [] && s != [] {
      StartsWithIsPrefix(s[1..], p[1..]);
      if |p| <= |s| && s[..|p|] == p {
        assert s[1..][..|p| - 1] == s[..|p|][1..];
      }
    }
  }

  /** The localhost test looks only at the start of the binding, and is
      case-sensitive. */
  lemma LocalhostMatchIsAnchored()
    ensures StartsWith("localhost:7419", LocalhostPrefix)
    ensures !StartsWith("0.0.0.0:localhost:", LocalhostPrefix)
    ensures !StartsWith("LOCALHOST:7419", LocalhostPrefix)
    ensures !StartsWith("localhost", LocalhostPrefix)
  {
    StartsWithIsPrefix("localhost:7419", LocalhostPrefix);
    StartsWithIsPrefix("localhost", LocalhostPrefix);
  }

  /** TLS is optional exactly when the binding begins with `localhost:` or
      the flag is set. */
  lemma OptionalIff(binding: string, disableTls: bool)
    ensures Optional(binding, disableTls)
        <==> disableTls || (|binding| >= 10 && binding[..10] == "localhost:")
  {
    StartsWithIsPrefix(binding, LocalhostPrefix);
  }

  /** A `localhost:` binding gets no TLS, whatever the flag and the
      directories hold, and nothing is probed. */
  lemma LocalhostIsPlaintext(binding: string, disableTls: bool, dirs: seq<string>, env: Env)
    requires StartsWith(binding, LocalhostPrefix)
    ensures Resolve(binding, disableTls, dirs, env) == Resolution(Plaintext, [])
  {
  }

  /** With the flag set, any binding gets no TLS and the directory list is
      never consulted. */
  lemma DisabledIsPlaintext(binding: string, dirs: seq<string>, env: Env)
    ensures Resolve(binding, true, dirs, env) == Resolution(Plaintext, [])
  {
  }

  /** (nil, nil) is returned exactly when TLS is optional. */
  lemma PlaintextIffOptional(binding: string, disableTls: bool, dirs: seq<string>, env: Env)
    ensures Resolve(binding, disableTls, dirs, env).outcome == Plaintext <==> Optional(binding, disableTls)
  {
    if !Optional(binding, disableTls) {
      var k := FirstCandidate(dirs, 0, env);
      if k < |dirs| {
        ResolveAtNeverPlaintext(k, dirs[k], env);
      }
    }
  }

  /** The authoritative entry never yields plaintext nor a not-found error:
      those come only from the optionality test and from running out of
      entries. */
  lemma ResolveAtNeverPlaintext(k: nat, dir: string, env: Env)
    requires !Skipped(dir, env)
    ensures ResolveAt(k, dir, env).outcome != Plaintext
    ensures !(ResolveAt(k, dir, env).outcome.Failed? && ResolveAt(k, dir, env).outcome.err.NotFound?)
  {
  }

  // ---------------------------------------------------------------------
  // The ordered search
  // ---------------------------------------------------------------------

  /** The probes made while passing over entries `0..k`: exactly one
      existence check of `public.crt` for each non-empty entry, in order,
      and nothing for an empty one. */
  lemma {:induction false} SkipProbesShape(dirs: seq<string>, k: nat)
    requires k <= |dirs|
    ensures forall p :: p in SkipProbes(dirs, k) ==>
      p.dirIndex < k && dirs[p.dirIndex] != "" && p.query == Stat(dirs[p.dirIndex] + PublicCrt)
    ensures forall j :: 0 <= j < k && dirs[j] != "" ==> Probe(j, Stat(dirs[j] + PublicCrt)) in SkipProbes(dirs, k)
    ensures forall a, b :: 0 <= a < b < |SkipProbes(dirs, k)| ==>
      SkipProbes(dirs, k)[a].dirIndex < SkipProbes(dirs, k)[b].dirIndex
  {
    if k > 0 {
      SkipProbesShape(dirs, k - 1);
    }
  }

  /** The probes of the passed-over entries depend on those entries only. */
  lemma {:induction false} SkipProbesPrefix(a: seq<string>, b: seq<string>, k: nat)
    requires k <= |a| && k <= |b| && a[..k] == b[..k]
    ensures SkipProbes(a, k) == SkipProbes(b, k)
  {
    if k > 0 {
      assert a[..k - 1] == a[..k][..k - 1] && b[..k - 1] == b[..k][..k - 1];
      assert a[k - 1] == a[..k][k - 1] && b[k - 1] == b[..k][k - 1];
      SkipProbesPrefix(a, b, k - 1);
    }
  }

  /** Every query put to the environment for the authoritative entry is
      about one of that entry's three files. */
  lemma ResolveAtProbesOwnEntry(k: nat, dir: string, env: Env)
    requires !Skipped(dir, env)
    ensures forall p :: p in ResolveAt(k, dir, env).probes ==> p.dirIndex == k && OfEntry(p.query, dir)
  {
  }

  /** `q` reads one of the files of directory `dir`. */
  predicate OfEntry(q: Query, dir: string)
  {
    match q
    case Stat(path) => path == dir + PublicCrt || path == dir + CaCrt
    case LoadPair(certFile, keyFile) => certFile == dir + PublicCrt && keyFile == dir + PrivateKey
    case ReadFile(path) => path == dir + CaCrt
  }

  /** Empty entries are never probed, nor is any entry after the
      authoritative one; every probe is about a file of its own entry. */
  lemma ProbesStayInCandidates(binding: string, disableTls: bool, dirs: seq<string>, env: Env)
    ensures forall p :: p in Resolve(binding, disableTls, dirs, env).probes ==>
      && p.dirIndex <= FirstCandidate(dirs, 0, env)
      && p.dirIndex < |dirs|
      && dirs[p.dirIndex] != ""
      && OfEntry(p.query, dirs[p.dirIndex])
  {
    if !Optional(binding, disableTls) {
      var k := FirstCandidate(dirs, 0, env);
      SkipProbesShape(dirs, k);
      if k < |dirs| {
        ResolveAtProbesOwnEntry(k, dirs[k], env);
      }
    }
  }

  /** When TLS is required and no entry is passed over, the result is the
      not-found error naming the whole list, and the converse. */
  lemma NotFoundIffAllSkipped(binding: string, disableTls: bool, dirs: seq<string>, env: Env)
    ensures (Resolve(binding, disableTls, dirs, env).outcome.Failed?
             && Resolve(binding, disableTls, dirs, env).outcome.err.NotFound?)
        <==> !Optional(binding, disableTls) && forall j :: 0 <= j < |dirs| ==> Skipped(dirs[j], env)
    ensures Resolve(binding, disableTls, dirs, env).outcome.Failed?
         && Resolve(binding, disableTls, dirs, env).outcome.err.NotFound?
        ==> Resolve(binding, disableTls, dirs, env).outcome.err.dirs == dirs
  {
    if !Optional(binding, disableTls) {
      var k := FirstCandidate(dirs, 0, env);
      if k < |dirs| {
        ResolveAtNeverPlaintext(k, dirs[k], env);
      }
    }
  }

  /** The first entry not passed over is authoritative: the result is what
      that entry yields, and entries after it make no difference, even one
      holding a valid bundle. This covers failures too: a failed existence
      check, key-pair load or CA read there is the final answer. */
  lemma LaterEntriesIgnored(binding: string, disableTls: bool, dirs: seq<string>, k: nat, rest: seq<string>, env: Env)
    requires k < |dirs| && !Skipped(dirs[k], env)
    requires forall j :: 0 <= j < k ==> Skipped(dirs[j], env)
    ensures Resolve(binding, disableTls, dirs[..k + 1] + rest, env) == Resolve(binding, disableTls, dirs, env)
  {
    if !Optional(binding, disableTls) {
      var other := dirs[..k + 1] + rest;
      assert other[..k] == dirs[..k];
      ResolveAtFirstCandidate(binding, disableTls, dirs, k, env);
      ResolveAtFirstCandidate(binding, disableTls, other, k, env);
      SkipProbesPrefix(dirs, other, k);
    }
  }

  /** A key pair that fails to load in the authoritative directory ends the
      resolution with that error. */
  lemma LoadFailureIsTerminal(binding: string, disableTls: bool, dirs: seq<string>, k: nat, env: Env)
    requires !Optional(binding, disableTls)
    requires k < |dirs| && dirs[k] != "" && env.fileExists(dirs[k] + PublicCrt) == Success(true)
    requires forall j :: 0 <= j < k ==> Skipped(dirs[j], env)
    requires env.loadX509KeyPair(dirs[k] + PublicCrt, dirs[k] + PrivateKey).Failure?
    ensures Resolve(binding, disableTls, dirs, env).outcome
         == Failed(LoadErr(dirs[k] + PublicCrt, dirs[k] + PrivateKey,
                           env.loadX509KeyPair(dirs[k] + PublicCrt, dirs[k] + PrivateKey).error))
  {
    ResolveAtFirstCandidate(binding, disableTls, dirs, k, env);
  }

  /** A failed existence check of `public.crt` in a non-empty entry is not
      passed over: it ends the resolution with that error. */
  lemma ExistsErrorIsTerminal(binding: string, disableTls: bool, dirs: seq<string>, k: nat, env: Env)
    requires !Optional(binding, disableTls)
    requires k < |dirs| && dirs[k] != "" && env.fileExists(dirs[k] + PublicCrt).Failure?
    requires forall j :: 0 <= j < k ==> Skipped(dirs[j], env)
    ensures Resolve(binding, disableTls, dirs, env).outcome
         == Failed(ExistsErr(dirs[k] + PublicCrt, env.fileExists(dirs[k] + PublicCrt).error))
  {
    ResolveAtFirstCandidate(binding, disableTls, dirs, k, env);
  }

  // ---------------------------------------------------------------------
  // The configuration returned
  // ---------------------------------------------------------------------

  /** What a config loaded from directory `dir` holds: exactly one
      certificate, the pair loaded from its `public.crt` and `private.key`;
      no root pool when its `ca.crt` does not exist; otherwise a fresh pool
      holding whatever certificates parse out of `ca.crt`, possibly none. */
  predicate LoadedFrom(c: Config, dir: string, env: Env)
  {
    var ca := dir + CaCrt;
    && env.fileExists(dir + PublicCrt) == Success(true)
    && |c.certificates| == 1
    && env.loadX509KeyPair(dir + PublicCrt, dir + PrivateKey) == Success(c.certificates[0])
    && (c.rootCAs.None? <==> env.fileExists(ca) == Success(false))
    && (c.rootCAs.Some? ==>
          && env.fileExists(ca) == Success(true)
          && env.readFile(ca).Success?
          && c.rootCAs.value == CertPool(env.parsePemCerts(env.readFile(ca).value)))
  }

  /** The authoritative entry `dir` yields a config exactly when every step
      after the search succeeds: `public.crt` is reported present, the key
      pair loads, the `ca.crt` check succeeds and, if `ca.crt` exists, it is
      read. Whether any certificate parses out of it plays no part. */
  predicate BundleLoads(dir: string, env: Env)
  {
    var pub, key, ca := dir + PublicCrt, dir + PrivateKey, dir + CaCrt;
    && env.fileExists(pub) == Success(true)
    && env.loadX509KeyPair(pub, key).Success?
    && env.fileExists(ca).Success?
    && (env.fileExists(ca).value ==> env.readFile(ca).Success?)
  }

  /** The authoritative entry yields a config iff its bundle loads, and the
      config it yields is loaded from it. */
  lemma ResolveAtSecured(k: nat, dir: string, env: Env)
    requires !Skipped(dir, env)
    ensures ResolveAt(k, dir, env).outcome.Secured? <==> BundleLoads(dir, env)
    ensures ResolveAt(k, dir, env).outcome.Secured? ==>
              LoadedFrom(ResolveAt(k, dir, env).outcome.config, dir, env)
  {
    var pub, key, ca := dir + PublicCrt, dir + PrivateKey, dir + CaCrt;
    if ResolveAt(k, dir, env).outcome.Secured? {
      assert !env.fileExists(pub).Failure?;
      assert env.fileExists(pub).value;
      assert env.fileExists(pub) == Success(true);
      var bundle := LoadBundle(k, dir, env);
      assert ResolveAt(k, dir, env).outcome == bundle.outcome;
      var cert := env.loadX509KeyPair(pub, key);
      assert cert.Success?;
      assert env.fileExists(ca).Success?;
      if env.fileExists(ca).value {
        assert env.readFile(ca).Success?;
      }
    }
  }

  /** Each failing step of the authoritative entry ends the call with its
      own error: a failed `public.crt` or `ca.crt` check with the existence
      error on that path, a failed key pair with the load error on both
      paths, a failed `ca.crt` read with the read error on `ca.crt`. */
  lemma ResolveAtErrors(k: nat, dir: string, env: Env)
    requires !Skipped(dir, env)
    ensures var pub := dir + PublicCrt;
      env.fileExists(pub).Failure? ==>
        ResolveAt(k, dir, env).outcome == Failed(ExistsErr(pub, env.fileExists(pub).error))
    ensures var pub, key := dir + PublicCrt, dir + PrivateKey;
      env.fileExists(pub) == Success(true) && env.loadX509KeyPair(pub, key).Failure? ==>
        ResolveAt(k, dir, env).outcome == Failed(LoadErr(pub, key, env.loadX509KeyPair(pub, key).error))
    ensures var pub, key, ca := dir + PublicCrt, dir + PrivateKey, dir + CaCrt;
      && env.fileExists(pub) == Success(true) && env.loadX509KeyPair(pub, key).Success?
      && env.fileExists(ca).Failure? ==>
        ResolveAt(k, dir, env).outcome == Failed(ExistsErr(ca, env.fileExists(ca).error))
    ensures var pub, key, ca := dir + PublicCrt, dir + PrivateKey, dir + CaCrt;
      && env.fileExists(pub) == Success(true) && env.loadX509KeyPair(pub, key).Success?
      && env.fileExists(ca) == Success(true) && env.readFile(ca).Failure? ==>
        ResolveAt(k, dir, env).outcome == Failed(ReadErr(ca, env.readFile(ca).error))
  {
  }

  /** A returned config comes from the authoritative entry, as `LoadedFrom`
      says, and a config is returned exactly when TLS is required, some
      entry is authoritative and its bundle loads. */
  lemma SecuredConfigShape(binding: string, disableTls: bool, dirs: seq<string>, env: Env)
    ensures Resolve(binding, disableTls, dirs, env).outcome.Secured? <==>
              && !Optional(binding, disableTls)
              && FirstCandidate(dirs, 0, env) < |dirs|
              && BundleLoads(dirs[FirstCandidate(dirs, 0, env)], env)
    ensures Resolve(binding, disableTls, dirs, env).outcome.Secured? ==>
              LoadedFrom(Resolve(binding, disableTls, dirs, env).outcome.config,
                         dirs[FirstCandidate(dirs, 0, env)], env)
  {
    PlaintextIffOptional(binding, disableTls, dirs, env);
    var k := FirstCandidate(dirs, 0, env);
    if !Optional(binding, disableTls) && k < |dirs| {
      ResolveAtFirstCandidate(binding, disableTls, dirs, k, env);
      ResolveAtSecured(k, dirs[k], env);
    }
  }

  /** A `ca.crt` that is read but holds no certificate Go can parse does
      not fail the call: the config carries the loaded pair and an empty
      root pool. */
  lemma UnparsableCaBundleAttached(binding: string, disableTls: bool, dirs: seq<string>, k: nat, env: Env)
    requires !Optional(binding, disableTls)
    requires k < |dirs| && dirs[k] != ""
    requires forall j :: 0 <= j < k ==> Skipped(dirs[j], env)
    requires env.fileExists(dirs[k] + PublicCrt) == Success(true)
    requires env.loadX509KeyPair(dirs[k] + PublicCrt, dirs[k] + PrivateKey).Success?
    requires env.fileExists(dirs[k] + CaCrt) == Success(true)
    requires env.readFile(dirs[k] + CaCrt).Success?
    requires env.parsePemCerts(env.readFile(dirs[k] + CaCrt).value) == []
    ensures Resolve(binding, disableTls, dirs, env).outcome
         == Secured(Config(Some(CertPool([])),
                           [env.loadX509KeyPair(dirs[k] + PublicCrt, dirs[k] + PrivateKey).value]))
  {
    ResolveAtFirstCandidate(binding, disableTls, dirs, k, env);
    var ca := dirs[k] + CaCrt;
    assert AppendCertsFromPem(NewCertPool(), env.readFile(ca).value, env) == CertPool([]) by {
      assert [] + env.parsePemCerts(env.readFile(ca).value) == [];
    }
  }

  /** Go's pair never carries both a config and an error, and a caller reads
      back the very outcome the resolver meant. */
  lemma PairRoundTrip(o: Outcome)
    ensures AsPair(o).0.None? || AsPair(o).1.None?
    ensures FromPair(AsPair(o).0, AsPair(o).1) == o
  {
  }

  // ---------------------------------------------------------------------
  // The default list and concrete cases
  // ---------------------------------------------------------------------

  /** With the default list, a bundle under `$HOME` takes precedence: the
      system-wide directory is never probed. */
  lemma UserDirectoryFirst(binding: string, forceTls: bool, home: string, env: Env)
    requires !Optional(binding, forceTls)
    requires env.fileExists(home + "/.faktory/tls" + PublicCrt) == Success(true)
    ensures Resolve(binding, forceTls, DefaultDirs(home), env) == ResolveAt(0, home + "/.faktory/tls", env)
    ensures forall p :: p in Resolve(binding, forceTls, DefaultDirs(home), env).probes ==> p.dirIndex == 0
  {
    var dirs := DefaultDirs(home);
    assert dirs[0] != "" by {
      assert |dirs[0]| >= |"/.faktory/tls"|;
    }
    ResolveAtFirstCandidate(binding, forceTls, dirs, 0, env);
    assert SkipProbes(dirs, 0) == [];
    ResolveAtProbesOwnEntry(0, dirs[0], env);
  }

  /** Given entries [A, B] where A lacks `public.crt` and B loads, the
      config is B's, and nothing about A leads to an error. */
  lemma SecondEntryUsed(binding: string, a: string, b: string, env: Env)
    requires !Optional(binding, false)
    requires a != "" && env.fileExists(a + PublicCrt) == Success(false)
    requires b != "" && env.fileExists(b + PublicCrt) == Success(true)
    requires env.loadX509KeyPair(b + PublicCrt, b + PrivateKey).Success?
    requires env.fileExists(b + CaCrt) == Success(false)
    ensures Resolve(binding, false, [a, b], env).outcome
         == Secured(Config(None, [env.loadX509KeyPair(b + PublicCrt, b + PrivateKey).value]))
  {
    ResolveAtFirstCandidate(binding, false, [a, b], 1, env);
  }

  /** The concrete cases: a localhost binding, an empty list, and the flag. */
  lemma ConcreteCases(env: Env)
    ensures Resolve("localhost:7419", false, ["/nonexistent"], env).outcome == Plaintext
    ensures Resolve("0.0.0.0:7419", false, [], env).outcome == Failed(NotFound([]))
    ensures Resolve("0.0.0.0:7419", true, ["/any/dir"], env).outcome == Plaintext
  {
    LocalhostMatchIsAnchored();
    assert !StartsWith("0.0.0.0:7419", LocalhostPrefix);
  }
}
