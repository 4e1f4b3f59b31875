/** The resolver of server/tls.go in its imperative form: the `optional` flag
    that is reassigned, the loop over the candidate entries with `continue`
    and early returns, and the config whose `RootCAs` is set after it is
    built. Each method is proved equal to the policy in TlsPolicy. */
module ServerTls {
  import opened Wrappers
  import opened TlsPolicy

  /** `findTlsConfigIn`. Returns Go's (config, error) pair; the ghost `probes`
      records the queries put to the environment, in order. */
  method FindTlsConfigIn(binding: string, disableTls: bool, dirs: seq<string>, env: Env)
    returns (cfg: Option<Config>, err: Option<Error>, ghost probes: seq<Probe>)
    ensures cfg.None? || err.None?
    ensures (cfg, err) == AsPair(Resolve(binding, disableTls, dirs, env).outcome)
    ensures probes == Resolve(binding, disableTls, dirs, env).probes
  {
    probes := [];
    var optional := StartsWith(binding, LocalhostPrefix);
    if disableTls {
      optional := true;
    }
    if optional {
      cfg, err := None, None;
      return;
    }

    var i := 0;
    while i < |dirs|
      invariant i <= |dirs|
      invariant forall j :: 0 <= j < i ==> Skipped(dirs[j], env)
      invariant probes == SkipProbes(dirs, i)
    {
      var dir := dirs[i];
      if dir == "" {
        i := i + 1;
        continue;
      }

      var pub := dir + PublicCrt;
      probes := probes + [Probe(i, Stat(pub))];
      var found := env.fileExists(pub);
      if found.Failure? {
        cfg, err := None, Some(ExistsErr(pub, found.error));
        ResolveAtFirstCandidate(binding, disableTls, dirs, i, env);
        return;
      }
      if !found.value {
        i := i + 1;
        continue;
      }
      ghost var loaded;
      cfg, err, loaded := LoadBundleFrom(i, dir, env);
      ResolveAtFirstCandidate(binding, disableTls, dirs, i, env);
      probes := probes + loaded;
      return;
    }

    cfg, err := None, Some(NotFound(dirs));
    ResolveWhenAllSkipped(binding, disableTls, dirs, env);
  }

  /** The rest of the loop body once `public.crt` exists in `dir` (entry `i`):
      load the key pair, build the config, and attach the `ca.crt` pool when
      that file exists. Whatever it returns ends the whole resolution. */
  method LoadBundleFrom(i: nat, dir: string, env: Env)
    returns (cfg: Option<Config>, err: Option<Error>, ghost probes: seq<Probe>)
    ensures (cfg, err) == AsPair(LoadBundle(i, dir, env).outcome)
    ensures probes == LoadBundle(i, dir, env).probes
  {
    var pub, key := dir + PublicCrt, dir + PrivateKey;
    probes := [Probe(i, LoadPair(pub, key))];
    var cert := env.loadX509KeyPair(pub, key);
    if cert.Failure? {
      cfg, err := None, Some(LoadErr(pub, key, cert.error));
      return;
    }
    var tlscfg := Config(None, [cert.value]);

    var ca := dir + CaCrt;
    probes := probes + [Probe(i, Stat(ca))];
    var caExists := env.fileExists(ca);
    if caExists.Failure? {
      cfg, err := None, Some(ExistsErr(ca, caExists.error));
      return;
    }
    if caExists.value {
      probes := probes + [Probe(i, ReadFile(ca))];
      var pemData := env.readFile(ca);
      if pemData.Failure? {
        cfg, err := None, Some(ReadErr(ca, pemData.error));
        return;
      }
      var cas := NewCertPool();
      cas := AppendCertsFromPem(cas, pemData.value, env);  // whether any certificate parsed is ignored
      tlscfg := tlscfg.(rootCAs := Some(cas));
    }
    cfg, err := Some(tlscfg), None;
  }

  /** `tlsConfig`: the resolver over the default candidate list, with `$HOME`
      passed in. The parameter is called `forceTls` as in the source, yet
      setting it makes TLS optional. */
  method TlsConfig(binding: string, forceTls: bool, home: string, env: Env)
    returns (cfg: Option<Config>, err: Option<Error>)
    ensures (cfg, err) == AsPair(Resolve(binding, forceTls, DefaultDirs(home), env).outcome)
  {
    ghost var probes;
    cfg, err, probes := FindTlsConfigIn(binding, forceTls, DefaultDirs(home), env);
  }
}
