# TLS configuration resolver (faktory `server/tls.go`)

This project models the resolver that decides how the faktory server's
listening endpoint is secured, and proves its policy in Dafny.
`findTlsConfigIn(binding, disableTls, dirs)` returns one of three results:

- (nil, nil): TLS is optional, so the endpoint may accept plaintext.
- (config, nil): a certificate bundle was found and loaded.
- (nil, error): otherwise.

TLS is optional when the binding starts with the literal `localhost:` or the
flag is set. Otherwise the candidate directories are searched in order:

- An empty entry is skipped.
- A directory without `public.crt` is skipped.
- The first directory whose `public.crt` exists (or whose existence check
  fails) is authoritative. Its key pair is loaded, and its `ca.crt`, when
  present, becomes the root CA pool.
- Any failure there is final.
- When every entry is skipped, the error names the whole list.

`tlsConfig(binding, forceTLS)` runs the same resolver over the default list
`$HOME/.faktory/tls`, `/etc/faktory/tls`.

Files:

- `wrappers.dfy`: `Option` and `Result`.
- `tls_policy.dfy` (module `TlsPolicy`): the data model, the environment,
  and the policy as functions. `Resolve` returns the outcome together with
  the ordered list of queries put to the environment (`probes`, each tagged
  with its entry's index).
- `server_tls.dfy` (module `ServerTls`): the resolver as the source writes
  it. The `optional` flag is reassigned, a `while` loop uses `continue` and
  early returns, and the config is built before its `RootCAs` is set. Each
  method is proved equal to the policy.
- `tls_properties.dfy` (module `TlsProperties`): the properties of the
  policy.

The filesystem and crypto calls are an abstract, total environment `Env`. It
has four fields: `fileExists` (`util.FileExists`), `loadX509KeyPair`,
`readFile` (`ioutil.ReadFile`), and `parsePemCerts`. The last one returns the
certificates that `AppendCertsFromPEM` manages to parse.

The parameter of `tlsConfig` is called `forceTLS` (server/tls.go:21). It is
passed as `disableTls`, and setting it makes TLS *optional*. The model keeps
the name `forceTls` and proves that meaning.

A CA bundle in which no certificate parses is handled as the code handles
it. The code ignores the result of `AppendCertsFromPEM` (server/tls.go:76),
so the config carries a fresh, possibly empty, pool and no error. Failing
the call on such a bundle would be a different program; the model follows
the code.

## Model

| member | source | states |
|---|---|---|
| ServerTls.FindTlsConfigIn | server/tls.go:25-83 | The imperative resolver returns exactly Go's pair for `Resolve`'s outcome, never a config together with an error, and makes exactly `Resolve`'s probes in order; the loop keeps "every entry so far was empty or lacked `public.crt`" |
| ServerTls.LoadBundleFrom | server/tls.go:58-79 | Loading a found bundle (key pair, then optional `ca.crt`, pool attached after the config is built) returns Go's pair for `LoadBundle`'s outcome with its probes |
| ServerTls.TlsConfig | server/tls.go:21-23 | `tlsConfig` is the resolver over the default list for the given `$HOME`, with `forceTls` in the `disableTls` position |
| TlsPolicy.FirstCandidate | server/tls.go:45-56 | The search stops at the first entry from `i` on that is neither empty nor reports `public.crt` missing: every entry before it is skipped, and it is `|dirs|` only when all are |
| TlsPolicy.StartsWith | server/tls.go:26-27 | A start-anchored literal match never matches a pattern longer than the binding |
| TlsPolicy.Optional | server/tls.go:26-38 | TLS is optional on a `localhost:` binding or when `disableTls` is set (its meaning is proved in `OptionalIff`) |
| TlsPolicy.Skipped | server/tls.go:46-56 | The search passes over an empty entry and one whose `public.crt` is reported missing, and nothing else; its meaning is proved through `FirstCandidate`, and `ExistsErrorIsTerminal` shows that a failed check is not passed over |
| TlsPolicy.NewCertPool | server/tls.go:75 | A fresh root pool, before anything is appended (empty) |
| TlsPolicy.AppendCertsFromPem | server/tls.go:76 | Appending a PEM bundle keeps the pool's certificates as a prefix and grows it by the number of certificates that parse; which certificates the pool then holds is proved end to end by `LoadedFrom` in `ResolveAtSecured` |
| TlsPolicy.LoadBundle | server/tls.go:58-79 | Loading a found bundle yields a config or an error other than not-found, and every query it makes is about its own entry |
| TlsPolicy.ResolveAt | server/tls.go:50-79 | The authoritative entry's first query is the existence check of its own `public.crt` |
| TlsPolicy.Resolve | server/tls.go:25-83 | The functional resolver; the not-found error it returns names the whole candidate list |
| TlsPolicy.DefaultDirs | server/tls.go:14-19 | The default list has two entries, `$HOME/.faktory/tls` and `/etc/faktory/tls`, neither of them empty |
| TlsPolicy.ResolveAtFirstCandidate | server/tls.go:45-80 | When TLS is required, the first entry that is not skipped decides the result, preceded only by the `public.crt` checks of the non-empty entries before it |
| TlsPolicy.ResolveWhenAllSkipped | server/tls.go:45-82 | When TLS is required and every entry is skipped, the result is the not-found error carrying the full list, after one `public.crt` check per non-empty entry |
| TlsProperties.StartsWithIsPrefix | server/tls.go:26-27 | The `\Alocalhost:` match is exactly "the pattern is a prefix of the binding" |
| TlsProperties.LocalhostMatchIsAnchored | server/tls.go:27 | `localhost:7419` matches; `0.0.0.0:localhost:`, `LOCALHOST:7419` and `localhost` do not (anchored, case-sensitive, colon required) |
| TlsProperties.OptionalIff | server/tls.go:26-38 | TLS is optional iff the flag is set or the binding's first ten characters are `localhost:` |
| TlsProperties.LocalhostIsPlaintext | server/tls.go:26-38 | A `localhost:` binding yields (nil, nil) with no probe, whatever the flag, list and environment |
| TlsProperties.DisabledIsPlaintext | server/tls.go:32-38 | With the flag set, any binding yields (nil, nil) and the directory list is never consulted |
| TlsProperties.PlaintextIffOptional | server/tls.go:36-38 | (nil, nil) is returned if and only if TLS is optional |
| TlsProperties.ResolveAtNeverPlaintext | server/tls.go:50-79 | The authoritative entry never yields (nil, nil) nor the not-found error |
| TlsProperties.SkipProbesShape | server/tls.go:45-56 | Passing over entries makes exactly one `public.crt` existence check per non-empty entry, in increasing entry order, and none for an empty entry |
| TlsProperties.ResolveAtProbesOwnEntry | server/tls.go:50-79 | Every query made for the authoritative entry reads one of that directory's own files |
| TlsProperties.ProbesStayInCandidates | server/tls.go:45-80 | No empty entry and no entry after the authoritative one is ever probed, and each probe reads a file of its own entry |
| TlsProperties.NotFoundIffAllSkipped | server/tls.go:45-82 | The not-found error is returned iff TLS is required and every entry is empty or lacks `public.crt`, and it then names the full list |
| TlsProperties.LaterEntriesIgnored | server/tls.go:50-79 | Replacing every entry after the authoritative one changes neither the result nor the probes, so a failure there (existence check, key pair, CA read) is never followed by a later directory |
| TlsProperties.ExistsErrorIsTerminal | server/tls.go:50-53 | A failed `public.crt` existence check in a non-empty entry reached by the search is the final error, on that path; later entries are not tried |
| TlsProperties.LoadFailureIsTerminal | server/tls.go:58-61 | A key pair that fails to load in the authoritative directory is the final error |
| TlsProperties.ResolveAtSecured | server/tls.go:58-79 | The authoritative entry yields a config iff `public.crt` is found, the key pair loads, the `ca.crt` check succeeds and an existing `ca.crt` is read; the config holds exactly the loaded pair, RootCAs nil iff `ca.crt` is absent, else a fresh pool of whatever parses from it |
| TlsProperties.ResolveAtErrors | server/tls.go:50-74 | Each failing step ends the call with its own error: existence error on `public.crt`, load error on the pair, existence error on `ca.crt`, read error on `ca.crt` |
| TlsProperties.SecuredConfigShape | server/tls.go:25-83 | A config is returned iff TLS is required, some entry is not skipped and the first such entry's bundle loads; the config is the one loaded from that entry |
| TlsProperties.UnparsableCaBundleAttached | server/tls.go:66-79 | A `ca.crt` that is read but holds no parsable certificate still gives a config, with the loaded pair and an empty root pool, and no error |
| TlsProperties.PairRoundTrip | server/tls.go:29-82 | Go's pair never holds both a config and an error, and reading it back gives the intended outcome |
| TlsProperties.UserDirectoryFirst | server/tls.go:14-23 | With the default list, a `public.crt` under `$HOME/.faktory/tls` makes that directory decide, and `/etc/faktory/tls` is never probed |
| TlsProperties.SecondEntryUsed | server/tls.go:50-79 | For entries [A, B], where A lacks `public.crt` and B loads and has no `ca.crt`, the config is B's pair with no root pool |
| TlsProperties.ConcreteCases | server/tls.go:25-83 | `localhost:7419` gives plaintext; `0.0.0.0:7419` with an empty list gives not-found of []; with the flag it gives plaintext |

## Left out

- The regular-expression engine and its error return (server/tls.go:27-30). The pattern is a constant and cannot fail to compile, so the model uses a literal, case-sensitive prefix test. The binding is a string of characters, not Go's `[]byte`; for the ASCII pattern the match is the same.
- `util.FileExists`, `ioutil.ReadFile`, `tls.LoadX509KeyPair` and PEM/X.509 parsing (server/tls.go:50, 58, 66, 71, 75-76). They are foreign calls, so they are fields of the abstract `Env`. `util.FileExists` is not part of this model, so its error cases are whatever `Env` says.
- `$HOME` expansion and the process-wide `tlsDirectories` (server/tls.go:14-19). The home directory is a parameter of `TlsConfig` and `DefaultDirs`. Even an unset `$HOME` yields the non-empty entry `/.faktory/tls`.
- The text of the not-found error (server/tls.go:82). It is modelled as `NotFound(dirs)`, which carries the searched list. Other errors are tagged with where they arose and carry the library's error as a string. Go passes those errors through untagged.
- The `bool` result of `AppendCertsFromPEM`. The source ignores it (server/tls.go:76).
- Pointer identity of `*tls.Config`. The config is a value. Setting `RootCAs` after construction (server/tls.go:77) is a datatype update of a config that nothing else references, so there is no aliasing to model.
- ServerTls.LoadBundleFrom: the source writes this part of the loop body (server/tls.go:58-79) inline. The model makes it a separate method with the same steps, so that each proof obligation stays small.
- The `probes` trace is ghost bookkeeping. The source records nothing; the trace exists only to state which entries are consulted.
- Changes to the filesystem during a call. `Env` is one fixed snapshot, so a file that appears or vanishes between two checks of the same path (a race Go's real filesystem allows) is not modelled.
- TlsPolicy.AppendCertsFromPem: Go's pool drops a certificate it already holds, and the model appends without that check. The resolver only ever appends to a fresh pool (server/tls.go:75-76), and `parsePemCerts` stands for the distinct certificates that parse, so the results agree for every call the resolver makes.
