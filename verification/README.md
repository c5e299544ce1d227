# lccncamp HTTP server: request-handling core in Dafny

The server answers `/healthz` with `ok\n`, answers `/hello` by reflecting the
request's headers (plus a `Version` header from the `version` setting) through
a logging wrapper, and serves Prometheus metrics. This project models the part
of `main.go` with behaviour that can be stated:

- **Client-IP resolution** (`GetIP`): `X-Real-IP` if it parses as an address,
  else the first parseable comma-separated entry of `X-Forward-For` (entries
  are not trimmed), else the host part of the remote address; otherwise `""`
  with an error. `net.ParseIP` is the parameter `validIP` and
  `net.SplitHostPort` the parameter `hostOf` (returning `None` on error).
  The facts about them that the code relies on are predicates the lemmas
  require where needed: `RejectsEmpty` (`ParseIP("")` fails) and
  `NeedsPortSeparator` (`SplitHostPort` fails without a `:`).
  `strings.Split` is modelled concretely (`GoStrings`), with both round trips
  against `Join` proved.
- **Header reflection** (`rootHandler`): every value of every request header
  with a non-empty key is appended, in order, under that key; then `Version`
  is appended exactly when `version` is non-empty. Go ranges over the header
  map in no fixed order, so the copy takes the visiting order as a parameter,
  and `CopyFollowsReference` proves every visiting order yields the same,
  order-free reference map.
- **Status bookkeeping**: `healthzHandler` writes `ok\n` and issues
  `WriteHeader(500)` only when that write fails; the `LoggingResponseWriter`
  starts at 200, changes its captured status only through `WriterHeader`, and
  the wrapper calls that only when the trailer write fails, so the logged code
  is 200 or 500. The underlying response writer is represented by the list of
  calls made on it; write outcomes are inputs.

Modules: `Optional` (option type), `GoStrings` (split/join), `Header` (Go's
header map: `Get`, `Add`), `ClientIP`, `RootHandler`, `Status`.

Behaviours of main.go worth knowing:

- Forwarding entries are not trimmed: `" 10.0.0.1"` keeps its space
  (`ForwardChainExample`), and an entry `validIP` rejects is skipped
  (`ForwardedFirstValid`, `FirstValid`).
- The forwarding header read is `X-Forward-For`; a conventional
  `X-Forwarded-For` header has no effect (`ConventionalSpellingIgnored`).
- With `version` empty the response can still carry `Version`, because a
  client-sent `Version` header is reflected like any other
  (`ClientVersionEchoed`).
- The wrapper does update its captured status, through `WriterHeader` when the
  trailer write fails; a `WriteHeader` made by the inner handler bypasses it
  (`InnerWriteHeaderNotCaptured`).

## Model

| member | source | states |
|---|---|---|
| GoStrings.Split | main.go:95 | splitting on `,` yields at least one piece and no piece contains a `,` |
| GoStrings.JoinSplit | main.go:95 | joining the pieces of a split with the separator gives back the original string |
| GoStrings.SplitJoin | main.go:95 | splitting a join of separator-free pieces gives back exactly those pieces |
| GoStrings.SplitLength | main.go:95 | a split has one more piece than the string has separators |
| GoStrings.SplitEmpty | main.go:94-95 | an empty header splits into the single piece `""` |
| Header.GetAfterAddAll | main.go:90 | a lookup after values are added under a key still reads the first value stored there, which is the first added value only when the key had none |
| ClientIP.GetIPReadsFirstValues | main.go:90-94 | GetIP depends only on the first `X-Real-Ip` value, the first `X-Forward-For` value and the remote address: values added later under those keys change nothing |
| Header.Add | main.go:78 | `Add` appends one value under the key, creating it if needed, and leaves every other key unchanged |
| Header.AddAll | main.go:77-79 | adding each value of a list in turn appends the whole list, in order, under that key only |
| ClientIP.FirstValid | main.go:95-99 | the scan finds the leftmost parseable entry, every entry before it fails to parse, and it finds nothing exactly when no entry parses |
| ClientIP.FromRemoteAddr | main.go:100-107 | the remote-address fallback errors with an address error exactly when SplitHostPort fails; a success is a parseable host from SplitHostPort; an error carries `""` |
| ClientIP.SelectIP | main.go:89-108 | every success parses and comes from one of the three sources; every error result carries `""` |
| ClientIP.GetIP | main.go:89-108 | on a request: every success parses, every error carries `""` |
| ClientIP.RealIPFirst | main.go:90-93 | a parseable X-Real-IP value is returned verbatim with no error, whatever the other inputs |
| ClientIP.ForwardedFirstValid | main.go:94-99 | otherwise the first parseable forwarding entry is returned exactly as it stands between the commas |
| ClientIP.FallsBackToRemoteAddr | main.go:94-100 | when neither header yields a parseable value the remote address decides |
| ClientIP.EmptyForwardFallsThrough | main.go:94-99 | an empty forwarding header is one empty entry, which does not parse, so resolution falls through |
| ClientIP.NoPortSeparatorFails | main.go:100-103 | a remote address with no `:` yields `""` with an address error |
| ClientIP.RemoteHostDecides | main.go:104-107 | a split host is returned when it parses, otherwise `""` with "no valid ip found" |
| ClientIP.SucceedsIff | main.go:89-108 | resolution succeeds if and only if one of the three sources offers a parseable address |
| ClientIP.ConventionalSpellingIgnored | main.go:94 | an `X-Forwarded-For` header never changes the result |
| ClientIP.RealIPExample | main.go:90-93 | `X-Real-IP: 203.0.113.5` resolves to `203.0.113.5` |
| ClientIP.ForwardChainExample | main.go:94-99 | `198.51.100.9, 10.0.0.1` splits into `198.51.100.9` and ` 10.0.0.1` (untrimmed) and resolves to `198.51.100.9` |
| ClientIP.RemoteAddrExample | main.go:100-106 | with no proxy headers, `192.0.2.1:54321` resolves to `192.0.2.1` |
| ClientIP.MalformedRemoteAddrExample | main.go:100-103 | with no proxy headers, `192.0.2.1` (no port) fails with an address error |
| RootHandler.CopyFollowsReference | main.go:75-81 | the copy loop, for any duplicate-free visiting order of the keys, builds the reference map: old values then the request's values under each non-empty key |
| RootHandler.OrderIrrelevant | main.go:75-81 | two visiting orders of the request's keys give identical response headers |
| RootHandler.CopyReflectsEveryValue | main.go:75-81 | every non-empty request key ends with its old values followed by all request values in order; the empty key and keys not in the request are untouched; no other key appears |
| RootHandler.VersionAddedIffNonEmpty | main.go:83-86 | one `Version` value equal to `version` is appended if and only if `version` is non-empty, and no other header changes |
| RootHandler.RootHandlerFromEmpty | main.go:74-86 | into empty response headers, every non-empty key other than `Version` gets exactly the request's values, `""` gets none, and `Version` gets the request's values plus `version` when set |
| RootHandler.ClientVersionEchoed | main.go:75-86 | a client-sent `Version` header is reflected even when `version` is empty |
| Status.Healthz | main.go:61-66 | the health handler's first call writes `ok\n`, it writes no other body, and it calls `WriteHeader(500)`, after the write, if and only if that write fails |
| Status.WriteThenRecover | main.go:137-140 | a body write followed by the recovery path writes that body once and sets 500 exactly when the write fails |
| Status.NewLoggingResponseWriter | main.go:115-117 | a new logging writer has captured status 200 and has made no calls |
| Status.RunCapturesLastWriterHeader | main.go:119-122 | the captured status is the last code given to `WriterHeader` (the initial one if none); every operation reaches the embedded writer as one call |
| Status.WrapperWriter | main.go:135-140 | after the inner handler and the trailer write, the captured status is 200 unless that write failed, then 500; the embedded writer saw the inner calls, the trailer, and `WriteHeader(500)` only on failure |
| Status.WrapHandlerWithLogging | main.go:128-144 | the logged code is 200 when the trailer write succeeds and 500 when it fails; the logged IP is present exactly when GetIP succeeds and is then GetIP's address; the calls are exactly the inner handler's, then the trailer write, then `WriteHeader(500)` only on failure |
| Status.LoggedCodeIgnoresInnerHandler | main.go:136-142 | the logged code does not depend on the inner handler's calls and is 200 or 500 |
| Status.InnerWriteHeaderNotCaptured | main.go:110-122 | an inner handler's `WriteHeader(404)` is not the logged code |
| Status.Hello | main.go:29 | a `/hello` request reflects the request headers and the version into empty response headers, writes the trailer, and logs 200 or 500 by the trailer outcome |

## Left out

- The `main` lifecycle (listener goroutine, signal channel, 60-second shutdown): concurrency and operating-system interaction.
- The random 10-2000 ms sleep and the metrics timer in `rootHandler`, and `metrics/metrics.go` entirely: randomness, wall-clock time, floating-point histograms and Prometheus registration.
- `glog` logging, `promhttp.Handler` and the actual socket writes: the logged line is returned as a value and write success or failure is an input.
- The internals of `net.ParseIP` and `net.SplitHostPort`: library code, represented by the parameters `validIP` and `hostOf`.
- Header-key canonicalisation (`textproto.CanonicalMIMEHeaderKey`): keys are taken to be canonical already, so the lookups use `X-Real-Ip` and `X-Forward-For`, the canonical forms of the names in the code.
- The status line actually sent to the client: whether net/http honours a `WriteHeader` issued after a body write is library behaviour; the model records the calls made.
- The byte count returned by `WriterString`: only its success or failure is used.
- Status.Healthz: states the calls made and their order, not which status the client finally sees, because that depends on net/http.
