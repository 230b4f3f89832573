# Network-isolation flag for the browser launcher

This project models how the chrome-devtools-mcp server builds the Chrome switch that cuts the browser off from the network.
`getNetworkIsolationArgs` takes the hard-coded allowlist `['localhost', '127.0.0.1']`.
It builds a rule list with a block-everything rule (`MAP * ~NOTFOUND`) first, then one `EXCLUDE <host>` rule per allowed host, in list order.
It joins the rules with `", "` and puts `--host-resolver-rules=` in front.
It returns that one string as the only launch argument.

The model has three modules:

- `JsStrings` (js_strings.dfy): `Array.prototype.join(", ")` as `Join`, and its inverse `String.prototype.split(", ")` as `Split`. Both round trips are proved: splitting and re-joining always gives the text back, and joining a non-empty list of separator-free parts and splitting again gives the parts back.
- `NetworkIsolation` (network_isolation.dfy): the constants, the exclusion rule for one host, the mapped rule list, and the flag builder. The body of `getNetworkIsolationArgs` becomes `BuildFlag(hosts)`, which takes the allowlist as a parameter. `GetNetworkIsolationArgs()` is `[BuildFlag(AllowedHosts)]`. The builder's test cases are proved as concrete lemmas.
- `FlagDecoding` (flag_decoding.dfy): an independent reader of the flag. It checks and strips the switch name, splits on `", "`, checks the leading block-everything rule and strips `EXCLUDE ` from each remaining rule. Every flag it accepts is exactly the flag built from its result (soundness). Every allowlist whose hosts hold no `", "` is read back exactly, in order and with duplicates (completeness). So two such allowlists give the same flag only if they are equal. Every allowlist the reader returns is itself free of `", "`, so the round trip holds exactly for the allowlists whose hosts hold no `", "`: any host that holds one breaks it.

The source takes the allowlist from a constant that is never changed, and every model member is a pure function. So the argument list is the same on every call.

## Model

| member | source | states |
|---|---|---|
| `NetworkIsolation.ExcludeRule` | src/network-isolation.ts:20 | an exclusion rule is the keyword `EXCLUDE ` followed by the host verbatim (no trimming, lowercasing or escaping), so its length is 8 plus the host's |
| `NetworkIsolation.ExcludeRules` | src/network-isolation.ts:20 | the mapped list has one rule per host, and rule i is the exclusion of host i (order kept, duplicates kept) |
| `NetworkIsolation.Rules` | src/network-isolation.ts:18-21 | the rule list has one more rule than there are hosts; the first is always `MAP * ~NOTFOUND`; rule i+1 excludes host i |
| `NetworkIsolation.BuildFlag` | src/network-isolation.ts:18-22 | for every allowlist the flag starts with `--host-resolver-rules=` immediately followed by `MAP * ~NOTFOUND` |
| `NetworkIsolation.GetNetworkIsolationArgs` | src/network-isolation.ts:11-23 | the result is exactly one argument, `--host-resolver-rules=MAP * ~NOTFOUND, EXCLUDE localhost, EXCLUDE 127.0.0.1` |
| `NetworkIsolation.BuildFlagAllowedHosts` | src/network-isolation.ts:11-22 | the flag for the hard-coded allowlist, spelled out character for character |
| `NetworkIsolation.BuildFlagEmpty` | src/network-isolation.ts:18-22 | an empty allowlist gives exactly `--host-resolver-rules=MAP * ~NOTFOUND`, with no trailing separator |
| `NetworkIsolation.BuildFlagIsBareIff` | src/network-isolation.ts:18-22 | the flag is the bare block-everything rule if and only if the allowlist is empty |
| `NetworkIsolation.BuildFlagAppend` | src/network-isolation.ts:18-22 | adding a host at the end of the allowlist appends exactly `, EXCLUDE <host>` to the flag and changes nothing before it |
| `NetworkIsolation.BuildFlagOne` | src/network-isolation.ts:18-22 | for every single host h the flag is `--host-resolver-rules=MAP * ~NOTFOUND, EXCLUDE ` followed by h |
| `NetworkIsolation.BuildFlagTwo` | src/network-isolation.ts:18-22 | for every two hosts the flag holds their two exclusions after the block rule, first host first |
| `NetworkIsolation.BuildFlagThree` | src/network-isolation.ts:18-22 | for every three hosts the flag holds their three exclusions after the block rule, in list order |
| `NetworkIsolation.BuildFlagOneHost` | tests/network-isolation.test.ts:137-143 | `["example.com"]` gives `--host-resolver-rules=MAP * ~NOTFOUND, EXCLUDE example.com` |
| `NetworkIsolation.BuildFlagThreeHosts` | tests/network-isolation.test.ts:145-155 | three hosts, including a wildcard, give their three exclusions in input order |
| `NetworkIsolation.BuildFlagWildcardHost` | tests/network-isolation.test.ts:157-163 | a wildcard host `*.api.example.com` is passed through untouched |
| `JsStrings.Join` | src/network-isolation.ts:22 | a non-empty join starts with the first part, and with two or more parts a separator follows it directly |
| `JsStrings.JoinSnoc` | src/network-isolation.ts:22 | joining one more part appends the separator and that part |
| `JsStrings.Split` | src/network-isolation.ts:22 | the split of any text has at least one piece, and no piece holds the separator |
| `JsStrings.JoinSplit` | src/network-isolation.ts:22 | joining the pieces of a split gives the original text back, for every text |
| `JsStrings.SplitJoin` | src/network-isolation.ts:22 | splitting the join of a non-empty list of separator-free parts gives the list back, so the join is invertible |
| `FlagDecoding.StripExclude` | src/network-isolation.ts:20 | a rule yields a host if and only if it is the exclusion rule of some host, and then it is the exclusion rule of exactly that host |
| `FlagDecoding.StripExcludeRule` | src/network-isolation.ts:20 | stripping the keyword from the exclusion rule of any host gives that host back |
| `FlagDecoding.DecodeExcludes` | src/network-isolation.ts:20 | a decoded host list maps back to exactly the rules it was read from |
| `FlagDecoding.DecodeRules` | src/network-isolation.ts:18-21 | a decoded allowlist rebuilds exactly the rule list it was read from |
| `FlagDecoding.DecodeFlagSound` | src/network-isolation.ts:18-22 | every flag that decodes is exactly the flag built from the decoded allowlist |
| `FlagDecoding.DecodeFlagComplete` | src/network-isolation.ts:18-22 | a flag built from hosts that hold no `", "` decodes to exactly those hosts, in order and with duplicates |
| `FlagDecoding.BuildFlagInjective` | src/network-isolation.ts:18-22 | two `", "`-free allowlists give the same flag only if they are the same list, so no host is dropped, merged or reordered |
| `FlagDecoding.ExcludeRuleHostNoSep` | src/network-isolation.ts:20 | the host inside a `", "`-free exclusion rule holds no `", "` either |
| `FlagDecoding.DecodedHostsNoSep` | src/network-isolation.ts:18-22 | no host of an allowlist the reader returns holds `", "` |
| `FlagDecoding.RoundTripIff` | src/network-isolation.ts:18-22 | for every allowlist, its flag reads back as exactly that allowlist if and only if no host holds `", "` |
| `FlagDecoding.AllowedHostsRoundTrip` | src/network-isolation.ts:11-23 | the argument for the hard-coded allowlist decodes back to `["localhost", "127.0.0.1"]` |
| `FlagDecoding.SplitOfSeparatorHost` | src/network-isolation.ts:22 | the rule list split from the flag for a host `a, b` is the block rule, an exclusion of `a`, and a stray piece `b` |
| `FlagDecoding.SeparatorInHostBreaksDecoding` | src/network-isolation.ts:22 | a host `a, b` (with `b` not itself an exclusion rule) comes back as two pieces, so the flag no longer decodes; the `", "`-free condition of the round trip is needed |

## Left out

- `parseAllowlist` and `buildHostResolverRulesFlag`: the tests import them, but src/network-isolation.ts does not define them. The allowlist grammar, trimming, lowercasing and error collection are not part of this model. `BuildFlag` is the list-parameterised builder that the builder's tests describe, and its test strings are proved about it.
- Reading the allowlist from an environment variable, validating it and refusing to launch on an invalid entry: src/network-isolation.ts has no such code. The allowlist is the constant `ALLOWED_HOSTS` (src/network-isolation.ts:11), so there is no environment read and no configuration error.
- Launching Chrome and how Chrome interprets `--host-resolver-rules` are external processes that only consume the string.
- Strings are sequences of Dafny characters. JavaScript's UTF-16 code units are not modelled; the builder never inspects or changes a host's characters.
- The test harness (`node:test`, `node:assert`).
