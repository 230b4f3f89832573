/**
  The network-isolation flag: a deny-everything host-resolver rule followed by
  one exclusion per allowed host, serialised into a single Chrome
  command-line argument.
  */
module NetworkIsolation {
  import opened JsStrings

  /** The hosts that stay reachable; every other host is blocked. */
  const AllowedHosts: seq<string> := ["localhost", "127.0.0.1"]

  /** The rule that maps every host name to "not found". */
  const BlockAllRule: string := "MAP * ~NOTFOUND"

  /** What an exclusion rule puts in front of its host. */
  const ExcludeKeyword: string := "EXCLUDE "

  /** The switch name the rule list is attached to. */
  const FlagPrefix: string := "--host-resolver-rules="

  /** The exclusion rule for one host: the host follows the keyword verbatim. */
  function ExcludeRule(host: string): (rule: string)
    ensures |rule| == |ExcludeKeyword| + |host|
    ensures rule[..|ExcludeKeyword|] == ExcludeKeyword
    ensures rule[|ExcludeKeyword|..] == host
  {
    ExcludeKeyword + host
  }

  /** `hosts.map(host => `EXCLUDE ${host}`)`: one rule per host, in list order. */
  function ExcludeRules(hosts: seq<string>): (rules: seq<string>)
    ensures |rules| == |hosts|
    ensures forall i :: 0 <= i < |hosts| ==> rules[i] == ExcludeRule(hosts[i])
  {
    if hosts == [] then []
    else [ExcludeRule(hosts[0])] + ExcludeRules(hosts[1..])
  }

  /** The rule list: block everything first, then one exclusion per host. */
  function Rules(hosts: seq<string>): (rules: seq<string>)
    ensures |rules| == 1 + |hosts|
    ensures rules[0] == BlockAllRule
    ensures forall i :: 0 <= i < |hosts| ==> rules[i + 1] == ExcludeRule(hosts[i])
  {
    [BlockAllRule] + ExcludeRules(hosts)
  }

  /** The flag for an arbitrary allowlist: the rule list joined by ", " after the switch name. */
  function BuildFlag(hosts: seq<string>): (flag: string)
    ensures |FlagPrefix| + |BlockAllRule| <= |flag|
    ensures flag[..|FlagPrefix|] == FlagPrefix
    ensures flag[|FlagPrefix|..|FlagPrefix| + |BlockAllRule|] == BlockAllRule
  {
    FlagPrefix + Join(Rules(hosts))
  }

  /** The arguments that isolate the browser: the flag for the hard-coded allowlist, alone. */
  function GetNetworkIsolationArgs(): (args: seq<string>)
    ensures args == ["--host-resolver-rules=MAP * ~NOTFOUND, EXCLUDE localhost, EXCLUDE 127.0.0.1"]
  {
    BuildFlagAllowedHosts();
    [BuildFlag(AllowedHosts)]
  }

  /** The flag for the hard-coded allowlist, spelled out. */
  lemma BuildFlagAllowedHosts()
    ensures BuildFlag(AllowedHosts)
         == "--host-resolver-rules=MAP * ~NOTFOUND, EXCLUDE localhost, EXCLUDE 127.0.0.1"
  {
    BuildFlagTwo("localhost", "127.0.0.1");
    var first := "--host-resolver-rules=MAP * ~NOTFOUND, EXCLUDE " + "localhost";
    assert first == "--host-resolver-rules=MAP * ~NOTFOUND, EXCLUDE localhost";
    assert first + ", EXCLUDE " + "127.0.0.1"
        == "--host-resolver-rules=MAP * ~NOTFOUND, EXCLUDE localhost, EXCLUDE 127.0.0.1";
  }

  /** An empty allowlist leaves the block-everything rule alone, with no trailing separator. */
  lemma BuildFlagEmpty()
    ensures BuildFlag([]) == "--host-resolver-rules=MAP * ~NOTFOUND"
  {
    assert Rules([]) == [BlockAllRule];
  }

  /** The flag is the bare block-everything rule exactly when the allowlist is empty. */
  lemma BuildFlagIsBareIff(hosts: seq<string>)
    ensures BuildFlag(hosts) == FlagPrefix + BlockAllRule <==> hosts == []
  {
    if hosts == [] {
      BuildFlagEmpty();
    } else {
      assert |Rules(hosts)| > 1;
      assert |BuildFlag(hosts)| > |FlagPrefix + BlockAllRule|;
    }
  }

  /** Allowing one more host appends exactly one ", EXCLUDE <host>" to the flag, leaving the rest as it was. */
  lemma BuildFlagAppend(hosts: seq<string>, host: string)
    ensures BuildFlag(hosts + [host]) == BuildFlag(hosts) + Separator + ExcludeRule(host)
  {
    assert Rules(hosts + [host]) == Rules(hosts) + [ExcludeRule(host)];
    JoinSnoc(Rules(hosts), ExcludeRule(host));
  }

  /** The flag for a one-host allowlist. */
  lemma BuildFlagOne(h1: string)
    ensures BuildFlag([h1]) == "--host-resolver-rules=MAP * ~NOTFOUND, EXCLUDE " + h1
  {
    BuildFlagEmpty();
    BuildFlagAppend([], h1);
    assert [] + [h1] == [h1];
  }

  /** The flag for a two-host allowlist. */
  lemma BuildFlagTwo(h1: string, h2: string)
    ensures BuildFlag([h1, h2])
         == "--host-resolver-rules=MAP * ~NOTFOUND, EXCLUDE " + h1 + ", EXCLUDE " + h2
  {
    BuildFlagOne(h1);
    BuildFlagAppend([h1], h2);
    assert [h1] + [h2] == [h1, h2];
  }

  /** The flag for a three-host allowlist. */
  lemma BuildFlagThree(h1: string, h2: string, h3: string)
    ensures BuildFlag([h1, h2, h3])
         == "--host-resolver-rules=MAP * ~NOTFOUND, EXCLUDE " + h1 + ", EXCLUDE " + h2 + ", EXCLUDE " + h3
  {
    BuildFlagTwo(h1, h2);
    BuildFlagAppend([h1, h2], h3);
    assert [h1, h2] + [h3] == [h1, h2, h3];
  }

  /** The builder's test case with one host. */
  lemma BuildFlagOneHost()
    ensures BuildFlag(["example.com"])
         == "--host-resolver-rules=MAP * ~NOTFOUND, EXCLUDE example.com"
  {
    BuildFlagOne("example.com");
    assert "--host-resolver-rules=MAP * ~NOTFOUND, EXCLUDE " + "example.com"
        == "--host-resolver-rules=MAP * ~NOTFOUND, EXCLUDE example.com";
  }

  /** The builder's test case with three hosts, kept in list order. */
  lemma BuildFlagThreeHosts()
    ensures BuildFlag(["example.com", "*.test.org", "localhost"])
         == "--host-resolver-rules=MAP * ~NOTFOUND, EXCLUDE example.com, EXCLUDE *.test.org, EXCLUDE localhost"
  {
    BuildFlagThree("example.com", "*.test.org", "localhost");
    var first := "--host-resolver-rules=MAP * ~NOTFOUND, EXCLUDE " + "example.com";
    assert first == "--host-resolver-rules=MAP * ~NOTFOUND, EXCLUDE example.com";
    var second := first + ", EXCLUDE " + "*.test.org";
    assert second == "--host-resolver-rules=MAP * ~NOTFOUND, EXCLUDE example.com, EXCLUDE *.test.org";
    assert second + ", EXCLUDE " + "localhost"
        == "--host-resolver-rules=MAP * ~NOTFOUND, EXCLUDE example.com, EXCLUDE *.test.org, EXCLUDE localhost";
  }

  /** The builder's test case with a wildcard host, passed through untouched. */
  lemma BuildFlagWildcardHost()
    ensures BuildFlag(["*.api.example.com"])
         == "--host-resolver-rules=MAP * ~NOTFOUND, EXCLUDE *.api.example.com"
  {
    BuildFlagOne("*.api.example.com");
    assert "--host-resolver-rules=MAP * ~NOTFOUND, EXCLUDE " + "*.api.example.com"
        == "--host-resolver-rules=MAP * ~NOTFOUND, EXCLUDE *.api.example.com";
  }
}
