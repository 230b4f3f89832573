/**
  Reading a host-resolver flag back into the allowlist it was built from: the
  inverse of `NetworkIsolation.BuildFlag`. It strips the switch name, splits
  the rule list on ", ", checks for the leading block-everything rule and
  strips the keyword from every exclusion.
  */
module FlagDecoding {
  import opened JsStrings
  import opened NetworkIsolation

  datatype Option<T> = None | Some(value: T)

  /** The host of an exclusion rule, or `None` when the rule is not an exclusion. */
  function StripExclude(rule: string): (host: Option<string>)
    ensures host.Some? <==> exists h :: rule == ExcludeRule(h)
    ensures host.Some? ==> rule == ExcludeRule(host.value)
  {
    if |ExcludeKeyword| <= |rule| && rule[..|ExcludeKeyword|] == ExcludeKeyword then
      assert rule == ExcludeRule(rule[|ExcludeKeyword|..]);
      Some(rule[|ExcludeKeyword|..])
    else
      None
  }

  /** An exclusion rule gives back its host. */
  lemma StripExcludeRule(host: string)
    ensures StripExclude(ExcludeRule(host)) == Some(host)
  {
  }

  /** The hosts of a list of exclusion rules, or `None` when one of them is not an exclusion. */
  function DecodeExcludes(rules: seq<string>): (hosts: Option<seq<string>>)
    ensures hosts.Some? ==> ExcludeRules(hosts.value) == rules
  {
    if rules == [] then Some([])
    else
      var host := StripExclude(rules[0]);
      var rest := DecodeExcludes(rules[1..]);
      if host.Some? && rest.Some? then
        var hosts := [host.value] + rest.value;
        assert hosts[1..] == rest.value;
        assert rules == [rules[0]] + rules[1..];
        Some(hosts)
      else
        None
  }

  /** The allowlist a rule list stands for, or `None` when it is not block-everything followed by exclusions. */
  function DecodeRules(rules: seq<string>): (hosts: Option<seq<string>>)
    ensures hosts.Some? ==> Rules(hosts.value) == rules
  {
    if rules != [] && rules[0] == BlockAllRule then
      assert rules == [rules[0]] + rules[1..];
      DecodeExcludes(rules[1..])
    else
      None
  }

  /** The allowlist a flag stands for, or `None` when the flag is not one the builder can produce. */
  function DecodeFlag(flag: string): (hosts: Option<seq<string>>)
  {
    if |FlagPrefix| <= |flag| && flag[..|FlagPrefix|] == FlagPrefix then
      DecodeRules(Split(flag[|FlagPrefix|..]))
    else
      None
  }

  /** Every flag that decodes is exactly the flag the builder makes from the decoded allowlist. */
  lemma DecodeFlagSound(flag: string)
    requires DecodeFlag(flag).Some?
    ensures BuildFlag(DecodeFlag(flag).value) == flag
  {
    var body := flag[|FlagPrefix|..];
    JoinSplit(body);
    assert flag == FlagPrefix + body;
  }

  /** Exclusion rules decode to their hosts. */
  lemma {:induction false} DecodeExcludesComplete(hosts: seq<string>)
    ensures DecodeExcludes(ExcludeRules(hosts)) == Some(hosts)
  {
    if hosts != [] {
      var head, tail := hosts[0], hosts[1..];
      var rules := ExcludeRules(hosts);
      assert rules == [ExcludeRule(head)] + ExcludeRules(tail);
      assert rules[0] == ExcludeRule(head);
      assert rules[1..] == ExcludeRules(tail);
      DecodeExcludesComplete(tail);
      StripExcludeRule(head);
      assert DecodeExcludes(rules) == Some([head] + tail);
      assert hosts == [head] + tail;
    }
  }

  /** An exclusion rule holds the separator only if its host does. */
  lemma ExcludeRuleNoSep(host: string)
    requires !ContainsSep(host)
    ensures !ContainsSep(ExcludeRule(host))
  {
    var r := ExcludeRule(host);
    forall j | 0 <= j < |r|
      ensures !SepAt(r, j)
    {
      if j < |ExcludeKeyword| {
        assert r[j] == ExcludeKeyword[j];
      } else {
        assert !SepAt(host, j - |ExcludeKeyword|);
        assert r[j..] == host[j - |ExcludeKeyword|..];
      }
    }
  }

  /** No rule the builder makes holds the separator when no host does. */
  lemma RulesHaveNoSep(hosts: seq<string>)
    requires NoneContainsSep(hosts)
    ensures NoneContainsSep(Rules(hosts))
  {
    var rules := Rules(hosts);
    NoCommaNoSep(BlockAllRule);
    forall k | 1 <= k < |rules|
      ensures !ContainsSep(rules[k])
    {
      ExcludeRuleNoSep(hosts[k - 1]);
    }
  }

  /** A flag built from hosts that hold no ", " decodes to exactly those hosts, in order. */
  lemma DecodeFlagComplete(hosts: seq<string>)
    requires NoneContainsSep(hosts)
    ensures DecodeFlag(BuildFlag(hosts)) == Some(hosts)
  {
    var flag := BuildFlag(hosts);
    var rules := Rules(hosts);
    assert flag[|FlagPrefix|..] == Join(rules);
    RulesHaveNoSep(hosts);
    SplitJoin(rules);
    assert rules[1..] == ExcludeRules(hosts);
    DecodeExcludesComplete(hosts);
  }

  /** A host stripped from a separator-free exclusion rule holds no separator either. */
  lemma ExcludeRuleHostNoSep(host: string)
    requires !ContainsSep(ExcludeRule(host))
    ensures !ContainsSep(host)
  {
    var r := ExcludeRule(host);
    forall j | 0 <= j < |host|
      ensures !SepAt(host, j)
    {
      assert !SepAt(r, j + |ExcludeKeyword|);
      if j + 1 < |host| {
        assert r[j + |ExcludeKeyword|] == host[j] && r[j + 1 + |ExcludeKeyword|] == host[j + 1];
      }
    }
  }

  /** Every allowlist the reader accepts is free of ", ": the pieces of a split never hold the separator. */
  lemma DecodedHostsNoSep(flag: string)
    requires DecodeFlag(flag).Some?
    ensures NoneContainsSep(DecodeFlag(flag).value)
  {
    var hosts := DecodeFlag(flag).value;
    var rules := Split(flag[|FlagPrefix|..]);
    assert Rules(hosts) == rules;
    forall k | 0 <= k < |hosts|
      ensures !ContainsSep(hosts[k])
    {
      assert rules[k + 1] == ExcludeRule(hosts[k]);
      ExcludeRuleHostNoSep(hosts[k]);
    }
  }

  /** The flag of an allowlist reads back as that allowlist exactly when no host holds ", ". */
  lemma RoundTripIff(hosts: seq<string>)
    ensures DecodeFlag(BuildFlag(hosts)) == Some(hosts) <==> NoneContainsSep(hosts)
  {
    if NoneContainsSep(hosts) {
      DecodeFlagComplete(hosts);
    } else if DecodeFlag(BuildFlag(hosts)) == Some(hosts) {
      DecodedHostsNoSep(BuildFlag(hosts));
    }
  }

  /** Two allowlists free of ", " that give the same flag are the same list: no host is lost, merged or reordered. */
  lemma BuildFlagInjective(hosts1: seq<string>, hosts2: seq<string>)
    requires NoneContainsSep(hosts1) && NoneContainsSep(hosts2)
    requires BuildFlag(hosts1) == BuildFlag(hosts2)
    ensures hosts1 == hosts2
  {
    DecodeFlagComplete(hosts1);
    DecodeFlagComplete(hosts2);
  }

  /** The flag for the hard-coded allowlist decodes back to that allowlist. */
  lemma AllowedHostsRoundTrip()
    ensures DecodeFlag(GetNetworkIsolationArgs()[0]) == Some(AllowedHosts)
  {
    NoCommaNoSep(AllowedHosts[0]);
    NoCommaNoSep(AllowedHosts[1]);
    DecodeFlagComplete(AllowedHosts);
  }

  /** The rule list read from the flag for a host `a, b`: the block rule, an exclusion of `a`, and a stray piece `b`. */
  lemma SplitOfSeparatorHost(a: string, b: string)
    requires !ContainsSep(a) && !ContainsSep(b)
    ensures Split(BuildFlag([a + Separator + b])[|FlagPrefix|..]) == [BlockAllRule, ExcludeRule(a), b]
  {
    var host := a + Separator + b;
    var rules := Rules([host]);
    assert rules == [BlockAllRule, ExcludeRule(host)];
    assert rules[1..] == [ExcludeRule(host)];
    var body := Join(rules);
    assert Join(rules[1..]) == ExcludeRule(host);
    assert body == BlockAllRule + Separator + ExcludeRule(host);
    assert ExcludeRule(host) == ExcludeRule(a) + Separator + b;
    assert body == BlockAllRule + Separator + (ExcludeRule(a) + Separator + b);
    NoCommaNoSep(BlockAllRule);
    ExcludeRuleNoSep(a);
    SplitNoSep(b);
    SplitCons(ExcludeRule(a), b);
    SplitCons(BlockAllRule, ExcludeRule(a) + Separator + b);
    assert BuildFlag([host])[|FlagPrefix|..] == body;
  }

  /** Without the ", "-free condition the allowlist cannot be recovered: a host `a, b`
      comes back as an exclusion of `a` followed by a stray piece `b`, and the flag no longer decodes. */
  lemma SeparatorInHostBreaksDecoding(a: string, b: string)
    requires !ContainsSep(a) && !ContainsSep(b)
    requires StripExclude(b).None?
    ensures DecodeFlag(BuildFlag([a + Separator + b])) == None
  {
    var rules := [BlockAllRule, ExcludeRule(a), b];
    SplitOfSeparatorHost(a, b);
    assert rules[1..] == [ExcludeRule(a), b];
    assert [ExcludeRule(a), b][1..] == [b];
    assert DecodeExcludes([b]) == None;
    assert DecodeExcludes(rules[1..]) == None;
  }
}
