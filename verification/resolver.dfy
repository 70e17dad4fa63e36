/**
 The resolver (`map_devices_to_hostnames`): for each rule in order, count the
 devices whose name the rule's pattern matches and bind the rule's hostname to
 the device at which the count reaches the rule's order.  The result is an
 insertion-ordered dictionary, so a later rule for the same hostname replaces
 the value but not the position of an earlier one.
 */
module Resolver {
  import opened Wrappers
  import opened OrderedMap
  import opened LogParser
  import opened RuleLoader

  /** `re.match(pattern, name)`, supplied by the caller: the regular
      expression engine itself is not modelled. */
  type Matcher = (string, string) -> bool

  /** The connection details bound to a hostname. */
  datatype Host = Host(sshHost: string, sshPort: string, deviceName: string)

  function HostOf(d: Device): Host {
    Host(d.host, d.port, d.name)
  }

  /** Number of devices of `ds` whose name `pattern` matches. */
  function MatchCount(ds: seq<Device>, pattern: string, matches: Matcher): nat {
    if |ds| == 0 then 0
    else (if matches(pattern, ds[0].name) then 1 else 0) + MatchCount(ds[1..], pattern, matches)
  }

  /** Reference definition: the `k`-th device (counting from 1, in list order)
      whose name `pattern` matches, if there is one. */
  function KthMatch(ds: seq<Device>, pattern: string, k: nat, matches: Matcher): (r: Option<Device>)
    ensures r.Some? <==> 1 <= k <= MatchCount(ds, pattern, matches)
    ensures r.Some? ==> r.value in ds && matches(pattern, r.value.name)
  {
    if |ds| == 0 || k == 0 then None
    else if matches(pattern, ds[0].name) then
      if k == 1 then Some(ds[0]) else KthMatch(ds[1..], pattern, k - 1, matches)
    else
      KthMatch(ds[1..], pattern, k, matches)
  }

  /** The `k`-th match is the matching device with exactly `k - 1` matching
      devices before it. */
  lemma {:induction false} KthMatchPosition(ds: seq<Device>, pattern: string, k: nat, matches: Matcher)
    requires KthMatch(ds, pattern, k, matches).Some?
    ensures exists i ::
      && 0 <= i < |ds| && ds[i] == KthMatch(ds, pattern, k, matches).value
      && matches(pattern, ds[i].name) && MatchCount(ds[..i], pattern, matches) == k - 1
  {
    assert ds[..0] == [];
    if !(matches(pattern, ds[0].name) && k == 1) {
      var k' := if matches(pattern, ds[0].name) then k - 1 else k;
      KthMatchPosition(ds[1..], pattern, k', matches);
      var i :| 0 <= i < |ds[1..]| && ds[1..][i] == KthMatch(ds[1..], pattern, k', matches).value
        && matches(pattern, ds[1..][i].name) && MatchCount(ds[1..][..i], pattern, matches) == k' - 1;
      assert ds[..i + 1][1..] == ds[1..][..i];
      assert ds[i + 1] == ds[1..][i];
    }
  }

  lemma {:induction false} MatchCountSnoc(ds: seq<Device>, d: Device, pattern: string, matches: Matcher)
    ensures MatchCount(ds + [d], pattern, matches)
         == MatchCount(ds, pattern, matches) + if matches(pattern, d.name) then 1 else 0
  {
    if |ds| > 0 {
      assert (ds + [d])[1..] == ds[1..] + [d];
      MatchCountSnoc(ds[1..], d, pattern, matches);
    }
  }

  /** Scanning one more device: an earlier `k`-th match stays, otherwise the
      new device is it exactly when it is the `k`-th matching one. */
  lemma {:induction false} KthMatchSnoc(ds: seq<Device>, d: Device, pattern: string, k: nat, matches: Matcher)
    ensures KthMatch(ds + [d], pattern, k, matches) ==
      if KthMatch(ds, pattern, k, matches).Some? then KthMatch(ds, pattern, k, matches)
      else if matches(pattern, d.name) && MatchCount(ds, pattern, matches) + 1 == k then Some(d)
      else None
  {
    if |ds| > 0 && k > 0 {
      assert (ds + [d])[1..] == ds[1..] + [d];
      var k' := if matches(pattern, ds[0].name) then k - 1 else k;
      if !(matches(pattern, ds[0].name) && k == 1) {
        KthMatchSnoc(ds[1..], d, pattern, k', matches);
      }
    } else if |ds| == 0 {
      assert [d][1..] == [];
    }
  }

  /** What one rule binds, if anything. */
  function Binding(ds: seq<Device>, rule: Rule, matches: Matcher): Option<(string, Host)> {
    match KthMatch(ds, rule.pattern, rule.order, matches)
    case Some(d) => Some((rule.hostname, HostOf(d)))
    case None => None
  }

  predicate Succeeds(ds: seq<Device>, rule: Rule, matches: Matcher) {
    KthMatch(ds, rule.pattern, rule.order, matches).Some?
  }

  /** The bindings made by the rules, in rule order. */
  function Bindings(ds: seq<Device>, rules: seq<Rule>, matches: Matcher): Assoc<Host> {
    if |rules| == 0 then []
    else
      var b := Binding(ds, rules[|rules| - 1], matches);
      Bindings(ds, rules[..|rules| - 1], matches) + if b.Some? then [b.value] else []
  }

  /** The dictionary the rules build: their bindings assigned in order. */
  function Resolve(ds: seq<Device>, rules: seq<Rule>, matches: Matcher): Assoc<Host> {
    PutAll([], Bindings(ds, rules, matches))
  }

  /** Assign a binding, if there is one. */
  function Assign(m: Assoc<Host>, b: Option<(string, Host)>): Assoc<Host> {
    match b
    case Some(kv) => Put(m, kv.0, kv.1)
    case None => m
  }

  /** Resolving one more rule assigns its binding, if it has one. */
  lemma ResolveStep(ds: seq<Device>, rules: seq<Rule>, matches: Matcher)
    requires |rules| > 0
    ensures Resolve(ds, rules, matches)
         == Assign(Resolve(ds, rules[..|rules| - 1], matches), Binding(ds, rules[|rules| - 1], matches))
  {
    var bs := Bindings(ds, rules[..|rules| - 1], matches);
    var b := Binding(ds, rules[|rules| - 1], matches);
    if b.Some? {
      assert (bs + [b.value])[..|bs|] == bs;
    } else {
      assert bs + [] == bs;
    }
  }

  /** The inner loop of `map_devices_to_hostnames` for one rule: it does not
      stop at the `order`-th match, and the count reaches `order` only once,
      so it assigns the rule's binding at most once. */
  method ApplyRule(ds: seq<Device>, rule: Rule, matches: Matcher, mapped: Assoc<Host>)
    returns (result: Assoc<Host>)
    ensures result == Assign(mapped, Binding(ds, rule, matches))
  {
    result := mapped;
    var count := 0;
    var j := 0;
    while j < |ds|
      invariant 0 <= j <= |ds|
      invariant count == MatchCount(ds[..j], rule.pattern, matches)
      invariant result == Assign(mapped, Binding(ds[..j], rule, matches))
    {
      var d := ds[j];
      MatchCountSnoc(ds[..j], d, rule.pattern, matches);
      KthMatchSnoc(ds[..j], d, rule.pattern, rule.order, matches);
      assert ds[..j + 1] == ds[..j] + [d];
      if matches(rule.pattern, d.name) {
        count := count + 1;
        if count == rule.order {
          result := Put(result, rule.hostname, HostOf(d));
        }
      }
      j := j + 1;
    }
    assert ds[..j] == ds;
  }

  /** `map_devices_to_hostnames`: the rules applied one after the other. */
  method MapDevices(ds: seq<Device>, rules: seq<Rule>, matches: Matcher) returns (mapped: Assoc<Host>)
    ensures mapped == Resolve(ds, rules, matches)
  {
    mapped := [];
    var r := 0;
    while r < |rules|
      invariant 0 <= r <= |rules|
      invariant mapped == Resolve(ds, rules[..r], matches)
    {
      mapped := ApplyRule(ds, rules[r], matches, mapped);
      ResolveStep(ds, rules[..r + 1], matches);
      assert rules[..r + 1][..r] == rules[..r];
      r := r + 1;
    }
    assert rules[..r] == rules;
  }

  // ---------------------------------------------------------------------------
  // The resulting dictionary
  // ---------------------------------------------------------------------------

  /** A hostname is bound exactly when some rule for it reached its
      `order`-th match. */
  lemma {:induction false} ResolveKeys(ds: seq<Device>, rules: seq<Rule>, matches: Matcher, h: string)
    ensures h in Keys(Resolve(ds, rules, matches)) <==>
      exists i :: 0 <= i < |rules| && rules[i].hostname == h && Succeeds(ds, rules[i], matches)
  {
    if |rules| > 0 {
      var init := rules[..|rules| - 1];
      var last := rules[|rules| - 1];
      ResolveKeys(ds, init, matches, h);
      var before := Resolve(ds, init, matches);
      ResolveKeysStep(ds, rules, matches, h);
      if h in Keys(before) {
        var i :| 0 <= i < |init| && init[i].hostname == h && Succeeds(ds, init[i], matches);
        assert rules[i] == init[i];
      } else if !(last.hostname == h && Succeeds(ds, last, matches)) {
        forall i | 0 <= i < |rules|
          ensures !(rules[i].hostname == h && Succeeds(ds, rules[i], matches))
        {
          if i < |init| {
            assert rules[i] == init[i];
          }
        }
      }
    }
  }

  /** One more rule adds its hostname exactly when it reaches its match. */
  lemma ResolveKeysStep(ds: seq<Device>, rules: seq<Rule>, matches: Matcher, h: string)
    requires |rules| > 0
    ensures var last := rules[|rules| - 1];
      h in Keys(Resolve(ds, rules, matches))
      <==> h in Keys(Resolve(ds, rules[..|rules| - 1], matches))
           || (last.hostname == h && Succeeds(ds, last, matches))
  {
    ResolveStep(ds, rules, matches);
    var b := Binding(ds, rules[|rules| - 1], matches);
    if b.Some? {
      PutKeys(Resolve(ds, rules[..|rules| - 1], matches), b.value.0, b.value.1);
    }
  }

  /** The last rule for a hostname that reaches its match decides the value;
      earlier rules for it, and rules for other hostnames, do not. */
  lemma {:induction false} ResolveLastWins(ds: seq<Device>, rules: seq<Rule>, matches: Matcher, i: nat)
    requires i < |rules| && Succeeds(ds, rules[i], matches)
    requires forall j :: i < j < |rules| && rules[j].hostname == rules[i].hostname ==>
      !Succeeds(ds, rules[j], matches)
    ensures Get(Resolve(ds, rules, matches), rules[i].hostname)
         == Some(HostOf(KthMatch(ds, rules[i].pattern, rules[i].order, matches).value))
  {
    var init := rules[..|rules| - 1];
    var last := rules[|rules| - 1];
    var b := Binding(ds, last, matches);
    ResolveStep(ds, rules, matches);
    if b.Some? {
      PutGet(Resolve(ds, init, matches), b.value.0, b.value.1, rules[i].hostname);
    }
    if i < |init| {
      assert init[i] == rules[i];
      ResolveLastWins(ds, init, matches, i);
    }
  }

  /** Hostnames appear in the order of their first binding, once each. */
  lemma ResolveOrder(ds: seq<Device>, rules: seq<Rule>, matches: Matcher)
    ensures Keys(Resolve(ds, rules, matches)) == AppendNew([], Keys(Bindings(ds, rules, matches)))
    ensures Distinct(Keys(Resolve(ds, rules, matches)))
  {
    PutAllKeys([], Bindings(ds, rules, matches));
    PutAllDistinct([], Bindings(ds, rules, matches));
  }

  /** A rule asking for a later match than there are matching devices binds
      nothing. */
  lemma TooFewMatches(ds: seq<Device>, rule: Rule, matches: Matcher)
    requires rule.order > MatchCount(ds, rule.pattern, matches)
    ensures Binding(ds, rule, matches) == None
  {
  }

  /** The rule `dev.* 2 host-a` over devices named dev1, dev2, other, dev3,
      with a pattern that matches the three `dev` names only, binds host-a to
      dev2. */
  lemma SecondMatchExample(d1: Device, d2: Device, other: Device, d3: Device, matches: Matcher)
    requires matches("dev.*", d1.name) && matches("dev.*", d2.name)
    requires !matches("dev.*", other.name) && matches("dev.*", d3.name)
    ensures Resolve([d1, d2, other, d3], [Rule("dev.*", 2, "host-a")], matches)
         == [("host-a", HostOf(d2))]
  {
    var ds := [d1, d2, other, d3];
    assert ds[1..][0] == d2;
    assert KthMatch(ds, "dev.*", 2, matches) == Some(d2);
    var rules := [Rule("dev.*", 2, "host-a")];
    ResolveStep(ds, rules, matches);
    assert rules[..0] == [];
    assert Resolve(ds, [], matches) == [];
  }
}
