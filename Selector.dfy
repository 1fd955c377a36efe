/** The entry points of ssrconfig.py: `sub_file`, which reads a subscription,
    measures every server and writes the configuration of the fastest, and
    `ssr_file`, which writes the configuration of a single link. The measured
    connection times are parameters; the two files written are results. */
module Selector {
  import opened Wrappers
  import opened Strings
  import opened Base64
  import opened Descriptor
  import opened Parser
  import opened Subscription
  import opened Record
  import RoundTrip

  /** Where both entry points write the configuration. */
  const ConfigPath: string := "/etc/ss-tproxy/ssr-config.json"
  /** Where they write the list of servers. */
  const ServerListPath: string := "/etc/ss-tproxy/proxy_server"
  /** What `connect_time` returns when the server cannot be reached. */
  const Unreachable: real := 10000.0
  /** The starting value of `small`: only a faster server can be chosen. */
  const Threshold: real := 1000.0
  /** The local port of the written configuration. */
  const LocalPort: int := 60080

  /** `ssrObject.server` after `ssrObject.url = url`. */
  function ServerOf(url: string): string
  {
    UrlLoad(url).fields.server.value
  }

  /** The server of each link, in order. */
  function Servers(urls: seq<string>): (r: seq<string>)
    ensures |r| == |urls| && forall i :: 0 <= i < |urls| ==> r[i] == ServerOf(urls[i])
  {
    seq(|urls|, i requires 0 <= i < |urls| => ServerOf(urls[i]))
  }

  /** `proxy_server` after the loop: a space and the server `hosts[i]` for each
      link whose time is not `Unreachable`. */
  function ServersText(hosts: seq<string>, times: seq<real>): (r: string)
    requires |hosts| == |times|
    decreases |hosts|
  {
    if |hosts| == 0 then ""
    else
      var n := |hosts| - 1;
      ServersText(hosts[..n], times[..n]) + (if times[n] != Unreachable then " " + hosts[n] else "")
  }

  /** The servers of the reachable links, in order. */
  function Kept(hosts: seq<string>, times: seq<real>): (r: seq<string>)
    requires |hosts| == |times|
    ensures |r| <= |hosts|
    decreases |hosts|
  {
    if |hosts| == 0 then []
    else
      var n := |hosts| - 1;
      Kept(hosts[..n], times[..n]) + (if times[n] != Unreachable then [hosts[n]] else [])
  }

  /** Position `w` holds a time below `Threshold`, every earlier time is
      larger and no later time is smaller: the first of the fastest links. */
  predicate FirstMinimum(times: seq<real>, w: nat)
  {
    w < |times| && times[w] < Threshold &&
    (forall i :: 0 <= i < w ==> times[i] > times[w]) &&
    (forall i :: w < i < |times| ==> times[i] >= times[w])
  }

  /** The position whose link `fastSSR` holds after the loop: it takes the
      link whenever `small > response`, and `small` starts at `Threshold`. */
  function Fastest(times: seq<real>): (r: Option<nat>)
    ensures r.None? <==> forall i :: 0 <= i < |times| ==> times[i] >= Threshold
    ensures r.Some? ==> FirstMinimum(times, r.value)
    decreases |times|
  {
    if |times| == 0 then None
    else
      var n := |times| - 1;
      var w := Fastest(times[..n]);
      assert forall i :: 0 <= i < n ==> times[..n][i] == times[i];
      if Small(times[..n], w) > times[n] then Some(n) else w
  }

  /** The value of `small` after the links whose times are `times`. */
  function Small(times: seq<real>, w: Option<nat>): (r: real)
    requires w.Some? ==> w.value < |times|
  {
    if w.Some? then times[w.value] else Threshold
  }

  /** The attributes of `fastSSR` when it is written. */
  function Winner(urls: seq<string>, times: seq<real>): (r: Fields)
    requires |urls| == |times|
    ensures r.localPort == Some(LocalPort) && LocalAddress(r) == "0.0.0.0"
  {
    var w := Fastest(times);
    (if w.Some? then UrlLoad(urls[w.value]).fields else Initial()).(localPort := Some(LocalPort))
  }

  /** One more link adds its server to the list when it is reachable. */
  lemma ServersStep(hosts: seq<string>, times: seq<real>, i: nat)
    requires |hosts| == |times| && i < |hosts|
    ensures ServersText(hosts[..i + 1], times[..i + 1]) ==
            ServersText(hosts[..i], times[..i]) + (if times[i] != Unreachable then " " + hosts[i] else "")
  {
    assert hosts[..i + 1][..i] == hosts[..i] && times[..i + 1][..i] == times[..i];
  }

  /** One more link is taken exactly when it is faster than `small`, which then
      becomes its time. */
  lemma FastestStep(times: seq<real>, i: nat)
    requires i < |times|
    ensures var w := Fastest(times[..i]);
            var small := Small(times[..i], w);
            Fastest(times[..i + 1]) == (if small > times[i] then Some(i) else w) &&
            Small(times[..i + 1], Fastest(times[..i + 1])) == (if small > times[i] then times[i] else small)
  {
    assert times[..i + 1][..i] == times[..i];
  }

  /** The loop of `sub_file` over the links of a subscription, with the
      connection time of each link in `times`, followed by the write of the
      configuration of `fastSSR`; `servers` is what goes to `ServerListPath`. */
  method Select(urls: seq<string>, times: seq<real>) returns (config: Write, servers: string)
    requires |urls| == |times|
    ensures servers == ServersText(Servers(urls), times)
    ensures config == WriteOf(Winner(urls, times), Some(ConfigPath))
  {
    var small := Threshold;
    servers := "";
    var fast := new Ssr();
    var obj := new Ssr();
    ghost var best: Option<nat> := None;
    for i := 0 to |urls|
      invariant servers == ServersText(Servers(urls)[..i], times[..i])
      invariant best == Fastest(times[..i])
      invariant best.None? ==> fast.Snapshot() == Initial()
      invariant best.Some? ==> best.value < i && fast.Snapshot() == UrlLoad(urls[best.value]).fields
      invariant small == Small(times[..i], best)
    {
      ServersStep(Servers(urls), times, i);
      FastestStep(times, i);
      var _ := obj.SetUrl(urls[i]);
      assert obj.Snapshot().server == UrlLoad(urls[i]).fields.server;
      assert obj.server.value == Servers(urls)[i];
      var response := times[i];
      if response != Unreachable {
        assert servers + " " + obj.server.value == servers + (" " + obj.server.value);
        servers := servers + " " + obj.server.value;
      }
      if small > response {
        var _ := fast.SetUrl(urls[i]);
        small := response;
        best := Some(i);
      }
    }
    assert Servers(urls)[..|urls|] == Servers(urls) && times[..|urls|] == times;
    fast.SetLocalPort(Some(LocalPort));
    config := fast.WriteConfigFile(Some(ConfigPath));
  }

  /** What `sub_file` does: `Raised` when the subscription does not decode. */
  datatype Run = Raised | Finished(config: Write, servers: string)

  /** `sub_file(url)` given the response to the subscription request and the
      connection time of each link it lists. */
  method SubFile(status: int, body: string, times: seq<real>) returns (run: Run)
    requires UrlsBySubscribe(status, body).Some? ==> |UrlsBySubscribe(status, body).value| == |times|
    ensures run.Raised? <==> UrlsBySubscribe(status, body).None?
    ensures run.Finished? ==>
              var urls := UrlsBySubscribe(status, body).value;
              run == Finished(WriteOf(Winner(urls, times), Some(ConfigPath)), ServersText(Servers(urls), times))
  {
    var urls := UrlsBySubscribe(status, body);
    if urls.None? {
      return Raised;
    }
    var config, servers := Select(urls.value, times);
    run := Finished(config, servers);
  }

  /** The attributes `ssr_file(url)` writes. */
  function SingleFields(url: string): (r: Fields)
    ensures r.localPort == Some(LocalPort) && LocalAddress(r) == "0.0.0.0"
    ensures r.server == UrlLoad(url).fields.server && r.port == UrlLoad(url).fields.port
  {
    UrlLoad(url).fields.(localAddress := Some("0.0.0.0"), localPort := Some(LocalPort))
  }

  /** `ssr_file(url)`: the configuration write and the server written to
      `ServerListPath`. */
  method SsrFile(url: string) returns (config: Write, server: string)
    ensures config == WriteOf(SingleFields(url), Some(ConfigPath))
    ensures server == ServerOf(url)
  {
    var fast := new Ssr();
    var _ := fast.SetUrl(url);
    fast.SetLocalAddress(Some("0.0.0.0"));
    fast.SetLocalPort(Some(LocalPort));
    config := fast.WriteConfigFile(Some(ConfigPath));
    server := fast.server.value;
  }

  // ---------------------------------------------------------------- lemmas

  /** There is only one first minimum, so `Fastest` is the position that
      `FirstMinimum` describes, and no other. */
  lemma FirstMinimumUnique(times: seq<real>, a: nat, b: nat)
    requires FirstMinimum(times, a) && FirstMinimum(times, b)
    ensures a == b
  {
  }

  /** The chosen position is exactly the first minimum below `Threshold`. */
  lemma FastestIs(times: seq<real>, w: nat)
    ensures Fastest(times) == Some(w) <==> FirstMinimum(times, w)
  {
    if FirstMinimum(times, w) {
      assert Fastest(times).Some?;
      FirstMinimumUnique(times, w, Fastest(times).value);
    }
  }

  /** Three links measured at 0.3, 0.1 and an unreachable server: the second
      is chosen, and the servers line holds the first two after a space each. */
  lemma SelectExample()
    ensures Fastest([0.3, 0.1, Unreachable]) == Some(1)
    ensures ServersText(["A", "B", "C"], [0.3, 0.1, Unreachable]) == " A B"
  {
    var times := [0.3, 0.1, Unreachable];
    assert FirstMinimum(times, 1);
    FastestIs(times, 1);
    var hosts := ["A", "B", "C"];
    ServersStep(hosts, times, 0);
    ServersStep(hosts, times, 1);
    ServersStep(hosts, times, 2);
    assert hosts[..0] == [] && times[..0] == [];
    assert hosts[..3] == hosts && times[..3] == times;
  }

  /** A subscription whose every link takes at least `Threshold`, or none of
      whose links is reachable, gives no configuration: `fastSSR` was never
      assigned a link and still has no server. */
  lemma SelectRefused(urls: seq<string>, times: seq<real>)
    requires |urls| == |times|
    requires forall i :: 0 <= i < |times| ==> times[i] >= Threshold
    ensures WriteOf(Winner(urls, times), Some(ConfigPath)) == Refused
  {
  }

  /** The servers line lists the reachable servers, each after one space. */
  lemma {:induction false} ServersListed(hosts: seq<string>, times: seq<real>)
    requires |hosts| == |times|
    ensures var s := Kept(hosts, times);
            ServersText(hosts, times) == (if s == [] then "" else " " + Join(s, " "))
    decreases |hosts|
  {
    if |hosts| > 0 {
      var n := |hosts| - 1;
      ServersListed(hosts[..n], times[..n]);
      var s := Kept(hosts[..n], times[..n]);
      var prev := ServersText(hosts[..n], times[..n]);
      if times[n] != Unreachable {
        assert ServersText(hosts, times) == prev + " " + hosts[n];
        assert Kept(hosts, times) == s + [hosts[n]];
        if s != [] {
          JoinAppend(s, [hosts[n]], " ");
          assert Join([hosts[n]], " ") == hosts[n];
        }
      } else {
        assert ServersText(hosts, times) == prev;
        assert Kept(hosts, times) == s;
      }
    }
  }

  /** A server is listed exactly when some link of it is reachable. */
  lemma {:induction false} KeptMembers(hosts: seq<string>, times: seq<real>, h: string)
    requires |hosts| == |times|
    ensures h in Kept(hosts, times) <==>
            exists i :: 0 <= i < |hosts| && times[i] != Unreachable && hosts[i] == h
    decreases |hosts|
  {
    if |hosts| > 0 {
      var n := |hosts| - 1;
      var hs, ts := hosts[..n], times[..n];
      KeptMembers(hs, ts, h);
      if exists i :: 0 <= i < |hosts| && times[i] != Unreachable && hosts[i] == h {
        var i :| 0 <= i < |hosts| && times[i] != Unreachable && hosts[i] == h;
        if i < n {
          assert hs[i] == hosts[i] && ts[i] == times[i];
        }
      }
      if h in Kept(hs, ts) {
        var i :| 0 <= i < n && ts[i] != Unreachable && hs[i] == h;
        assert hosts[i] == hs[i] && times[i] == ts[i];
      }
    }
  }

  /** Writing valid attributes to a path succeeds, with their JSON text. */
  lemma ValidWritten(g: Fields, path: string)
    requires !Invalid(g) && path != ""
    ensures WriteOf(g, Some(path)) == Written(path, JsonOf(g).value)
  {
  }

  /** `sub_file` writes the configuration of the first fastest link: when it
      is the link of a valid descriptor `f`, the file holds the attributes of
      `f` read back, on local port `LocalPort`. */
  lemma SelectWritten(urls: seq<string>, times: seq<real>, w: nat, f: Fields)
    requires |urls| == |times| && FirstMinimum(times, w)
    requires !Invalid(f) && urls[w] == UrlOf(f).value
    requires ':' !in f.server.value && ':' !in f.protocol.value
    requires ':' !in f.cipher.value && ':' !in f.obfs.value
    ensures var g := Winner(urls, times);
            g.server == f.server && g.port == f.port && g.cipher == f.cipher &&
            g.protocol == f.protocol && g.obfs == f.obfs &&
            g.password == Some(Normal(f.password.value)) &&
            OrEmpty(g.protoParam) == Normal(OrEmpty(f.protoParam)) &&
            OrEmpty(g.obfsParam) == Normal(OrEmpty(f.obfsParam)) &&
            OrEmpty(g.remarks) == Normal(OrEmpty(f.remarks)) &&
            OrEmpty(g.group) == Normal(OrEmpty(f.group)) &&
            !Invalid(g) && WriteOf(g, Some(ConfigPath)) == Written(ConfigPath, JsonOf(g).value)
  {
    FastestIs(times, w);
    RoundTrip.SsrRoundTrip(f);
    assert !Invalid(Winner(urls, times));
    ValidWritten(Winner(urls, times), ConfigPath);
  }

  /** `ssr_file` on the link of a valid descriptor writes its configuration,
      holding every attribute of the descriptor read back, and lists its server. */
  lemma SsrFileWritten(f: Fields)
    requires !Invalid(f)
    requires ':' !in f.server.value && ':' !in f.protocol.value
    requires ':' !in f.cipher.value && ':' !in f.obfs.value
    ensures var g := SingleFields(UrlOf(f).value);
            g.server == f.server && g.port == f.port && g.cipher == f.cipher &&
            g.protocol == f.protocol && g.obfs == f.obfs &&
            g.password == Some(Normal(f.password.value)) &&
            OrEmpty(g.protoParam) == Normal(OrEmpty(f.protoParam)) &&
            OrEmpty(g.obfsParam) == Normal(OrEmpty(f.obfsParam)) &&
            OrEmpty(g.remarks) == Normal(OrEmpty(f.remarks)) &&
            OrEmpty(g.group) == Normal(OrEmpty(f.group)) &&
            !Invalid(g) && WriteOf(g, Some(ConfigPath)) == Written(ConfigPath, JsonOf(g).value) &&
            ServerOf(UrlOf(f).value) == f.server.value
  {
    RoundTrip.SsrRoundTrip(f);
    assert !Invalid(SingleFields(UrlOf(f).value));
    ValidWritten(SingleFields(UrlOf(f).value), ConfigPath);
  }
}
