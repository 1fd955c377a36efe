/** The `SSR` class of ssrconfig.py: a mutable descriptor whose methods assign
    its attributes one after another. Each method is proved to leave the
    attributes that the matching function of `Descriptor` or `Parser` gives. */
module Record {
  import opened Wrappers
  import opened Strings
  import opened Base64
  import opened Descriptor
  import opened Parser
  import Percent

  /** The loop of `__parse_ssr` that fills `params_dict`; `None` where it
      raises. */
  method ParamsLoop(params: seq<string>) returns (r: Option<map<string, Value>>)
    ensures r == ParamsDict(params, map[])
  {
    var dict: map<string, Value> := map[];
    var i := 0;
    while i < |params|
      invariant 0 <= i <= |params|
      invariant ParamsDict(params[i..], dict) == ParamsDict(params, map[])
    {
      assert params[i..][0] == params[i] && params[i..][1..] == params[i + 1..];
      var kv := Split(params[i], "=");
      if |kv| < 2 {
        return None;
      }
      var v := Decode(kv[1]);
      if v.Fail? {
        return None;
      }
      dict := dict[kv[0] := v];
      i := i + 1;
    }
    assert params[i..] == [];
    return Some(dict);
  }

  class Ssr {
    var server: Option<string>
    var port: Option<int>
    /** The `method` attribute, the cipher. */
    var cipher: Option<string>
    var password: Option<Value>
    var protocol: Option<string>
    var protoParam: Option<Value>
    var obfs: Option<string>
    var obfsParam: Option<Value>
    var remarks: Option<Value>
    var group: Option<Value>
    var localAddress: Option<string>
    var localPort: Option<int>
    var confPath: Option<string>

    /** The attributes as a value. */
    function Snapshot(): Fields
      reads this
    {
      Fields(server, port, cipher, password, protocol, protoParam, obfs, obfsParam,
             remarks, group, localAddress, localPort, confPath)
    }

    /** `SSR()`: every attribute `None`. */
    constructor ()
      ensures Snapshot() == Initial()
    {
      server, port, cipher, password, protocol := None, None, None, None, None;
      protoParam, obfs, obfsParam, remarks, group := None, None, None, None, None;
      localAddress, localPort, confPath := None, None, None;
    }

    /** `__reset_attributes()`. */
    method ResetAttributes()
      modifies this
      ensures Snapshot() == Defaults()
    {
      server, port, cipher, password, protocol := Some(""), Some(443), Some(""), Some(Text("")), Some("origin");
      protoParam, obfs, obfsParam, remarks, group := None, Some("plain"), None, None, None;
      localAddress, localPort, confPath := None, None, None;
    }

    /** `load(obj)`: the defaults, then `setattr` of each attribute `obj` has. */
    method Load(obj: Attrs)
      modifies this
      ensures Snapshot() == LoadSpec(obj)
    {
      ResetAttributes();
      server := AttrOr(obj.server, Some(""));
      port := AttrOr(obj.port, Some(443));
      cipher := AttrOr(obj.cipher, Some(""));
      password := AttrOr(obj.password, Some(Text("")));
      protocol := AttrOr(obj.protocol, Some("origin"));
      protoParam := AttrOr(obj.protoParam, None);
      obfs := AttrOr(obj.obfs, Some("plain"));
      obfsParam := AttrOr(obj.obfsParam, None);
      remarks := AttrOr(obj.remarks, None);
      group := AttrOr(obj.group, None);
    }

    /** `set(...)`. */
    method Set(server: string, port: int, cipher: string, password: Value, protocol: string,
               protoParam: Value, obfs: string, obfsParam: Value,
               remarks: Option<Value>, group: Option<Value>)
      modifies this
      ensures Snapshot() == SetSpec(server, port, cipher, password, protocol, protoParam, obfs,
                                    obfsParam, remarks, group)
    {
      ResetAttributes();
      this.server, this.port, this.cipher, this.password := Some(server), Some(port), Some(cipher), Some(password);
      this.protocol, this.protoParam := Some(protocol), Some(protoParam);
      this.obfs, this.obfsParam := Some(obfs), Some(obfsParam);
      this.remarks := if ValueTruthy(remarks) then remarks else this.remarks;
      this.group := if ValueTruthy(group) then group else this.group;
    }

    /** The `remarks` setter. */
    method SetRemarks(value: Option<Value>)
      modifies this
      ensures Snapshot() == old(Snapshot()).(remarks := value)
    {
      remarks := value;
    }

    /** The `group` setter. */
    method SetGroup(value: Option<Value>)
      modifies this
      ensures Snapshot() == old(Snapshot()).(group := value)
    {
      group := value;
    }

    /** The `local_address` setter. */
    method SetLocalAddress(value: Option<string>)
      modifies this
      ensures Snapshot() == old(Snapshot()).(localAddress := value)
    {
      localAddress := value;
    }

    /** The `local_port` setter. */
    method SetLocalPort(value: Option<int>)
      modifies this
      ensures Snapshot() == old(Snapshot()).(localPort := value)
    {
      localPort := value;
    }

    /** The `url` setter; `ok` is false when an exception was caught. */
    method SetUrl(url: string) returns (ok: bool)
      modifies this
      ensures Parsed(Snapshot(), ok) == UrlLoad(url)
    {
      ResetAttributes();
      var r := Split(url, "://");
      ok := true;
      if r[0] == "ssr" {
        if |r| < 2 {
          ok := false;
        } else {
          ok := ParseSsr(r[1]);
        }
      } else if r[0] == "ss" {
        if |r| < 2 {
          ok := false;
        } else {
          ok := ParseSs(r[1]);
        }
      }
    }

    /** `__parse_ssr(payload)`; `ok` is false where Python raises, and what was
        assigned before stays assigned. */
    method ParseSsr(payload: string) returns (ok: bool)
      modifies this
      ensures Parsed(Snapshot(), ok) == SsrPayload(old(Snapshot()), payload)
    {
      var d := Decode(Split(payload, "#")[0]);
      if d.Fail? {
        return false;
      }
      if d.Bytes? {
        return true;
      }
      ok := ParseSsrText(d.s);
    }

    /** The body of `__parse_ssr` after the base64 decode. */
    method ParseSsrText(t: string) returns (ok: bool)
      modifies this
      ensures Parsed(Snapshot(), ok) == SsrText(old(Snapshot()), t)
    {
      var parts := Split(t, ":");
      if |parts| < 6 {
        return false;
      }
      var pap := Split(parts[5], "/?");
      server := Some(parts[0]);
      var p := ParseInt(parts[1]);
      if p.None? {
        return false;
      }
      port := p;
      protocol := Some(parts[2]);
      cipher := Some(parts[3]);
      obfs := Some(parts[4]);
      var pw := Decode(pap[0]);
      if pw.Fail? {
        return false;
      }
      password := Some(pw);
      if |pap| < 2 {
        return false;
      }
      ok := ParseSsrParams(pap[1]);
    }

    /** The parameters of `__parse_ssr`, after `/?`. */
    method ParseSsrParams(query: string) returns (ok: bool)
      modifies this
      ensures Parsed(Snapshot(), ok) == SsrParams(old(Snapshot()), query)
    {
      ghost var f := Snapshot();
      var dict := ParamsLoop(Split(query, "&"));
      if dict.None? {
        return false;
      }
      var d := dict.value;
      protoParam := if "protoparam" in d then Some(d["protoparam"]) else protoParam;
      obfsParam := if "obfsparam" in d then Some(d["obfsparam"]) else obfsParam;
      remarks := if "remarks" in d then Some(d["remarks"]) else remarks;
      group := if "group" in d then Some(d["group"]) else group;
      assert Snapshot() == ApplyParams(f, d);
      return true;
    }

    /** `__parse_ss(payload)`, the legacy form. */
    method ParseSs(payload: string) returns (ok: bool)
      modifies this
      ensures Parsed(Snapshot(), ok) == SsPayload(old(Snapshot()), payload)
    {
      ghost var f := Snapshot();
      var hash := Split(payload, "#");
      if |hash| > 1 {
        remarks := Some(Text(Percent.Unquote(hash[1])));
      }
      ghost var f0 := Snapshot();
      assert f0 == if |hash| > 1 then f.(remarks := Some(Text(Percent.Unquote(hash[1])))) else f;
      var d := Decode(hash[0]);
      if d.Fail? {
        return false;
      }
      if d.Bytes? {
        return true;
      }
      ok := ParseSsText(d.s);
    }

    /** The body of `__parse_ss` after the base64 decode. */
    method ParseSsText(t: string) returns (ok: bool)
      modifies this
      ensures Parsed(Snapshot(), ok) == SsText(old(Snapshot()), t)
    {
      var at := Split(t, "@");
      var hostPort := Split(at[|at| - 1], ":");
      var methodPass := Split(Join(at[..|at| - 1], "@"), ":");
      server := Some(hostPort[0]);
      if |hostPort| < 2 {
        return false;
      }
      var p := ParseInt(hostPort[1]);
      if p.None? {
        return false;
      }
      port := p;
      cipher := Some(methodPass[0]);
      password := Some(Text(Join(methodPass[1..], ":")));
      return true;
    }

    /** `get_config_json_string()`: collects the ten entries and joins them. */
    method ConfigJsonString() returns (r: Option<string>)
      ensures r == JsonOf(Snapshot())
      ensures r.None? <==> Invalid(Snapshot())
    {
      if Invalid(Snapshot()) {
        return None;
      }
      var configs: seq<string> := [];
      configs := configs + [Quoted("server") + ": " + Quoted(server.value) + ","];
      configs := configs + [Quoted("server_port") + ": " + IntToString(port.value) + ","];
      configs := configs + [Quoted("method") + ": " + Quoted(cipher.value) + ","];
      configs := configs + [Quoted("password") + ": " + Quoted(Render(password.value)) + ","];
      configs := configs + [Quoted("protocol") + ": " + Quoted(protocol.value) + ","];
      configs := configs + [Quoted("protocol_param") + ": " + Quoted(Render(OrEmpty(protoParam))) + ","];
      configs := configs + [Quoted("obfs") + ": " + Quoted(obfs.value) + ","];
      configs := configs + [Quoted("obfs_param") + ": " + Quoted(Render(OrEmpty(obfsParam))) + ","];
      configs := configs + [Quoted("local_address") + ": " + Quoted(LocalAddress(Snapshot())) + ","];
      configs := configs + [Quoted("local_port") + ": " + RenderPort(localPort)];
      ghost var lines := JsonLines(Snapshot());
      ghost var values := JsonValues(Snapshot());
      forall k | 0 <= k < |configs| ensures configs[k] == lines[k] {
        assert lines[k] == Quoted(JsonKeys[k]) + ": " + values[k] + (if k < 9 then "," else "");
      }
      assert configs == lines;
      r := Some("{\n" + Join(configs, "\n") + "\n}");
    }

    /** `write_config_file(path)` without the file itself: refused for an
        invalid descriptor; a given path is kept in `path_to_ssr_conf`. */
    method WriteConfigFile(path: Option<string>) returns (w: Write)
      modifies this
      ensures Snapshot() == WriteFields(old(Snapshot()), path)
      ensures w == WriteOf(old(Snapshot()), path)
    {
      if Invalid(Snapshot()) {
        return Refused;
      }
      if StrTruthy(path) {
        confPath := path;
      }
      if confPath.None? {
        return NoPath;
      }
      var json := ConfigJsonString();
      w := Written(confPath.value, json.value);
    }
  }
}
