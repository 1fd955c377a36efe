/** The `url` setter of `SSR` and the two parsers it calls, as functions from
    the attributes before the call to the attributes after it. Python runs the
    parsers inside `try … except Exception`, which logs and swallows the
    error: the attributes assigned before the failing statement stay assigned.
    `ok` is false exactly when an exception was caught. */
module Parser {
  import opened Wrappers
  import opened Strings
  import opened Base64
  import opened Descriptor
  import Percent

  datatype Parsed = Parsed(fields: Fields, ok: bool)

  /** The loop that fills `params_dict` from the `&`-separated parameters: each
      must hold `=` (else `IndexError`) and its value must decode (else
      `binascii.Error`); a later key overrides an earlier one. */
  function ParamsDict(params: seq<string>, dict: map<string, Value>): (r: Option<map<string, Value>>)
    ensures r.Some? ==> dict.Keys <= r.value.Keys
    decreases |params|
  {
    if |params| == 0 then Some(dict)
    else
      var kv := Split(params[0], "=");
      if |kv| < 2 then None
      else
        var v := Decode(kv[1]);
        if v.Fail? then None
        else ParamsDict(params[1..], dict[kv[0] := v])
  }

  /** The `setattr` loop over `proto_param`, `obfs_param`, `remarks`, `group`:
      an attribute whose key (without `_`) is in the dictionary takes its value. */
  function ApplyParams(f: Fields, dict: map<string, Value>): (g: Fields)
    ensures g.server == f.server && g.port == f.port && g.password == f.password
  {
    f.(protoParam := if "protoparam" in dict then Some(dict["protoparam"]) else f.protoParam,
       obfsParam := if "obfsparam" in dict then Some(dict["obfsparam"]) else f.obfsParam,
       remarks := if "remarks" in dict then Some(dict["remarks"]) else f.remarks,
       group := if "group" in dict then Some(dict["group"]) else f.group)
  }

  /** `__parse_ssr(payload)` from the attributes `f`: the part before any `#`
      is base64 of the text that `SsrText` reads; bytes leave `f` as it is. */
  function SsrPayload(f: Fields, payload: string): (r: Parsed)
    ensures r.fields.localAddress == f.localAddress && r.fields.localPort == f.localPort
    ensures r.fields.confPath == f.confPath
  {
    var d := Decode(Split(payload, "#")[0]);
    if d.Fail? then Parsed(f, false)
    else if d.Bytes? then Parsed(f, true)
    else SsrText(f, d.s)
  }

  /** The decoded `server:port:protocol:method:obfs:password/?params` text. */
  function SsrText(f: Fields, t: string): (r: Parsed)
    ensures r.fields.localAddress == f.localAddress && r.fields.localPort == f.localPort
    ensures r.fields.confPath == f.confPath
  {
    var parts := Split(t, ":");
    if |parts| < 6 then Parsed(f, false)
    else
      var pap := Split(parts[5], "/?");
      var f1 := f.(server := Some(parts[0]));
      var port := ParseInt(parts[1]);
      if port.None? then Parsed(f1, false)
      else
        var f2 := f1.(port := port, protocol := Some(parts[2]), cipher := Some(parts[3]),
                      obfs := Some(parts[4]));
        var pw := Decode(pap[0]);
        if pw.Fail? then Parsed(f2, false)
        else
          var f3 := f2.(password := Some(pw));
          if |pap| < 2 then Parsed(f3, false) else SsrParams(f3, pap[1])
  }

  /** The `&`-separated parameters after `/?`. */
  function SsrParams(f: Fields, query: string): (r: Parsed)
    ensures r.fields.localAddress == f.localAddress && r.fields.localPort == f.localPort
    ensures r.fields.confPath == f.confPath
    ensures r.fields.server == f.server && r.fields.port == f.port && r.fields.password == f.password
  {
    var dict := ParamsDict(Split(query, "&"), map[]);
    if dict.None? then Parsed(f, false)
    else Parsed(ApplyParams(f, dict.value), true)
  }

  /** `__parse_ss(payload)` from the attributes `f`: the legacy form, base64 of
      the text that `SsText` reads and an optional percent-encoded `#tag`,
      which is assigned first. */
  function SsPayload(f: Fields, payload: string): (r: Parsed)
    ensures r.fields.localAddress == f.localAddress && r.fields.localPort == f.localPort
    ensures r.fields.confPath == f.confPath
  {
    var hash := Split(payload, "#");
    var f0 := if |hash| > 1 then f.(remarks := Some(Text(Percent.Unquote(hash[1])))) else f;
    var d := Decode(hash[0]);
    if d.Fail? then Parsed(f0, false)
    else if d.Bytes? then Parsed(f0, true)
    else SsText(f0, d.s)
  }

  /** The decoded `method:password@host:port` text: host and port after the
      last `@`, the method before the first `:` of the rest. */
  function SsText(f: Fields, t: string): (r: Parsed)
    ensures r.fields.localAddress == f.localAddress && r.fields.localPort == f.localPort
    ensures r.fields.confPath == f.confPath && r.fields.remarks == f.remarks
  {
    var at := Split(t, "@");
    var hostPort := Split(at[|at| - 1], ":");
    var methodPass := Split(Join(at[..|at| - 1], "@"), ":");
    var f1 := f.(server := Some(hostPort[0]));
    if |hostPort| < 2 then Parsed(f1, false)
    else
      var port := ParseInt(hostPort[1]);
      if port.None? then Parsed(f1, false)
      else Parsed(f1.(port := port, cipher := Some(methodPass[0]),
                      password := Some(Text(Join(methodPass[1..], ":")))), true)
  }

  /** The `url` setter: reset, then parse by scheme. A scheme other than `ssr`
      and `ss` is ignored. */
  function UrlLoad(url: string): (r: Parsed)
    ensures r.fields.server.Some?
    ensures r.fields.localAddress.None? && r.fields.localPort.None? && r.fields.confPath.None?
  {
    var r := Split(url, "://");
    if r[0] == "ssr" then
      if |r| < 2 then Parsed(Defaults(), false) else SsrPayload(Defaults(), r[1])
    else if r[0] == "ss" then
      if |r| < 2 then Parsed(Defaults(), false) else SsPayload(Defaults(), r[1])
    else Parsed(Defaults(), true)
  }

  // ---------------------------------------------------------------- lemmas

  /** Any other scheme leaves exactly the defaults, which are invalid. */
  lemma OtherScheme(url: string)
    requires Split(url, "://")[0] != "ssr" && Split(url, "://")[0] != "ss"
    ensures UrlLoad(url) == Parsed(Defaults(), true)
    ensures Invalid(UrlLoad(url).fields) && UrlOf(UrlLoad(url).fields).None?
  {
  }

  /** A string without `:` has no scheme and loads the defaults; only the bare
      words `ssr` and `ss` count as a failure (`r[1]` raises `IndexError`). */
  lemma NoScheme(url: string)
    requires ':' !in url
    ensures UrlLoad(url) == Parsed(Defaults(), url != "ssr" && url != "ss")
  {
    SplitNone(url, "://");
  }

  /** The parse does not roll back: a `ssr` payload whose first six fields are
      well formed but which has no `/?` fails after writing them. */
  lemma SsrWithoutParams(f: Fields, payload: string)
    requires var d := Decode(Split(payload, "#")[0]);
             d.Text? && |Split(d.s, ":")| >= 6 && ParseInt(Split(d.s, ":")[1]).Some? &&
             !Decode(Split(Split(d.s, ":")[5], "/?")[0]).Fail? &&
             |Split(Split(d.s, ":")[5], "/?")| < 2
    ensures var d := Decode(Split(payload, "#")[0]);
            var parts := Split(d.s, ":");
            var r := SsrPayload(f, payload);
            !r.ok && r.fields.server == Some(parts[0]) && r.fields.port == ParseInt(parts[1]) &&
            r.fields.protocol == Some(parts[2]) && r.fields.cipher == Some(parts[3]) &&
            r.fields.obfs == Some(parts[4]) && r.fields.password == Some(Decode(Split(parts[5], "/?")[0])) &&
            r.fields.protoParam == f.protoParam && r.fields.remarks == f.remarks
  {
  }

  /** A `ss` payload whose base64 part does not decode still keeps the `#tag`
      it read first. */
  lemma SsKeepsTag(f: Fields, payload: string)
    requires |Split(payload, "#")| > 1 && Decode(Split(payload, "#")[0]).Fail?
    ensures SsPayload(f, payload) ==
            Parsed(f.(remarks := Some(Text(Percent.Unquote(Split(payload, "#")[1])))), false)
  {
  }

  /** Splitting `scheme://payload` where neither part holds `:`. */
  lemma SchemeSplit(scheme: string, payload: string)
    requires ':' !in scheme && Lacks("://", payload)
    ensures Split(scheme + "://" + payload, "://") == [scheme, payload]
  {
    SplitCons(scheme, "://", payload);
    SplitLacks(payload, "://");
  }

  /** How `__parse_ss` cuts up `m:p@h:port`. */
  lemma LegacyText(m: string, p: string, h: string, portText: string)
    requires ':' !in m && '@' !in h && ':' !in h && ':' !in portText && '@' !in portText
    ensures var t := m + ":" + p + "@" + h + ":" + portText;
            var at := Split(t, "@");
            var methodPass := Split(Join(at[..|at| - 1], "@"), ":");
            Split(at[|at| - 1], ":") == [h, portText] &&
            methodPass[0] == m && Join(methodPass[1..], ":") == p
  {
    var t := m + ":" + p + "@" + h + ":" + portText;
    var userinfo := m + ":" + p;
    var hostPort := h + ":" + portText;
    assert t == userinfo + ['@'] + hostPort;
    assert '@' !in hostPort;
    SplitSnoc(userinfo, '@', hostPort);
    var at := Split(t, "@");
    assert at == Split(userinfo, "@") + [hostPort];
    assert at[..|at| - 1] == Split(userinfo, "@");
    JoinSplit(userinfo, "@");
    SplitCons(h, ":", portText);
    SplitNone(portText, ":");
    SplitCons(m, ":", p);
    assert Split(userinfo, ":")[1..] == Split(p, ":");
    JoinSplit(p, ":");
  }

  /** `ss://payload` goes to `__parse_ss` when the payload holds no `:`. */
  lemma UrlLoadSs(payload: string)
    requires Lacks("://", payload)
    ensures UrlLoad("ss://" + payload) == SsPayload(Defaults(), payload)
  {
    assert "ss://" + payload == "ss" + "://" + payload;
    SchemeSplit("ss", payload);
  }

  /** `__parse_ss` on a tagged payload whose base64 part decodes to text of the
      legacy shape. */
  lemma SsOfText(f: Fields, e: string, tag: string, m: string, p: string, h: string, port: int)
    requires '#' !in e && '#' !in tag
    requires ':' !in m && '@' !in h && ':' !in h
    requires Decode(e) == Text(m + ":" + p + "@" + h + ":" + IntToString(port))
    ensures SsPayload(f, e + "#" + tag) ==
            Parsed(f.(remarks := Some(Text(Percent.Unquote(tag))), server := Some(h), port := Some(port),
                      cipher := Some(m), password := Some(Text(p))), true)
  {
    SplitCons(e, "#", tag);
    SplitNone(tag, "#");
    assert Split(e + "#" + tag, "#") == [e, tag];
    SsTextLegacy(f.(remarks := Some(Text(Percent.Unquote(tag)))), m, p, h, port);
  }

  /** `SsText` on `m:p@h:port`. */
  lemma SsTextLegacy(f: Fields, m: string, p: string, h: string, port: int)
    requires ':' !in m && '@' !in h && ':' !in h
    ensures SsText(f, m + ":" + p + "@" + h + ":" + IntToString(port)) ==
            Parsed(f.(server := Some(h), port := Some(port), cipher := Some(m), password := Some(Text(p))), true)
  {
    IntToStringChars(port);
    LegacyText(m, p, h, IntToString(port));
    ParseIntToString(port);
  }

  /** A legacy link whose base64 part `e` decodes to `m:p@h:port`. */
  lemma LegacyLink(e: string, tag: string, m: string, p: string, h: string, port: int)
    requires ':' !in e && '#' !in e && '#' !in tag && Lacks("://", tag)
    requires ':' !in m && '@' !in h && ':' !in h
    requires Decode(e) == Text(m + ":" + p + "@" + h + ":" + IntToString(port))
    ensures UrlLoad("ss://" + e + "#" + tag) ==
            Parsed(Defaults().(remarks := Some(Text(Percent.Unquote(tag))), server := Some(h), port := Some(port),
                               cipher := Some(m), password := Some(Text(p))), true)
  {
    assert "ss://" + e + "#" + tag == "ss://" + ((e + "#") + tag);
    assert ':' !in e + "#";
    LacksAfter(e + "#", tag, "://");
    UrlLoadSs(e + "#" + tag);
    SsOfText(Defaults(), e, tag, m, p, h, port);
  }

  /** The legacy form: for `ss://` + base64(`m:p@h:port`) + `#tag`, the host and
      port come from after the last `@`, the method is what precedes the first
      `:`, and the password is the rest, so `@` and `:` in it survive. */
  lemma LegacySs(m: string, p: string, h: string, port: int, tag: string, urlsafe: bool)
    requires ':' !in m && '@' !in h && ':' !in h
    requires '#' !in tag && Lacks("://", tag)
    ensures var t := m + ":" + p + "@" + h + ":" + IntToString(port);
            var r := UrlLoad("ss://" + Encode(Text(t), urlsafe) + "#" + tag);
            r.ok && r.fields.server == Some(h) && r.fields.port == Some(port) &&
            r.fields.cipher == Some(m) && r.fields.password == Some(Text(p)) &&
            r.fields.remarks == Some(Text(Percent.Unquote(tag)))
  {
    var t := m + ":" + p + "@" + h + ":" + IntToString(port);
    var e := Encode(Text(t), urlsafe);
    EncodeAlphabet(Utf8.Encode(t), urlsafe);
    assert ':' !in e && '#' !in e;
    DecodeEncodeText(t, urlsafe);
    LegacyLink(e, tag, m, p, h, port);
  }
}
