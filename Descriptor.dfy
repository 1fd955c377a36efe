/** The state of an `SSR` descriptor of ssrconfig.py as a value, and the
    read-only properties computed from it: the getters, `invalid_attributes`,
    `config`, `plain`, `get_config_json_string` and the `url` builder. */
module Descriptor {
  import opened Wrappers
  import opened Strings
  import opened Base64

  /** The attributes `_server` … `_path_to_ssr_conf`. `None` and `''` differ:
      the getters of the optional ones turn a false value into `''`. */
  datatype Fields = Fields(
    server: Option<string>,
    port: Option<int>,
    cipher: Option<string>,
    password: Option<Value>,
    protocol: Option<string>,
    protoParam: Option<Value>,
    obfs: Option<string>,
    obfsParam: Option<Value>,
    remarks: Option<Value>,
    group: Option<Value>,
    localAddress: Option<string>,
    localPort: Option<int>,
    confPath: Option<string>)

  /** What `__init__` leaves: every attribute `None`. */
  function Initial(): Fields
  {
    Fields(None, None, None, None, None, None, None, None, None, None, None, None, None)
  }

  /** What `__reset_attributes` leaves. */
  function Defaults(): Fields
  {
    Fields(Some(""), Some(443), Some(""), Some(Text("")), Some("origin"), None, Some("plain"), None,
           None, None, None, None, None)
  }

  // ---------------------------------------------------------------- Python truthiness

  predicate StrTruthy(s: Option<string>)
  {
    s.Some? && s.value != ""
  }

  predicate IntTruthy(i: Option<int>)
  {
    i.Some? && i.value != 0
  }

  predicate ValueTruthy(v: Option<Value>)
  {
    v.Some? && !IsEmpty(v.value)
  }

  /** `invalid_attributes`: one of `server`, `port`, `method`, `password`,
      `protocol`, `obfs` is `None`, empty or 0. */
  predicate Invalid(f: Fields)
  {
    !StrTruthy(f.server) || !IntTruthy(f.port) || !StrTruthy(f.cipher) ||
    !ValueTruthy(f.password) || !StrTruthy(f.protocol) || !StrTruthy(f.obfs)
  }

  // ---------------------------------------------------------------- getters

  /** `x or ''`, the getters `proto_param`, `obfs_param`, `remarks`, `group`. */
  function OrEmpty(v: Option<Value>): (r: Value)
    ensures IsEmpty(r) <==> !ValueTruthy(v)
    ensures ValueTruthy(v) ==> r == v.value
  {
    if ValueTruthy(v) then v.value else Text("")
  }

  /** The `local_address` getter. */
  function LocalAddress(f: Fields): (r: string)
    ensures r != ""
    ensures StrTruthy(f.localAddress) ==> r == f.localAddress.value
  {
    if StrTruthy(f.localAddress) then f.localAddress.value else "0.0.0.0"
  }

  // ---------------------------------------------------------------- formatting

  function HexLower(v: int): char
    requires 0 <= v < 16
  {
    if v < 10 then ('0' as int + v) as char else ('a' as int + v - 10) as char
  }

  /** One byte inside Python's `repr` of a `bytes` object quoted with `quote`. */
  function ByteRepr(x: Utf8.byte, quote: char): string
  {
    if x == quote as int || x == '\\' as int then ['\\', x as char]
    else if x == '\t' as int then "\\t"
    else if x == '\n' as int then "\\n"
    else if x == '\r' as int then "\\r"
    else if x < 0x20 || x >= 0x7F then ['\\', 'x', HexLower(x / 16), HexLower(x % 16)]
    else [x as char]
  }

  function BytesBody(b: Utf8.bytes, quote: char): string
  {
    if |b| == 0 then "" else ByteRepr(b[0], quote) + BytesBody(b[1..], quote)
  }

  /** `repr(b)`: `b'…'`, or `b"…"` when `b` holds a `'` and no `"`. */
  function BytesRepr(b: Utf8.bytes): string
  {
    var quote := if '\'' as int in b && '"' as int !in b then '"' else '\'';
    "b" + [quote] + BytesBody(b, quote) + [quote]
  }

  /** `'{}'.format(v)` for a `str` or `bytes` value. */
  function Render(v: Value): string
  {
    match v
    case Text(s) => s
    case Bytes(b) => BytesRepr(b)
  }

  /** `'{}'.format(p)` for an `int` or `None`. */
  function RenderPort(p: Option<int>): string
  {
    if p.Some? then IntToString(p.value) else "None"
  }

  // ---------------------------------------------------------------- serialisers

  /** The dictionary `config` returns. */
  datatype Config = Config(
    server: string, port: int, cipher: string, password: Value, protocol: string,
    protoParam: Option<Value>, obfs: string, obfsParam: Option<Value>,
    remarks: Value, group: Value)

  /** The `config` property: `None` for an invalid descriptor. */
  function ConfigOf(f: Fields): (r: Option<Config>)
    ensures r.Some? <==> !Invalid(f)
    ensures r.Some? ==> r.value.server != "" && r.value.port != 0 && !IsEmpty(r.value.password)
  {
    if Invalid(f) then None
    else Some(Config(f.server.value, f.port.value, f.cipher.value, f.password.value, f.protocol.value,
                     f.protoParam, f.obfs.value, f.obfsParam, OrEmpty(f.remarks), OrEmpty(f.group)))
  }

  /** The ten lines of `plain`. */
  function PlainLines(f: Fields): seq<string>
    requires !Invalid(f)
  {
    ["     server: " + f.server.value,
     "       port: " + IntToString(f.port.value),
     "     method: " + f.cipher.value,
     "   password: " + Render(f.password.value),
     "   protocol: " + f.protocol.value,
     "proto_param: " + Render(OrEmpty(f.protoParam)),
     "       obfs: " + f.obfs.value,
     " obfs_param: " + Render(OrEmpty(f.obfsParam)),
     "    remarks: " + Render(OrEmpty(f.remarks)),
     "      group: " + Render(OrEmpty(f.group))]
  }

  /** The `plain` property. */
  function PlainOf(f: Fields): (r: Option<string>)
    ensures r.Some? <==> !Invalid(f)
  {
    if Invalid(f) then None else Some(Join(PlainLines(f), "\n"))
  }

  /** The keys of the configuration file, in the order they are written. */
  const JsonKeys: seq<string> := ["server", "server_port", "method", "password", "protocol",
    "protocol_param", "obfs", "obfs_param", "local_address", "local_port"]

  /** `"s"`: a string value is put between quotes as it is, without escaping. */
  function Quoted(s: string): string
  {
    "\"" + s + "\""
  }

  /** The values of the configuration file, in the order of `JsonKeys`. */
  function JsonValues(f: Fields): (r: seq<string>)
    requires !Invalid(f)
    ensures |r| == |JsonKeys|
  {
    [Quoted(f.server.value), IntToString(f.port.value), Quoted(f.cipher.value),
     Quoted(Render(f.password.value)), Quoted(f.protocol.value), Quoted(Render(OrEmpty(f.protoParam))),
     Quoted(f.obfs.value), Quoted(Render(OrEmpty(f.obfsParam))), Quoted(LocalAddress(f)),
     RenderPort(f.localPort)]
  }

  /** The ten entries `get_config_json_string` collects in `configs`:
      `"key": value`, with a comma after all but the last. */
  function JsonLines(f: Fields): (r: seq<string>)
    requires !Invalid(f)
    ensures |r| == |JsonKeys|
  {
    var values := JsonValues(f);
    seq(|JsonKeys|, i requires 0 <= i < |JsonKeys| =>
      Quoted(JsonKeys[i]) + ": " + values[i] + (if i < |JsonKeys| - 1 then "," else ""))
  }

  /** `get_config_json_string()`. */
  function JsonOf(f: Fields): (r: Option<string>)
    ensures r.Some? <==> !Invalid(f)
  {
    if Invalid(f) then None else Some("{\n" + Join(JsonLines(f), "\n") + "\n}")
  }

  /** The `key=value` parameters of a link, in order: `protoparam` and
      `obfsparam` only when set, `remarks` and `group` always. */
  function Params(f: Fields): (ps: seq<(string, Value)>)
    ensures 2 <= |ps| <= 4
  {
    (if ValueTruthy(f.protoParam) then [("protoparam", OrEmpty(f.protoParam))] else []) +
    (if ValueTruthy(f.obfsParam) then [("obfsparam", OrEmpty(f.obfsParam))] else []) +
    [("remarks", OrEmpty(f.remarks)), ("group", OrEmpty(f.group))]
  }

  /** Each parameter as `key=` and its URL-safe base64. */
  function ParamItems(ps: seq<(string, Value)>): (r: seq<string>)
    ensures |r| == |ps|
  {
    if |ps| == 0 then [] else [ps[0].0 + "=" + Encode(ps[0].1, true)] + ParamItems(ps[1..])
  }

  /** The six `:`-separated fields of a link, the password in URL-safe base64. */
  function Prefix(f: Fields): seq<string>
    requires !Invalid(f)
  {
    [f.server.value, IntToString(f.port.value), f.protocol.value, f.cipher.value, f.obfs.value,
     Encode(f.password.value, true)]
  }

  /** The text a `ssr://` link carries in base64: `prefix/?suffix`. */
  function Payload(f: Fields): string
    requires !Invalid(f)
  {
    Join(Prefix(f), ":") + "/?" + Join(ParamItems(Params(f)), "&")
  }

  /** The `url` getter. */
  function UrlOf(f: Fields): (r: Option<string>)
    ensures r.Some? <==> !Invalid(f)
    ensures r.Some? ==> |r.value| > 6 && r.value[..6] == "ssr://"
  {
    if Invalid(f) then None else Some("ssr://" + Encode(Text(Payload(f)), true))
  }

  // ---------------------------------------------------------------- writing the file

  /** What `write_config_file` does: refuses an invalid descriptor, raises the
      `TypeError` of `open(None)` when no path was ever given, or writes the
      configuration JSON to the path. */
  datatype Write = Refused | NoPath | Written(path: string, contents: string)

  /** The attributes after `write_config_file(path)`: a given path is kept. */
  function WriteFields(f: Fields, path: Option<string>): (g: Fields)
    ensures Invalid(g) == Invalid(f) && JsonOf(g) == JsonOf(f)
    ensures StrTruthy(path) && !Invalid(f) ==> g.confPath == path
  {
    if !Invalid(f) && StrTruthy(path) then f.(confPath := path) else f
  }

  /** The outcome of `write_config_file(path)`. */
  function WriteOf(f: Fields, path: Option<string>): (w: Write)
    ensures w == Refused <==> Invalid(f)
    ensures w.Written? ==> Some(w.contents) == JsonOf(f)
  {
    if Invalid(f) then Refused
    else
      var g := WriteFields(f, path);
      if g.confPath.None? then NoPath else Written(g.confPath.value, JsonOf(g).value)
  }

  // ---------------------------------------------------------------- load and set

  /** An attribute of the object given to `load`, which may lack it. */
  datatype Attr<T> = Absent | Present(value: T)

  function AttrOr<T>(a: Attr<T>, default: T): T
  {
    if a.Present? then a.value else default
  }

  /** The public attributes `load` reads from its argument. */
  datatype Attrs = Attrs(
    server: Attr<Option<string>>,
    port: Attr<Option<int>>,
    cipher: Attr<Option<string>>,
    password: Attr<Option<Value>>,
    protocol: Attr<Option<string>>,
    protoParam: Attr<Option<Value>>,
    obfs: Attr<Option<string>>,
    obfsParam: Attr<Option<Value>>,
    remarks: Attr<Option<Value>>,
    group: Attr<Option<Value>>)

  /** The attributes `load(obj)` leaves: the defaults, then each attribute of
      `obj` or its default. */
  function LoadSpec(a: Attrs): Fields
  {
    var d := Defaults();
    d.(server := AttrOr(a.server, Some("")), port := AttrOr(a.port, Some(443)),
       cipher := AttrOr(a.cipher, Some("")), password := AttrOr(a.password, Some(Text(""))),
       protocol := AttrOr(a.protocol, Some("origin")), protoParam := AttrOr(a.protoParam, None),
       obfs := AttrOr(a.obfs, Some("plain")), obfsParam := AttrOr(a.obfsParam, None),
       remarks := AttrOr(a.remarks, None), group := AttrOr(a.group, None))
  }

  /** What another `SSR` object shows to `load`: its getters. */
  function AttrsOf(f: Fields): Attrs
  {
    Attrs(Present(f.server), Present(f.port), Present(f.cipher), Present(f.password),
          Present(f.protocol), Present(Some(OrEmpty(f.protoParam))), Present(f.obfs),
          Present(Some(OrEmpty(f.obfsParam))), Present(Some(OrEmpty(f.remarks))),
          Present(Some(OrEmpty(f.group))))
  }

  /** The attributes `set(...)` leaves; `remarks` and `group` are taken only
      when they are true. */
  function SetSpec(server: string, port: int, cipher: string, password: Value, protocol: string,
                   protoParam: Value, obfs: string, obfsParam: Value,
                   remarks: Option<Value>, group: Option<Value>): Fields
  {
    Defaults().(server := Some(server), port := Some(port), cipher := Some(cipher),
                password := Some(password), protocol := Some(protocol), protoParam := Some(protoParam),
                obfs := Some(obfs), obfsParam := Some(obfsParam),
                remarks := if ValueTruthy(remarks) then remarks else None,
                group := if ValueTruthy(group) then group else None)
  }

  // ---------------------------------------------------------------- lemmas

  /** The defaults are not a usable descriptor: `server` and `method` are empty. */
  lemma DefaultsInvalid()
    ensures Invalid(Defaults()) && Invalid(Initial())
    ensures ConfigOf(Defaults()).None? && UrlOf(Defaults()).None?
  {
  }

  /** Refusal is all or nothing: an invalid descriptor gets no `config`, `url`,
      `plain` or JSON and its file is not written; a valid one gets all four. */
  lemma RefusalComplete(f: Fields, path: Option<string>)
    ensures Invalid(f) <==> ConfigOf(f).None?
    ensures Invalid(f) <==> UrlOf(f).None?
    ensures Invalid(f) <==> PlainOf(f).None?
    ensures Invalid(f) <==> JsonOf(f).None?
    ensures Invalid(f) <==> WriteOf(f, path) == Refused
    ensures Invalid(f) ==> WriteFields(f, path) == f
  {
  }

  /** `set` gives a valid descriptor exactly when the six required arguments are true. */
  lemma SetValid(server: string, port: int, cipher: string, password: Value, protocol: string,
                 protoParam: Value, obfs: string, obfsParam: Value,
                 remarks: Option<Value>, group: Option<Value>)
    ensures var f := SetSpec(server, port, cipher, password, protocol, protoParam, obfs, obfsParam, remarks, group);
            !Invalid(f) <==> server != "" && port != 0 && cipher != "" && !IsEmpty(password) &&
                             protocol != "" && obfs != ""
  {
  }

  /** `set` and `load` start from the defaults: the local attributes and the
      file path are cleared. */
  lemma LoadAndSetReset(a: Attrs, server: string, port: int, cipher: string, password: Value,
                        protocol: string, protoParam: Value, obfs: string, obfsParam: Value,
                        remarks: Option<Value>, group: Option<Value>)
    ensures var f := LoadSpec(a);
            f.localAddress.None? && f.localPort.None? && f.confPath.None?
    ensures var f := SetSpec(server, port, cipher, password, protocol, protoParam, obfs, obfsParam, remarks, group);
            f.localAddress.None? && f.localPort.None? && f.confPath.None?
    ensures LoadSpec(Attrs(Absent, Absent, Absent, Absent, Absent, Absent, Absent, Absent, Absent, Absent)) == Defaults()
  {
  }

  /** Loading one descriptor from another copies everything its `plain` and
      `url` show; only the local attributes are reset. */
  lemma LoadCopy(f: Fields)
    ensures var g := LoadSpec(AttrsOf(f));
            Invalid(g) == Invalid(f) && PlainOf(g) == PlainOf(f) && UrlOf(g) == UrlOf(f) &&
            ConfigOf(g).Some? == ConfigOf(f).Some? &&
            JsonOf(g) == JsonOf(f.(localAddress := None, localPort := None, confPath := None))
  {
    var g := LoadSpec(AttrsOf(f));
    assert Params(g) == Params(f);
    if !Invalid(f) {
      assert PlainLines(g) == PlainLines(f);
      assert Payload(g) == Payload(f);
      var h := f.(localAddress := None, localPort := None, confPath := None);
      assert JsonLines(g) == JsonLines(h);
    }
  }

  /** Joining `{`, the lines and `}` with newlines is the JSON text. */
  lemma JsonJoin(f: Fields)
    requires !Invalid(f)
    ensures JsonOf(f).value == Join(["{"] + JsonLines(f) + ["}"], "\n")
  {
    JoinBetween("{", JsonLines(f), "}", "\n");
  }

  /** No key of the configuration file holds a newline. */
  lemma KeysOneLine(k: nat)
    requires k < |JsonKeys|
    ensures '\n' !in Quoted(JsonKeys[k]) + ": "
  {
    var key := JsonKeys[k];
    assert forall c :: c in key ==> 'a' <= c <= 'z' || c == '_';
  }

  /** An entry is one line when its value is. */
  lemma LineOneLine(f: Fields, k: nat)
    requires !Invalid(f) && k < |JsonKeys|
    requires '\n' !in JsonValues(f)[k]
    ensures '\n' !in JsonLines(f)[k]
  {
    KeysOneLine(k);
  }

  /** The JSON text is `{`, the ten entries, and `}`, one per line, provided no
      value holds a newline, since values are not escaped. */
  lemma JsonLayout(f: Fields)
    requires !Invalid(f)
    requires forall i :: 0 <= i < |JsonValues(f)| ==> '\n' !in JsonValues(f)[i]
    ensures Split(JsonOf(f).value, "\n") == ["{"] + JsonLines(f) + ["}"]
  {
    var lines := JsonLines(f);
    JsonJoin(f);
    var all := ["{"] + lines + ["}"];
    forall i | 0 <= i < |all| ensures '\n' !in all[i] {
      if 0 < i < |all| - 1 {
        assert all[i] == lines[i - 1];
        LineOneLine(f, i - 1);
      }
    }
    SplitJoin(all, "\n");
  }

  /** The `plain` text is its ten labelled lines, when no value holds a newline. */
  lemma PlainLayout(f: Fields)
    requires !Invalid(f)
    requires forall i :: 0 <= i < |PlainLines(f)| ==> '\n' !in PlainLines(f)[i]
    ensures Split(PlainOf(f).value, "\n") == PlainLines(f) && |PlainLines(f)| == 10
  {
    SplitJoin(PlainLines(f), "\n");
  }
}
