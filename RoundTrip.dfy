/** Reading back a `ssr://` link: setting `url` to the `url` of a valid
    descriptor gives back its attributes. The parameters are cut at the first
    `=`, which drops the base64 padding of their values; `decode` restores it. */
module RoundTrip {
  import opened Wrappers
  import opened Strings
  import opened Base64
  import opened Descriptor
  import opened Parser

  /** The dictionary `__parse_ssr` builds from the parameters of a link. */
  function ParamsFold(ps: seq<(string, Value)>, dict: map<string, Value>): map<string, Value>
    decreases |ps|
  {
    if |ps| == 0 then dict else ParamsFold(ps[1..], dict[ps[0].0 := Normal(ps[0].1)])
  }

  /** `key=value` splits at its first `=`: the key, then the value up to its
      first `=`. */
  lemma KeyValue(key: string, e: string, k: nat, d: Decoded)
    requires '=' !in key && k <= |e| && '=' !in e[..k] && (k == |e| || e[k] == '=')
    requires Decode(e[..k]) == d
    ensures var kv := Split(key + "=" + e, "=");
            |kv| >= 2 && kv[0] == key && Decode(kv[1]) == d
  {
    SplitCons(key, "=", e);
    SplitFirst(e, '=', k);
  }

  /** One parameter `key=base64` splits into its key and the base64 before the
      padding, which decodes to the value. */
  lemma ParamItem(key: string, v: Value)
    requires '=' !in key
    ensures var kv := Split(key + "=" + Encode(v, true), "=");
            |kv| >= 2 && kv[0] == key && Decode(kv[1]) == Normal(v)
  {
    var b := ToBytes(v);
    var e := EncodeBytes(b, true);
    Unpadded(b, true);
    KeyValue(key, e, |e| - PadCount(|b|), Classify(b));
  }

  /** The parameter loop reads every parameter a link carries. */
  lemma {:induction false} ParamsDictItems(ps: seq<(string, Value)>, dict: map<string, Value>)
    requires forall i :: 0 <= i < |ps| ==> '=' !in ps[i].0
    ensures ParamsDict(ParamItems(ps), dict) == Some(ParamsFold(ps, dict))
    decreases |ps|
  {
    if |ps| > 0 {
      ParamItem(ps[0].0, ps[0].1);
      ParamsDictItems(ps[1..], dict[ps[0].0 := Normal(ps[0].1)]);
    }
  }

  /** The keys of the parameters are lower-case words. */
  lemma ParamKeys(f: Fields)
    ensures forall i :: 0 <= i < |Params(f)| ==>
              forall c :: c in Params(f)[i].0 ==> 'a' <= c <= 'z'
  {
  }

  /** `:`, `/` and `&` occur in no parameter. */
  lemma {:induction false} ItemsWithout(ps: seq<(string, Value)>, c: char)
    requires c == ':' || c == '/' || c == '&'
    requires forall i :: 0 <= i < |ps| ==> forall x :: x in ps[i].0 ==> 'a' <= x <= 'z'
    ensures forall i :: 0 <= i < |ParamItems(ps)| ==> c !in ParamItems(ps)[i]
    decreases |ps|
  {
    if |ps| > 0 {
      EncodeAlphabet(ToBytes(ps[0].1), true);
      assert c !in Encode(ps[0].1, true);
      assert c !in ps[0].0;
      ItemsWithout(ps[1..], c);
      assert ParamItems(ps)[1..] == ParamItems(ps[1..]);
    }
  }

  /** The text after `/?` of a link. */
  function Suffix(f: Fields): string
  {
    Join(ParamItems(Params(f)), "&")
  }

  /** The suffix has no `:` and no `/`, and splits back into its parameters. */
  lemma SuffixSplit(f: Fields)
    ensures ':' !in Suffix(f) && '/' !in Suffix(f)
    ensures Split(Suffix(f), "&") == ParamItems(Params(f))
  {
    var items := ParamItems(Params(f));
    ParamKeys(f);
    ItemsWithout(Params(f), ':');
    ItemsWithout(Params(f), '/');
    ItemsWithout(Params(f), '&');
    JoinWithout(items, "&", ':');
    JoinWithout(items, "&", '/');
    SplitJoin(items, "&");
  }

  /** The payload splits on `:` into the five fields and the rest. */
  lemma PrefixSplit(f: Fields)
    requires !Invalid(f)
    requires ':' !in f.server.value && ':' !in f.protocol.value
    requires ':' !in f.cipher.value && ':' !in f.obfs.value
    ensures Split(Payload(f), ":") == Prefix(f)[..5] + [Prefix(f)[5] + "/?" + Suffix(f)]
  {
    var pre := Prefix(f);
    var rest := "/?" + Suffix(f);
    JoinExtendLast(pre, ":", rest);
    assert Payload(f) == Join(pre, ":") + rest;
    var pieces := pre[..5] + [pre[5] + rest];
    SuffixSplit(f);
    IntToStringChars(f.port.value);
    EncodeAlphabet(ToBytes(f.password.value), true);
    assert ':' !in pre[5] && ':' !in rest;
    assert pre[5] + rest == pre[5] + "/?" + Suffix(f);
    forall i | 0 <= i < |pieces| ensures ':' !in pieces[i] {
      if i < 5 {
        assert pieces[i] == pre[i];
      }
    }
    SplitJoin(pieces, ":");
  }

  lemma FoldCons(p: (string, Value), ps: seq<(string, Value)>, dict: map<string, Value>)
    ensures ParamsFold([p] + ps, dict) == ParamsFold(ps, dict[p.0 := Normal(p.1)])
  {
    assert ([p] + ps)[1..] == ps;
  }

  /** What the parameter dictionary holds: `protoparam` and `obfsparam` when
      they were set, `remarks` and `group` always. */
  lemma FinalDict(f: Fields)
    ensures var dict := ParamsFold(Params(f), map[]);
            ("protoparam" in dict <==> ValueTruthy(f.protoParam)) &&
            ("protoparam" in dict ==> dict["protoparam"] == Normal(OrEmpty(f.protoParam))) &&
            ("obfsparam" in dict <==> ValueTruthy(f.obfsParam)) &&
            ("obfsparam" in dict ==> dict["obfsparam"] == Normal(OrEmpty(f.obfsParam))) &&
            "remarks" in dict && dict["remarks"] == Normal(OrEmpty(f.remarks)) &&
            "group" in dict && dict["group"] == Normal(OrEmpty(f.group))
  {
    var rm, gr := ("remarks", OrEmpty(f.remarks)), ("group", OrEmpty(f.group));
    var pp, op := ("protoparam", OrEmpty(f.protoParam)), ("obfsparam", OrEmpty(f.obfsParam));
    var d0: map<string, Value> := map[];
    var d1: map<string, Value> := if ValueTruthy(f.protoParam) then d0[pp.0 := Normal(pp.1)] else d0;
    var d2: map<string, Value> := if ValueTruthy(f.obfsParam) then d1[op.0 := Normal(op.1)] else d1;
    var tail := [rm, gr];
    var mid := (if ValueTruthy(f.obfsParam) then [op] else []) + tail;
    assert Params(f) == (if ValueTruthy(f.protoParam) then [pp] else []) + mid;
    if ValueTruthy(f.protoParam) {
      FoldCons(pp, mid, d0);
    }
    assert ParamsFold(Params(f), d0) == ParamsFold(mid, d1);
    if ValueTruthy(f.obfsParam) {
      FoldCons(op, tail, d1);
    } else {
      assert mid == tail;
    }
    assert ParamsFold(mid, d1) == ParamsFold(tail, d2);
    FoldCons(rm, [gr], d2);
    var d3: map<string, Value> := d2[rm.0 := Normal(rm.1)];
    var d4: map<string, Value> := d3[gr.0 := Normal(gr.1)];
    FoldCons(gr, [], d3);
    assert [rm, gr] == [rm] + [gr] && [gr] == [gr] + [];
    assert ParamsFold(tail, d2) == d4;
  }

  /** `ssr://payload` goes to `__parse_ssr` when the payload holds no `://`. */
  lemma UrlLoadSsr(payload: string)
    requires Lacks("://", payload)
    ensures UrlLoad("ssr://" + payload) == SsrPayload(Defaults(), payload)
  {
    assert "ssr://" + payload == "ssr" + "://" + payload;
    SchemeSplit("ssr", payload);
  }

  /** The attributes `__parse_ssr` produces from the payload of `f`. */
  function Reparsed(f: Fields): Fields
    requires !Invalid(f)
  {
    ApplyParams(Defaults().(server := f.server, port := f.port, protocol := f.protocol,
                            cipher := f.cipher, obfs := f.obfs, password := Some(Normal(f.password.value))),
                ParamsFold(Params(f), map[]))
  }

  /** `__parse_ssr` on a payload without `#` that decodes to text reads that text. */
  lemma SsrPayloadText(g: Fields, e: string, t: string)
    requires '#' !in e && Decode(e) == Text(t)
    ensures SsrPayload(g, e) == SsrText(g, t)
  {
    SplitNone(e, "#");
  }

  /** The text stage of `__parse_ssr` when every step succeeds. */
  lemma SsrTextOk(g: Fields, t: string, parts: seq<string>, pw: string,
                  suffix: string, port: int, dict: map<string, Value>)
    requires Split(t, ":") == parts && |parts| == 6
    requires Split(parts[5], "/?") == [pw, suffix]
    requires ParseInt(parts[1]) == Some(port) && !Decode(pw).Fail?
    requires ParamsDict(Split(suffix, "&"), map[]) == Some(dict)
    ensures SsrText(g, t) ==
            Parsed(ApplyParams(g.(server := Some(parts[0]), port := Some(port), protocol := Some(parts[2]),
                                  cipher := Some(parts[3]), obfs := Some(parts[4]),
                                  password := Some(Decode(pw))), dict), true)
  {
  }

  /** The suffix of a link reads back as the parameter dictionary. */
  lemma SuffixDict(f: Fields)
    ensures ParamsDict(Split(Suffix(f), "&"), map[]) == Some(ParamsFold(Params(f), map[]))
  {
    SuffixSplit(f);
    ParamKeys(f);
    ParamsDictItems(Params(f), map[]);
  }

  /** The password field of a link splits off the suffix and decodes. */
  lemma PasswordField(f: Fields)
    requires !Invalid(f)
    ensures var pw := Prefix(f)[5];
            Split(pw + "/?" + Suffix(f), "/?") == [pw, Suffix(f)] &&
            Decode(pw) == Normal(f.password.value)
  {
    var pw := Encode(f.password.value, true);
    assert Prefix(f)[5] == pw;
    UrlSafeHasNoPlusOrSlash(ToBytes(f.password.value));
    SuffixSplit(f);
    SplitCons(pw, "/?", Suffix(f));
    SplitNone(Suffix(f), "/?");
    DecodeEncodeBytes(ToBytes(f.password.value), true);
  }

  /** The text stage of `__parse_ssr` reads the payload a valid descriptor writes. */
  lemma PayloadText(f: Fields)
    requires !Invalid(f)
    requires ':' !in f.server.value && ':' !in f.protocol.value
    requires ':' !in f.cipher.value && ':' !in f.obfs.value
    ensures SsrText(Defaults(), Payload(f)) == Parsed(Reparsed(f), true)
  {
    var pre := Prefix(f);
    PrefixSplit(f);
    PasswordField(f);
    ParseIntToString(f.port.value);
    SuffixDict(f);
    var parts := pre[..5] + [pre[5] + "/?" + Suffix(f)];
    assert parts[5] == pre[5] + "/?" + Suffix(f);
    assert parts[0] == f.server.value && parts[1] == IntToString(f.port.value);
    assert parts[2] == f.protocol.value && parts[3] == f.cipher.value && parts[4] == f.obfs.value;
    SsrTextOk(Defaults(), Payload(f), parts, pre[5], Suffix(f), f.port.value, ParamsFold(Params(f), map[]));
  }

  /** `__parse_ssr` reads the payload a valid descriptor writes. */
  lemma ParsePayload(f: Fields)
    requires !Invalid(f)
    requires ':' !in f.server.value && ':' !in f.protocol.value
    requires ':' !in f.cipher.value && ':' !in f.obfs.value
    ensures SsrPayload(Defaults(), Encode(Text(Payload(f)), true)) == Parsed(Reparsed(f), true)
  {
    var t := Payload(f);
    var e := Encode(Text(t), true);
    EncodeAlphabet(Utf8.Encode(t), true);
    assert '#' !in e;
    DecodeEncodeText(t, true);
    SsrPayloadText(Defaults(), e, t);
    PayloadText(f);
  }

  /** Setting `url` to the `url` of a valid descriptor whose `server`,
      `protocol`, `method` and `obfs` hold no `:` reproduces them, the port and
      the password, and the getter values of `proto_param`, `obfs_param`,
      `remarks` and `group`; a `bytes` value that is UTF-8 comes back as text. */
  lemma SsrRoundTrip(f: Fields)
    requires !Invalid(f)
    requires ':' !in f.server.value && ':' !in f.protocol.value
    requires ':' !in f.cipher.value && ':' !in f.obfs.value
    ensures var r := UrlLoad(UrlOf(f).value);
            r.ok && r.fields.server == f.server && r.fields.port == f.port &&
            r.fields.protocol == f.protocol && r.fields.cipher == f.cipher && r.fields.obfs == f.obfs &&
            r.fields.password == Some(Normal(f.password.value)) &&
            OrEmpty(r.fields.protoParam) == Normal(OrEmpty(f.protoParam)) &&
            OrEmpty(r.fields.obfsParam) == Normal(OrEmpty(f.obfsParam)) &&
            OrEmpty(r.fields.remarks) == Normal(OrEmpty(f.remarks)) &&
            OrEmpty(r.fields.group) == Normal(OrEmpty(f.group))
  {
    var e := Encode(Text(Payload(f)), true);
    EncodeAlphabet(Utf8.Encode(Payload(f)), true);
    assert ':' !in e;
    LacksChar(e, "://");
    UrlLoadSsr(e);
    ParsePayload(f);
    FinalDict(f);
  }

  /** The items of two parameter lists are those of each, in order. */
  lemma {:induction false} ItemsAppend(ps: seq<(string, Value)>, qs: seq<(string, Value)>)
    ensures ParamItems(ps + qs) == ParamItems(ps) + ParamItems(qs)
    decreases |ps|
  {
    if |ps| == 0 {
      assert ps + qs == qs;
    } else {
      assert (ps + qs)[0] == ps[0] && (ps + qs)[1..] == ps[1..] + qs;
      ItemsAppend(ps[1..], qs);
    }
  }

  /** The items of a descriptor's parameters. */
  function Item(key: string, v: Option<Value>): string
  {
    key + "=" + Encode(OrEmpty(v), true)
  }

  /** The items of a link spelled out: the optional two, then `remarks` and `group`. */
  lemma ItemsOfParams(f: Fields)
    ensures ParamItems(Params(f)) ==
            (if ValueTruthy(f.protoParam) then [Item("protoparam", f.protoParam)] else []) +
            (if ValueTruthy(f.obfsParam) then [Item("obfsparam", f.obfsParam)] else []) +
            [Item("remarks", f.remarks), Item("group", f.group)]
  {
    var pp: seq<(string, Value)> := if ValueTruthy(f.protoParam) then [("protoparam", OrEmpty(f.protoParam))] else [];
    var op: seq<(string, Value)> := if ValueTruthy(f.obfsParam) then [("obfsparam", OrEmpty(f.obfsParam))] else [];
    var tail: seq<(string, Value)> := [("remarks", OrEmpty(f.remarks)), ("group", OrEmpty(f.group))];
    ItemsAppend(pp + op, tail);
    ItemsAppend(pp, op);
    assert tail[1..][1..] == [];
  }

  /** A value and its normal form are as truthy and encode alike. */
  lemma SameValue(a: Option<Value>, b: Option<Value>)
    requires OrEmpty(a) == Normal(OrEmpty(b))
    ensures ValueTruthy(a) == ValueTruthy(b)
    ensures Encode(OrEmpty(a), true) == Encode(OrEmpty(b), true)
  {
    NormalBytes(OrEmpty(b));
  }

  /** Two descriptors whose values have the same bytes have the same prefix. */
  lemma SamePrefix(f: Fields, g: Fields)
    requires !Invalid(f)
    requires g.server == f.server && g.port == f.port && g.protocol == f.protocol
    requires g.cipher == f.cipher && g.obfs == f.obfs && g.password == Some(Normal(f.password.value))
    ensures !Invalid(g) && Prefix(g) == Prefix(f)
  {
    NormalBytes(f.password.value);
  }

  /** Two descriptors whose optional values have the same bytes have the same
      parameters. */
  lemma SameItems(f: Fields, g: Fields)
    requires OrEmpty(g.protoParam) == Normal(OrEmpty(f.protoParam))
    requires OrEmpty(g.obfsParam) == Normal(OrEmpty(f.obfsParam))
    requires OrEmpty(g.remarks) == Normal(OrEmpty(f.remarks))
    requires OrEmpty(g.group) == Normal(OrEmpty(f.group))
    ensures ParamItems(Params(g)) == ParamItems(Params(f))
  {
    SameValue(g.protoParam, f.protoParam);
    SameValue(g.obfsParam, f.obfsParam);
    SameValue(g.remarks, f.remarks);
    SameValue(g.group, f.group);
    ItemsOfParams(f);
    ItemsOfParams(g);
  }

  /** A descriptor whose values have the bytes of those of `f` has the link of `f`. */
  lemma SameLink(f: Fields, g: Fields)
    requires !Invalid(f)
    requires g.server == f.server && g.port == f.port && g.protocol == f.protocol
    requires g.cipher == f.cipher && g.obfs == f.obfs && g.password == Some(Normal(f.password.value))
    requires OrEmpty(g.protoParam) == Normal(OrEmpty(f.protoParam))
    requires OrEmpty(g.obfsParam) == Normal(OrEmpty(f.obfsParam))
    requires OrEmpty(g.remarks) == Normal(OrEmpty(f.remarks))
    requires OrEmpty(g.group) == Normal(OrEmpty(f.group))
    ensures UrlOf(g) == UrlOf(f)
  {
    SamePrefix(f, g);
    SameItems(f, g);
    assert Payload(g) == Payload(f);
  }

  /** A link is a fixed point: the `url` of the descriptor read from the `url`
      of a valid descriptor is that same link. */
  lemma UrlFixedPoint(f: Fields)
    requires !Invalid(f)
    requires ':' !in f.server.value && ':' !in f.protocol.value
    requires ':' !in f.cipher.value && ':' !in f.obfs.value
    ensures UrlOf(UrlLoad(UrlOf(f).value).fields) == UrlOf(f)
  {
    SsrRoundTrip(f);
    SameLink(f, UrlLoad(UrlOf(f).value).fields);
  }
}
