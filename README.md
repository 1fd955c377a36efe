# ssrconfig in Dafny

This project models the configuration helper `ssrconfig.py` of
ss-tproxy-3.0. The helper reads ShadowsocksR (`ssr://`) and legacy
Shadowsocks (`ss://`) links and subscriptions. It picks the fastest server
and writes the local ShadowsocksR JSON configuration plus a list of
reachable servers. The model covers:

- **Codec** (`Base64`, `Utf8`, `Percent`).
  - `encode`: standard or URL-safe base64 of the UTF-8 bytes of a `str`, or
    of a `bytes` value.
  - `decode`: re-pads to a multiple of four, maps `-_` to `+/`, then runs
    CPython's non-strict `a2b_base64` as a state machine, including
    skipped characters and the errors it raises. The result is text when
    the bytes are UTF-8, and the raw bytes otherwise.
  - `urllib.parse.unquote`, with `errors='replace'`.
- **Descriptor** (`Descriptor`).
  - The thirteen attributes of an `SSR` object as a value `Fields`.
  - The validity test `invalid_attributes`.
  - What `config`, `plain`, `url`, `get_config_json_string` and
    `write_config_file` build from the attributes.
- **Link parsing** (`Parser`).
  - The `url` setter with `__parse_ssr` and `__parse_ss`, as functions of
    the attributes before the call.
  - An exception becomes `ok == false`. Every attribute assigned before the
    exception keeps its value, as in Python.
- **The `SSR` class** (`Record`).
  - A Dafny class with the same attributes.
  - Its methods assign them step by step, as the Python methods do.
  - Each method is proved to leave exactly the attributes the matching
    function of `Descriptor` or `Parser` describes.
- **List helpers and subscriptions** (`Subscription`).
  - `remove`, `unique` and `remove_and_unique` as loops, proved against
    recursive definitions.
  - `get_urls_by_base64` and `get_urls_by_subscribe`, given the HTTP
    status and body.
- **Entry points** (`Selector`).
  - `sub_file`: the loop over the links, the running minimum and the
    servers accumulator.
  - `ssr_file`.
  - Connection times are a parameter, and the two files written are
    results.

The main results:

- `decode(encode(x))` gives back `x` for text. For bytes it gives back the
  bytes, or their text when they are UTF-8. Both alphabets decode the same.
- Building an `ssr://` link from a valid descriptor and parsing it again
  gives the same server, port, protocol, method and obfs. The password,
  the parameters, the remarks and the group come back as `decode` returns
  them (`Base64.Normal`): a text value is unchanged, a `bytes` value that
  is valid UTF-8 comes back as the equal text, other bytes come back as
  bytes, and a missing parameter comes back as an empty string. Building
  again then gives the same link.
- A legacy `ss://` link parses into its method, password, host, port and
  percent-decoded tag.
- Every serializer refuses an invalid descriptor, and only an invalid one.
- `unique` keeps the first occurrence of every element, in order.
  `remove` keeps exactly the elements not excluded.
- `sub_file` writes the first fastest link strictly below 1000, or refuses
  the write when there is none. The servers file lists every reachable
  server, each after one space.

Behaviour of the code worth noting, which the model follows:

- The running minimum `small` starts at 1000, which is below the
  unreachable value 10000. A subscription whose every link is unreachable
  (or every link is at least 1000) selects nothing; `fastSSR` keeps its
  `None` attributes and `write_config_file` refuses (`Selector.SelectRefused`).
- The servers accumulator starts empty and adds `" " + server`, so it
  begins with a space unless no server is reachable and it stays empty
  (`" A B"`, `Selector.SelectExample`, `Selector.ServersListed`).
- The base64 of an empty string is the empty string, so `remarks=` and
  `group=` carry an empty token. They are still always emitted.
- A parse that raises does not leave an empty descriptor: the attributes
  assigned before the exception stay. An `ssr` payload without `/?`
  assigns server, port, protocol, method, obfs and password, then raises
  (`Parser.SsrWithoutParams`).
- A payload that decodes to bytes is not an error: the parse returns
  normally and the descriptor keeps its reset values, except that an `ss`
  link keeps the remarks of its `#tag`, which `__parse_ss` assigns before
  it decodes (`Parser.SsPayload`).
- A subscription body whose base64 is malformed makes `decode` raise. In
  `get_urls_by_subscribe` that exception is not caught, so `sub_file`
  raises (`Selector.SubFile`). It does not return an empty list. A
  malformed link inside the subscription is different: the url setter
  catches the error, and the loop goes on.
- The code reads `ss://` links only in the form
  `ss://BASE64(method:password@host:port)#tag` (`Parser.LegacySs`). In a
  link such as `ss://BASE64(method:password)@host:port#tag` it decodes
  everything before `#`, `@host:port` included, skipping the characters
  that are not base64. That decode raises or gives text other than the
  `method:password@host:port` the parser expects.

The Python attribute `method` is the Dafny field `cipher`, because
`method` is a Dafny keyword.

## Model

| member | source | states |
|---|---|---|
| Base64.EncodeBytes | ss-tproxy-3.0/ssrconfig.py:419-421 | definition of `b64encode` and `urlsafe_b64encode`: three bytes become four characters of the chosen alphabet, and a short last group is padded with `=` |
| Base64.Encode | ss-tproxy-3.0/ssrconfig.py:416-421 | definition of `encode`: the UTF-8 bytes of a `str`, or the `bytes` themselves, encoded as above |
| Base64.A2b | ss-tproxy-3.0/ssrconfig.py:429-431 | definition of the non-strict `a2b_base64` after the `-_` to `+/` mapping: characters outside the alphabet are skipped, `=` after the second character of a quantum counts as padding, the data ends once the characters and the pads fill the quantum (`==` after two characters, `=` after three), and a quantum left incomplete is the `binascii.Error` |
| Base64.PaddingExamples | ss-tproxy-3.0/ssrconfig.py:424-433 | `decode` gives `"a"` for `YQ==` and `"ab"` for `YWI=`, and raises for `YQ=x`, where a lone `=` after two characters does not end the data |
| Base64.Classify | ss-tproxy-3.0/ssrconfig.py:431-433 | definition of the result of `decode`: text when the bytes are UTF-8, and the bytes themselves when `UnicodeDecodeError` is caught |
| Base64.Decode | ss-tproxy-3.0/ssrconfig.py:424-433 | definition of `decode`: re-pad, run the decoder, classify; `Fail` is the `binascii.Error` |
| Base64.Padded | ss-tproxy-3.0/ssrconfig.py:425-427 | the re-padded input has a length that is a multiple of four |
| Base64.SextetDecodes | ss-tproxy-3.0/ssrconfig.py:416-433 | every sextet's character decodes back to the sextet and lies in the alphabet of the chosen variant |
| Base64.EncodeAlphabet | ss-tproxy-3.0/ssrconfig.py:416-421 | every character of an encoding is in the standard or URL-safe alphabet, or is padding |
| Base64.UrlSafeHasNoPlusOrSlash | ss-tproxy-3.0/ssrconfig.py:419-420 | the URL-safe encoding never contains `+` or `/` |
| Base64.EncodeLength | ss-tproxy-3.0/ssrconfig.py:416-421 | an encoding of n bytes has 4·⌈n/3⌉ characters |
| Base64.EncodeGroups | ss-tproxy-3.0/ssrconfig.py:416-421 | the same length law, proved by induction over groups of three bytes |
| Base64.EncodePadding | ss-tproxy-3.0/ssrconfig.py:416-421 | `=` appears exactly in the last PadCount(n) positions (0, 2 or 1 for n mod 3 = 0, 1, 2) |
| Base64.A2bQuantum | ss-tproxy-3.0/ssrconfig.py:431 | the decoder reads one encoded group of three bytes back as those bytes |
| Base64.A2bEncode | ss-tproxy-3.0/ssrconfig.py:416-433 | the non-strict decoder returns exactly the encoded bytes |
| Base64.Unpadded | ss-tproxy-3.0/ssrconfig.py:424-433 | an encoding without its padding contains no `=`, is followed by `=` or the end, and still decodes to the bytes |
| Base64.DecodeUnpadded | ss-tproxy-3.0/ssrconfig.py:424-433 | an encoding with its padding stripped decodes to the same value, because decode re-pads |
| Base64.PaddedUnpadded | ss-tproxy-3.0/ssrconfig.py:425-427 | re-padding a stripped encoding restores the encoding |
| Base64.DecodeEncodeBytes | ss-tproxy-3.0/ssrconfig.py:416-433 | decode(encode(b)) is b, as text when b is UTF-8 and as bytes otherwise |
| Base64.DecodeEncodeText | ss-tproxy-3.0/ssrconfig.py:416-433 | decode(encode(s)) == s for every string and either alphabet |
| Base64.DecodeEitherAlphabet | ss-tproxy-3.0/ssrconfig.py:429 | the URL-safe and standard encodings of the same bytes decode to the same value |
| Base64.ClassifyText | ss-tproxy-3.0/ssrconfig.py:431 | the UTF-8 bytes of a string decode to that string as text |
| Base64.ClassifyIsText | ss-tproxy-3.0/ssrconfig.py:431-433 | decoded bytes are text s exactly when they are the UTF-8 encoding of s |
| Base64.EncodeEmpty | ss-tproxy-3.0/ssrconfig.py:416-421 | the encoding is empty exactly when the value is empty |
| Base64.ClassifyToBytes | ss-tproxy-3.0/ssrconfig.py:417-418 | reclassifying a value's bytes keeps its emptiness and gives back any text value |
| Base64.Normal | ss-tproxy-3.0/ssrconfig.py:416-433 | the value a round trip through the codec gives: text stays itself, emptiness is kept |
| Base64.NormalBytes | ss-tproxy-3.0/ssrconfig.py:416-433 | a round trip through the codec keeps the bytes a value stands for |
| Utf8.Encode | ss-tproxy-3.0/ssrconfig.py:418 | definition of `s.encode('utf-8')`, character by character |
| Utf8.Decode | ss-tproxy-3.0/ssrconfig.py:431 | definition of the strict `b.decode('utf-8')`: one well-formed sequence at a time, `None` for the `UnicodeDecodeError` |
| Utf8.DecodeReplace | ss-tproxy-3.0/ssrconfig.py:313 | definition of `b.decode('utf-8', 'replace')`: each maximal ill-formed subpart becomes U+FFFD |
| Utf8.EncodeChar | ss-tproxy-3.0/ssrconfig.py:418 | every character takes one to four bytes |
| Utf8.SequenceLength | ss-tproxy-3.0/ssrconfig.py:431 | a well-formed sequence at the head of the bytes agrees with its lead byte's length |
| Utf8.ScalarValue | ss-tproxy-3.0/ssrconfig.py:431 | a well-formed sequence decodes to a Unicode scalar value, never a surrogate |
| Utf8.DecodeEncodeChar | ss-tproxy-3.0/ssrconfig.py:418 | the encoding of a character is read back as one sequence giving that character |
| Utf8.EncodeFirstChar | ss-tproxy-3.0/ssrconfig.py:431 | re-encoding the first decoded character gives its bytes |
| Utf8.DecodeEncode | ss-tproxy-3.0/ssrconfig.py:418 | the strict UTF-8 decode of an encoding gives the string back |
| Utf8.EncodeDecode | ss-tproxy-3.0/ssrconfig.py:431 | bytes that decode strictly to s are the encoding of s, so decoding is injective |
| Utf8.DecodeReplaceAgrees | ss-tproxy-3.0/ssrconfig.py:313 | on well-formed bytes the replacing decode agrees with the strict one |
| Utf8.EncodeAppend | ss-tproxy-3.0/ssrconfig.py:418 | encoding distributes over concatenation |
| Utf8.EncodeEmpty | ss-tproxy-3.0/ssrconfig.py:418 | only the empty string encodes to no bytes |
| Percent.Unquote | ss-tproxy-3.0/ssrconfig.py:313 | definition of `urllib.parse.unquote`: a string without `%` is returned as it is, otherwise each ASCII run is percent-decoded to bytes and decoded with replacement |
| Percent.HexValue | ss-tproxy-3.0/ssrconfig.py:313 | the value of a hex digit lies in 0..15, and -1 marks a byte that is not one |
| Percent.UnquoteBytes | ss-tproxy-3.0/ssrconfig.py:313 | percent-decoding never lengthens the bytes |
| Percent.AsciiRun | ss-tproxy-3.0/ssrconfig.py:313 | the run is the longest ASCII prefix |
| Percent.HexDigit | ss-tproxy-3.0/ssrconfig.py:313 | the digit is ASCII and reads back as its value |
| Percent.Quote | ss-tproxy-3.0/ssrconfig.py:313 | percent-encoding takes three ASCII characters per byte |
| Percent.UnquoteBytesQuote | ss-tproxy-3.0/ssrconfig.py:313 | percent-decoding the UTF-8 of a percent-encoding returns the bytes |
| Percent.RunsAscii | ss-tproxy-3.0/ssrconfig.py:313 | an ASCII string is unquoted by decoding its percent-decoded bytes with replacement |
| Percent.UnquoteQuote | ss-tproxy-3.0/ssrconfig.py:313 | `unquote` of the percent-encoding of a string's UTF-8 is the string |
| Strings.Join | ss-tproxy-3.0/ssrconfig.py:323 | definition of `d.join(xs)`: the pieces with `d` between neighbours |
| Strings.IntToString | ss-tproxy-3.0/ssrconfig.py:235 | definition of `str(i)`: a minus sign for a negative number, then the decimal digits of the magnitude |
| Strings.ParseInt | ss-tproxy-3.0/ssrconfig.py:293 | definition of `int(s)` on an optional sign and ASCII digits, `None` for the `ValueError` |
| Strings.Split | ss-tproxy-3.0/ssrconfig.py:271 | `str.split` always returns at least one piece |
| Strings.JoinSplit | ss-tproxy-3.0/ssrconfig.py:319-328 | joining the pieces of a split with the separator gives the string back |
| Strings.SplitJoin | ss-tproxy-3.0/ssrconfig.py:262-265 | splitting a join of pieces free of the separator gives the pieces back |
| Strings.SplitNone | ss-tproxy-3.0/ssrconfig.py:283 | a string without the separator splits into itself |
| Strings.Lacks | ss-tproxy-3.0/ssrconfig.py:271 | definition of `d not in s`: no piece of `s` equals `d` |
| Strings.SplitLacks | ss-tproxy-3.0/ssrconfig.py:271 | a string in which the separator does not occur splits into itself |
| Strings.LacksAfter | ss-tproxy-3.0/ssrconfig.py:271 | a separator absent from `y` stays absent from `x + y` when its first character is not in `x` |
| Strings.LacksChar | ss-tproxy-3.0/ssrconfig.py:271 | a separator whose first character is not in a string is absent from it |
| Strings.SplitCons | ss-tproxy-3.0/ssrconfig.py:289 | a first piece free of the separator is split off unchanged |
| Strings.SplitSnoc | ss-tproxy-3.0/ssrconfig.py:320-322 | a last piece free of a one-character separator is split off unchanged |
| Strings.SplitFirst | ss-tproxy-3.0/ssrconfig.py:301 | the first piece of a split ends at the first separator |
| Strings.JoinAppend | ss-tproxy-3.0/ssrconfig.py:379 | joining two lists is joining each and putting the separator between |
| Strings.JoinWithout | ss-tproxy-3.0/ssrconfig.py:323 | a join adds no character that neither the pieces nor the separator have |
| Strings.NatToString | ss-tproxy-3.0/ssrconfig.py:235 | the decimal form of a natural is a non-empty run of digits |
| Strings.DigitsOfNat | ss-tproxy-3.0/ssrconfig.py:235 | the decimal form of n reads back as n |
| Strings.ParseIntToString | ss-tproxy-3.0/ssrconfig.py:293 | `int(str(i)) == i` for every integer |
| Strings.ParseDigits | ss-tproxy-3.0/ssrconfig.py:293 | `int` of a run of digits is its decimal value |
| Strings.ParseNegative | ss-tproxy-3.0/ssrconfig.py:293 | `int` of `-` and digits is the negated value |
| Strings.IntToStringChars | ss-tproxy-3.0/ssrconfig.py:369 | `str(i)` has only digits and perhaps a leading `-` |
| Descriptor.Initial | ss-tproxy-3.0/ssrconfig.py:17-39 | definition of what `__init__` leaves: every attribute `None` |
| Descriptor.Defaults | ss-tproxy-3.0/ssrconfig.py:41-58 | definition of what `__reset_attributes` leaves: empty server, method and password, port 443, protocol `origin`, obfs `plain`, the rest `None` |
| Descriptor.Invalid | ss-tproxy-3.0/ssrconfig.py:144-159 | definition of `invalid_attributes`: one of server, port, method, password, protocol and obfs is `None`, empty or 0 |
| Descriptor.BytesRepr | ss-tproxy-3.0/ssrconfig.py:368-377 | definition of `repr` of a `bytes` value, as `format` writes it: `b'…'`, or `b"…"` when the bytes hold `'` and no `"` |
| Descriptor.Render | ss-tproxy-3.0/ssrconfig.py:336-377 | definition of `'{}'.format(v)` for a `str` value (itself) or a `bytes` value (its `repr`) |
| Descriptor.RenderPort | ss-tproxy-3.0/ssrconfig.py:369 | definition of `'{}'.format(p)` for an `int` port or `None` |
| Descriptor.PlainLines | ss-tproxy-3.0/ssrconfig.py:336-355 | definition of the ten labelled lines of `plain`, in the order server, port, method, password, protocol, proto_param, obfs, obfs_param, remarks, group |
| Descriptor.Quoted | ss-tproxy-3.0/ssrconfig.py:368-376 | definition of `"{}"`: a string value between double quotes, without escaping |
| Descriptor.LoadSpec | ss-tproxy-3.0/ssrconfig.py:161-179 | definition of what `load(obj)` leaves: the reset attributes, then each attribute of `obj` or its default |
| Descriptor.AttrsOf | ss-tproxy-3.0/ssrconfig.py:60-106 | definition of what another `SSR` object shows to `getattr`: its getters, which turn a falsy parameter, remark or group into `''` |
| Descriptor.SetSpec | ss-tproxy-3.0/ssrconfig.py:181-208 | definition of what `set(...)` leaves: the reset attributes, the eight arguments, and remarks and group only when truthy |
| Descriptor.OrEmpty | ss-tproxy-3.0/ssrconfig.py:80-102 | the getter's `x or ''` is empty exactly when the attribute is falsy, and is the attribute otherwise |
| Descriptor.LocalAddress | ss-tproxy-3.0/ssrconfig.py:108-110 | the address is never empty and is the attribute when that is set |
| Descriptor.ConfigOf | ss-tproxy-3.0/ssrconfig.py:210-227 | a dictionary exists exactly for a valid descriptor, and then has a server, a port and a password |
| Descriptor.PlainOf | ss-tproxy-3.0/ssrconfig.py:330-355 | the plain text exists exactly for a valid descriptor |
| Descriptor.PlainLayout | ss-tproxy-3.0/ssrconfig.py:336-355 | the plain text is ten lines, one per attribute, when no value holds a newline |
| Descriptor.JsonValues | ss-tproxy-3.0/ssrconfig.py:368-377 | there is one value per JSON key |
| Descriptor.JsonLines | ss-tproxy-3.0/ssrconfig.py:368-377 | there is one entry per JSON key |
| Descriptor.JsonOf | ss-tproxy-3.0/ssrconfig.py:361-379 | the JSON string exists exactly for a valid descriptor |
| Descriptor.JsonJoin | ss-tproxy-3.0/ssrconfig.py:379 | the JSON string is `{`, the ten entries and `}`, joined by newlines |
| Descriptor.KeysOneLine | ss-tproxy-3.0/ssrconfig.py:368-377 | no key part of an entry holds a newline |
| Descriptor.LineOneLine | ss-tproxy-3.0/ssrconfig.py:368-377 | an entry holds a newline only if its value does |
| Descriptor.JsonLayout | ss-tproxy-3.0/ssrconfig.py:361-379 | the JSON string's lines are `{`, the ten entries in key order, and `}` |
| Descriptor.Params | ss-tproxy-3.0/ssrconfig.py:243-260 | a link carries two to four parameters |
| Descriptor.ParamItems | ss-tproxy-3.0/ssrconfig.py:243-260 | one `key=value` item per parameter |
| Descriptor.UrlOf | ss-tproxy-3.0/ssrconfig.py:229-265 | a link exists exactly for a valid descriptor and starts with `ssr://` |
| Descriptor.WriteFields | ss-tproxy-3.0/ssrconfig.py:381-387 | writing keeps validity and the JSON, and keeps a given path in `path_to_ssr_conf` |
| Descriptor.WriteOf | ss-tproxy-3.0/ssrconfig.py:381-395 | the write is refused exactly for an invalid descriptor, and otherwise writes the JSON string |
| Descriptor.DefaultsInvalid | ss-tproxy-3.0/ssrconfig.py:17-58 | a new or reset object is invalid and has no config and no link |
| Descriptor.RefusalComplete | ss-tproxy-3.0/ssrconfig.py:144-159 | config, url, plain, the JSON string and the file write all refuse exactly the invalid descriptors, and a refused write changes nothing |
| Descriptor.SetValid | ss-tproxy-3.0/ssrconfig.py:181-208 | after `set`, the descriptor is valid exactly when all six required arguments are non-empty and the port is non-zero |
| Descriptor.LoadAndSetReset | ss-tproxy-3.0/ssrconfig.py:161-208 | `load` and `set` clear the local address, local port and path, and `load` of an object without attributes gives the defaults |
| Descriptor.LoadCopy | ss-tproxy-3.0/ssrconfig.py:161-179 | loading from another object gives the same validity, plain text and link, a config exactly when the original has one, and its JSON without the local settings; parameters that were `None` are loaded as `''` |
| Parser.ParamsDict | ss-tproxy-3.0/ssrconfig.py:299-302 | the parameter dictionary only grows |
| Parser.ApplyParams | ss-tproxy-3.0/ssrconfig.py:304-308 | applying the parameters leaves server, port and password alone |
| Parser.SsrPayload | ss-tproxy-3.0/ssrconfig.py:282-308 | parsing an ssr payload never changes the local settings or the path |
| Parser.SsrText | ss-tproxy-3.0/ssrconfig.py:289-308 | the same for the decoded text |
| Parser.SsrParams | ss-tproxy-3.0/ssrconfig.py:299-308 | the parameters never change the local settings, path, server, port or password |
| Parser.SsPayload | ss-tproxy-3.0/ssrconfig.py:310-328 | parsing an ss payload never changes the local settings or the path |
| Parser.SsText | ss-tproxy-3.0/ssrconfig.py:319-328 | the decoded ss text leaves the remarks as the tag set them |
| Parser.UrlLoad | ss-tproxy-3.0/ssrconfig.py:267-280 | after the url setter there is always a server, and the local settings and path are cleared |
| Parser.OtherScheme | ss-tproxy-3.0/ssrconfig.py:271-277 | a link of any other scheme leaves the reset, invalid descriptor without an error |
| Parser.NoScheme | ss-tproxy-3.0/ssrconfig.py:271-280 | a string without `:` gives the defaults, with an error exactly for a bare `ssr` or `ss` |
| Parser.SsrWithoutParams | ss-tproxy-3.0/ssrconfig.py:289-300 | an ssr text without `/?` raises after assigning the six fields, and leaves the parameters as they were |
| Parser.SsKeepsTag | ss-tproxy-3.0/ssrconfig.py:311-314 | a malformed ss payload raises but keeps the remarks taken from its tag |
| Parser.SchemeSplit | ss-tproxy-3.0/ssrconfig.py:271 | a scheme without `:` and a payload without `://` split back into their two parts |
| Parser.LegacyText | ss-tproxy-3.0/ssrconfig.py:319-328 | the last `@` segment splits into host and port, and the first `:` separates method from password |
| Parser.UrlLoadSs | ss-tproxy-3.0/ssrconfig.py:276-277 | an `ss://` link whose payload holds no `://` is parsed by `__parse_ss` from the reset attributes |
| Parser.SsOfText | ss-tproxy-3.0/ssrconfig.py:310-328 | a tagged payload whose text is `m:p@h:port` gives those fields and the unquoted tag, without error |
| Parser.SsTextLegacy | ss-tproxy-3.0/ssrconfig.py:319-328 | the text `m:p@h:port` gives server h, that port, method m and password p |
| Parser.LegacyLink | ss-tproxy-3.0/ssrconfig.py:267-328 | the whole link `ss://e#tag` parses into the defaults with those fields and the tag |
| Parser.LegacySs | ss-tproxy-3.0/ssrconfig.py:267-328 | the link built from method, password, host, port and tag, in either alphabet, parses back into them |
| Record.ParamsLoop | ss-tproxy-3.0/ssrconfig.py:299-302 | the loop builds the dictionary `ParamsDict` describes, and fails where Python raises |
| Record.Ssr.constructor | ss-tproxy-3.0/ssrconfig.py:17-39 | a new object has every attribute `None` |
| Record.Ssr.ResetAttributes | ss-tproxy-3.0/ssrconfig.py:41-58 | the attributes become the defaults |
| Record.Ssr.Load | ss-tproxy-3.0/ssrconfig.py:161-179 | the attributes become the defaults overridden by each attribute the object has |
| Record.Ssr.Set | ss-tproxy-3.0/ssrconfig.py:181-208 | the attributes become the arguments, with remarks and group only when truthy |
| Record.Ssr.SetRemarks | ss-tproxy-3.0/ssrconfig.py:96-98 | only the remarks change |
| Record.Ssr.SetGroup | ss-tproxy-3.0/ssrconfig.py:104-106 | only the group changes |
| Record.Ssr.SetLocalAddress | ss-tproxy-3.0/ssrconfig.py:112-114 | only the local address changes |
| Record.Ssr.SetLocalPort | ss-tproxy-3.0/ssrconfig.py:120-122 | only the local port changes |
| Record.Ssr.SetUrl | ss-tproxy-3.0/ssrconfig.py:267-280 | the attributes and the error flag are those `UrlLoad` gives |
| Record.Ssr.ParseSsr | ss-tproxy-3.0/ssrconfig.py:282-288 | the attributes and the error flag are those `SsrPayload` gives from the old attributes |
| Record.Ssr.ParseSsrText | ss-tproxy-3.0/ssrconfig.py:289-300 | the same for `SsrText`, including the fields left assigned when it raises |
| Record.Ssr.ParseSsrParams | ss-tproxy-3.0/ssrconfig.py:299-308 | the same for `SsrParams` |
| Record.Ssr.ParseSs | ss-tproxy-3.0/ssrconfig.py:310-317 | the same for `SsPayload` |
| Record.Ssr.ParseSsText | ss-tproxy-3.0/ssrconfig.py:319-328 | the same for `SsText` |
| Record.Ssr.ConfigJsonString | ss-tproxy-3.0/ssrconfig.py:357-379 | the string built entry by entry is `JsonOf`, absent exactly for an invalid descriptor |
| Record.Ssr.WriteConfigFile | ss-tproxy-3.0/ssrconfig.py:381-395 | the write and the new attributes are those `WriteOf` and `WriteFields` give |
| RoundTrip.KeyValue | ss-tproxy-3.0/ssrconfig.py:301-302 | an item `key=e` splits into the key and a piece that decodes like e without its padding |
| RoundTrip.ParamItem | ss-tproxy-3.0/ssrconfig.py:245-260 | a built item splits back into its key and a value decoding to the codec round trip of the value |
| RoundTrip.ParamsDictItems | ss-tproxy-3.0/ssrconfig.py:299-302 | parsing the built items never raises and gives the dictionary of the values' round trips |
| RoundTrip.ParamKeys | ss-tproxy-3.0/ssrconfig.py:245-260 | parameter keys are lower-case letters |
| RoundTrip.ItemsWithout | ss-tproxy-3.0/ssrconfig.py:245-260 | no built item contains `:`, `/` or `&` |
| RoundTrip.SuffixSplit | ss-tproxy-3.0/ssrconfig.py:262-265 | the suffix has no `:` or `/` and splits on `&` into the built items |
| RoundTrip.PrefixSplit | ss-tproxy-3.0/ssrconfig.py:235-241 | the payload splits on `:` into the five attributes and the password with the suffix |
| RoundTrip.FoldCons | ss-tproxy-3.0/ssrconfig.py:299-302 | a later parameter overrides an earlier one |
| RoundTrip.FinalDict | ss-tproxy-3.0/ssrconfig.py:243-260 | the parsed dictionary holds protoparam and obfsparam exactly when set, and always remarks and group, each with its round-tripped value |
| RoundTrip.UrlLoadSsr | ss-tproxy-3.0/ssrconfig.py:271-275 | an `ssr://` link whose payload holds no `://` is parsed by `__parse_ssr` from the reset attributes |
| RoundTrip.SsrTextOk | ss-tproxy-3.0/ssrconfig.py:289-308 | a text whose every step succeeds gives its six fields and its parameters, without error |
| RoundTrip.SuffixDict | ss-tproxy-3.0/ssrconfig.py:299-302 | the built suffix parses into the dictionary of its parameters |
| RoundTrip.PasswordField | ss-tproxy-3.0/ssrconfig.py:241 | the sixth field splits on `/?` into the encoded password and the suffix, and the password decodes back |
| RoundTrip.ParsePayload | ss-tproxy-3.0/ssrconfig.py:262-308 | the encoded payload parses into the reparsed attributes, without error |
| RoundTrip.SsrRoundTrip | ss-tproxy-3.0/ssrconfig.py:229-308 | parsing the link of a valid descriptor succeeds and gives back every field, each value through the codec round trip |
| RoundTrip.ItemsAppend | ss-tproxy-3.0/ssrconfig.py:243-260 | the items of two parameter lists are the items of each |
| RoundTrip.ItemsOfParams | ss-tproxy-3.0/ssrconfig.py:243-260 | the items are protoparam and obfsparam when truthy, then remarks and group |
| RoundTrip.SameValue | ss-tproxy-3.0/ssrconfig.py:244-260 | a round-tripped value has the same truthiness and the same encoding |
| RoundTrip.SamePrefix | ss-tproxy-3.0/ssrconfig.py:232-241 | a round-tripped descriptor is valid and has the same link prefix |
| RoundTrip.SameItems | ss-tproxy-3.0/ssrconfig.py:243-260 | a round-tripped descriptor has the same parameter items |
| RoundTrip.SameLink | ss-tproxy-3.0/ssrconfig.py:229-265 | a round-tripped descriptor builds the same link |
| RoundTrip.UrlFixedPoint | ss-tproxy-3.0/ssrconfig.py:229-308 | building, parsing and building a valid descriptor's link again gives the same link |
| Subscription.Removed | ss-tproxy-3.0/ssrconfig.py:436-446 | the result is never longer than the source |
| Subscription.Uniq | ss-tproxy-3.0/ssrconfig.py:449-454 | the result is never longer than the source |
| Subscription.Remove | ss-tproxy-3.0/ssrconfig.py:436-446 | the loop keeps the elements not in `els`, in order |
| Subscription.Unique | ss-tproxy-3.0/ssrconfig.py:449-454 | the loop keeps the first occurrence of each element |
| Subscription.Exclusions | ss-tproxy-3.0/ssrconfig.py:438-441 | the default exclusions hold `''` and `None` |
| Subscription.RemoveAndUnique | ss-tproxy-3.0/ssrconfig.py:457-459 | the result is `unique` of `remove` |
| Subscription.FirstIndex | ss-tproxy-3.0/ssrconfig.py:449-454 | the first position of an element holds it and no earlier position does |
| Subscription.RemovedMembers | ss-tproxy-3.0/ssrconfig.py:443-446 | an element is kept exactly when it is in the source and not excluded |
| Subscription.UniqMembers | ss-tproxy-3.0/ssrconfig.py:449-454 | the result has the source's elements, each once |
| Subscription.UniqOrder | ss-tproxy-3.0/ssrconfig.py:449-454 | the result lists them in the order of their first occurrence |
| Subscription.FirstIndexAt | ss-tproxy-3.0/ssrconfig.py:449-454 | a position is the first occurrence when no earlier position holds the element |
| Subscription.FirstIndexPrefix | ss-tproxy-3.0/ssrconfig.py:449-454 | appending elements does not move the first occurrence of an element already present |
| Subscription.RemovedOrder | ss-tproxy-3.0/ssrconfig.py:443-446 | `remove` keeps the order of first occurrences of the elements it keeps |
| Subscription.UniqExample | ss-tproxy-3.0/ssrconfig.py:449-454 | `["a","b","a","c","b"]` becomes `["a","b","c"]` |
| Subscription.Lift | ss-tproxy-3.0/ssrconfig.py:465 | lifted strings keep their order and values |
| Subscription.UrlsByBase64 | ss-tproxy-3.0/ssrconfig.py:462-466 | the error is raised exactly when decode raises, and bytes give no links |
| Subscription.UrlsBySubscribe | ss-tproxy-3.0/ssrconfig.py:403-413 | a status other than 200 gives no links |
| Subscription.LiftRemoved | ss-tproxy-3.0/ssrconfig.py:436-446 | removing strings then lifting is removing the lifted strings, `None` matching none |
| Subscription.LiftUniq | ss-tproxy-3.0/ssrconfig.py:449-454 | lifting commutes with `unique` |
| Subscription.CleanLines | ss-tproxy-3.0/ssrconfig.py:457-465 | cleaning lines keeps exactly the non-empty lines, each once, in the order of their first occurrence in the input |
| Subscription.UrlsClean | ss-tproxy-3.0/ssrconfig.py:462-466 | a text subscription's links are exactly its non-empty lines, each once, in the order of their first occurrence in the text |
| Selector.ServerOf | ss-tproxy-3.0/ssrconfig.py:503-504 | definition of `ssrObject.server` after `ssrObject.url = url` |
| Selector.ServersText | ss-tproxy-3.0/ssrconfig.py:499-506 | definition of `proxy_server` after the loop: a space and the server for each link whose time is not 10000 |
| Selector.FirstMinimum | ss-tproxy-3.0/ssrconfig.py:498-509 | definition of the first fastest link: its time is below 1000, every earlier time is larger and no later time is smaller |
| Selector.Small | ss-tproxy-3.0/ssrconfig.py:498-509 | definition of `small` after the loop: the chosen link's time, or 1000 when none was chosen |
| Selector.Servers | ss-tproxy-3.0/ssrconfig.py:502-504 | the server of each link in order, as `ssrObject.server` after the url setter |
| Selector.Kept | ss-tproxy-3.0/ssrconfig.py:505-506 | the reachable links' servers, never more than the links; which servers it holds is stated by `KeptMembers` |
| Selector.Fastest | ss-tproxy-3.0/ssrconfig.py:498-509 | a link is chosen exactly when some time is below 1000, and it is the first of the fastest |
| Selector.Winner | ss-tproxy-3.0/ssrconfig.py:512-513 | the written descriptor has local port 60080 and local address `0.0.0.0` |
| Selector.ServersStep | ss-tproxy-3.0/ssrconfig.py:505-506 | one more link adds its server after a space exactly when it is reachable |
| Selector.FastestStep | ss-tproxy-3.0/ssrconfig.py:507-509 | one more link is taken exactly when `small > response`, and `small` becomes its time |
| Selector.Select | ss-tproxy-3.0/ssrconfig.py:498-514 | the loop gives the servers text and the configuration write of the fastest link |
| Selector.SubFile | ss-tproxy-3.0/ssrconfig.py:496-515 | it raises exactly when the subscription does not decode, and otherwise writes what `Select` gives |
| Selector.SingleFields | ss-tproxy-3.0/ssrconfig.py:518-522 | the written descriptor has the link's server and port, local port 60080 and address `0.0.0.0` |
| Selector.SsrFile | ss-tproxy-3.0/ssrconfig.py:518-524 | the configuration write of the link, and its server for the servers file |
| Selector.FirstMinimumUnique | ss-tproxy-3.0/ssrconfig.py:507-509 | there is at most one first fastest position |
| Selector.FastestIs | ss-tproxy-3.0/ssrconfig.py:498-509 | the chosen link is exactly the first fastest one below 1000 |
| Selector.SelectExample | ss-tproxy-3.0/ssrconfig.py:498-509 | times 0.3, 0.1 and unreachable choose the second link and give the servers text `" A B"` |
| Selector.SelectRefused | ss-tproxy-3.0/ssrconfig.py:498-514 | with no time below 1000, the configuration write is refused |
| Selector.ServersListed | ss-tproxy-3.0/ssrconfig.py:499-506 | the servers text is the reachable servers, each after one space |
| Selector.KeptMembers | ss-tproxy-3.0/ssrconfig.py:505-506 | a server is listed exactly when some reachable link has it |
| Selector.ValidWritten | ss-tproxy-3.0/ssrconfig.py:381-395 | a valid descriptor with a path writes its JSON string there |
| Selector.SelectWritten | ss-tproxy-3.0/ssrconfig.py:498-514 | when the first fastest link is a valid descriptor's link, `sub_file` writes the configuration of a descriptor with the same server, port, method, protocol and obfs, the codec round trip of the password, parameters, remarks and group, and writes that descriptor's JSON string to `/etc/ss-tproxy/ssr-config.json` |
| Selector.SsrFileWritten | ss-tproxy-3.0/ssrconfig.py:518-524 | `ssr_file` on a valid descriptor's link writes the configuration of a descriptor with all of its attributes read back as above, and returns its server |

## Left out

- The HTTP request of `get_urls_by_subscribe` (lines 403-413) is not modelled. The status code and body are parameters.
- `connect_time` (lines 480-488) is not modelled: it needs DNS, sockets and a clock. The measured times are a parameter of type `real`, and 10000 (unreachable) is the constant `Unreachable`.
- `ping` (lines 473-477) runs a subprocess and is not called by the entry points, so it is not modelled.
- File I/O is not modelled.
  - `write_config_file` returns the path and contents it would write instead of opening the file.
  - `write_server_file` (lines 491-493) is the `servers` and `server` result of `Select` and `SsrFile`.
  - `__remove_ssr_conf` (lines 397-400) deletes a file and is not modelled.
- The console output through `cli_print` (including `plain_to_console` and the progress lines of `sub_file`) is not modelled.
- `get_urls_by_string` (lines 469-470) is not modelled, because `common_patterns` is not part of this model.
- `exit_ip`, `exit_country`, `exit_country_code` and the `_exit_ip`, `_cmd`, `_cmd_prefix` and `_sub_progress` fields are not modelled. No modelled operation reads them or gives them a value other than `None`.
- `main` (lines 527 onwards) reads environment variables and is not modelled.
- Line 512 assigns the string `"0.0.0.0"` to `local_port`, and line 513 overwrites it with 60080. The attribute is an integer in the model, so the overwritten string assignment has no counterpart.
- `Strings.ParseInt` models `int()` on an optional sign and ASCII digits. The surrounding whitespace, underscores and non-ASCII digits that `int()` also accepts make it fail instead.
- `decode` is modelled on `str` arguments only, the only kind the core passes it.
- The `setattr` loops of `load` and `__parse_ssr` are unrolled into one assignment per attribute.
- The default arguments of `set` (lines 181-192) have no counterpart: `Descriptor.SetSpec` and `Record.Ssr.Set` take all ten arguments, so a caller passes the defaults (`''`, 443, `'origin'`, `'plain'`, `None`) explicitly. No behaviour is lost.
- `load(obj)` reads the attributes of `obj` through `getattr` with a default. The model gives each attribute as present or absent (`Descriptor.Attrs`) without modelling the object.
- `RoundTrip.SsrRoundTrip`: each optional parameter comes back as `OrEmpty` of the original, because `remarks` and `group` are always emitted. An unset remark comes back as the empty string, not `None`. It is also stated only for descriptors whose server, protocol, method and obfs contain no `:`; otherwise the link does not split back into its fields.
- Dafny strings are sequences of Unicode scalar values, so a Python string with a lone surrogate, which `encode` rejects, cannot be built.
- Parser.LegacySs and Parser.LegacyLink: stated for tags without `#` and without `://`. The url setter splits the link on every `://` and `__parse_ss` splits the payload on every `#`, passing on only the second piece, so such a tag comes back cut short.
