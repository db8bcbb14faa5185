/**
 * The two default configurations (`defaultConfig` of the client and of the
 * server) and the exact text `getDefaultConfigToml()` writes for each.
 */
module ConfigDefaults {
  import opened TomlValue
  import opened TomlEncode
  import TomlLayout
  import Numerals
  import Text

  datatype Role = Client | Server

  /** The client's `defaultConfig`. */
  function ClientDefaults(): Fields
  {
    [ ("serverAddr", Str("127.0.0.1")),
      ("serverPort", Num(7000)),
      ("auth", Obj([("method", Str("token")), ("token", Str(""))])),
      ("transport", Obj([("tcpMux", Bool(true)), ("heartbeatInterval", Num(30)), ("heartbeatTimeout", Num(90))])),
      ("log", Obj([("level", Str("info")), ("maxDays", Num(3)), ("disablePrintColor", Bool(false))])) ]
  }

  /** The server's `defaultConfig`. */
  function ServerDefaults(): Fields
  {
    [ ("bindAddr", Str("0.0.0.0")),
      ("bindPort", Num(7000)),
      ("auth", Obj([("method", Str("token")), ("token", Str(""))])),
      ("transport", Obj([("tcpMuxKeepaliveInterval", Num(60)), ("tcpKeepalive", Num(7200)),
                         ("maxPoolCount", Num(5)), ("heartbeatTimeout", Num(90))])),
      ("webServer", Obj([("addr", Str("0.0.0.0")), ("port", Num(7500)),
                         ("user", Str("admin")), ("password", Str("admin"))])),
      ("log", Obj([("level", Str("info")), ("maxDays", Num(3))])) ]
  }

  function Defaults(role: Role): Fields
  {
    match role
    case Client => ClientDefaults()
    case Server => ServerDefaults()
  }

  /**
   * The lines of the default file: the top-level keys, then each section
   * after an empty line. DefaultTextIsEncoding shows that `objectToToml`
   * produces them from the defaults.
   */
  function DefaultLines(role: Role): seq<string>
  {
    match role
    case Client =>
      [ "serverAddr = \"127.0.0.1\"",
        "serverPort = 7000" ]
      + (([""] + ["[auth]",
                  "method = \"token\""])
         + (([""] + ["[transport]",
                     "tcpMux = true",
                     "heartbeatInterval = 30",
                     "heartbeatTimeout = 90"])
            + ([""] + ["[log]",
                       "level = \"info\"",
                       "maxDays = 3",
                       "disablePrintColor = false"])))
    case Server =>
      [ "bindAddr = \"0.0.0.0\"",
        "bindPort = 7000" ]
      + ((([""] + ["[auth]",
                   "method = \"token\""])
          + ([""] + ["[transport]",
                     "tcpMuxKeepaliveInterval = 60",
                     "tcpKeepalive = 7200",
                     "maxPoolCount = 5",
                     "heartbeatTimeout = 90"]))
         + (([""] + ["[webServer]",
                     "addr = \"0.0.0.0\"",
                     "port = 7500",
                     "user = \"admin\"",
                     "password = \"admin\""])
            + ([""] + ["[log]",
                       "level = \"info\"",
                       "maxDays = 3"])))
  }

  /** `getDefaultConfigToml()`: the default lines joined by newlines. */
  function DefaultText(role: Role): string
  {
    Text.Join(DefaultLines(role), "\n")
  }

  // ---------------------------------------------------------------------------
  // The default files, line by line

  /** The lines of the client's default file: the empty token is dropped, `false` is kept. */
  lemma ClientDefaultLines()
    ensures ObjectToToml(ClientDefaults(), "") == DefaultLines(Client)
  {
    var addr := ("serverAddr", Str("127.0.0.1"));
    var port := ("serverPort", Num(7000));
    var auth := ("auth", Obj([("method", Str("token")), ("token", Str(""))]));
    var transport := ("transport", Obj([("tcpMux", Bool(true)), ("heartbeatInterval", Num(30)), ("heartbeatTimeout", Num(90))]));
    var log := ("log", Obj([("level", Str("info")), ("maxDays", Num(3)), ("disablePrintColor", Bool(false))]));
    assert ClientDefaults() == [addr, port] + [auth, transport, log];
    TopLevel([addr, port], [auth, transport, log]);
    TwoKeyLines(addr, port);
    Sections3(auth, transport, log);
    ServerAddrLine();
    ServerPortLine();
    AuthSectionLines();
    ClientTransportLines();
    ClientLogLines();
  }

  /** The lines of the server's default file. */
  lemma ServerDefaultLines()
    ensures ObjectToToml(ServerDefaults(), "") == DefaultLines(Server)
  {
    var addr := ("bindAddr", Str("0.0.0.0"));
    var port := ("bindPort", Num(7000));
    var auth := ("auth", Obj([("method", Str("token")), ("token", Str(""))]));
    var transport := ("transport", Obj([("tcpMuxKeepaliveInterval", Num(60)), ("tcpKeepalive", Num(7200)),
                                        ("maxPoolCount", Num(5)), ("heartbeatTimeout", Num(90))]));
    var web := ("webServer", Obj([("addr", Str("0.0.0.0")), ("port", Num(7500)),
                                  ("user", Str("admin")), ("password", Str("admin"))]));
    var log := ("log", Obj([("level", Str("info")), ("maxDays", Num(3))]));
    assert ServerDefaults() == [addr, port] + [auth, transport, web, log];
    TopLevel([addr, port], [auth, transport, web, log]);
    TwoKeyLines(addr, port);
    Sections4(auth, transport, web, log);
    BindAddrLine();
    BindPortLine();
    AuthSectionLines();
    ServerTransportLines();
    WebServerLines();
    ServerLogLines();
  }

  /** `getDefaultConfigToml()` is the encoding of the role's defaults. */
  lemma DefaultTextIsEncoding(role: Role)
    ensures DefaultText(role) == TomlEncode.Encode(Defaults(role))
  {
    if role.Client? {
      ClientDefaultLines();
    } else {
      ServerDefaultLines();
    }
  }

  /** The default text opens with the first top-level key. */
  lemma DefaultTextStart(role: Role)
    ensures |DefaultText(role)| > 0
    ensures DefaultText(role)[0] == if role.Client? then 's' else 'b'
  {
    if role.Client? {
      ClientTextStart();
    } else {
      ServerTextStart();
    }
  }

  lemma ClientTextStart()
    ensures |DefaultText(Client)| > 0 && DefaultText(Client)[0] == 's'
  {
    FirstCharOfJoin(DefaultLines(Client), "\n", "serverAddr = \"127.0.0.1\"");
  }

  lemma ServerTextStart()
    ensures |DefaultText(Server)| > 0 && DefaultText(Server)[0] == 'b'
  {
    FirstCharOfJoin(DefaultLines(Server), "\n", "bindAddr = \"0.0.0.0\"");
  }

  lemma FirstCharOfJoin(lines: seq<string>, sep: string, first: string)
    requires |lines| > 0 && lines[0] == first && |first| > 0
    ensures |Text.Join(lines, sep)| > 0 && Text.Join(lines, sep)[0] == first[0]
  {
    Text.JoinHead(lines, sep);
    assert Text.Join(lines, sep)[..|first|][0] == first[0];
  }

  /** `[auth]`, shared by both defaults: the empty token leaves no line. */
  lemma AuthSectionLines()
    ensures ObjectToToml([("method", Str("token")), ("token", Str(""))], "auth") == ["[auth]", "method = \"token\""]
  {
    SimpleThenOmitted(("method", Str("token")), ("token", Str("")), "auth");
    MethodLine();
    AuthHeader();
  }

  lemma ClientTransportLines()
    ensures ObjectToToml([("tcpMux", Bool(true)), ("heartbeatInterval", Num(30)), ("heartbeatTimeout", Num(90))], "transport")
      == ["[transport]", "tcpMux = true", "heartbeatInterval = 30", "heartbeatTimeout = 90"]
  {
    Flat3(("tcpMux", Bool(true)), ("heartbeatInterval", Num(30)), ("heartbeatTimeout", Num(90)), "transport");
    TcpMuxLine();
    HeartbeatIntervalLine();
    HeartbeatTimeoutLine();
    TransportHeader();
  }

  lemma ClientLogLines()
    ensures ObjectToToml([("level", Str("info")), ("maxDays", Num(3)), ("disablePrintColor", Bool(false))], "log")
      == ["[log]", "level = \"info\"", "maxDays = 3", "disablePrintColor = false"]
  {
    Flat3(("level", Str("info")), ("maxDays", Num(3)), ("disablePrintColor", Bool(false)), "log");
    LevelLine();
    MaxDaysLine();
    DisablePrintColorLine();
    LogHeader();
  }

  lemma ServerTransportLines()
    ensures ObjectToToml([("tcpMuxKeepaliveInterval", Num(60)), ("tcpKeepalive", Num(7200)), ("maxPoolCount", Num(5)), ("heartbeatTimeout", Num(90))], "transport")
      == ["[transport]", "tcpMuxKeepaliveInterval = 60", "tcpKeepalive = 7200", "maxPoolCount = 5", "heartbeatTimeout = 90"]
  {
    Flat4(("tcpMuxKeepaliveInterval", Num(60)), ("tcpKeepalive", Num(7200)), ("maxPoolCount", Num(5)), ("heartbeatTimeout", Num(90)), "transport");
    KeepaliveIntervalLine();
    TcpKeepaliveLine();
    MaxPoolCountLine();
    HeartbeatTimeoutLine();
    TransportHeader();
  }

  lemma WebServerLines()
    ensures ObjectToToml([("addr", Str("0.0.0.0")), ("port", Num(7500)), ("user", Str("admin")), ("password", Str("admin"))], "webServer")
      == ["[webServer]", "addr = \"0.0.0.0\"", "port = 7500", "user = \"admin\"", "password = \"admin\""]
  {
    Flat4(("addr", Str("0.0.0.0")), ("port", Num(7500)), ("user", Str("admin")), ("password", Str("admin")), "webServer");
    AddrLine();
    PortLine();
    UserLine();
    PasswordLine();
    WebServerHeader();
  }

  lemma ServerLogLines()
    ensures ObjectToToml([("level", Str("info")), ("maxDays", Num(3))], "log") == ["[log]", "level = \"info\"", "maxDays = 3"]
  {
    Flat2(("level", Str("info")), ("maxDays", Num(3)), "log");
    LevelLine();
    MaxDaysLine();
    LogHeader();
  }

  // ---------------------------------------------------------------------------
  // Single lines of the defaults

  lemma ServerAddrLine()
    ensures KeyLine("serverAddr", Str("127.0.0.1")) == "serverAddr = \"127.0.0.1\""
  {
  }

  lemma ServerPortLine()
    ensures KeyLine("serverPort", Num(7000)) == "serverPort = 7000"
  {
  }

  lemma BindAddrLine()
    ensures KeyLine("bindAddr", Str("0.0.0.0")) == "bindAddr = \"0.0.0.0\""
  {
  }

  lemma BindPortLine()
    ensures KeyLine("bindPort", Num(7000)) == "bindPort = 7000"
  {
  }

  lemma MethodLine()
    ensures KeyLine("method", Str("token")) == "method = \"token\""
  {
  }

  lemma TcpMuxLine()
    ensures KeyLine("tcpMux", Bool(true)) == "tcpMux = true"
  {
  }

  lemma HeartbeatIntervalLine()
    ensures KeyLine("heartbeatInterval", Num(30)) == "heartbeatInterval = 30"
  {
  }

  lemma HeartbeatTimeoutLine()
    ensures KeyLine("heartbeatTimeout", Num(90)) == "heartbeatTimeout = 90"
  {
  }

  lemma LevelLine()
    ensures KeyLine("level", Str("info")) == "level = \"info\""
  {
  }

  lemma MaxDaysLine()
    ensures KeyLine("maxDays", Num(3)) == "maxDays = 3"
  {
  }

  lemma DisablePrintColorLine()
    ensures KeyLine("disablePrintColor", Bool(false)) == "disablePrintColor = false"
  {
  }

  lemma KeepaliveIntervalLine()
    ensures KeyLine("tcpMuxKeepaliveInterval", Num(60)) == "tcpMuxKeepaliveInterval = 60"
  {
  }

  lemma TcpKeepaliveLine()
    ensures KeyLine("tcpKeepalive", Num(7200)) == "tcpKeepalive = 7200"
  {
  }

  lemma MaxPoolCountLine()
    ensures KeyLine("maxPoolCount", Num(5)) == "maxPoolCount = 5"
  {
  }

  lemma AddrLine()
    ensures KeyLine("addr", Str("0.0.0.0")) == "addr = \"0.0.0.0\""
  {
  }

  lemma PortLine()
    ensures KeyLine("port", Num(7500)) == "port = 7500"
  {
  }

  lemma UserLine()
    ensures KeyLine("user", Str("admin")) == "user = \"admin\""
  {
  }

  lemma PasswordLine()
    ensures KeyLine("password", Str("admin")) == "password = \"admin\""
  {
  }

  lemma AuthHeader()
    ensures "[" + "auth" + "]" == "[auth]"
  {
  }

  lemma TransportHeader()
    ensures "[" + "transport" + "]" == "[transport]"
  {
  }

  lemma LogHeader()
    ensures "[" + "log" + "]" == "[log]"
  {
  }

  lemma WebServerHeader()
    ensures "[" + "webServer" + "]" == "[webServer]"
  {
  }

  // ---------------------------------------------------------------------------
  // Object shapes, stated for any keys and values

  lemma Flat2(a: (string, Value), b: (string, Value), prefix: string)
    requires prefix != "" && IsSimple(a.1) && IsSimple(b.1)
    ensures ObjectToToml([a, b], prefix) == ["[" + prefix + "]", KeyLine(a.0, a.1), KeyLine(b.0, b.1)]
  {
    TomlLayout.FlatSection([a, b], prefix);
    TomlLayout.KeyLinesAt([a, b]);
  }

  lemma Flat3(a: (string, Value), b: (string, Value), c: (string, Value), prefix: string)
    requires prefix != "" && IsSimple(a.1) && IsSimple(b.1) && IsSimple(c.1)
    ensures ObjectToToml([a, b, c], prefix) == ["[" + prefix + "]", KeyLine(a.0, a.1), KeyLine(b.0, b.1), KeyLine(c.0, c.1)]
  {
    TomlLayout.FlatSection([a, b, c], prefix);
    TomlLayout.KeyLinesAt([a, b, c]);
  }

  lemma Flat4(a: (string, Value), b: (string, Value), c: (string, Value), d: (string, Value), prefix: string)
    requires prefix != "" && IsSimple(a.1) && IsSimple(b.1) && IsSimple(c.1) && IsSimple(d.1)
    ensures ObjectToToml([a, b, c, d], prefix)
      == ["[" + prefix + "]", KeyLine(a.0, a.1), KeyLine(b.0, b.1), KeyLine(c.0, c.1), KeyLine(d.0, d.1)]
  {
    TomlLayout.FlatSection([a, b, c, d], prefix);
    TomlLayout.KeyLinesAt([a, b, c, d]);
  }

  lemma SimpleThenOmitted(a: (string, Value), b: (string, Value), prefix: string)
    requires prefix != "" && IsSimple(a.1) && Omitted(b.1)
    ensures ObjectToToml([a, b], prefix) == ["[" + prefix + "]", KeyLine(a.0, a.1)]
  {
    TomlLayout.OmittedFieldLeavesNoTrace([a], b.0, b.1, [], prefix);
    assert [a] + [(b.0, b.1)] + [] == [a, b];
    assert [a] + [] == [a];
    TomlLayout.SimpleFieldIsOneLine(a.0, a.1, prefix);
  }

  /** A top-level object: its scalars' lines, then its sections; no header. */
  lemma TopLevel(scalars: Fields, sections: Fields)
    requires forall i :: 0 <= i < |scalars| ==> IsSimple(scalars[i].1)
    requires forall i :: 0 <= i < |sections| ==> IsSection(sections[i].1)
    ensures ObjectToToml(scalars + sections, "") == TomlLayout.KeyLines(scalars) + SectionLines(sections, "")
  {
    var kl := TomlLayout.KeyLines(scalars);
    var sl := SectionLines(sections, "");
    assert SimpleLines(scalars) == kl && SectionLines(scalars, "") == [] by {
      TomlLayout.AllSimple(scalars, "");
    }
    assert SimpleLines(sections) == [] by {
      OnlySections(sections);
    }
    assert Header("", scalars + sections) == [];
    TomlLayout.EncodeAppend(scalars, sections, "");
    DropEmpties(kl, sl);
  }

  lemma DropEmpties(x: seq<string>, y: seq<string>)
    ensures [] + x + [] + [] + y == x + y
  {
  }

  lemma OnlySections(sections: Fields)
    requires forall i :: 0 <= i < |sections| ==> IsSection(sections[i].1)
    ensures SimpleLines(sections) == []
  {
    TomlLayout.SimpleLinesEmpty(sections);
  }

  lemma TwoKeyLines(a: (string, Value), b: (string, Value))
    ensures TomlLayout.KeyLines([a, b]) == [KeyLine(a.0, a.1), KeyLine(b.0, b.1)]
  {
    TomlLayout.KeyLinesAt([a, b]);
  }

  /** A section's lines at the top level: an empty line, then the object under its own key. */
  lemma TopSection(f: (string, Value))
    ensures SectionLines([f], "") == if IsSection(f.1) then [""] + ObjectToToml(f.1.fields, f.0) else []
  {
    TomlLayout.SingleField(f.0, f.1, "");
  }

  lemma Sections2(a: (string, Value), b: (string, Value))
    requires IsSection(a.1) && IsSection(b.1)
    ensures SectionLines([a, b], "") == ([""] + ObjectToToml(a.1.fields, a.0)) + ([""] + ObjectToToml(b.1.fields, b.0))
  {
    TomlLayout.SectionLinesAppend([a], [b], "");
    assert [a] + [b] == [a, b];
    TopSection(a);
    TopSection(b);
  }

  lemma Sections3(a: (string, Value), b: (string, Value), c: (string, Value))
    requires IsSection(a.1) && IsSection(b.1) && IsSection(c.1)
    ensures SectionLines([a, b, c], "")
      == ([""] + ObjectToToml(a.1.fields, a.0))
         + (([""] + ObjectToToml(b.1.fields, b.0)) + ([""] + ObjectToToml(c.1.fields, c.0)))
  {
    TomlLayout.SectionLinesAppend([a], [b, c], "");
    assert [a] + [b, c] == [a, b, c];
    TopSection(a);
    Sections2(b, c);
  }

  lemma Sections4(a: (string, Value), b: (string, Value), c: (string, Value), d: (string, Value))
    requires IsSection(a.1) && IsSection(b.1) && IsSection(c.1) && IsSection(d.1)
    ensures SectionLines([a, b, c, d], "")
      == (([""] + ObjectToToml(a.1.fields, a.0)) + ([""] + ObjectToToml(b.1.fields, b.0)))
         + (([""] + ObjectToToml(c.1.fields, c.0)) + ([""] + ObjectToToml(d.1.fields, d.0)))
  {
    TomlLayout.SectionLinesAppend([a, b], [c, d], "");
    assert [a, b] + [c, d] == [a, b, c, d];
    Sections2(a, b);
    Sections2(c, d);
  }
}
