/**
 * The configuration files of the two roles, `frpc.toml` (client) and
 * `frps.toml` (server): their defaults, the self-healing read rules, and the
 * save rules. The file system is a map from path to text; `toml.parse` is a
 * parameter that either yields a tree or fails (throws).
 */
module ConfigStore {
  import opened Wrappers
  import opened TomlValue
  import TomlEncode
  import TomlLayout
  import ProxyBlocks
  import Text
  import opened ConfigDefaults

  type FileSystem = map<string, string>

  /** `toml.parse`: the tree the text denotes, or None when it throws. */
  type Parser = string -> Option<Value>

  /** Paths relative to the home directory. */
  function ConfigPath(role: Role): string
  {
    match role
    case Client => ".frp-electron/frpc-config/frpc.toml"
    case Server => ".frp-electron/frps-config/frps.toml"
  }

  /** The file's text, or "" when it does not exist (what `saveFrpcConfig` falls back to). */
  function TextAt(fs: FileSystem, path: string): string
  {
    if path in fs then fs[path] else ""
  }

  // ---------------------------------------------------------------------------
  // Reading: self-healing to the defaults
  //
  // Both roles follow the same rules; they differ only in the path, the default
  // text and the default configuration, which the rules take as arguments.

  /** The file, missing or blank, is replaced by the default text. */
  predicate NeedsHeal(fs: FileSystem, path: string)
  {
    path !in fs || Text.IsBlank(fs[path])
  }

  /** The stored text, or the default text written in its place. */
  function HealText(fs: FileSystem, path: string, defaultText: string): (string, FileSystem)
  {
    if NeedsHeal(fs, path) then (defaultText, fs[path := defaultText])
    else (fs[path], fs)
  }

  /** `readFrpcConfigFile` / `readFrpsConfigFile`. */
  function ReadConfigFile(role: Role, fs: FileSystem): (string, FileSystem)
  {
    HealText(fs, ConfigPath(role), DefaultText(role))
  }

  /** The parsed file; the defaults, with the default text written back, when it is missing, blank or unparseable. */
  function HealConfig(fs: FileSystem, path: string, defaultText: string, defaults: Value, parse: Parser): (Value, FileSystem)
  {
    if NeedsHeal(fs, path) then (defaults, fs[path := defaultText])
    else match parse(fs[path])
      case None => (defaults, fs[path := defaultText])
      case Some(config) => (config, fs)
  }

  /** As HealConfig, and `config || defaultConfig`: a falsy parse gives the defaults, without writing them. */
  function HealTruthyConfig(fs: FileSystem, path: string, defaultText: string, defaults: Value, parse: Parser): (Value, FileSystem)
  {
    if NeedsHeal(fs, path) then (defaults, fs[path := defaultText])
    else match parse(fs[path])
      case None => (defaults, fs[path := defaultText])
      case Some(config) => (if Truthy(config) then config else defaults, fs)
  }

  /** `readFrpcConfig`. */
  function ReadClientConfig(fs: FileSystem, parse: Parser): (Value, FileSystem)
  {
    HealConfig(fs, ConfigPath(Client), DefaultText(Client), Obj(ClientDefaults()), parse)
  }

  /** `readFrpsConfig`. */
  function ReadServerConfig(fs: FileSystem, parse: Parser): (Value, FileSystem)
  {
    HealTruthyConfig(fs, ConfigPath(Server), DefaultText(Server), Obj(ServerDefaults()), parse)
  }

  // ---------------------------------------------------------------------------
  // Saving

  /** The object without the fields named `key`: `const { proxies, ...globalConfig } = config`. */
  function Without(fields: Fields, key: string): Fields
  {
    if |fields| == 0 then []
    else (if fields[0].0 == key then [] else [fields[0]]) + Without(fields[1..], key)
  }

  /** The non-blank spans, trimmed: the `proxyConfigs` of `saveFrpcConfig`. */
  function KeptBlocks(spans: seq<string>): seq<string>
  {
    if |spans| == 0 then []
    else (if Text.Trim(spans[0]) != "" then [Text.Trim(spans[0])] else []) + KeptBlocks(spans[1..])
  }

  /** The text `saveFrpcConfig` writes over a client file that held `existing`. */
  function SaveClientText(config: Fields, existing: string): string
  {
    var global := TomlEncode.Encode(Without(config, "proxies"));
    var kept := KeptBlocks(ProxyBlocks.Split(existing).spans);
    if |kept| > 0 then global + "\n\n" + Text.Join(kept, "\n\n") else global
  }

  /** `saveFrpcConfig`: a missing file reads as "". */
  function SaveClientConfig(fs: FileSystem, config: Fields): FileSystem
  {
    fs[ConfigPath(Client) := SaveClientText(config, TextAt(fs, ConfigPath(Client)))]
  }

  /** `saveFrpsConfig`: the whole file becomes the encoding of the configuration. */
  function SaveServerConfig(fs: FileSystem, config: Fields): FileSystem
  {
    fs[ConfigPath(Server) := TomlEncode.Encode(config)]
  }

  // ---------------------------------------------------------------------------
  // Properties of reading

  /** Neither default text is blank, so the rules below apply to both roles. */
  lemma DefaultTextNotBlank(role: Role)
    ensures !Text.IsBlank(DefaultText(role))
  {
    DefaultTextStart(role);
    LetterIsNotSpace(DefaultText(role)[0]);
    Text.NotBlankAt(DefaultText(role), 0);
  }

  lemma LetterIsNotSpace(c: char)
    requires c == 's' || c == 'b'
    ensures !Text.IsSpace(c)
  {
  }

  /**
   * The raw read returns the stored text when it is not blank and leaves the
   * files alone; otherwise it returns the default text and stores exactly that
   * at the path, touching no other file.
   */
  lemma HealTextRule(fs: FileSystem, path: string, defaultText: string)
    ensures var (text, fs') := HealText(fs, path, defaultText);
      && (!NeedsHeal(fs, path) ==> text == fs[path] && fs' == fs)
      && (NeedsHeal(fs, path) ==> text == defaultText && fs' == fs[path := defaultText])
      && path in fs' && fs'[path] == text
  {
  }

  /** With a non-blank default, a second raw read gives what the first gave and writes nothing. */
  lemma HealTextIdempotent(fs: FileSystem, path: string, defaultText: string)
    requires !Text.IsBlank(defaultText)
    ensures var (text, fs') := HealText(fs, path, defaultText);
      HealText(fs', path, defaultText) == (text, fs')
  {
  }

  /** The file the configuration read cannot use: missing, blank, or failing to parse. */
  predicate Unusable(fs: FileSystem, path: string, parse: Parser)
  {
    NeedsHeal(fs, path) || parse(fs[path]).None?
  }

  /**
   * After the client's read the file on disk holds what the read returned:
   * when the default text parses to the defaults, the file at the path now
   * parses to the configuration handed back. No other file changes, and a
   * configuration other than the defaults comes from a file left as it was.
   */
  lemma HealConfigOnDisk(fs: FileSystem, path: string, defaultText: string, defaults: Value, parse: Parser)
    ensures var (config, fs') := HealConfig(fs, path, defaultText, defaults, parse);
      && path in fs'
      && (parse(defaultText) == Some(defaults) ==> parse(fs'[path]) == Some(config))
      && fs'.Keys == fs.Keys + {path}
      && (forall p :: p in fs && p != path ==> fs'[p] == fs[p])
      && (config != defaults ==> fs' == fs)
  {
  }

  /**
   * Once healed, the file stays put: a second read writes nothing, and when
   * the default text parses back to the defaults it returns the same
   * configuration as the first read.
   */
  lemma HealIsStable(fs: FileSystem, path: string, defaultText: string, defaults: Value, parse: Parser)
    requires !Text.IsBlank(defaultText) && parse(defaultText).Some?
    ensures var (config, fs') := HealConfig(fs, path, defaultText, defaults, parse);
      && HealConfig(fs', path, defaultText, defaults, parse).1 == fs'
      && (parse(defaultText) == Some(defaults) ==> HealConfig(fs', path, defaultText, defaults, parse).0 == config)
  {
  }

  /**
   * The server's read never yields a falsy configuration when its defaults are
   * an object. It stores the default text only when the file is unusable; a
   * file that parses to a falsy value is answered with the defaults and left
   * as it is.
   */
  lemma HealTruthyConfigRule(fs: FileSystem, path: string, defaultText: string, defaults: Value, parse: Parser)
    ensures var (config, fs') := HealTruthyConfig(fs, path, defaultText, defaults, parse);
      && (Truthy(defaults) ==> Truthy(config))
      && (Unusable(fs, path, parse) ==> config == defaults && fs' == fs[path := defaultText])
      && (!Unusable(fs, path, parse) ==> fs' == fs)
      && (!Unusable(fs, path, parse) && Truthy(parse(fs[path]).value) ==> config == parse(fs[path]).value)
      && (!Unusable(fs, path, parse) && !Truthy(parse(fs[path]).value) ==> config == defaults)
  {
  }

  /** The server's read is stable as well: after one read, another writes nothing. */
  lemma HealTruthyIsStable(fs: FileSystem, path: string, defaultText: string, defaults: Value, parse: Parser)
    requires !Text.IsBlank(defaultText) && parse(defaultText).Some?
    ensures var (config, fs') := HealTruthyConfig(fs, path, defaultText, defaults, parse);
      HealTruthyConfig(fs', path, defaultText, defaults, parse).1 == fs'
  {
  }

  // ---------------------------------------------------------------------------
  // Properties of saving

  /** Removing a key drops every field with that key and keeps the others, in order. */
  lemma {:induction false} WithoutSound(fields: Fields, key: string)
    ensures forall i :: 0 <= i < |Without(fields, key)| ==> Without(fields, key)[i].0 != key
    ensures forall f :: f in Without(fields, key) <==> f in fields && f.0 != key
    ensures (forall i :: 0 <= i < |fields| ==> fields[i].0 != key) ==> Without(fields, key) == fields
  {
    if |fields| > 0 {
      WithoutSound(fields[1..], key);
      assert fields == [fields[0]] + fields[1..];
      if forall i :: 0 <= i < |fields| ==> fields[i].0 != key {
        assert forall i :: 0 <= i < |fields[1..]| ==> fields[1..][i].0 != key by {
          forall i | 0 <= i < |fields[1..]| ensures fields[1..][i].0 != key {
            assert fields[1..][i] == fields[i + 1];
          }
        }
      }
    }
  }

  /** Every span of the split is kept: its trimmed text is never empty. */
  lemma {:induction false} KeptOfBlocks(spans: seq<string>)
    requires forall i :: 0 <= i < |spans| ==> ProxyBlocks.IsBlock(spans[i])
    ensures |KeptBlocks(spans)| == |spans|
    ensures forall i :: 0 <= i < |spans| ==> KeptBlocks(spans)[i] == Text.Trim(spans[i])
  {
    if |spans| > 0 {
      KeptOfBlocks(spans[1..]);
      KeptHead(spans);
      ConsPointwise(KeptBlocks(spans), KeptBlocks(spans[1..]), spans, Text.Trim);
    }
  }

  /** A list built head first agrees with f pointwise when its tail does. */
  lemma ConsPointwise(k: seq<string>, rest: seq<string>, spans: seq<string>, f: string -> string)
    requires |spans| > 0 && k == [f(spans[0])] + rest && |rest| == |spans| - 1
    requires forall i :: 0 <= i < |rest| ==> rest[i] == f(spans[i + 1])
    ensures |k| == |spans|
    ensures forall i :: 0 <= i < |spans| ==> k[i] == f(spans[i])
  {
    forall i | 0 < i < |spans| ensures k[i] == f(spans[i]) {
      assert k[i] == rest[i - 1];
    }
  }

  lemma KeptHead(spans: seq<string>)
    requires |spans| > 0 && ProxyBlocks.IsBlock(spans[0])
    ensures KeptBlocks(spans) == [Text.Trim(spans[0])] + KeptBlocks(spans[1..])
  {
    ProxyBlocks.TrimBlock(spans[0]);
    KeptCons(spans);
  }

  /** Each kept block is a block, with no white space at either end. */
  lemma KeptAreTrimmedBlocks(spans: seq<string>)
    requires forall i :: 0 <= i < |spans| ==> ProxyBlocks.IsBlock(spans[i])
    ensures forall i :: 0 <= i < |KeptBlocks(spans)| ==> ProxyBlocks.IsBlock(KeptBlocks(spans)[i])
    ensures forall i :: 0 <= i < |KeptBlocks(spans)| ==> Text.Trimmed(KeptBlocks(spans)[i])
  {
    KeptOfBlocks(spans);
    forall i | 0 <= i < |spans|
      ensures ProxyBlocks.IsBlock(KeptBlocks(spans)[i]) && Text.Trimmed(KeptBlocks(spans)[i])
    {
      ProxyBlocks.TrimBlock(spans[i]);
      Text.TrimIsTrimmed(spans[i]);
    }
  }

  /** The kept blocks as they lie in the saved text: each but the last followed by a blank line. */
  function Separated(ks: seq<string>): seq<string>
  {
    if |ks| <= 1 then ks else [ks[0] + "\n\n"] + Separated(ks[1..])
  }

  lemma {:induction false} SeparatedConcat(ks: seq<string>)
    ensures ProxyBlocks.Concat(Separated(ks)) == Text.Join(ks, "\n\n")
  {
    if |ks| == 1 {
      assert ProxyBlocks.Concat(ks) == ks[0] + ProxyBlocks.Concat([]);
    } else if |ks| > 1 {
      SeparatedConcat(ks[1..]);
      assert Separated(ks)[1..] == Separated(ks[1..]);
    }
  }

  lemma {:induction false} SeparatedBlocks(ks: seq<string>)
    requires forall i :: 0 <= i < |ks| ==> ProxyBlocks.IsBlock(ks[i])
    ensures forall i :: 0 <= i < |Separated(ks)| ==> ProxyBlocks.IsBlock(Separated(ks)[i])
  {
    if |ks| > 1 {
      var tail := ks[1..];
      SeparatedBlocks(tail);
      var sep := Separated(ks);
      ProxyBlocks.BlockThenBlankLine(ks[0]);
      assert sep[0] == ks[0] + "\n\n";
      forall i | 0 < i < |sep| ensures ProxyBlocks.IsBlock(sep[i]) {
        assert sep[i] == Separated(tail)[i - 1];
      }
    }
  }

  lemma {:induction false} KeptOfSeparated(ks: seq<string>)
    requires forall i :: 0 <= i < |ks| ==> ks[i] != "" && Text.Trimmed(ks[i])
    ensures KeptBlocks(Separated(ks)) == ks
  {
    if |ks| == 1 {
      KeptCons(ks);
      assert ks[1..] == [];
    } else if |ks| > 1 {
      TrimmedTail(ks);
      KeptOfSeparated(ks[1..]);
      SeparatedHead(ks);
      assert ks == [ks[0]] + ks[1..];
    }
  }

  lemma TrimmedTail(ks: seq<string>)
    requires |ks| > 0
    requires forall i :: 0 <= i < |ks| ==> ks[i] != "" && Text.Trimmed(ks[i])
    ensures forall i :: 0 <= i < |ks[1..]| ==> ks[1..][i] != "" && Text.Trimmed(ks[1..][i])
  {
    forall i | 0 <= i < |ks[1..]| ensures ks[1..][i] != "" && Text.Trimmed(ks[1..][i]) {
      assert ks[1..][i] == ks[i + 1];
    }
  }

  /** The first separated block is kept, as the block itself. */
  lemma SeparatedHead(ks: seq<string>)
    requires |ks| > 1 && ks[0] != "" && Text.Trimmed(ks[0])
    ensures KeptBlocks(Separated(ks)) == [ks[0]] + KeptBlocks(Separated(ks[1..]))
  {
    SeparatedShape(ks);
    PaddedTrim(ks[0]);
    KeptCons(Separated(ks));
  }

  lemma SeparatedShape(ks: seq<string>)
    requires |ks| > 1
    ensures |Separated(ks)| > 0
    ensures Separated(ks)[0] == ks[0] + "\n\n" && Separated(ks)[1..] == Separated(ks[1..])
  {
  }

  /** A block that does not trim to nothing is kept, trimmed, ahead of the rest. */
  lemma KeptCons(spans: seq<string>)
    requires |spans| > 0 && Text.Trim(spans[0]) != ""
    ensures KeptBlocks(spans) == [Text.Trim(spans[0])] + KeptBlocks(spans[1..])
  {
  }

  /** A trimmed block followed by a blank line trims back to itself. */
  lemma PaddedTrim(k: string)
    requires Text.Trimmed(k)
    ensures Text.Trim(k + "\n\n") == k
  {
    Text.TrimOfTrimmed(k);
    Text.TrimThenNewlines(k);
  }

  /**
   * Saving the client configuration keeps the proxy blocks: the trimmed blocks
   * of the new file are those of the old one, in order, after a preamble that is
   * the encoded global configuration (and one blank line when blocks follow).
   * This needs the global encoding itself to hold no `[[proxies]]` marker.
   */
  lemma SaveClientKeepsProxyBlocks(config: Fields, existing: string)
    requires ProxyBlocks.NoMarker(TomlEncode.Encode(Without(config, "proxies")))
    ensures var global := TomlEncode.Encode(Without(config, "proxies"));
      var kept := KeptBlocks(ProxyBlocks.Split(existing).spans);
      var saved := ProxyBlocks.Split(SaveClientText(config, existing));
      && KeptBlocks(saved.spans) == kept
      && saved.preamble == (if |kept| > 0 then global + "\n\n" else global)
  {
    var global := TomlEncode.Encode(Without(config, "proxies"));
    var spans := ProxyBlocks.Split(existing).spans;
    ProxyBlocks.SplitSound(existing);
    KeptAreTrimmedBlocks(spans);
    var kept := KeptBlocks(spans);
    if |kept| > 0 {
      SeparatedConcat(kept);
      SeparatedBlocks(kept);
      KeptOfSeparated(kept);
      ProxyBlocks.NoMarkerNewline();
      ProxyBlocks.NoMarkerAppend(global, "\n\n");
      ProxyBlocks.SplitOfBlocks(global + "\n\n", Separated(kept));
    } else {
      assert ProxyBlocks.Concat([]) == "";
      ProxyBlocks.SplitOfBlocks(global, []);
      assert global + ProxyBlocks.Concat([]) == global;
    }
  }

  /** Saving the same configuration twice writes the same text as saving it once. */
  lemma SaveClientIdempotent(config: Fields, existing: string)
    requires ProxyBlocks.NoMarker(TomlEncode.Encode(Without(config, "proxies")))
    ensures SaveClientText(config, SaveClientText(config, existing)) == SaveClientText(config, existing)
  {
    SaveClientKeepsProxyBlocks(config, existing);
  }

  /**
   * Saving the server configuration keeps nothing of the previous file: two
   * file systems that differ anywhere agree on the saved file, which reads
   * back verbatim unless the encoding is blank. No other file is touched.
   */
  lemma SaveServerReplaces(fs1: FileSystem, fs2: FileSystem, config: Fields, defaultText: string)
    ensures SaveServerConfig(fs1, config)[ConfigPath(Server)] == SaveServerConfig(fs2, config)[ConfigPath(Server)]
    ensures forall p :: p in fs1 && p != ConfigPath(Server) ==> SaveServerConfig(fs1, config)[p] == fs1[p]
    ensures !Text.IsBlank(TomlEncode.Encode(config)) ==>
      HealText(SaveServerConfig(fs1, config), ConfigPath(Server), defaultText)
        == (TomlEncode.Encode(config), SaveServerConfig(fs1, config))
  {
  }

  /** The saved client file reads back verbatim, unless it is blank. */
  lemma SaveClientThenRead(fs: FileSystem, config: Fields, defaultText: string)
    ensures var fs' := SaveClientConfig(fs, config);
      var saved := SaveClientText(config, TextAt(fs, ConfigPath(Client)));
      !Text.IsBlank(saved) ==> HealText(fs', ConfigPath(Client), defaultText) == (saved, fs')
  {
  }
}
