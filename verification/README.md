# frp-electron configuration and version store, in Dafny

frp-electron is a desktop front end for the frp reverse proxy. Its main
process keeps three kinds of state on disk, and this project models each of
them as pure functions over a file system (a map from path to text):

- **Configuration files.** `frpc.toml` (client) and `frps.toml` (server) are
  written by a small TOML emitter (`valueToToml` / `objectToToml`). Each has a
  default configuration whose exact text is computed here. The readers heal a
  missing, blank or unparseable file by writing the default text back. Saving
  the client keeps the `[[proxies]]` blocks of the old file.
- **The proxy store.** The client file holds `[[proxies]]` blocks. A lazy
  regular expression cuts the file into spans; each span is trimmed, filtered
  and parsed. `getProxyList`, `getProxyConfig`, `addProxy`, `updateProxy` and
  `deleteProxy` all work on those spans. The proxy formatter
  `formatProxyToToml` has its own value renderer, which differs from the
  configuration emitter.
- **The version registry.** `frp-release/frp-version` lists the installed frp
  versions, newest first. `current-version` names the version in use.
  `download-file` extracts `v\d+\.\d+\.\d+` from the URL, merges it into the
  registry and makes it current. `checkCurrentVersion` validates the current
  version with `^v?\d+\.\d+\.\d+$` and looks for its executables.

The modules follow the source:

- `TomlValue`, `TomlEncode`, `TomlLayout`, `TomlDecode` and `ConfigDefaults`
  cover the emitter.
- `ConfigStore` covers reading and saving the configuration files.
- `ProxyBlocks`, `ProxyFormat`, `ProxyStore` and `NewlineRuns` cover the proxy
  store.
- `VersionPattern`, `FrpManage` and `VersionRegistry` cover versions.
- `Text`, `Numerals` and `Wrappers` give JavaScript's `trim`, `split`, `join`,
  `String(n)` and `parseInt` their meaning.
- `StringReplace` gives `replace` with a string pattern its meaning, as the
  ECMA-262 standard defines it. It replaces the first occurrence only, and it
  expands `$` patterns in the replacement.

`toml.parse` is a parameter of the store operations: a function from text to
an optional tree, where `None` stands for a thrown parse error.

## Model

| member | source | states |
|---|---|---|
| TomlEncode.ValueToToml | src/main/frpc-config.ts:93-112 | Definition: null as `""`, a string quoted without escaping, a number by `String(n)`, a boolean as `true`/`false`, an array inline joined by `, `, an object inline as `{k = v, ...}`. |
| TomlEncode.ObjectToToml | src/main/frpc-config.ts:115-149 | Definition: the `[prefix]` header when there are simple lines, the simple lines, then each nested object as an empty line and its own lines under the dotted path. |
| TomlEncode.Encode | src/main/frps-config.ts:265 | Definition: the lines of the top-level object joined by newlines. |
| TomlLayout.RenderingKind | src/main/frpc-config.ts:93-112 | The first character of a `valueToToml` rendering tells the kind of value: `[` exactly for arrays, `{` exactly for objects, `"` exactly for strings and null. A rendering is never empty. |
| TomlLayout.EncodeAppend | src/main/frpc-config.ts:115-149 | Split an object's fields anywhere. The emitter writes the simple lines of both halves first, in field order, then the sections of both halves, in field order. |
| TomlLayout.ScalarsPrecedeSections | src/main/frpc-config.ts:120-146 | A simple field placed after a nested object produces the same lines as if it came before it. Scalars always land above every section. |
| TomlLayout.OmittedFieldLeavesNoTrace | src/main/frpc-config.ts:121-129 | A null, undefined, `''`, `[]` or `{}` field can be removed from anywhere in an object without changing any emitted line. |
| TomlLayout.OmittedSingle | src/main/frpc-config.ts:121-129 | An omitted field contributes neither a `key = value` line nor a section. |
| TomlLayout.FalseAndZeroAreKept | src/main/frpc-config.ts:121-134 | `false` and `0` are not treated as empty: they are written as `key = false` and `key = 0`. |
| TomlLayout.SimpleLinesEmpty | src/main/frpc-config.ts:131-135 | There are no `key = value` lines exactly when no field is simple. There are never more lines than fields. |
| TomlLayout.HeaderPresent | src/main/frpc-config.ts:138-140 | The `[prefix]` header appears exactly when there is a prefix and at least one simple field under it, and at most once. |
| TomlLayout.SimpleFieldIsOneLine | src/main/frpc-config.ts:133-141 | One simple field gives exactly one `key = value` line, under `[prefix]` when there is a prefix. |
| TomlLayout.NestedObjectIsOneSection | src/main/frpc-config.ts:143-146 | One nested object gives an empty line followed by its own lines under the dotted path `prefix.key`, or `key` at the top. |
| TomlLayout.NoHeaderWithoutScalars | src/main/frpc-config.ts:138-146 | An object that holds only nested objects writes no header of its own. Its lines are its sections, and they open with an empty line. |
| TomlLayout.AllSimple | src/main/frpc-config.ts:131-141 | An object of simple fields gives one line per field, in order, and no section. |
| TomlLayout.FlatSection | src/main/frpc-config.ts:138-141 | A prefixed object of simple fields is its header followed by one line per field. |
| TomlLayout.ArrayIsOneLine | src/main/frpc-config.ts:103-105 | A non-empty array at the top level, even one of objects, is a single inline line, never a section. An empty array gives no line at all (see OmittedSingle). |
| TomlDecode.ScalarRoundTrip | src/main/frpc-config.ts:93-102 | A number, a boolean or a plain string rendered by `valueToToml` reads back as itself. A string holding a quote, a backslash or a control character is written unescaped and does not read back. |
| TomlDecode.ArrayRoundTrip | src/main/frpc-config.ts:103-105 | An array of scalars without commas, rendered inline with `, `, reads back as the same array exactly when every string in it is plain. |
| TomlDecode.UnjoinRenderings | src/main/frpc-config.ts:104 | Cutting `a, b, ...` at commas and dropping one blank per piece recovers exactly the joined renderings. |
| Numerals.NatToStringRoundTrip | src/main/frpc-config.ts:100-101 | `String(n)` of a natural number is a run of digits that `parseInt` reads back as n. |
| Numerals.IntToStringSign | src/main/frpc-config.ts:100-101 | An integer is written with a leading minus sign exactly when it is negative. |
| Numerals.IntToStringInjective | src/main/frpc-config.ts:100-101 | Distinct integers are written as distinct numerals. |
| Numerals.NatToStringDigits | src/main/frpc-config.ts:100-101 | A numeral has no leading zero unless it is `0`. |
| ConfigDefaults.ClientDefaults | src/main/frpc-config.ts:160-177 | Definition: the client's default configuration, field for field and in source order. |
| ConfigDefaults.ServerDefaults | src/main/frps-config.ts:152-175 | Definition: the server's default configuration, field for field and in source order. |
| ConfigDefaults.ClientDefaultLines | src/main/frpc-config.ts:160-182 | The client's default configuration is emitted as the listed lines. `serverAddr` and `serverPort` come first. The empty token leaves no line and `disablePrintColor = false` is kept. |
| ConfigDefaults.ServerDefaultLines | src/main/frps-config.ts:152-180 | The server's default configuration is emitted as the listed lines: `[auth]`, `[transport]`, `[webServer]` and `[log]` sections with the source's constants. |
| ConfigDefaults.DefaultTextIsEncoding | src/main/frpc-config.ts:180-182 | The default text of each role is the emitter's output for that role's defaults, joined by newlines. |
| ConfigDefaults.DefaultTextStart | src/main/frps-config.ts:178-180 | Each default text is non-empty and opens with its first top-level key: `s` for the client, `b` for the server. |
| ConfigDefaults.AuthSectionLines | src/main/frpc-config.ts:163-166 | The shared `auth` default gives `[auth]` and `method = "token"` only. |
| ConfigDefaults.TopLevel | src/main/frpc-config.ts:138-146 | A top-level object of scalars followed by sections gives the scalar lines with no header, then the sections. |
| ConfigStore.HealText | src/main/frpc-config.ts:240-265 | Definition: the stored text, or the default text written in its place when the file is missing or blank. |
| ConfigStore.ReadConfigFile | src/main/frps-config.ts:233-258 | Definition: the raw read of either role, HealText at that role's path with its default text. |
| ConfigStore.HealConfig | src/main/frpc-config.ts:204-237 | Definition: the parsed file, or the defaults with the default text written back when the file is missing, blank or unparseable. |
| ConfigStore.HealTruthyConfig | src/main/frps-config.ts:202-230 | Definition: as HealConfig, and a falsy parse answered with the defaults without writing them. |
| ConfigStore.SaveClientConfig | src/main/frpc-config.ts:268-311 | Definition: the encoded configuration without `proxies`, then the old file's non-blank blocks trimmed and separated by blank lines. |
| ConfigStore.SaveServerConfig | src/main/frps-config.ts:261-276 | Definition: the whole file becomes the encoded configuration. |
| ConfigStore.DefaultTextNotBlank | src/main/frpc-config.ts:215 | Neither default text is blank, so a healed file is never healed again. |
| ConfigStore.HealTextRule | src/main/frpc-config.ts:240-265 | The raw read returns the stored text when it is not blank and writes nothing. Otherwise it returns the default text, and writes exactly that at the path and nowhere else. |
| ConfigStore.HealTextIdempotent | src/main/frps-config.ts:233-258 | A second raw read returns what the first returned and writes nothing. |
| ConfigStore.HealConfigOnDisk | src/main/frpc-config.ts:204-237 | After the client read, the file on disk parses to the configuration returned, when the default text parses to the defaults. No other file changes, and a configuration other than the defaults comes from a file left untouched. |
| ConfigStore.HealIsStable | src/main/frpc-config.ts:204-237 | After one client read, a second writes nothing. When the default text parses to the defaults, the second read returns the same configuration. |
| ConfigStore.HealTruthyConfigRule | src/main/frps-config.ts:202-230 | The server read never returns a falsy configuration. A file that parses to a falsy value is answered with the defaults and left unchanged. A missing, blank or unparseable file is replaced by the default text. |
| ConfigStore.HealTruthyIsStable | src/main/frps-config.ts:202-230 | After one server read, a second writes nothing. |
| ConfigStore.WithoutSound | src/main/frpc-config.ts:290 | `const { proxies, ...globalConfig }` drops every `proxies` field and keeps all others, in order. |
| ConfigStore.KeptOfBlocks | src/main/frpc-config.ts:280-287 | Every matched block trims to a non-empty text, so every block is kept, trimmed. |
| ConfigStore.SaveClientKeepsProxyBlocks | src/main/frpc-config.ts:268-311 | Saving the client configuration keeps the old file's proxy blocks, trimmed and in order. The preamble is the encoded global configuration, plus a blank line when blocks follow. |
| ConfigStore.SaveClientIdempotent | src/main/frpc-config.ts:268-311 | Saving the same client configuration twice writes the same text as saving it once, when the encoded global configuration holds no `[[proxies]]` marker. |
| ConfigStore.SaveServerReplaces | src/main/frps-config.ts:261-276 | Saving the server configuration keeps nothing of the old file and touches no other file. The saved text reads back verbatim unless it is blank. |
| ConfigStore.SaveClientThenRead | src/main/frpc-config.ts:240-311 | The saved client file reads back verbatim through the raw read, unless it is blank. |
| ProxyBlocks.FindMarkerSound | src/main/proxy-manage.ts:62 | The marker search finds the first occurrence of `[[proxies]]` at or after its start, and reports none only when there is none. |
| ProxyBlocks.MarkerDoesNotOverlap | src/main/proxy-manage.ts:62 | Two occurrences of `[[proxies]]` never overlap, so each match begins at a distinct marker. |
| ProxyBlocks.SplitSound | src/main/proxy-manage.ts:62-63 | The preamble followed by the matched spans is the whole text. The preamble holds no marker. |
| ProxyBlocks.SpansFromSound | src/main/proxy-manage.ts:62-63 | Each lazy match runs from a marker up to the next marker or the end, and so is a block. Together the matches cover the text. |
| ProxyBlocks.SplitCharacterised | src/main/proxy-manage.ts:62-63 | The split is the one and only way to write the text as a marker-free preamble followed by blocks. Both directions are stated. |
| ProxyBlocks.TrimBlock | src/main/proxy-manage.ts:69 | Trimming a block only removes trailing white space, and what remains is still a block. |
| ProxyBlocks.ReplaceSpanIsolated | src/main/proxy-manage.ts:180-183 | Replacing one matched span by a block changes that span and nothing else in the split. |
| ProxyBlocks.ReplaceFirstNoLater | src/main/proxy-manage.ts:180-183 | `replace` with the text of a matched span finds that span or an earlier copy of its text, never a later one. |
| ProxyBlocks.ReplaceFirstAtSpan | src/main/proxy-manage.ts:180-183 | When `replace` finds the matched span itself, the text before the span and the text after it stay. The substituted replacement goes between them. |
| ProxyBlocks.ReplaceFirstIsReplaceSpan | src/main/proxy-manage.ts:180-183 | When `replace` finds the matched span itself, a replacement without `$` replaces exactly that span, and so does any text with its `$` escaped. |
| ProxyBlocks.RemoveSpanIsolated | src/main/proxy-manage.ts:225 | Cutting one matched span out removes exactly that span from the split. |
| ProxyBlocks.AppendBlock | src/main/proxy-manage.ts:142 | Appending a block after the trimmed text and a blank line keeps every old span, pads the last one, and adds exactly the new block. |
| ProxyFormat.FormatProxy | src/main/proxy-manage.ts:30-53 | Definition: one line per non-null field, a nested object flattened to `key.child = value` lines, joined by newlines. |
| ProxyFormat.RenderedEmpty | src/main/proxy-manage.ts:7-27 | `valueToTomlString` is empty exactly for null and for an object with no non-null entry. The `if (formattedValue)` guard never drops a string, number, boolean or array. |
| ProxyFormat.AgreesWithConfigEncoder | src/main/proxy-manage.ts:7-20 | On strings, numbers, booleans and arrays of them, the proxy renderer writes the same text as the configuration emitter. |
| ProxyFormat.KeepsWhatTheEncoderDrops | src/main/proxy-manage.ts:34-49 | An empty string or empty array is written as `key = ""` or `key = []`, where the configuration emitter writes nothing. |
| ProxyFormat.NestedObjectFlattened | src/main/proxy-manage.ts:37-42 | A nested object becomes one `key.child = value` line per non-null entry, in entry order, with no section header. |
| ProxyFormat.ScalarFieldIsOneLine | src/main/proxy-manage.ts:43-48 | A string, number, boolean or array field is exactly one `key = value` line. |
| ProxyFormat.NullFieldSkipped | src/main/proxy-manage.ts:35 | A null or undefined field can be removed from anywhere without changing a line. |
| ProxyFormat.ProxyLinesAppend | src/main/proxy-manage.ts:34-52 | Formatting keeps field order: the lines of a concatenation are the lines of each part, in turn. |
| ProxyFormat.ProxyEntryCount | src/main/proxy-manage.ts:30-53 | The formatter's array gets no entry for a null field, one per non-null entry of a nested object, and one for any other field. |
| ProxyStore.ProxyList | src/main/proxy-manage.ts:56-89 | Definition: the records of the blocks that read, in file order; none when the file is missing. |
| ProxyStore.GetProxyConfig | src/main/proxy-manage.ts:92-124 | Definition: the record of the first block whose `name` is strictly equal to the argument, or null. |
| ProxyStore.AddProxy | src/main/proxy-manage.ts:127-150 | Definition: an error when the name already resolves, else the trimmed text, a blank line and the new block. |
| ProxyStore.UpdateProxy | src/main/proxy-manage.ts:153-203 | Definition: `replace` of the first matching block's text by the new block, or "代理不存在". |
| ProxyStore.DeleteProxy | src/main/proxy-manage.ts:206-247 | Definition: `replace` of the first matching block's text by nothing, then newline runs collapsed, or "代理不存在". |
| ProxyStore.Find | src/main/proxy-manage.ts:165-191 | The loop stops at the first block whose record is named `name`. Every earlier block is not a hit, and there is no hit exactly when it runs off the end. |
| TomlValue.Get | src/main/proxy-manage.ts:111 | `record.name` is the value of the first `name` entry, and `undefined` exactly when the record has no such entry. |
| ProxyStore.NamelessMatchesOnlyUndefined | src/main/proxy-manage.ts:111 | A record without a `name` matches an `undefined` name and nothing else: `undefined === null` is false. |
| ProxyStore.GetIsFirstListed | src/main/proxy-manage.ts:56-124 | `getProxyConfig(name)` is the first record that `getProxyList()` lists under that name, or null. |
| ProxyStore.FilterIdempotent | src/main/proxy-manage.ts:72-75 | The line filter applied twice is the filter applied once. |
| ProxyStore.FilterKeepsSettings | src/main/proxy-manage.ts:72-75 | Trimmed, non-empty lines that do not start with `[` pass the filter unchanged. |
| ProxyStore.SettingLinesAreSettings | src/main/proxy-manage.ts:72-75 | Only trimmed, non-empty lines that do not open a `[table]` pass the filter. |
| ProxyStore.WrittenContent | src/main/proxy-manage.ts:142-182 | The blocks that `addProxy` and `updateProxy` write hold the formatted lines, and nothing else, after the marker. |
| ProxyStore.AddRefusesListedName | src/main/proxy-manage.ts:127-150 | With a readable file, `addProxy` throws "代理名称已存在" exactly when `getProxyList()` already lists a record under the new name. A missing file is an error. A success writes no new path. |
| ProxyStore.AddThenList | src/main/proxy-manage.ts:127-150 | After a successful `addProxy`, `getProxyList()` lists what it listed before, then the new block's record if it parses. |
| ProxyStore.AddThenGet | src/main/proxy-manage.ts:127-150 | After `addProxy`, every name resolves as before. A name that did not resolve now finds the new block when its record carries that name. |
| ProxyStore.AddedIsFound | src/main/proxy-manage.ts:133-142 | The added proxy is then found under its own name, when its record reads back with that name. |
| ProxyStore.UpdateFailsIffAbsent | src/main/proxy-manage.ts:153-203 | `updateProxy` throws "代理不存在" exactly when `getProxyList()` lists no record under the name. A missing file is an error. A success writes no new path. |
| ProxyStore.UpdateWrites | src/main/proxy-manage.ts:153-203 | When `replace` hits the first block named `name` and the new block holds no `$`, the update writes the new block in place of that block. |
| ProxyStore.UpdateThenList | src/main/proxy-manage.ts:153-203 | When `replace` hits the first block named `name`, the update succeeds and replaces that block and only it. The listed records are the old ones with that block's record replaced by the new block's. |
| ProxyStore.UpdateGluesNextHeader | src/main/proxy-manage.ts:177-183 | As written, updating a block that is not the last leaves the next `[[proxies]]` header glued to the end of the new block's last line. |
| ProxyStore.FixedUpdateWrites | src/main/proxy-manage.ts:177-183 | With the new block's `$` escaped, the update writes the block as formatted whatever the configuration holds. It fails exactly as the as-written update does. |
| ProxyStore.FixedUpdateKeepsHeadersOnLines | src/main/proxy-manage.ts:177-183 | With the closing newline `addProxy` writes, every header stays at the start of a line. The listed records are the old ones with the matched block's record replaced by the new one. |
| ProxyStore.UpdateExpandsDollars | src/main/proxy-manage.ts:180-183 | As written, a `$'` in the formatted configuration is replaced by the text after the matched block, so that text is copied into the new block. |
| ProxyStore.DeleteAgreesWithGet | src/main/proxy-manage.ts:206-247 | Where the line filter changes no block, `deleteProxy`'s unfiltered parse sees the same records, so it throws "代理不存在" exactly when `getProxyConfig` finds nothing. |
| ProxyStore.DeleteWrites | src/main/proxy-manage.ts:206-247 | When `replace` hits the first block whose unfiltered record is named `name`, the delete succeeds and cuts that block out before collapsing newline runs. |
| ProxyStore.DeleteRemovesMatch | src/main/proxy-manage.ts:206-247 | When `replace` hits the first block named `name`, the delete cuts out that block and nothing else. It leaves no three newlines in a row and keeps every other character in order. |
| StringReplace.ReplaceFirst | src/main/proxy-manage.ts:180-183 | Definition: the text up to the leftmost occurrence, the substituted replacement, the rest; the text as it is when the pattern does not occur. |
| StringReplace.Substitute | src/main/proxy-manage.ts:180-183 | Definition: `GetSubstitution` with `$$`, `$&`, `` $` `` and `$'` expanded and any other `$` kept. |
| StringReplace.IndexOf | src/main/proxy-manage.ts:180-183 | The offset found holds the pattern, and no earlier offset does. No offset is found only when the pattern occurs nowhere. |
| StringReplace.SubstituteNoDollar | src/main/proxy-manage.ts:180-183 | A replacement without `$` is inserted as written. |
| StringReplace.SubstituteEscaped | src/main/proxy-manage.ts:180-183 | Doubling every `$` undoes the expansion: any text, escaped, is inserted as written, whatever the match. |
| StringReplace.SubstitutePatterns | src/main/proxy-manage.ts:180-183 | `$&`, `$$`, `` $` `` and `$'` stand for the match, a dollar sign, the text before and the text after. A `$` before any other character stays. |
| StringReplace.SubstitutePlainPrefix | src/main/proxy-manage.ts:180-183 | Text without `$` at the front of a replacement is copied as written. |
| StringReplace.SubstituteRest | src/main/proxy-manage.ts:180-183 | A `$'` after text without `$` brings in the text after the match. |
| StringReplace.ReplaceFirstAt | src/main/proxy-manage.ts:225 | At the leftmost occurrence of the pattern, `replace` keeps the text on both sides and puts the substituted replacement between them. |
| StringReplace.ReplaceFirstAround | src/main/proxy-manage.ts:225 | For a text split around an occurrence with no earlier one, `replace` keeps both sides and substitutes in between. |
| StringReplace.ReplaceFirstLiteral | src/main/proxy-manage.ts:180-183 | At the leftmost occurrence, a replacement without `$`, or any escaped text, goes in as written. |
| StringReplace.FirstNoLater | src/main/proxy-manage.ts:180-183 | Where the pattern occurs, `replace` finds an occurrence at that offset or before it. |
| NewlineRuns.Collapse | src/main/proxy-manage.ts:240 | Definition: every run of three or more newlines becomes two. |
| NewlineRuns.CollapseNoTriple | src/main/proxy-manage.ts:240 | After `replace(/\n{3,}/g, '\n\n')`, no three newlines remain in a row. |
| NewlineRuns.CollapseChanges | src/main/proxy-manage.ts:240 | The clean-up changes the text exactly when it holds three newlines in a row. |
| NewlineRuns.CollapseIdempotent | src/main/proxy-manage.ts:240 | Cleaning up twice is the same as cleaning up once. |
| NewlineRuns.CollapseKeepsText | src/main/proxy-manage.ts:240 | The clean-up only removes newlines: every other character stays, in order. |
| VersionPattern.ValidVersionIff | src/main/frp-manage.ts:23-27 | `^v?\d+\.\d+\.\d+$` accepts a string exactly when, after an optional `v`, it splits at dots into three non-empty runs of digits. |
| VersionPattern.ValidVersionText | src/main/frp-manage.ts:23-27 | A valid version is non-empty, made only of `v`, dots and digits, holds no newline, and is unchanged by `trim()`. |
| VersionPattern.FindFrom | src/main/update-frp.ts:102 | The search returns the leftmost offset where `v\d+\.\d+\.\d+` matches, and none exactly when no offset matches. |
| VersionPattern.ExtractedVersion | src/main/update-frp.ts:101-106 | The extracted version is the leftmost match, taken from the URL as it stands. It is `v` followed by the three groups, and it passes `isValidVersion`. None is extracted exactly when no offset matches. |
| VersionPattern.ExtractOwnVersion | src/main/update-frp.ts:56-57 | A valid version that begins with `v` is found whole in itself, and its groups are its own three numbers. |
| VersionPattern.SplitMatches | src/main/frp-manage.ts:25 | Three runs of digits joined by dots match the digit groups of the pattern at that offset, through the end of the text. |
| FrpManage.CheckCurrentVersion | src/main/frp-manage.ts:30-78 | The report never claims an executable without a version, never carries a version without `hasVersion`, and only ever carries a valid version. |
| FrpManage.CheckReadsOnly | src/main/frp-manage.ts:36-68 | The check reads only the version file and executable paths: two file systems that agree there get the same report. |
| FrpManage.CheckIgnoresPadding | src/main/frp-manage.ts:49 | White space around the version in `current-version` does not change the report. |
| FrpManage.ExecutablePath | src/main/frp-manage.ts:16-20 | Definition: home, `.frp-electron`, `frp-release`, the version and the executable name with `.exe` on `win32`, joined by the platform separator. |
| FrpManage.ExecutableExtension | src/main/frp-manage.ts:16-20 | An executable path ends in `.exe` exactly on `win32`. |
| FrpManage.ExecutablePathInjective | src/main/frp-manage.ts:16-20 | Executable paths determine their version and executable. Two versions never share a binary, and frps and frpc differ. |
| FrpManage.PathsDistinct | src/main/frp-manage.ts:11-20 | `current-version` and `frp-version` are distinct files, and no executable path is either of them. |
| VersionRegistry.CompareMeans | src/main/update-frp.ts:55-66 | The comparator puts a before b exactly when both carry a version and a's numbers are newer, major first. It is antisymmetric, and entries without a version compare equal to everything. |
| VersionRegistry.SortDescending | src/main/update-frp.ts:55-66 | When every entry carries a version, the sorted registry is newest first. |
| VersionRegistry.SortStable | src/main/update-frp.ts:55-66 | When every entry carries a version, entries with equal numbers keep their relative order. |
| VersionRegistry.SortOfDescending | src/main/update-frp.ts:55-66 | A list already newest first is left as it is. |
| VersionRegistry.SortBy | src/main/update-frp.ts:55-66 | The sort is a permutation of its input. |
| VersionRegistry.ParseRegistry | src/main/update-frp.ts:45-47 | Reading the registry gives non-empty lines without newlines. |
| VersionRegistry.AddVersion | src/main/update-frp.ts:49-52 | The new version is added only when absent. The result holds exactly the old entries and the new one, and grows by one exactly when it was absent. |
| VersionRegistry.RegistryRoundTrip | src/main/update-frp.ts:46-69 | Non-empty lines without newlines, joined by `\n`, read back as written. |
| VersionRegistry.UpdateVersionFile | src/main/update-frp.ts:41-70 | Definition: the registry read, the version added when absent, sorted newest first and written back joined by newlines. |
| VersionRegistry.UpdateReadsBack | src/main/update-frp.ts:41-70 | After `updateVersionFile`, the registry reads back as the old entries with the new version added once, sorted. It grows by at most one and keeps a repeat-free list repeat-free. It is newest first when every entry carries a version. |
| VersionRegistry.UpdateIdempotent | src/main/update-frp.ts:41-70 | Recording the same version twice writes what recording it once wrote, when every entry carries a version. |
| VersionRegistry.Install | src/main/update-frp.ts:73-155 | Definition: the error "无法从URL中提取版本号" when the URL holds no version, else the version merged into the registry and made current. |
| VersionRegistry.GetFrpVersion | src/main/update-frp.ts:162-193 | Definition: the registry text as it is and the current version trimmed, each null when its file is missing. |
| VersionRegistry.SetCurrentVersion | src/main/update-frp.ts:196-210 | Definition: the string written to `current-version` as given. |
| VersionRegistry.InstalledVersion | src/main/update-frp.ts:101-106 | The version an install takes from its URL passes `isValidVersion`, is a registry line, is unchanged by `trim()`, and carries version numbers. |
| VersionRegistry.InstallOutcome | src/main/update-frp.ts:101-143 | An install fails with "无法从URL中提取版本号" exactly when the URL holds no version. Otherwise it merges the version into the registry and makes it current, and no other file changes. |
| VersionRegistry.RecordOutcome | src/main/update-frp.ts:138-143 | Recording v sets `current-version` to v and merges v into the registry. No other file changes. |
| VersionRegistry.InstallThenCheck | src/main/update-frp.ts:138-143 | After an install, `checkCurrentVersion` reports the installed version. Each executable is reported present exactly when it was in the file system the bookkeeping starts from, that is, once the archive was unpacked and renamed. |
| VersionRegistry.RecordThenCheck | src/main/update-frp.ts:138-143 | After recording a valid, trimmed version, `checkCurrentVersion` reports it with its executables as they were. |
| VersionRegistry.InstallThenGet | src/main/update-frp.ts:162-193 | After an install, `get-frp-version` returns the installed version and a registry that reads as the merged list. |
| VersionRegistry.RecordThenGet | src/main/update-frp.ts:162-193 | After recording v, `get-frp-version` returns v and the merged registry. |
| VersionRegistry.InstallTwice | src/main/update-frp.ts:72-155 | Installing from the same URL twice leaves the files as the first install did, when every registry entry carries a version. |
| VersionRegistry.RecordTwice | src/main/update-frp.ts:138-143 | Recording a version twice is the same as recording it once, when every registry entry carries a version. |
| VersionRegistry.SetReportedKeepsCheck | src/main/update-frp.ts:196-210 | Writing back the version `checkCurrentVersion` reports leaves the report as it was, executables included. |
| VersionRegistry.SetThenRead | src/main/update-frp.ts:196-210 | `set-current-version` writes the string unchecked. `get-frp-version` then reports it trimmed with the registry unchanged. `checkCurrentVersion` accepts it exactly when its trimmed form is valid. |
| Text.TrimEmpty | src/main/frpc-config.ts:215 | `trim()` gives the empty string exactly for blank text. |
| Text.TrimPadded | src/main/frp-manage.ts:49 | White space at either end does not change what `trim()` yields. |
| Text.SplitJoin | src/main/update-frp.ts:46-69 | Splitting a join at its one-character separator gives the parts back, when no part holds the separator. |
| Text.Split | src/main/proxy-manage.ts:72 | `split` gives at least one piece. No piece holds the separator, and the pieces joined by it are the text. |

## Left out

- File I/O failures, `console` logging and the outer `catch` branches that only log and return a default or rethrow are not modelled. A missing file is the only read failure, and it is modelled as an absent key.
- `toml.parse` is a parameter, not a TOML parser. It is applied only as the code applies it, and a thrown error is `None`. The configuration reads never hand it blank text. The proxy store skips a block whose trimmed content is empty, but the line filter can still hand it the empty text, for a block holding only a `[table]` line.
- The IPC wiring (`setup…Handlers`, `ipcMain.handle`), `ensureConfigDir`, `createReleaseFolder`, `show-download-path` and directory creation only connect or create directories, so they are not modelled.
- In `download-file`, the download, the tar extraction, the removal of the archive and the rename of the `frp_*` directory are I/O with nothing for the model to check, and are left out. The model starts at the version extraction and records the registry and current version after it. When the URL holds no version, the source has already downloaded the archive and leaves it behind; the model only reports the error.
- `path.join` is modelled as joining with `/` (or `\` on `win32`). It does not normalise `..`, repeated separators or a trailing separator in the home directory.
- Numbers are integers. Floating-point values and `String(x)` of a fraction are not modelled. `parseInt` is exact, while JavaScript loses precision for numbers with more than 15 digits.
- `TomlValue.Null` stands for `null` and for a field whose value is `undefined`. The encoders test for both alike. A key that is absent altogether reads as `undefined` through TomlValue.Get, so the proxy store's `===` tells a missing name from `null`.
- `TomlDecode` reads back scalars and flat arrays of comma-free scalars only. Nested arrays and inline objects are not read. Strings holding `,` inside an array are not read back, because `valueToToml` does not escape them.
- TomlDecode.DecodeScalar: refuses a quoted text holding `"`, `\` or a control character. A TOML reader either rejects such text or decodes an escape such as `\n` into other characters; in both cases the written string does not come back, which is what ScalarRoundTrip and ArrayRoundTrip state.
- VersionRegistry.SortBy: a stable insertion sort stands for `Array.prototype.sort`. Entries without a version compare equal to everything, so the comparator is not a consistent order on them. Where such entries end up is implementation-defined in JavaScript. The order properties are therefore stated only for registries whose entries all carry a version.
- ProxyStore.UpdateThenList: assumes that `replace` hits the matched block, that is, that the block's text occurs nowhere earlier in the file (ProxyStore.ReplaceHitsMatch). An earlier block whose text starts with the matched block's text, one the parser rejected, say, is hit instead. `UpdateProxy` models that case, but no lemma describes its outcome. The lemma also assumes a formatted configuration without `$`; ProxyStore.UpdateExpandsDollars covers `$'`.
- ProxyStore.UpdateGluesNextHeader: assumes that `replace` hits the matched block, as UpdateThenList does. So do UpdateWrites, FixedUpdateKeepsHeadersOnLines and the success half of FixedUpdateWrites.
- ProxyStore.DeleteRemovesMatch: assumes that `replace` hits the matched block, as for updates. So does DeleteWrites.
- ProxyStore.UpdateExpandsDollars: covers a `$'` after text without `$`. The other patterns are stated for the substitution alone, by StringReplace.SubstitutePatterns.
- ConfigStore.SaveClientKeepsProxyBlocks: assumes that the encoded global configuration holds no `[[proxies]]` marker. A string value spelling the marker would split the saved file differently.
- ConfigStore.SaveClientIdempotent: assumes the same. Without it the source is not idempotent: saving `{a: "[[proxies]]"}` over an empty file writes `a = "[[proxies]]"`, and a second save finds a span starting inside that string and appends `\n\n[[proxies]]"`.
- ProxyStore.AddThenList: assumes that the formatted proxy holds no `[[proxies]]` marker, for the same reason. So do AddThenGet, AddedIsFound, UpdateThenList and FixedUpdateKeepsHeadersOnLines.
- ProxyStore.AddedIsFound: also needs the new block's record, as the parser reads it, to carry the name it was added under. The parser is a parameter, so the model cannot show that a TOML parser gives the formatted name back.
- `deleteProxy` parses a block's trimmed content without the line filter that list, get and update apply. ProxyStore.DeleteAgreesWithGet states agreement only where the filter changes nothing.

## Findings

| source | as written | input that shows it | evidently intended | confidence | as-written member | corrected member |
|---|---|---|---|---|---|---|
| src/main/proxy-manage.ts:180-183 | `updateProxy` puts `[[proxies]]\n` plus the formatted lines, with no closing newline, in place of a span that ran up to the next `[[proxies]]` | file `[[proxies]]\nname = "a"\n\n[[proxies]]\nname = "b"\n`, update `a` with `{name: "a"}`: the text becomes `[[proxies]]\nname = "a"[[proxies]]\nname = "b"\n` | the new block ends with a newline, as `addProxy` writes it, so every `[[proxies]]` header stays at the start of a line | not executed | ProxyStore.UpdateGluesNextHeader | ProxyStore.FixedUpdateKeepsHeadersOnLines |
| src/main/proxy-manage.ts:180-183 | `updateProxy` hands the formatted block to `replace` as its replacement string, so `$'`, `$&`, `` $` `` and `$$` in a value are expanded, not written | file `[[proxies]]\nname = "a"\n\n[[proxies]]\nname = "b"\n`, update `a` with `{name: "a", secretKey: "$'"}`: the new block reads `secretKey = "[[proxies]]\nname = "b"\n"`, and a copy of the following block ends up inside the new one | the block is written as formatted, for instance with every `$` doubled in the replacement | not executed | ProxyStore.UpdateExpandsDollars | ProxyStore.FixedUpdateWrites |
