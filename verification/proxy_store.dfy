/**
 * The proxy store of the client configuration file: `getProxyList`,
 * `getProxyConfig`, `addProxy`, `updateProxy` and `deleteProxy`. Each reads
 * the file, cuts it into `[[proxies]]` spans, and reads a span by trimming what
 * follows the marker and handing it to the TOML parser (an opaque parameter).
 */
module ProxyStore {
  import opened Wrappers
  import opened TomlValue
  import Text
  import ProxyBlocks
  import StringReplace
  import ProxyFormat
  import NewlineRuns
  import ConfigDefaults
  import ConfigStore

  type FileSystem = ConfigStore.FileSystem
  type Parser = ConfigStore.Parser

  const DuplicateNameMessage: string := "代理名称已存在"
  const NotFoundMessage: string := "代理不存在"

  /** What a store operation throws. */
  datatype Error =
    | Unreadable              // `readFileSync` failed: there is no client file
    | Thrown(message: string) // one of the two messages above

  /** The file the proxies live in: the client configuration. */
  function ClientPath(): string
  {
    ConfigStore.ConfigPath(ConfigDefaults.Client)
  }

  /** The spans `matchAll` yields on the file text. */
  function Spans(text: string): seq<string>
  {
    ProxyBlocks.Split(text).spans
  }

  /** `match[1].trim()`: the span's text after the marker, trimmed. */
  function Content(span: string): string
  {
    if |span| < |ProxyBlocks.Marker| then "" else Text.Trim(span[|ProxyBlocks.Marker|..])
  }

  /** A line that survives the filter: trimmed, not empty, not a `[table]` header. */
  predicate IsSetting(line: string)
  {
    line != "" && line[0] != '[' && Text.Trimmed(line)
  }

  /** `lines.map(l => l.trim()).filter(l => l && !l.startsWith('['))`. */
  function SettingLines(lines: seq<string>): seq<string>
  {
    if |lines| == 0 then [] else FirstSetting(lines[0]) + SettingLines(lines[1..])
  }

  /** The text list, get and update hand to the parser for a block's content. */
  function FilterBody(content: string): string
  {
    Text.Join(SettingLines(Text.Split(content, '\n')), "\n")
  }

  /** How a block's content reaches the parser: filtered (list, get, update) or as it is (delete). */
  datatype Reading = Filtered | Unfiltered

  /** A block's record: none for an empty block or one the parser rejects (the error is caught). */
  function ParseContent(content: string, parse: Parser, reading: Reading): Option<Value>
  {
    if content == "" then None
    else parse(if reading.Filtered? then FilterBody(content) else content)
  }

  function ParseSpan(span: string, parse: Parser, reading: Reading): Option<Value>
  {
    ParseContent(Content(span), parse, reading)
  }

  /** How the loop body reads one span. */
  function Reader(parse: Parser, reading: Reading): string -> Option<Value>
  {
    span => ParseSpan(span, parse, reading)
  }

  /** What each span reads as, in file order. */
  function Parsed(spans: seq<string>, read: string -> Option<Value>): (r: seq<Option<Value>>)
    ensures |r| == |spans|
  {
    seq(|spans|, j requires 0 <= j < |spans| => read(spans[j]))
  }

  /** `record.name`: None when the record has no name, which reads as `undefined`. */
  function NameOf(v: Value): Option<Value>
  {
    Get(v, "name")
  }

  /** A block that parsed to a record named `name`. */
  predicate Hit(p: Option<Value>, name: Option<Value>)
  {
    p.Some? && StrictEquals(NameOf(p.value), name)
  }

  /** The index of the first block named `name`: the loop that stops at the first hit. */
  function Find(parsed: seq<Option<Value>>, name: Option<Value>): (r: Option<nat>)
    ensures r.Some? ==> r.value < |parsed| && Hit(parsed[r.value], name)
    ensures r.Some? ==> forall j :: 0 <= j < r.value ==> !Hit(parsed[j], name)
    ensures r.None? <==> forall j :: 0 <= j < |parsed| ==> !Hit(parsed[j], name)
  {
    if |parsed| == 0 then None
    else if Hit(parsed[0], name) then Some(0)
    else
      match Find(parsed[1..], name)
      case Some(k) =>
        assert forall j :: 1 <= j < k + 1 ==> parsed[j] == parsed[1..][j - 1];
        Some(k + 1)
      case None =>
        assert forall j :: 1 <= j < |parsed| ==> parsed[j] == parsed[1..][j - 1];
        None
  }

  /** The records of the readable blocks, in file order. */
  function Records(parsed: seq<Option<Value>>): seq<Value>
  {
    if |parsed| == 0 then []
    else (if parsed[0].Some? then [parsed[0].value] else []) + Records(parsed[1..])
  }

  /** `getProxyList()`: an unreadable file gives the empty list. */
  function ProxyList(fs: FileSystem, parse: Parser): seq<Value>
  {
    if ClientPath() !in fs then [] else Records(Parsed(Spans(fs[ClientPath()]), Reader(parse, Filtered)))
  }

  /** The record of the first block named `name`. */
  function FirstHit(parsed: seq<Option<Value>>, name: Option<Value>): Option<Value>
  {
    match Find(parsed, name)
    case Some(k) => parsed[k]
    case None => None
  }

  /** `getProxyConfig(name)`: `null` (None) when nothing matches or the file is unreadable. */
  function GetProxyConfig(fs: FileSystem, name: Option<Value>, parse: Parser): Option<Value>
  {
    if ClientPath() !in fs then None else FirstHit(Parsed(Spans(fs[ClientPath()]), Reader(parse, Filtered)), name)
  }

  /** The block `addProxy` appends for a configuration. */
  function AddedBlock(config: Fields): string
  {
    ProxyBlocks.Marker + "\n" + ProxyFormat.FormatProxy(config) + "\n"
  }

  /** `addProxy(config)`: refuses a name that already resolves, else appends a block. */
  function AddProxy(fs: FileSystem, config: Fields, parse: Parser): Result<FileSystem, Error>
  {
    if ClientPath() !in fs then Failure(Unreadable)
    else if GetProxyConfig(fs, NameOf(Obj(config)), parse).Some? then Failure(Thrown(DuplicateNameMessage))
    else Success(fs[ClientPath() := Text.Trim(fs[ClientPath()]) + "\n\n" + AddedBlock(config)])
  }

  /** The text `updateProxy` puts where the matched span was: no newline after the last line. */
  function UpdatedBlock(config: Fields): string
  {
    ProxyBlocks.Marker + "\n" + ProxyFormat.FormatProxy(config)
  }

  /**
   * `updateProxy(name, config)`: `replace` with the text of the first block
   * named `name`, which acts on the first occurrence of that text in the file
   * and expands `$` patterns in the new block.
   */
  function UpdateProxy(fs: FileSystem, name: Option<Value>, config: Fields, parse: Parser): Result<FileSystem, Error>
  {
    if ClientPath() !in fs then Failure(Unreadable)
    else
      var text := fs[ClientPath()];
      match Find(Parsed(Spans(text), Reader(parse, Filtered)), name)
      case None => Failure(Thrown(NotFoundMessage))
      case Some(k) => Success(fs[ClientPath() := StringReplace.ReplaceFirst(text, Spans(text)[k], UpdatedBlock(config))])
  }

  /** `deleteProxy(name)`: cuts the first block named `name`, then collapses blank lines. */
  function DeleteProxy(fs: FileSystem, name: Option<Value>, parse: Parser): Result<FileSystem, Error>
  {
    if ClientPath() !in fs then Failure(Unreadable)
    else
      var text := fs[ClientPath()];
      match Find(Parsed(Spans(text), Reader(parse, Unfiltered)), name)
      case None => Failure(Thrown(NotFoundMessage))
      case Some(k) => Success(fs[ClientPath() := NewlineRuns.Collapse(StringReplace.ReplaceFirst(text, Spans(text)[k], ""))])
  }

  // ---------------------------------------------------------------------------
  // Reading

  /**
   * A record without a `name` key is named `undefined`: it matches a name
   * that is undefined too, and never `null` or any defined name.
   */
  lemma NamelessMatchesOnlyUndefined(record: Value, name: Option<Value>)
    requires record.Obj? && forall i :: 0 <= i < |record.fields| ==> record.fields[i].0 != "name"
    ensures Hit(Some(record), name) <==> name.None?
    ensures FirstNamed([record], name).Some? <==> name.None?
  {
  }

  /** The first record with a given name. */
  function FirstNamed(records: seq<Value>, name: Option<Value>): Option<Value>
  {
    if |records| == 0 then None
    else if StrictEquals(NameOf(records[0]), name) then Some(records[0])
    else FirstNamed(records[1..], name)
  }

  /** `getProxyConfig(name)` is the first record `getProxyList()` lists under that name. */
  lemma GetIsFirstListed(fs: FileSystem, name: Option<Value>, parse: Parser)
    ensures GetProxyConfig(fs, name, parse) == FirstNamed(ProxyList(fs, parse), name)
  {
    if ClientPath() in fs {
      FirstHitListed(Parsed(Spans(fs[ClientPath()]), Reader(parse, Filtered)), name);
    }
  }

  lemma {:induction false} FirstHitListed(parsed: seq<Option<Value>>, name: Option<Value>)
    ensures FirstHit(parsed, name) == FirstNamed(Records(parsed), name)
  {
    if |parsed| > 0 {
      var rest := Records(parsed[1..]);
      FirstHitListed(parsed[1..], name);
      if !Hit(parsed[0], name) {
        match Find(parsed[1..], name)
        case Some(k) =>
          assert parsed[k + 1] == parsed[1..][k];
        case None =>
      }
      if parsed[0].Some? {
        assert Records(parsed) == [parsed[0].value] + rest;
        assert ([parsed[0].value] + rest)[1..] == rest;
      } else {
        assert Records(parsed) == rest;
      }
    }
  }

  /** A first match in a list with another appended: the old match, else the newcomer. */
  lemma {:induction false} FirstNamedAppend(records: seq<Value>, v: Value, name: Option<Value>)
    ensures FirstNamed(records + [v], name)
      == if FirstNamed(records, name).Some? then FirstNamed(records, name)
         else if StrictEquals(NameOf(v), name) then Some(v) else None
  {
    if |records| == 0 {
      assert records + [v] == [v];
    } else {
      assert (records + [v])[1..] == records[1..] + [v];
      FirstNamedAppend(records[1..], v, name);
    }
  }

  lemma {:induction false} RecordsAppend(a: seq<Option<Value>>, b: seq<Option<Value>>)
    ensures Records(a + b) == Records(a) + Records(b)
  {
    if |a| == 0 {
      assert a + b == b;
    } else {
      var ab := a + b;
      assert ab[0] == a[0] && ab[1..] == a[1..] + b;
      RecordsAppend(a[1..], b);
      var head := if a[0].Some? then [a[0].value] else [];
      assert Records(ab) == head + Records(ab[1..]);
      assert Records(a) == head + Records(a[1..]);
    }
  }

  lemma ParsedAppend(a: seq<string>, b: seq<string>, read: string -> Option<Value>)
    ensures Parsed(a + b, read) == Parsed(a, read) + Parsed(b, read)
  {
    var l := Parsed(a + b, read);
    var r := Parsed(a, read) + Parsed(b, read);
    forall i | 0 <= i < |l| ensures l[i] == r[i] {
      if i < |a| {
        assert (a + b)[i] == a[i];
      } else {
        assert (a + b)[i] == b[i - |a|];
      }
    }
  }

  // ---------------------------------------------------------------------------
  // The line filter

  /** The filter yields only settings, and leaves settings joined by newlines as they are. */
  lemma {:induction false} SettingLinesAreSettings(lines: seq<string>)
    ensures forall i :: 0 <= i < |SettingLines(lines)| ==> IsSetting(SettingLines(lines)[i])
  {
    if |lines| > 0 {
      var head := FirstSetting(lines[0]);
      var tail := SettingLines(lines[1..]);
      SettingLinesAreSettings(lines[1..]);
      assert SettingLines(lines) == head + tail;
      forall i | 0 <= i < |head + tail| ensures IsSetting((head + tail)[i]) {
        if i >= |head| {
          assert (head + tail)[i] == tail[i - |head|];
        }
      }
    }
  }

  /** What one line contributes to the filter. */
  function FirstSetting(line: string): (r: seq<string>)
    ensures |r| <= 1 && forall i :: 0 <= i < |r| ==> IsSetting(r[i])
    ensures '\n' !in line ==> forall i :: 0 <= i < |r| ==> '\n' !in r[i]
  {
    var t := Text.Trim(line);
    Text.TrimWithin(line, '\n');
    if t != "" && t[0] != '[' then [t] else []
  }

  lemma FilterKeepsSettings(lines: seq<string>)
    requires forall i :: 0 <= i < |lines| ==> IsSetting(lines[i]) && '\n' !in lines[i]
    ensures FilterBody(Text.Join(lines, "\n")) == Text.Join(lines, "\n")
  {
    if |lines| == 0 {
      assert Text.Split("", '\n') == [""];
      assert SettingLines([""]) == [] + SettingLines([]);
    } else {
      Text.SplitJoin(lines, '\n');
      SettingLinesOfSettings(lines);
    }
  }

  lemma {:induction false} SettingLinesOfSettings(lines: seq<string>)
    requires forall i :: 0 <= i < |lines| ==> IsSetting(lines[i])
    ensures SettingLines(lines) == lines
  {
    if |lines| > 0 {
      SettingLinesOfSettings(lines[1..]);
      SettingKept(lines);
      assert lines == [lines[0]] + lines[1..];
    }
  }

  lemma SettingKept(lines: seq<string>)
    requires |lines| > 0 && IsSetting(lines[0])
    ensures SettingLines(lines) == [lines[0]] + SettingLines(lines[1..])
  {
    Text.TrimOfTrimmed(lines[0]);
  }

  /** Filtering twice is filtering once. */
  lemma FilterIdempotent(content: string)
    ensures FilterBody(FilterBody(content)) == FilterBody(content)
  {
    var pieces := Text.Split(content, '\n');
    var lines := SettingLines(pieces);
    SettingLinesAreSettings(pieces);
    SettingLinesHaveNoNewline(pieces);
    FilterKeepsSettings(lines);
  }

  lemma {:induction false} SettingLinesHaveNoNewline(pieces: seq<string>)
    requires forall i :: 0 <= i < |pieces| ==> '\n' !in pieces[i]
    ensures forall i :: 0 <= i < |SettingLines(pieces)| ==> '\n' !in SettingLines(pieces)[i]
  {
    if |pieces| > 0 {
      var head := FirstSetting(pieces[0]);
      var tail := SettingLines(pieces[1..]);
      SettingLinesHaveNoNewline(pieces[1..]);
      assert SettingLines(pieces) == head + tail;
      forall i | 0 <= i < |head + tail| ensures '\n' !in (head + tail)[i] {
        if i >= |head| {
          assert (head + tail)[i] == tail[i - |head|];
        }
      }
    }
  }

  /** Where filtering changes nothing, delete's unfiltered reading agrees with the others. */
  lemma ReadingsAgree(span: string, name: Option<Value>, parse: Parser)
    requires FilterBody(Content(span)) == Content(span)
    ensures ParseSpan(span, parse, Filtered) == ParseSpan(span, parse, Unfiltered)
    ensures Hit(ParseSpan(span, parse, Filtered), name) <==> Hit(ParseSpan(span, parse, Unfiltered), name)
  {
  }

  // ---------------------------------------------------------------------------
  // Adding a proxy

  /** What the block written for a configuration reads back as: its formatted lines, trimmed and parsed. */
  function NewRecord(config: Fields, parse: Parser): Option<Value>
  {
    ParseContent(Text.Trim(ProxyFormat.FormatProxy(config)), parse, Filtered)
  }

  lemma ContentAfterMarker(body: string)
    ensures Content(ProxyBlocks.Marker + body) == Text.Trim(body)
  {
    assert (ProxyBlocks.Marker + body)[|ProxyBlocks.Marker|..] == body;
  }

  /** The blocks `addProxy` and `updateProxy` write hold the formatted lines and nothing else. */
  lemma WrittenContent(config: Fields)
    ensures Content(AddedBlock(config)) == Text.Trim(ProxyFormat.FormatProxy(config))
    ensures Content(UpdatedBlock(config)) == Text.Trim(ProxyFormat.FormatProxy(config))
  {
    var f := ProxyFormat.FormatProxy(config);
    MarkerLayout(f);
    ContentAfterMarker("\n" + f + "\n");
    ContentAfterMarker("\n" + f);
    Text.TrimNewlinePadded(f);
  }

  lemma MarkerLayout(f: string)
    ensures ProxyBlocks.Marker + "\n" + f + "\n" == ProxyBlocks.Marker + ("\n" + f + "\n")
    ensures ProxyBlocks.Marker + "\n" + f == ProxyBlocks.Marker + ("\n" + f)
  {
  }

  /** With no marker among the formatted lines, the written text is a single block. */
  lemma WrittenIsBlock(config: Fields)
    requires ProxyBlocks.NoMarker(ProxyFormat.FormatProxy(config))
    ensures ProxyBlocks.IsBlock(AddedBlock(config)) && ProxyBlocks.IsBlock(UpdatedBlock(config))
  {
    var f := ProxyFormat.FormatProxy(config);
    MarkerLayout(f);
    ProxyBlocks.NoMarkerNewline();
    ProxyBlocks.NoMarkerAppend("\n", f);
    ProxyBlocks.NoMarkerAppend("\n" + f, "\n");
    ProxyBlocks.MarkerThenText("\n" + f);
    ProxyBlocks.MarkerThenText("\n" + f + "\n");
  }

  /** The last block, trimmed and followed by a blank line, reads as it did. */
  lemma PaddedContent(last: string)
    requires ProxyBlocks.IsBlock(last)
    ensures Content(Text.Trim(last) + "\n\n") == Content(last)
  {
    var m := |ProxyBlocks.Marker|;
    ProxyBlocks.TrimBlock(last);
    var t := Text.Trim(last);
    var body := last[m..|t|];
    assert (t + "\n\n")[m..] == body + "\n\n";
    Text.TrimThenNewlines(body);
    Text.TrimDropsBlankTail(last, m, |t|);
  }

  /** The spans after `addProxy` read as the old ones followed by the new block. */
  lemma ParsedAppended(bl: ProxyBlocks.Blocks, b: string, read: string -> Option<Value>)
    requires |bl.spans| > 0 ==> read(Text.Trim(bl.spans[|bl.spans| - 1]) + "\n\n") == read(bl.spans[|bl.spans| - 1])
    ensures Parsed(ProxyBlocks.Appended(bl, b).spans, read) == Parsed(bl.spans, read) + [read(b)]
  {
    var after := ProxyBlocks.Appended(bl, b).spans;
    ProxyBlocks.AppendedSpans(bl, b);
    ParsedSnoc(bl.spans, after, read);
  }

  /** Spans that read alike, one by one, and one more: the readings agree, plus one. */
  lemma ParsedSnoc(spans: seq<string>, after: seq<string>, read: string -> Option<Value>)
    requires |after| == |spans| + 1
    requires forall i :: 0 <= i < |spans| ==> read(after[i]) == read(spans[i])
    ensures Parsed(after, read) == Parsed(spans, read) + [read(after[|spans|])]
  {
  }

  /**
   * After a successful `addProxy`, `getProxyList()` lists what it listed
   * before and then the record the new block reads back as, if any. This needs
   * the formatted lines to hold no `[[proxies]]` marker of their own.
   */
  lemma AddThenList(fs: FileSystem, config: Fields, parse: Parser)
    requires ProxyBlocks.NoMarker(ProxyFormat.FormatProxy(config))
    requires AddProxy(fs, config, parse).Success?
    ensures ProxyList(AddProxy(fs, config, parse).value, parse)
      == ProxyList(fs, parse) + Records([NewRecord(config, parse)])
  {
    var text := fs[ClientPath()];
    var b := AddedBlock(config);
    var bl := ProxyBlocks.Split(text);
    WrittenIsBlock(config);
    WrittenContent(config);
    ProxyBlocks.AppendBlock(text, b);
    ProxyBlocks.SplitSound(text);
    var read := Reader(parse, Filtered);
    if |bl.spans| > 0 {
      var last := bl.spans[|bl.spans| - 1];
      PaddedContent(last);
      ReadsAs(Text.Trim(last) + "\n\n", Content(last), parse, Filtered);
      ReadsAs(last, Content(last), parse, Filtered);
    }
    ParsedAppended(bl, b, read);
    ReadsAs(b, Text.Trim(ProxyFormat.FormatProxy(config)), parse, Filtered);
    RecordsAppend(Parsed(bl.spans, read), [read(b)]);
  }

  /** A span reads as its content does. */
  lemma ReadsAs(span: string, content: string, parse: Parser, reading: Reading)
    requires Content(span) == content
    ensures Reader(parse, reading)(span) == ParseContent(content, parse, reading)
  {
  }

  /**
   * After a successful `addProxy`, `getProxyConfig` finds what it found
   * before; a name it did not find resolves to the new block's record when
   * that record carries the name.
   */
  lemma AddThenGet(fs: FileSystem, config: Fields, parse: Parser, name: Option<Value>)
    requires ProxyBlocks.NoMarker(ProxyFormat.FormatProxy(config))
    requires AddProxy(fs, config, parse).Success?
    ensures var before := GetProxyConfig(fs, name, parse);
      var added := NewRecord(config, parse);
      GetProxyConfig(AddProxy(fs, config, parse).value, name, parse)
        == if before.Some? then before else if Hit(added, name) then added else None
  {
    var after := AddProxy(fs, config, parse).value;
    var added := NewRecord(config, parse);
    AddThenList(fs, config, parse);
    GetIsFirstListed(fs, name, parse);
    GetIsFirstListed(after, name, parse);
    if added.Some? {
      assert Records([added]) == [added.value];
      FirstNamedAppend(ProxyList(fs, parse), added.value, name);
    } else {
      assert Records([added]) == [];
      assert ProxyList(fs, parse) + [] == ProxyList(fs, parse);
    }
  }

  /**
   * The duplicate check: with a readable file, `addProxy` refuses exactly
   * when `getProxyList()` already lists a record under the new name, and an
   * unreadable file is an error.
   */
  lemma AddRefusesListedName(fs: FileSystem, config: Fields, parse: Parser)
    ensures ClientPath() !in fs ==> AddProxy(fs, config, parse) == Failure(Unreadable)
    ensures ClientPath() in fs ==>
      (AddProxy(fs, config, parse) == Failure(Thrown(DuplicateNameMessage)) <==>
        FirstNamed(ProxyList(fs, parse), NameOf(Obj(config))).Some?)
    ensures AddProxy(fs, config, parse).Success? ==> AddProxy(fs, config, parse).value.Keys == fs.Keys
  {
    GetIsFirstListed(fs, NameOf(Obj(config)), parse);
  }

  /** After a successful `addProxy` the new proxy is found under its own name, when its record reads back with that name. */
  lemma AddedIsFound(fs: FileSystem, config: Fields, parse: Parser)
    requires ProxyBlocks.NoMarker(ProxyFormat.FormatProxy(config))
    requires AddProxy(fs, config, parse).Success?
    ensures var name := NameOf(Obj(config));
      var added := NewRecord(config, parse);
      Hit(added, name) ==> GetProxyConfig(AddProxy(fs, config, parse).value, name, parse) == added
  {
    AddThenGet(fs, config, parse, NameOf(Obj(config)));
  }

  // ---------------------------------------------------------------------------
  // Updating a proxy

  /** The first block whose record is named `name` is found exactly when `getProxyConfig` finds one. */
  lemma FindIffFirstHit(parsed: seq<Option<Value>>, name: Option<Value>)
    ensures Find(parsed, name).None? <==> FirstHit(parsed, name).None?
  {
  }

  /** `updateProxy` fails with "代理不存在" exactly when `getProxyList()` lists no record under the name. */
  lemma UpdateFailsIffAbsent(fs: FileSystem, name: Option<Value>, config: Fields, parse: Parser)
    ensures ClientPath() !in fs ==> UpdateProxy(fs, name, config, parse) == Failure(Unreadable)
    ensures ClientPath() in fs ==>
      (UpdateProxy(fs, name, config, parse) == Failure(Thrown(NotFoundMessage)) <==>
        FirstNamed(ProxyList(fs, parse), name).None?)
    ensures UpdateProxy(fs, name, config, parse).Success? ==> UpdateProxy(fs, name, config, parse).value.Keys == fs.Keys
  {
    if ClientPath() in fs {
      GetIsFirstListed(fs, name, parse);
      FindIffFirstHit(Parsed(Spans(fs[ClientPath()]), Reader(parse, Filtered)), name);
    }
  }

  /**
   * The text of the first block the reading resolves to `name` occurs nowhere
   * earlier in the client file, so `replace` acts on that very block.
   */
  predicate ReplaceHitsMatch(fs: FileSystem, name: Option<Value>, reading: Reading, parse: Parser)
  {
    && ClientPath() in fs
    && var found := Find(Parsed(Spans(fs[ClientPath()]), Reader(parse, reading)), name);
       found.Some? && ProxyBlocks.MatchedFirst(fs[ClientPath()], found.value)
  }

  /** Neither written block brings a `$` of its own. */
  lemma WrittenNoDollar(config: Fields)
    requires '$' !in ProxyFormat.FormatProxy(config)
    ensures '$' !in AddedBlock(config) && '$' !in UpdatedBlock(config)
  {
    assert '$' !in ProxyBlocks.Marker + "\n";
  }

  /**
   * When `replace` hits the matched block and the new block holds no `$`,
   * `updateProxy` writes the new block in place of the matched one.
   */
  lemma UpdateWrites(fs: FileSystem, name: Option<Value>, config: Fields, parse: Parser)
    requires '$' !in ProxyFormat.FormatProxy(config)
    requires ReplaceHitsMatch(fs, name, Filtered, parse)
    ensures var text := fs[ClientPath()];
      var k := Find(Parsed(Spans(text), Reader(parse, Filtered)), name).value;
      UpdateProxy(fs, name, config, parse)
        == Success(fs[ClientPath() := ProxyBlocks.ReplaceSpan(text, k, UpdatedBlock(config))])
  {
    var text := fs[ClientPath()];
    var k := Find(Parsed(Spans(text), Reader(parse, Filtered)), name).value;
    WrittenNoDollar(config);
    ProxyBlocks.ReplaceFirstIsReplaceSpan(text, k, UpdatedBlock(config));
  }

  /** Re-reading after one span is replaced changes only that span's reading. */
  lemma ParsedReplaced(spans: seq<string>, k: nat, x: string, read: string -> Option<Value>)
    requires k < |spans|
    ensures Parsed(spans[k := x], read) == Parsed(spans, read)[k := read(x)]
  {
  }

  /**
   * A successful `updateProxy` replaces the first block named `name`, and only
   * it: the file splits into the same preamble and spans but for that one,
   * and the listed records are the old ones with that block's record replaced
   * by what the new block reads back as.
   */
  lemma UpdateThenList(fs: FileSystem, name: Option<Value>, config: Fields, parse: Parser)
    requires '$' !in ProxyFormat.FormatProxy(config)
    requires ProxyBlocks.NoMarker(ProxyFormat.FormatProxy(config))
    requires ReplaceHitsMatch(fs, name, Filtered, parse)
    ensures UpdateProxy(fs, name, config, parse).Success?
    ensures var text := fs[ClientPath()];
      var parsed := Parsed(Spans(text), Reader(parse, Filtered));
      var k := Find(parsed, name).value;
      var after := UpdateProxy(fs, name, config, parse).value;
      && Hit(parsed[k], name) && (forall j :: 0 <= j < k ==> !Hit(parsed[j], name))
      && ProxyBlocks.Split(after[ClientPath()])
        == ProxyBlocks.Blocks(ProxyBlocks.Split(text).preamble, Spans(text)[k := UpdatedBlock(config)])
      && ProxyList(after, parse) == Records(parsed[k := NewRecord(config, parse)])
  {
    var text := fs[ClientPath()];
    var read := Reader(parse, Filtered);
    var k := Find(Parsed(Spans(text), read), name).value;
    var u := UpdatedBlock(config);
    UpdateWrites(fs, name, config, parse);
    WrittenIsBlock(config);
    WrittenContent(config);
    ProxyBlocks.ReplaceSpanIsolated(text, k, u);
    ParsedReplaced(Spans(text), k, u, read);
    ReadsAs(u, Text.Trim(ProxyFormat.FormatProxy(config)), parse, Filtered);
  }

  // ---------------------------------------------------------------------------
  // Where `[[proxies]]` headers stand

  predicate EndsWithNewline(s: string)
  {
    |s| > 0 && s[|s| - 1] == '\n'
  }

  /**
   * Every `[[proxies]]` header of the split text starts a line: the text
   * before each header, if any, ends with a newline.
   */
  predicate HeadersStartLines(bl: ProxyBlocks.Blocks)
  {
    && (|bl.spans| > 0 && bl.preamble != "" ==> EndsWithNewline(bl.preamble))
    && forall j :: 0 <= j < |bl.spans| - 1 ==> EndsWithNewline(bl.spans[j])
  }

  /**
   * As written, `updateProxy` puts `[[proxies]]\n` and the formatted lines in
   * place of a span that ended in the blank line before the next header. When
   * the updated block is not the last and its last line does not end in a
   * newline, the next header is glued to that line.
   */
  lemma UpdateGluesNextHeader(fs: FileSystem, name: Option<Value>, config: Fields, parse: Parser)
    requires '$' !in ProxyFormat.FormatProxy(config)
    requires ProxyBlocks.NoMarker(ProxyFormat.FormatProxy(config))
    requires !EndsWithNewline(ProxyFormat.FormatProxy(config)) && ProxyFormat.FormatProxy(config) != ""
    requires ReplaceHitsMatch(fs, name, Filtered, parse)
    requires Find(Parsed(Spans(fs[ClientPath()]), Reader(parse, Filtered)), name).value + 1 < |Spans(fs[ClientPath()])|
    ensures UpdateProxy(fs, name, config, parse).Success?
    ensures !HeadersStartLines(ProxyBlocks.Split(UpdateProxy(fs, name, config, parse).value[ClientPath()]))
  {
    var text := fs[ClientPath()];
    var k := Find(Parsed(Spans(text), Reader(parse, Filtered)), name).value;
    UpdateThenList(fs, name, config, parse);
    UpdatedBlockEnd(config);
    GluedAt(ProxyBlocks.Split(text).preamble, Spans(text), k, UpdatedBlock(config));
  }

  lemma UpdatedBlockEnd(config: Fields)
    requires !EndsWithNewline(ProxyFormat.FormatProxy(config)) && ProxyFormat.FormatProxy(config) != ""
    ensures !EndsWithNewline(UpdatedBlock(config))
  {
  }

  /** A span that is not the last and does not end a line puts the next header mid-line. */
  lemma GluedAt(pre: string, spans: seq<string>, k: nat, u: string)
    requires k + 1 < |spans| && !EndsWithNewline(u)
    ensures !HeadersStartLines(ProxyBlocks.Blocks(pre, spans[k := u]))
  {
    assert spans[k := u][k] == u;
  }

  /** Replacing a span by one that ends a line keeps every header at the start of a line. */
  lemma LinesKept(pre: string, spans: seq<string>, k: nat, a: string)
    requires k < |spans| && EndsWithNewline(a)
    requires HeadersStartLines(ProxyBlocks.Blocks(pre, spans))
    ensures HeadersStartLines(ProxyBlocks.Blocks(pre, spans[k := a]))
  {
    var after := spans[k := a];
    forall j | 0 <= j < |after| - 1 ensures EndsWithNewline(after[j]) {
      if j != k {
        assert after[j] == spans[j];
      }
    }
  }

  /**
   * `updateProxy` writing the block with a closing newline, as `addProxy`
   * does, and with its `$` escaped so that `replace` writes it as formatted.
   */
  function UpdateProxyFixed(fs: FileSystem, name: Option<Value>, config: Fields, parse: Parser): Result<FileSystem, Error>
  {
    if ClientPath() !in fs then Failure(Unreadable)
    else
      var text := fs[ClientPath()];
      match Find(Parsed(Spans(text), Reader(parse, Filtered)), name)
      case None => Failure(Thrown(NotFoundMessage))
      case Some(k) => Success(fs[ClientPath() := StringReplace.ReplaceFirst(text, Spans(text)[k], StringReplace.Escape(AddedBlock(config)))])
  }

  /**
   * Whatever the configuration, the corrected update writes the new block,
   * closing newline included, in place of the matched one, and agrees on
   * failure with the as-written update.
   */
  lemma FixedUpdateWrites(fs: FileSystem, name: Option<Value>, config: Fields, parse: Parser)
    ensures UpdateProxyFixed(fs, name, config, parse).Failure?
      ==> UpdateProxyFixed(fs, name, config, parse) == UpdateProxy(fs, name, config, parse)
    ensures ReplaceHitsMatch(fs, name, Filtered, parse) ==>
      var text := fs[ClientPath()];
      var k := Find(Parsed(Spans(text), Reader(parse, Filtered)), name).value;
      UpdateProxyFixed(fs, name, config, parse)
        == Success(fs[ClientPath() := ProxyBlocks.ReplaceSpan(text, k, AddedBlock(config))])
  {
    if ReplaceHitsMatch(fs, name, Filtered, parse) {
      var text := fs[ClientPath()];
      var k := Find(Parsed(Spans(text), Reader(parse, Filtered)), name).value;
      ProxyBlocks.ReplaceFirstIsReplaceSpan(text, k, AddedBlock(config));
    }
  }

  /**
   * With the closing newline, an update keeps every header at the start of a
   * line, and the records listed afterwards are the old ones with the matched
   * block's record replaced by the new one, as with the as-written update.
   */
  lemma FixedUpdateKeepsHeadersOnLines(fs: FileSystem, name: Option<Value>, config: Fields, parse: Parser)
    requires ProxyBlocks.NoMarker(ProxyFormat.FormatProxy(config))
    requires ReplaceHitsMatch(fs, name, Filtered, parse)
    requires HeadersStartLines(ProxyBlocks.Split(fs[ClientPath()]))
    ensures UpdateProxyFixed(fs, name, config, parse).Success?
    ensures HeadersStartLines(ProxyBlocks.Split(UpdateProxyFixed(fs, name, config, parse).value[ClientPath()]))
    ensures var parsed := Parsed(Spans(fs[ClientPath()]), Reader(parse, Filtered));
      var k := Find(parsed, name).value;
      ProxyList(UpdateProxyFixed(fs, name, config, parse).value, parse) == Records(parsed[k := NewRecord(config, parse)])
  {
    var text := fs[ClientPath()];
    var read := Reader(parse, Filtered);
    var k := Find(Parsed(Spans(text), read), name).value;
    var a := AddedBlock(config);
    FixedUpdateWrites(fs, name, config, parse);
    WrittenIsBlock(config);
    WrittenContent(config);
    ProxyBlocks.ReplaceSpanIsolated(text, k, a);
    ParsedReplaced(Spans(text), k, a, read);
    ReadsAs(a, Text.Trim(ProxyFormat.FormatProxy(config)), parse, Filtered);
    assert a[|a| - 1] == '\n';
    LinesKept(ProxyBlocks.Split(text).preamble, Spans(text), k, a);
  }

  // ---------------------------------------------------------------------------
  // `$` in a configuration

  /**
   * As written, `updateProxy` hands the formatted block to `replace` as the
   * replacement, so a `$'` in a value stands for the text after the matched
   * block: that text is copied into the new block.
   */
  lemma UpdateExpandsDollars(fs: FileSystem, name: Option<Value>, config: Fields, parse: Parser, x: string, y: string)
    requires ReplaceHitsMatch(fs, name, Filtered, parse)
    requires ProxyFormat.FormatProxy(config) == x + "$'" + y && '$' !in x
    ensures UpdateProxy(fs, name, config, parse).Success?
    ensures var text := fs[ClientPath()];
      var k := Find(Parsed(Spans(text), Reader(parse, Filtered)), name).value;
      var before, after := ProxyBlocks.TextBefore(text, k), ProxyBlocks.TextAfter(text, k);
      UpdateProxy(fs, name, config, parse).value[ClientPath()]
        == before + (ProxyBlocks.Marker + "\n" + x + after + StringReplace.Substitute(y, Spans(text)[k], before, after)) + after
  {
    var text := fs[ClientPath()];
    var k := Find(Parsed(Spans(text), Reader(parse, Filtered)), name).value;
    UpdateReplaces(fs, name, config, parse);
    ExpandedBlock(text, k, UpdatedBlock(config), x, y);
  }

  /** A matched update is `replace` of the matched block's text by the new block. */
  lemma UpdateReplaces(fs: FileSystem, name: Option<Value>, config: Fields, parse: Parser)
    requires ClientPath() in fs
    requires Find(Parsed(Spans(fs[ClientPath()]), Reader(parse, Filtered)), name).Some?
    ensures var text := fs[ClientPath()];
      var k := Find(Parsed(Spans(text), Reader(parse, Filtered)), name).value;
      UpdateProxy(fs, name, config, parse)
        == Success(fs[ClientPath() := StringReplace.ReplaceFirst(text, Spans(text)[k], UpdatedBlock(config))])
  {
  }

  /** `replace` of span k by a block whose lines hold `$'`, at the span itself. */
  lemma ExpandedBlock(s: string, k: nat, block: string, x: string, y: string)
    requires ProxyBlocks.MatchedFirst(s, k) && '$' !in x
    requires block == ProxyBlocks.Marker + "\n" + (x + "$'" + y)
    ensures var before, after := ProxyBlocks.TextBefore(s, k), ProxyBlocks.TextAfter(s, k);
      StringReplace.ReplaceFirst(s, Spans(s)[k], block)
        == before + (ProxyBlocks.Marker + "\n" + x + after + StringReplace.Substitute(y, Spans(s)[k], before, after)) + after
  {
    var bl := ProxyBlocks.Split(s);
    var before, after := ProxyBlocks.TextBefore(s, k), ProxyBlocks.TextAfter(s, k);
    var head := ProxyBlocks.Marker + "\n" + x;
    ProxyBlocks.ReplaceFirstAtSpan(s, k, block);
    assert '$' !in ProxyBlocks.Marker + "\n";
    assert block == head + ("$'" + y);
    StringReplace.SubstituteRest(head, y, bl.spans[k], before, after);
  }

  // ---------------------------------------------------------------------------
  // Deleting a proxy

  /**
   * Where filtering leaves every block's content unchanged, `deleteProxy`'s
   * unfiltered reading sees the same records as the others, so it fails
   * exactly when `getProxyConfig` finds nothing.
   */
  lemma DeleteAgreesWithGet(fs: FileSystem, name: Option<Value>, parse: Parser)
    requires ClientPath() in fs
    requires forall j :: 0 <= j < |Spans(fs[ClientPath()])| ==>
      FilterBody(Content(Spans(fs[ClientPath()])[j])) == Content(Spans(fs[ClientPath()])[j])
    ensures DeleteProxy(fs, name, parse) == Failure(Thrown(NotFoundMessage))
      <==> GetProxyConfig(fs, name, parse).None?
  {
    var spans := Spans(fs[ClientPath()]);
    var filtered := Parsed(spans, Reader(parse, Filtered));
    var unfiltered := Parsed(spans, Reader(parse, Unfiltered));
    forall j | 0 <= j < |spans| ensures filtered[j] == unfiltered[j] {
      ReadingsAgree(spans[j], name, parse);
    }
    assert filtered == unfiltered;
    FindIffFirstHit(filtered, name);
  }

  /**
   * A successful `deleteProxy` cuts out the first block whose unfiltered
   * record is named `name` and nothing else, then leaves no three newlines in
   * a row while keeping every other character in order.
   */
  lemma DeleteRemovesMatch(fs: FileSystem, name: Option<Value>, parse: Parser)
    requires ReplaceHitsMatch(fs, name, Unfiltered, parse)
    ensures DeleteProxy(fs, name, parse).Success?
    ensures var text := fs[ClientPath()];
      var parsed := Parsed(Spans(text), Reader(parse, Unfiltered));
      var k := Find(parsed, name).value;
      var cut := ProxyBlocks.ReplaceSpan(text, k, "");
      var after := DeleteProxy(fs, name, parse).value;
      && Hit(parsed[k], name) && (forall j :: 0 <= j < k ==> !Hit(parsed[j], name))
      && ProxyBlocks.Split(cut)
        == ProxyBlocks.Blocks(ProxyBlocks.Split(text).preamble, Spans(text)[..k] + Spans(text)[k + 1..])
      && after.Keys == fs.Keys
      && after[ClientPath()] == NewlineRuns.Collapse(cut)
      && NewlineRuns.NoTriple(after[ClientPath()])
      && NewlineRuns.Strip(after[ClientPath()]) == NewlineRuns.Strip(cut)
  {
    var text := fs[ClientPath()];
    var k := Find(Parsed(Spans(text), Reader(parse, Unfiltered)), name).value;
    DeleteWrites(fs, name, parse);
    CutWritten(fs, k, DeleteProxy(fs, name, parse).value);
  }

  /** The client file with span k cut out and its newline runs collapsed. */
  lemma CutWritten(fs: FileSystem, k: nat, after: FileSystem)
    requires ClientPath() in fs && k < |Spans(fs[ClientPath()])|
    requires after == fs[ClientPath() := NewlineRuns.Collapse(ProxyBlocks.ReplaceSpan(fs[ClientPath()], k, ""))]
    ensures var text := fs[ClientPath()];
      var cut := ProxyBlocks.ReplaceSpan(text, k, "");
      && ProxyBlocks.Split(cut)
        == ProxyBlocks.Blocks(ProxyBlocks.Split(text).preamble, Spans(text)[..k] + Spans(text)[k + 1..])
      && after.Keys == fs.Keys
      && after[ClientPath()] == NewlineRuns.Collapse(cut)
      && NewlineRuns.NoTriple(after[ClientPath()])
      && NewlineRuns.Strip(after[ClientPath()]) == NewlineRuns.Strip(cut)
  {
    CleanCut(fs[ClientPath()], k);
  }

  lemma DeleteWrites(fs: FileSystem, name: Option<Value>, parse: Parser)
    requires ReplaceHitsMatch(fs, name, Unfiltered, parse)
    ensures var text := fs[ClientPath()];
      var k := Find(Parsed(Spans(text), Reader(parse, Unfiltered)), name).value;
      DeleteProxy(fs, name, parse) == Success(fs[ClientPath() := NewlineRuns.Collapse(ProxyBlocks.ReplaceSpan(text, k, ""))])
  {
    var text := fs[ClientPath()];
    var k := Find(Parsed(Spans(text), Reader(parse, Unfiltered)), name).value;
    ProxyBlocks.ReplaceFirstIsReplaceSpan(text, k, "");
  }

  /** Cutting span k out and cleaning up the newline runs. */
  lemma CleanCut(text: string, k: nat)
    requires k < |ProxyBlocks.Split(text).spans|
    ensures var cut := ProxyBlocks.ReplaceSpan(text, k, "");
      var bl := ProxyBlocks.Split(text);
      && ProxyBlocks.Split(cut) == ProxyBlocks.Blocks(bl.preamble, bl.spans[..k] + bl.spans[k + 1..])
      && NewlineRuns.NoTriple(NewlineRuns.Collapse(cut))
      && NewlineRuns.Strip(NewlineRuns.Collapse(cut)) == NewlineRuns.Strip(cut)
  {
    var cut := ProxyBlocks.ReplaceSpan(text, k, "");
    ProxyBlocks.RemoveSpanIsolated(text, k);
    NewlineRuns.CollapseNoTriple(cut);
    NewlineRuns.CollapseKeepsText(cut);
  }
}
