/** The `key=value` config-file reader (`parse_config_file`). The file is
    given as the sequence of its lines, each possibly still ending in its
    newline; opening and reading the file is not modelled. */
module ConfigFile {
  import opened Text

  type Config = map<string, string>

  /** A key and its value, both already stripped. */
  type Entry = (string, string)

  /** A line whose stripped form starts with `#`. */
  predicate IsComment(line: string) {
    StartsWith(Strip(line), "#")
  }

  /** The entry one line contributes: a line counts when it holds `=` and is
      not a comment; it is split at its first `=` and both halves are stripped. */
  function ParseLine(line: string): (r: Option<Entry>)
    ensures r.Some? <==> '=' in line && !IsComment(line)
    ensures r.Some? ==> Trimmed(r.value.0) && Trimmed(r.value.1) && '=' !in r.value.0
  {
    if '=' in line && !IsComment(line) then
      StripKeepsNonSpace(line, '=');
      Some(SplitEntry(Strip(line)))
    else
      None
  }

  /** Split at the first `=` and strip both halves. */
  function SplitEntry(s: string): (e: Entry)
    requires '=' in s
    ensures Trimmed(e.0) && Trimmed(e.1) && '=' !in e.0
  {
    var parts := SplitFirst(s, '=').value;
    StripKeepsOut(parts.0, '=');
    (Strip(parts.0), Strip(parts.1))
  }

  /** The entry of every line, in file order. */
  function Entries(lines: seq<string>): (es: seq<Option<Entry>>)
    ensures |es| == |lines|
    ensures forall i :: 0 <= i < |lines| ==> es[i] == ParseLine(lines[i])
  {
    seq(|lines|, i requires 0 <= i < |lines| => ParseLine(lines[i]))
  }

  predicate Defines(entry: Option<Entry>, key: string) {
    entry.Some? && entry.value.0 == key
  }

  /** The map built from the entries one after another, a later entry for a
      key replacing an earlier one. */
  function Collect(entries: seq<Option<Entry>>): (config: Config)
    ensures forall k :: k in config ==> Some((k, config[k])) in entries
    decreases |entries|
  {
    if |entries| == 0 then map[]
    else
      var config := Collect(entries[..|entries| - 1]);
      match entries[|entries| - 1]
      case Some((key, value)) => config[key := value]
      case None => config
  }

  /** Reference definition: the index of the last entry that defines `key`. */
  function LastDefinition(entries: seq<Option<Entry>>, key: string): (r: Option<nat>)
    ensures r.Some? ==> r.value < |entries| && Defines(entries[r.value], key)
    ensures r.Some? ==> forall j :: r.value < j < |entries| ==> !Defines(entries[j], key)
    ensures r.None? ==> forall j :: 0 <= j < |entries| ==> !Defines(entries[j], key)
    decreases |entries|
  {
    if |entries| == 0 then None
    else if Defines(entries[|entries| - 1], key) then Some(|entries| - 1)
    else LastDefinition(entries[..|entries| - 1], key)
  }

  /** A key is present exactly when some entry defines it, and its value is
      the one the last such entry gives. */
  lemma {:induction false} CollectIsLastDefinition(entries: seq<Option<Entry>>, key: string)
    ensures key in Collect(entries) <==> LastDefinition(entries, key).Some?
    ensures key in Collect(entries) ==>
      entries[LastDefinition(entries, key).value] == Some((key, Collect(entries)[key]))
    decreases |entries|
  {
    if |entries| > 0 {
      CollectIsLastDefinition(entries[..|entries| - 1], key);
    }
  }

  /** The configuration `parse_config_file` returns for a file of `lines`. */
  function ParseConfig(lines: seq<string>): (config: Config)
    ensures forall k :: k in config ==> Trimmed(k) && Trimmed(config[k]) && '=' !in k
  {
    ParseConfigTrimmed(lines);
    Collect(Entries(lines))
  }

  lemma ParseConfigTrimmed(lines: seq<string>)
    ensures forall k :: k in Collect(Entries(lines)) ==>
      var config := Collect(Entries(lines));
      Trimmed(k) && Trimmed(config[k]) && '=' !in k
  {
    forall k | k in Collect(Entries(lines)) {
      CollectIsLastDefinition(Entries(lines), k);
    }
  }

  /** Key set of the configuration: exactly the keys of contributing lines;
      blank lines, lines without `=` and comment lines add nothing. */
  lemma ParseConfigKeys(lines: seq<string>, key: string)
    ensures key in ParseConfig(lines) <==>
      exists i :: 0 <= i < |lines| && Defines(ParseLine(lines[i]), key)
  {
    var es := Entries(lines);
    CollectIsLastDefinition(es, key);
    if exists i :: 0 <= i < |lines| && Defines(ParseLine(lines[i]), key) {
      var i :| 0 <= i < |lines| && Defines(ParseLine(lines[i]), key);
      assert Defines(es[i], key);
    }
  }

  /** Last write wins: the stored value of a key is the value on the last
      line that defines it. */
  lemma ParseConfigLastWins(lines: seq<string>, key: string)
    ensures key in ParseConfig(lines) ==> exists i ::
      && 0 <= i < |lines|
      && ParseLine(lines[i]) == Some((key, ParseConfig(lines)[key]))
      && (forall j :: i < j < |lines| ==> !Defines(ParseLine(lines[j]), key))
  {
    var es := Entries(lines);
    CollectIsLastDefinition(es, key);
    if key in ParseConfig(lines) {
      var i := LastDefinition(es, key).value;
      assert forall j :: i < j < |lines| ==> !Defines(es[j], key);
    }
  }

  /** Stated directly on the text of a line: for `a + "=" + b` with no `=` in
      `a`, the key is `a` stripped and the value is `b` stripped, whatever `b`
      holds (further `=` or `#` included). */
  lemma ParseLineSplitsAtFirstEquals(a: string, b: string)
    requires '=' !in a
    requires !IsComment(a + "=" + b)
    ensures ParseLine(a + "=" + b) == Some((Strip(a), Strip(b)))
  {
    var line := a + "=" + b;
    var ta, tb := TrimStart(a), TrimEnd(b);
    assert line == a + ['='] + b;
    assert '=' in line by { assert line[|a|] == '='; }
    StripAround(a, '=', b);
    StripKeepsOut(a, '=');
    SplitBeforeFirst(ta, '=', tb);
    ParseLineContributes(line);
    StripAfterTrimStart(a);
    StripAfterTrimEnd(b);
  }

  /** A contributing line yields the split of its stripped form. */
  lemma ParseLineContributes(line: string)
    requires '=' in line && !IsComment(line)
    ensures '=' in Strip(line)
    ensures ParseLine(line) == Some(SplitEntry(Strip(line)))
  {
    StripKeepsNonSpace(line, '=');
  }

  /** A `key=value` line with nothing but whitespace after the value (its
      newline, say) yields the key and the value as written. */
  lemma ParseKeyValueLine(key: string, value: string, end: string)
    requires |key| > 0 && Trimmed(key) && key[0] != '#' && '=' !in key
    requires Trimmed(value) && AllSpace(end)
    ensures ParseLine(key + "=" + value + end) == Some((key, value))
  {
    var line := key + "=" + value + end;
    assert line == key + ['='] + (value + end);
    StripAround(key, '=', value + end);
    assert TrimStart(key) == key;
    assert Strip(line)[0] == key[0];
    assert line == key + "=" + (value + end);
    ParseLineSplitsAtFirstEquals(key, value + end);
    StripTrimmed(key);
    if |value| == 0 {
      assert value + end == end;
      AllSpaceTrimsToEmpty(end);
    } else {
      assert TrimStart(value + end) == value + end;
      TrimEndSpaces(value, end);
    }
  }

  /** A sample file: three settings, a comment, and a last line without a
      newline. */
  const ExampleLines: seq<string> :=
    ["tmin=100\n", "tmax=300\n", "tstep=100\n", "# comment\n", "binary=/opt/sim"]

  /** What each line of `ExampleLines` contributes. */
  const ExampleEntries: seq<Option<Entry>> :=
    [Some(("tmin", "100")), Some(("tmax", "300")), Some(("tstep", "100")), None, Some(("binary", "/opt/sim"))]

  /** The four `key=value` lines of `ExampleLines`. */
  lemma ExampleSettingLine(i: nat)
    requires i < |ExampleLines| && i != 3
    ensures ParseLine(ExampleLines[i]) == ExampleEntries[i]
  {
    if i == 0 {
      assert ExampleLines[0] == "tmin" + "=" + "100" + "\n";
      ParseKeyValueLine("tmin", "100", "\n");
    } else if i == 1 {
      assert ExampleLines[1] == "tmax" + "=" + "300" + "\n";
      ParseKeyValueLine("tmax", "300", "\n");
    } else if i == 2 {
      assert ExampleLines[2] == "tstep" + "=" + "100" + "\n";
      ParseKeyValueLine("tstep", "100", "\n");
    } else {
      assert ExampleLines[4] == "binary" + "=" + "/opt/sim" + "";
      ParseKeyValueLine("binary", "/opt/sim", "");
    }
  }

  /** The comment line of `ExampleLines` holds no `=` and contributes nothing. */
  lemma ExampleCommentLine()
    ensures ParseLine(ExampleLines[3]) == None
  {
    assert forall j :: 0 <= j < |ExampleLines[3]| ==> ExampleLines[3][j] != '=';
  }

  lemma CollectExample(es: seq<Option<Entry>>)
    requires es == ExampleEntries
    ensures Collect(es) == map["tmin" := "100", "tmax" := "300", "tstep" := "100", "binary" := "/opt/sim"]
  {
    CollectAppend([], es[0]);
    assert [] + [es[0]] == es[..1];
    CollectAppend(es[..1], es[1]);
    assert es[..1] + [es[1]] == es[..2];
    CollectAppend(es[..2], es[2]);
    assert es[..2] + [es[2]] == es[..3];
    CollectAppend(es[..3], es[3]);
    assert es[..3] + [es[3]] == es[..4];
    CollectAppend(es[..4], es[4]);
    assert es[..4] + [es[4]] == es;
  }

  /** The comment contributes nothing, and the other lines give exactly
      their keys and values. */
  lemma ParseConfigExample()
    ensures ParseConfig(ExampleLines) ==
      map["tmin" := "100", "tmax" := "300", "tstep" := "100", "binary" := "/opt/sim"]
  {
    var es := Entries(ExampleLines);
    forall i | 0 <= i < |ExampleLines|
      ensures es[i] == ExampleEntries[i]
    {
      if i == 3 {
        ExampleCommentLine();
      } else {
        ExampleSettingLine(i);
      }
    }
    CollectExample(es);
  }

  /** The reader's loop as written: one pass over the lines, updating a map. */
  method ParseConfigFile(lines: seq<string>) returns (config: Config)
    ensures config == ParseConfig(lines)
    ensures forall key :: key in config <==> LastDefinition(Entries(lines), key).Some?
    ensures forall key :: key in config ==>
      ParseLine(lines[LastDefinition(Entries(lines), key).value]) == Some((key, config[key]))
  {
    config := map[];
    ghost var es := Entries(lines);
    for i := 0 to |lines|
      invariant config == Collect(es[..i])
    {
      var line := lines[i];
      assert es[..i + 1] == es[..i] + [ParseLine(line)];
      if '=' in line && !IsComment(line) {
        ParseLineContributes(line);
        var (key, value) := SplitEntry(Strip(line));
        config := config[key := value];
      }
      CollectAppend(es[..i], ParseLine(line));
    }
    assert es[..|lines|] == es;
    ParseConfigAgrees(lines);
  }

  lemma CollectAppend(entries: seq<Option<Entry>>, e: Option<Entry>)
    ensures Collect(entries + [e]) ==
      match e
      case Some((key, value)) => Collect(entries)[key := value]
      case None => Collect(entries)
  {
    assert (entries + [e])[..|entries|] == entries;
  }

  lemma ParseConfigAgrees(lines: seq<string>)
    ensures forall key :: key in ParseConfig(lines) <==> LastDefinition(Entries(lines), key).Some?
    ensures forall key :: key in ParseConfig(lines) ==>
      ParseLine(lines[LastDefinition(Entries(lines), key).value]) == Some((key, ParseConfig(lines)[key]))
  {
    var es := Entries(lines);
    forall key | true
      ensures key in Collect(es) <==> LastDefinition(es, key).Some?
      ensures key in Collect(es) ==> es[LastDefinition(es, key).value] == Some((key, Collect(es)[key]))
    {
      CollectIsLastDefinition(es, key);
    }
  }
}
