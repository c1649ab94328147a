/** The `.assistant_config` file shared by the assistant scripts: written once by the setup
    script as `KEY=value` lines among comments, and read back by a line-by-line parser that
    is identical in the three scripts that use the assistant. */
module AssistantConfig {
  import opened Wrappers
  import opened Strings

  type Config = map<string, string>

  /** `s.split(c, 1)` when `c` occurs in `s`: the text before the first `c` and the rest. */
  function SplitFirst(s: string, c: char): (parts: (string, string))
    requires c in s
    ensures parts.0 + [c] + parts.1 == s
    ensures c !in parts.0
  {
    var n := IndexOf(s, c);
    assert s[..n] + [c] + s[n + 1..] == s;
    (s[..n], s[n + 1..])
  }

  /** `line.startswith('#')`, on the line as read, before any stripping. */
  predicate StartsWithHash(line: string) {
    |line| > 0 && line[0] == '#'
  }

  /** The key and value one line contributes, if any. */
  function LineEntry(line: string): (e: Option<(string, string)>)
    ensures e.Some? <==> '=' in line && !StartsWithHash(line)
  {
    if '=' in line && !StartsWithHash(line) then
      StripKeeps(line, '=');
      Some(SplitFirst(Strip(line), '='))
    else None
  }

  /** An entry splits the stripped line at its first `=`: the key holds no `=` and the
      value is everything after it. */
  lemma LineEntrySplits(line: string)
    requires LineEntry(line).Some?
    ensures var e := LineEntry(line).value; e.0 + "=" + e.1 == Strip(line) && '=' !in e.0
  {
    StripKeeps(line, '=');
  }

  /** The dictionary after storing, in order, the entries that are present. */
  function Build(entries: seq<Option<(string, string)>>): Config {
    if entries == [] then map[]
    else
      var config := Build(entries[..|entries| - 1]);
      var e := entries[|entries| - 1];
      if e.Some? then config[e.value.0 := e.value.1] else config
  }

  lemma BuildStep(entries: seq<Option<(string, string)>>, k: int)
    requires 0 <= k < |entries|
    ensures Build(entries[..k + 1]) ==
      if entries[k].Some? then Build(entries[..k])[entries[k].value.0 := entries[k].value.1]
      else Build(entries[..k])
  {
    assert entries[..k + 1][..k] == entries[..k];
  }

  /** The entry of line `i`, one per line. */
  function Entries(lines: seq<string>): (entries: seq<Option<(string, string)>>)
    ensures |entries| == |lines| && forall i :: 0 <= i < |lines| ==> entries[i] == LineEntry(lines[i])
  {
    seq(|lines|, i requires 0 <= i < |lines| => LineEntry(lines[i]))
  }

  /** The dictionary `load_assistant_config` returns for the lines of the file. */
  function ConfigOf(lines: seq<string>): Config {
    Build(Entries(lines))
  }

  /** Entry `i` sets `key`. */
  predicate SetsAt(entries: seq<Option<(string, string)>>, i: int, key: string) {
    0 <= i < |entries| && entries[i].Some? && entries[i].value.0 == key
  }

  lemma {:induction false} BuildHasKey(entries: seq<Option<(string, string)>>, key: string)
    ensures key in Build(entries) <==> exists i :: SetsAt(entries, i, key)
  {
    if entries != [] {
      var n := |entries| - 1;
      var init := entries[..n];
      BuildHasKey(init, key);
      BuildStep(entries, n);
      assert entries[..n + 1] == entries;
      assert forall j :: 0 <= j < n ==> (SetsAt(init, j, key) <==> SetsAt(entries, j, key));
      if key in Build(init) {
        var i :| SetsAt(init, i, key);
        assert SetsAt(entries, i, key);
      }
      if entries[n].Some? && entries[n].value.0 == key {
        assert SetsAt(entries, n, key);
      }
      if exists i :: SetsAt(entries, i, key) {
        var i :| SetsAt(entries, i, key);
        if i < n {
          assert SetsAt(init, i, key);
        }
      }
    }
  }

  lemma {:induction false} BuildLastWins(entries: seq<Option<(string, string)>>, key: string, i: int)
    requires SetsAt(entries, i, key)
    requires forall j :: i < j < |entries| ==> !SetsAt(entries, j, key)
    ensures key in Build(entries) && Build(entries)[key] == entries[i].value.1
  {
    var n := |entries| - 1;
    var init := entries[..n];
    if i < n {
      assert forall j :: 0 <= j < n ==> (SetsAt(init, j, key) <==> SetsAt(entries, j, key));
      BuildLastWins(init, key, i);
      assert !SetsAt(entries, n, key);
    }
  }

  /** Line `i` of `lines` sets `key`. */
  predicate DefinesAt(lines: seq<string>, i: int, key: string) {
    0 <= i < |lines| && LineEntry(lines[i]).Some? && LineEntry(lines[i]).value.0 == key
  }

  /** A key is in the dictionary iff some line sets it. */
  lemma ConfigHasKey(lines: seq<string>, key: string)
    ensures key in ConfigOf(lines) <==> exists i :: DefinesAt(lines, i, key)
  {
    var es := Entries(lines);
    BuildHasKey(es, key);
    assert forall i :: SetsAt(es, i, key) <==> DefinesAt(lines, i, key);
  }

  /** The value of a key is the one set by the last line that sets it: a later line
      overwrites an earlier one. */
  lemma ConfigLastWins(lines: seq<string>, key: string, i: int)
    requires DefinesAt(lines, i, key)
    requires forall j :: i < j < |lines| ==> !DefinesAt(lines, j, key)
    ensures key in ConfigOf(lines) && ConfigOf(lines)[key] == LineEntry(lines[i]).value.1
  {
    var es := Entries(lines);
    assert forall j :: SetsAt(es, j, key) <==> DefinesAt(lines, j, key);
    BuildLastWins(es, key, i);
  }

  /** `load_assistant_config`: `None` where the script exits because the file is missing;
      otherwise the dictionary filled line by line from the file's text. */
  method LoadAssistantConfig(file: Option<string>) returns (config: Option<Config>)
    ensures file.None? ==> config.None?
    ensures file.Some? ==> config == Some(ConfigOf(Lines(file.value)))
  {
    if file.None? {
      return None;
    }
    var lines := Lines(file.value);
    ghost var entries := Entries(lines);
    var dict: Config := map[];
    for i := 0 to |lines|
      invariant dict == Build(entries[..i])
    {
      BuildStep(entries, i);
      var line := lines[i];
      if '=' in line && !(|line| > 0 && line[0] == '#') {
        StripKeeps(line, '=');
        var parts := SplitFirst(Strip(line), '=');
        dict := dict[parts.0 := parts.1];
      }
    }
    assert entries[..|lines|] == entries;
    return Some(dict);
  }

  /** `config['ASSISTANT_ID']` and `config['THREAD_ID']`; `None` where a lookup raises
      `KeyError`. */
  function AssistantAndThread(config: Config): (ids: Option<(string, string)>)
    ensures ids.Some? <==> "ASSISTANT_ID" in config && "THREAD_ID" in config
    ensures ids.Some? ==> ids.value == (config["ASSISTANT_ID"], config["THREAD_ID"])
  {
    if "ASSISTANT_ID" in config && "THREAD_ID" in config then
      Some((config["ASSISTANT_ID"], config["THREAD_ID"]))
    else None
  }

  // ---------------------------------------------------------------------------------------
  // The writer: `save_assistant_config`.

  /** `vector_store_id if vector_store_id else "none"`: a missing or empty id is `none`. */
  function VectorStoreField(vectorStoreId: Option<string>): (f: string)
    ensures f == "none" <==> vectorStoreId.None? || vectorStoreId.value == [] || vectorStoreId.value == "none"
    ensures f != "none" ==> vectorStoreId == Some(f)
  {
    if vectorStoreId.Some? && vectorStoreId.value != [] then vectorStoreId.value else "none"
  }

  /** A line of the saved text: its body and a newline. */
  function Line(body: string): string {
    body + "\n"
  }

  /** Each body as a line of its own. */
  function Lined(bodies: seq<string>): (ls: seq<string>)
    ensures |ls| == |bodies| && forall i :: 0 <= i < |bodies| ==> ls[i] == Line(bodies[i])
  {
    seq(|bodies|, i requires 0 <= i < |bodies| => Line(bodies[i]))
  }

  const TitleComment := "# OpenAI Assistant Configuration"
  const ProjectComment := "# ChekMate Quality Assistant"
  const UsageComment := "# Usage:"
  const UsageScript := "# python use_assistant.py"
  const UsageFlag := " --message "
  const UsageMessage := "\"Analyze figma_home.png and fix colors\""
  const UsageCommand := UsageScript + UsageFlag + UsageMessage

  /** The bodies of the nine lines `save_assistant_config` writes. */
  function ConfigBodies(assistantId: string, threadId: string, vectorStoreId: Option<string>): seq<string> {
    [ TitleComment,
      ProjectComment,
      "",
      "ASSISTANT_ID" + "=" + assistantId,
      "THREAD_ID" + "=" + threadId,
      "VECTOR_STORE_ID" + "=" + VectorStoreField(vectorStoreId),
      "",
      UsageComment,
      UsageCommand ]
  }

  /** The text `save_assistant_config` writes. */
  function ConfigText(assistantId: string, threadId: string, vectorStoreId: Option<string>): string {
    Concat(Lined(ConfigBodies(assistantId, threadId, vectorStoreId)))
  }

  /** An id that survives the trip: it has no line break (`\n`, or `\r`, which a text-mode
      read also takes for one) and does not end in whitespace. */
  predicate SafeId(id: string) {
    '\n' !in id && '\r' !in id && (id == [] || !IsSpace(id[|id| - 1]))
  }

  /** A line that is not a comment and strips to `key=value`, with no `=` in the key, gives
      that key and value. */
  lemma EntryOfStripped(line: string, key: string, value: string)
    requires !StartsWithHash(line) && Strip(line) == key + "=" + value && '=' !in key
    ensures LineEntry(line) == Some((key, value))
  {
    SplitAtKey(key, value);
    StrippedInLine(line, '=');
  }

  /** Splitting `key=value` at its first `=` gives the key and the value back when the key
      holds no `=`. */
  lemma SplitAtKey(key: string, value: string)
    requires '=' !in key
    ensures '=' in key + "=" + value && SplitFirst(key + "=" + value, '=') == (key, value)
  {
    var x := key + "=" + value;
    assert x[|key|] == '=';
    forall k | 0 <= k < |key| ensures x[k] != '=' {
      assert x[k] == key[k];
    }
    IndexOfFirst(x, '=', |key|);
    assert x[..|key|] == key && x[|key| + 1..] == value;
  }

  /** A character of the stripped line is a character of the line. */
  lemma StrippedInLine(line: string, c: char)
    requires c in Strip(line)
    ensures c in line
  {
    StripBoth(line);
    SliceMember(line, Strip(line), |line| - |StripLeft(line)|, c);
  }

  /** A `KEY=value` line reads back as that key and value. */
  lemma KeyLine(key: string, value: string)
    requires WellFormedKey(key) && SafeId(value)
    ensures LineEntry(Line(key + "=" + value)) == Some((key, value))
  {
    KeyValueEdges(key, value);
    StripLine(key + "=" + value);
    KeyNotComment(key, value);
    EntryOfStripped(Line(key + "=" + value), key, value);
  }

  lemma KeyNotComment(key: string, value: string)
    requires key != [] && key[0] != '#'
    ensures !StartsWithHash(Line(key + "=" + value))
  {
    assert Line(key + "=" + value)[0] == key[0];
  }

  /** The `#` test is made before stripping: an indented line gives an entry even when its
      first visible character is `#`, and the indentation is not part of the key. */
  lemma IndentedHashLineParsed(pad: string, key: string, value: string)
    requires pad != [] && forall k :: 0 <= k < |pad| ==> IsSpace(pad[k])
    requires key != [] && key[0] == '#' && '=' !in key && SafeId(value)
    ensures LineEntry(pad + Line(key + "=" + value)) == Some((key, value))
  {
    KeyValueEdges(key, value);
    IndentedStrip(pad, key + "=" + value);
    PaddedNotComment(pad, Line(key + "=" + value));
    EntryOfStripped(pad + Line(key + "=" + value), key, value);
  }

  lemma IndentedStrip(pad: string, x: string)
    requires forall k :: 0 <= k < |pad| ==> IsSpace(pad[k])
    requires x != [] && !IsSpace(x[0]) && !IsSpace(x[|x| - 1])
    ensures Strip(pad + Line(x)) == x
  {
    StripIndentedLine(pad, x);
    assert pad + Line(x) == pad + x + "\n";
  }

  /** `key=value` neither starts nor ends with whitespace when the key starts with a visible
      character and the value is safe. */
  lemma KeyValueEdges(key: string, value: string)
    requires key != [] && !IsSpace(key[0]) && SafeId(value)
    ensures var x := key + "=" + value; x != [] && !IsSpace(x[0]) && !IsSpace(x[|x| - 1])
  {
    var x := key + "=" + value;
    assert x[0] == key[0];
    assert x[|x| - 1] == if value == [] then '=' else value[|value| - 1];
  }

  /** A line that starts with whitespace is not a comment. */
  lemma PaddedNotComment(pad: string, rest: string)
    requires pad != [] && IsSpace(pad[0])
    ensures !StartsWithHash(pad + rest)
  {
    assert (pad + rest)[0] == pad[0];
  }

  /** Only the whole line is stripped: spaces around `=` stay in the key and the value. */
  lemma SpacesAroundEqualsKept(key: string, value: string)
    requires WellFormedKey(key) && SafeId(value) && value != []
    ensures LineEntry(Line(key + " = " + value)) == Some((key + " ", " " + value))
  {
    assert key + " = " + value == (key + " ") + "=" + (" " + value);
    assert (key + " ")[0] == key[0];
    assert (" " + value)[|value|] == value[|value| - 1];
    KeyLine(key + " ", " " + value);
  }

  /** The split is at the first `=` only: a value may itself contain `=`. */
  lemma ValueKeepsEquals(key: string, v1: string, v2: string)
    requires WellFormedKey(key) && '\n' !in v1 && '\r' !in v1 && SafeId(v2)
    ensures LineEntry(Line(key + "=" + (v1 + "=" + v2))) == Some((key, v1 + "=" + v2))
  {
    var v := v1 + "=" + v2;
    if v2 != [] {
      assert v[|v| - 1] == v2[|v2| - 1];
    }
    KeyLine(key, v);
  }

  /** Text without a newline, followed by one, is one line. */
  lemma TextLine(body: string)
    requires '\n' !in body
    ensures IsLine(Line(body)) && Line(body)[|body|] == '\n'
  {
    forall k | 0 <= k < |body| ensures (body + "\n")[k] != '\n' {
      assert (body + "\n")[k] == body[k];
    }
  }

  /** Bodies without newlines come back, one per line, from their concatenated lines. */
  lemma LinedLines(bodies: seq<string>)
    requires forall i :: 0 <= i < |bodies| ==> '\n' !in bodies[i]
    ensures Lines(Concat(Lined(bodies))) == Lined(bodies)
  {
    var ls := Lined(bodies);
    forall i | 0 <= i < |ls| ensures IsLine(ls[i]) && ls[i][|ls[i]| - 1] == '\n' {
      TextLine(bodies[i]);
    }
    LinesOfConcat(ls);
  }

  /** The fixed lines of the saved text hold no newline. */
  lemma CommentsNoNewline()
    ensures '\n' !in TitleComment && '\n' !in ProjectComment && '\n' !in UsageComment
    ensures '\n' !in UsageCommand
  {
    assert '\n' !in UsageScript && '\n' !in UsageFlag && '\n' !in UsageMessage;
    assert '\n' !in UsageScript + UsageFlag;
  }

  lemma KeyValueNoNewline(key: string, value: string)
    requires '\n' !in key && '\n' !in value
    ensures '\n' !in key + "=" + value
  {
  }

  lemma ConfigBodiesNoNewline(assistantId: string, threadId: string, vectorStoreId: Option<string>)
    requires SafeId(assistantId) && SafeId(threadId)
    requires vectorStoreId.Some? ==> SafeId(vectorStoreId.value)
    ensures var bs := ConfigBodies(assistantId, threadId, vectorStoreId);
      forall i :: 0 <= i < |bs| ==> '\n' !in bs[i]
  {
    CommentsNoNewline();
    KeyValueNoNewline("ASSISTANT_ID", assistantId);
    KeyValueNoNewline("THREAD_ID", threadId);
    KeyValueNoNewline("VECTOR_STORE_ID", VectorStoreField(vectorStoreId));
  }

  /** The saved text splits back into its nine lines. */
  lemma ConfigTextLines(assistantId: string, threadId: string, vectorStoreId: Option<string>)
    requires SafeId(assistantId) && SafeId(threadId)
    requires vectorStoreId.Some? ==> SafeId(vectorStoreId.value)
    ensures Lines(ConfigText(assistantId, threadId, vectorStoreId)) == Lined(ConfigBodies(assistantId, threadId, vectorStoreId))
  {
    ConfigBodiesNoNewline(assistantId, threadId, vectorStoreId);
    LinedLines(ConfigBodies(assistantId, threadId, vectorStoreId));
  }

  lemma NoEntry(line: string)
    requires StartsWithHash(line) || '=' !in line
    ensures LineEntry(line) == None
  {
  }

  /** The comment and blank lines carry no entry. */
  lemma CommentsNoEntry()
    ensures LineEntry(Line(TitleComment)) == None && LineEntry(Line(ProjectComment)) == None
    ensures LineEntry(Line(UsageComment)) == None
    ensures LineEntry(Line(UsageCommand)) == None
  {
    NoEntry(Line(TitleComment));
    NoEntry(Line(ProjectComment));
    NoEntry(Line(UsageComment));
    assert Line(UsageCommand)[0] == UsageScript[0] == '#';
    NoEntry(Line(UsageCommand));
  }

  lemma BlankNoEntry(body: string)
    requires body == []
    ensures LineEntry(Line(body)) == None
  {
    assert Line(body) == "\n";
  }

  predicate WellFormedKey(key: string) {
    key != [] && key[0] != '#' && !IsSpace(key[0]) && '=' !in key
  }

  lemma KeysWellFormed()
    ensures WellFormedKey("ASSISTANT_ID") && WellFormedKey("THREAD_ID")
    ensures WellFormedKey("VECTOR_STORE_ID")
  {
  }

  /** The comment and blank lines of the saved text carry no entry. */
  lemma ConfigCommentEntries(assistantId: string, threadId: string, vectorStoreId: Option<string>)
    ensures var es := Entries(Lined(ConfigBodies(assistantId, threadId, vectorStoreId)));
      |es| == 9 && es[0].None? && es[1].None? && es[2].None? && es[6].None? && es[7].None?
      && es[8].None?
  {
    var bs := ConfigBodies(assistantId, threadId, vectorStoreId);
    CommentsNoEntry();
    BlankNoEntry(bs[2]);
    BlankNoEntry(bs[6]);
  }

  lemma VectorStoreSafe(vectorStoreId: Option<string>)
    requires vectorStoreId.Some? ==> SafeId(vectorStoreId.value)
    ensures SafeId(VectorStoreField(vectorStoreId))
  {
    assert SafeId("none");
  }

  lemma KeyEntryAt(bodies: seq<string>, i: nat, key: string, value: string)
    requires i < |bodies| && bodies[i] == key + "=" + value
    requires WellFormedKey(key) && SafeId(value)
    ensures Entries(Lined(bodies))[i] == Some((key, value))
  {
    KeyLine(key, value);
  }

  /** The three `KEY=value` lines of the saved text carry their ids. */
  lemma ConfigKeyEntries(assistantId: string, threadId: string, vectorStoreId: Option<string>)
    requires SafeId(assistantId) && SafeId(threadId)
    requires vectorStoreId.Some? ==> SafeId(vectorStoreId.value)
    ensures var es := Entries(Lined(ConfigBodies(assistantId, threadId, vectorStoreId)));
      |es| == 9 && es[3] == Some(("ASSISTANT_ID", assistantId)) && es[4] == Some(("THREAD_ID", threadId))
      && es[5] == Some(("VECTOR_STORE_ID", VectorStoreField(vectorStoreId)))
  {
    KeysWellFormed();
    IdEntries(assistantId, threadId, vectorStoreId);
    VectorStoreEntry(assistantId, threadId, vectorStoreId);
  }

  lemma IdEntries(assistantId: string, threadId: string, vectorStoreId: Option<string>)
    requires SafeId(assistantId) && SafeId(threadId)
    requires WellFormedKey("ASSISTANT_ID") && WellFormedKey("THREAD_ID")
    ensures var es := Entries(Lined(ConfigBodies(assistantId, threadId, vectorStoreId)));
      es[3] == Some(("ASSISTANT_ID", assistantId)) && es[4] == Some(("THREAD_ID", threadId))
  {
    AssistantEntry(assistantId, threadId, vectorStoreId);
    ThreadEntry(assistantId, threadId, vectorStoreId);
  }

  lemma AssistantEntry(assistantId: string, threadId: string, vectorStoreId: Option<string>)
    requires SafeId(assistantId) && WellFormedKey("ASSISTANT_ID")
    ensures Entries(Lined(ConfigBodies(assistantId, threadId, vectorStoreId)))[3] == Some(("ASSISTANT_ID", assistantId))
  {
    var bs := ConfigBodies(assistantId, threadId, vectorStoreId);
    KeyEntryAt(bs, 3, "ASSISTANT_ID", assistantId);
  }

  lemma ThreadEntry(assistantId: string, threadId: string, vectorStoreId: Option<string>)
    requires SafeId(threadId) && WellFormedKey("THREAD_ID")
    ensures Entries(Lined(ConfigBodies(assistantId, threadId, vectorStoreId)))[4] == Some(("THREAD_ID", threadId))
  {
    var bs := ConfigBodies(assistantId, threadId, vectorStoreId);
    KeyEntryAt(bs, 4, "THREAD_ID", threadId);
  }

  lemma VectorStoreEntry(assistantId: string, threadId: string, vectorStoreId: Option<string>)
    requires vectorStoreId.Some? ==> SafeId(vectorStoreId.value)
    requires WellFormedKey("VECTOR_STORE_ID")
    ensures var es := Entries(Lined(ConfigBodies(assistantId, threadId, vectorStoreId)));
      es[5] == Some(("VECTOR_STORE_ID", VectorStoreField(vectorStoreId)))
  {
    var bs := ConfigBodies(assistantId, threadId, vectorStoreId);
    VectorStoreSafe(vectorStoreId);
    KeyEntryAt(bs, 5, "VECTOR_STORE_ID", VectorStoreField(vectorStoreId));
  }

  /** Nine entries of which only the fourth, fifth and sixth are present build the map of
      those three. */
  lemma BuildNine(es: seq<Option<(string, string)>>)
    requires |es| == 9 && es[0].None? && es[1].None? && es[2].None? && es[6].None?
    requires es[7].None? && es[8].None?
    requires es[3].Some? && es[4].Some? && es[5].Some?
    ensures Build(es) == map[][es[3].value.0 := es[3].value.1][es[4].value.0 := es[4].value.1]
      [es[5].value.0 := es[5].value.1]
  {
    assert es[..0] == [];
    BuildStep(es, 0);
    BuildStep(es, 1);
    BuildStep(es, 2);
    BuildStep(es, 3);
    BuildStep(es, 4);
    BuildStep(es, 5);
    BuildStep(es, 6);
    BuildStep(es, 7);
    BuildStep(es, 8);
    assert es[..9] == es;
  }

  /** Reading back what `save_assistant_config` wrote gives exactly the three ids, the
      vector store as `none` when it was missing or empty. */
  lemma ConfigRoundTrip(assistantId: string, threadId: string, vectorStoreId: Option<string>)
    requires SafeId(assistantId) && SafeId(threadId)
    requires vectorStoreId.Some? ==> SafeId(vectorStoreId.value)
    ensures ConfigOf(Lines(ConfigText(assistantId, threadId, vectorStoreId))) ==
      map["ASSISTANT_ID" := assistantId, "THREAD_ID" := threadId,
          "VECTOR_STORE_ID" := VectorStoreField(vectorStoreId)]
  {
    ConfigTextLines(assistantId, threadId, vectorStoreId);
    ConfigCommentEntries(assistantId, threadId, vectorStoreId);
    ConfigKeyEntries(assistantId, threadId, vectorStoreId);
    BuildNine(Entries(Lined(ConfigBodies(assistantId, threadId, vectorStoreId))));
  }
}
