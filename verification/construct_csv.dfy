/** The transcript-to-CSV builder: listing the raw transcripts, cleaning their
    lines, validating the prompted names, and writing one CSV row per
    transcript line with the running topic and the bracketed name/timestamp
    prefix split off. Directory listings and file contents are inputs; the
    output file is an append-only sequence of written chunks. */
module ConstructCsv {
  import opened PyText
  import opened Validation
  import opened CsvReader

  const TOPIC_HEADER: string := "TOPIC:"
  /** The keys of one transcript's record: its group, its datatype, its lines. */
  const DIC: seq<string> := ["group", "datatype", "text"]
  /** The cells a bracketed `[name,timestamp]` prefix fills. */
  const LINE_HEADER: seq<string> := ["name", "timestamp"]
  const CSV_HEADER: string := Join(DIC[..2] + ["topic"] + LINE_HEADER + [DIC[2]], ',') + "\n"

  /** One transcript as `construct_csv` collects it: the prompted group and
      datatype and the cleaned lines of the file. */
  datatype SourceFile = SourceFile(group: string, dataType: string, lines: seq<string>)

  // ---------------------------------------------------------------------
  // find_files

  /** The names of `listing` that `find_files` keeps, in listing order. */
  function FilesWithExtension(listing: seq<string>, extension: string): (files: seq<string>)
    ensures |files| <= |listing|
    ensures forall f :: f in files <==> f in listing && (EndsWith(f, extension) || extension == "*")
  {
    if listing == [] then []
    else
      var last := listing[|listing| - 1];
      assert listing == listing[..|listing| - 1] + [last];
      FilesWithExtension(listing[..|listing| - 1], extension)
        + (if EndsWith(last, extension) || extension == "*" then [last] else [])
  }

  /** Filtering a listing in two parts gives the two filtered parts in
      order: `find_files` never reorders names. */
  lemma {:induction false} FilesWithExtensionAppend(a: seq<string>, b: seq<string>, extension: string)
    ensures FilesWithExtension(a + b, extension)
            == FilesWithExtension(a, extension) + FilesWithExtension(b, extension)
    decreases |b|
  {
    if b == [] {
      assert a + b == a;
    } else {
      var b' := b[..|b| - 1];
      assert (a + b)[..|a + b| - 1] == a + b';
      assert (a + b)[|a + b| - 1] == b[|b| - 1];
      FilesWithExtensionAppend(a, b', extension);
    }
  }

  /** `find_files(location, extension)` over the listing `os.listdir(location)`. */
  method FindFiles(listing: seq<string>, extension: string) returns (files: seq<string>)
    ensures files == FilesWithExtension(listing, extension)
  {
    files := [];
    for i := 0 to |listing|
      invariant files == FilesWithExtension(listing[..i], extension)
    {
      var file := listing[i];
      assert listing[..i + 1] == listing[..i] + [file];
      if EndsWith(file, extension) || extension == "*" {
        files := files + [file];
      }
    }
    assert listing[..|listing|] == listing;
  }

  // ---------------------------------------------------------------------
  // load_textfile

  /** What every kept line looks like: not empty, no quotation mark, and
      no whitespace at either end. */
  predicate IsClean(s: string) {
    s != [] && '"' !in s && !IsSpace(s[0]) && !IsSpace(s[|s| - 1])
  }

  /** A line with its quotation marks deleted and its surrounding
      whitespace trimmed. */
  function CleanLine(line: string): (r: string)
    ensures r != [] ==> IsClean(r)
  {
    var unquoted := RemoveChar(line, '"');
    var r := Strip(unquoted);
    assert forall c :: c in r ==> c in unquoted;
    r
  }

  /** The lines `load_textfile` keeps: the cleaned lines that are not empty. */
  function CleanLines(lines: seq<string>): (data: seq<string>)
    ensures |data| <= |lines|
  {
    if lines == [] then [] else CleanLines(lines[..|lines| - 1]) + Kept(lines[|lines| - 1])
  }

  /** What one line contributes: its cleaned form, unless that is empty. */
  function Kept(line: string): (kept: seq<string>)
    ensures |kept| <= 1
  {
    var clean := CleanLine(line);
    if clean != [] then [clean] else []
  }

  /** Every line `load_textfile` keeps is non-empty, free of quotation
      marks and trimmed at both ends. */
  lemma {:induction false} CleanLinesAreClean(lines: seq<string>)
    ensures forall k :: 0 <= k < |CleanLines(lines)| ==> IsClean(CleanLines(lines)[k])
  {
    if lines != [] {
      CleanLinesAreClean(lines[..|lines| - 1]);
    }
  }

  /** Kept lines stay in file order: cleaning a file in two parts gives the
      two cleaned parts one after the other. */
  lemma {:induction false} CleanLinesAppend(a: seq<string>, b: seq<string>)
    ensures CleanLines(a + b) == CleanLines(a) + CleanLines(b)
    decreases |b|
  {
    if b == [] {
      assert a + b == a;
    } else {
      var b' := b[..|b| - 1];
      assert (a + b)[..|a + b| - 1] == a + b';
      assert (a + b)[|a + b| - 1] == b[|b| - 1];
      CleanLinesAppend(a, b');
      AppendAssoc(CleanLines(a), CleanLines(b'), Kept(b[|b| - 1]));
    }
  }

  /** No line is lost: every line that is not blank once cleaned appears,
      cleaned, in what `load_textfile` returns. */
  lemma {:induction false} CleanLinesKeep(lines: seq<string>, i: nat)
    requires i < |lines| && CleanLine(lines[i]) != []
    ensures CleanLine(lines[i]) in CleanLines(lines)
  {
    var head := lines[..i + 1];
    assert lines == head + lines[i + 1..];
    CleanLinesAppend(head, lines[i + 1..]);
    PrefixOfPrefix(lines, i + 1, i);
    assert CleanLines(head) == CleanLines(lines[..i]) + [CleanLine(lines[i])];
    assert CleanLines(lines)[|CleanLines(lines[..i])|] == CleanLine(lines[i]);
  }

  /** `load_textfile(filename)` over the lines that iterating the open file
      yields. */
  method LoadTextfile(fileLines: seq<string>) returns (data: seq<string>)
    ensures data == CleanLines(fileLines)
  {
    data := [];
    for i := 0 to |fileLines|
      invariant data == CleanLines(fileLines[..i])
    {
      var cleanLine := Strip(RemoveChar(fileLines[i], '"'));
      assert fileLines[..i + 1][..i] == fileLines[..i];
      if cleanLine != [] {
        data := data + [cleanLine];
      }
    }
    assert fileLines[..|fileLines|] == fileLines;
  }

  // ---------------------------------------------------------------------
  // check_group and check_filename

  /** `check_group`: accepts exactly the names the name pattern matches. */
  function CheckGroup(text: string): (r: Validated)
    ensures r.Valid? <==>
            forall k :: 0 <= k < |text| ==> NameChar(text[k]) || (k == |text| - 1 && text[k] == '\n')
    ensures r.ValidationError? ==> r.reason == text + " contains invalid characters..."
  {
    NamePatternByChars(text);
    if !NamePatternMatches(text) then ValidationError(text + " contains invalid characters...")
    else Valid
  }

  /** `check_filename`: `outputListing` is the listing of the output folder.
      A name is accepted when it matches the name pattern and no CSV of that
      name exists yet; a bad name is reported before any collision. */
  function CheckFilename(text: string, outputListing: seq<string>): (r: Validated)
    ensures r.Valid? <==> NamePatternMatches(text) && text + ".csv" !in outputListing
    ensures !NamePatternMatches(text) ==> r == ValidationError(text + " contains invalid characters...")
    ensures NamePatternMatches(text) && text + ".csv" in outputListing ==>
              r == ValidationError(text + " is an existing filename...")
  {
    if !NamePatternMatches(text) then ValidationError(text + " contains invalid characters...")
    else
      var existing := FilesWithExtension(outputListing, ".csv");
      assert EndsWith(text + ".csv", ".csv") by {
        assert (text + ".csv")[|text|..] == ".csv";
      }
      if text + ".csv" in existing then ValidationError(text + " is an existing filename...")
      else Valid
  }

  /** The character check comes first: for a bad name the contents of the
      output folder make no difference to the outcome. */
  lemma BadNameIgnoresListing(text: string, outputListing: seq<string>)
    requires !NamePatternMatches(text)
    ensures CheckFilename(text, outputListing) == CheckFilename(text, [])
  {
  }

  /** Only CSV files of the output folder matter: other names never cause
      a collision. */
  lemma OnlyCsvNamesCollide(text: string, outputListing: seq<string>, other: string)
    requires !EndsWith(other, ".csv")
    ensures CheckFilename(text, outputListing + [other]) == CheckFilename(text, outputListing)
  {
  }

  /** The name pattern on a few names: the empty name passes, a space does
      not, and one trailing newline slips through Python's `$`, but not two. */
  lemma NameExamples()
    ensures CheckGroup("") == Valid
    ensures CheckGroup("team_1-b") == Valid
    ensures CheckGroup("team1\n") == Valid
    ensures CheckGroup("team 1").ValidationError?
    ensures CheckGroup("team1\n\n").ValidationError?
  {
    assert !NameChar(("team 1")[4]);
    assert !NameChar(("team1\n\n")[5]);
  }

  // ---------------------------------------------------------------------
  // create_csv: one line on its own

  predicate IsTopicLine(line: string) {
    StartsWith(line, TOPIC_HEADER)
  }

  /** The topic a `TOPIC:` line sets: its remainder, stripped. */
  function TopicOf(line: string): (topic: string)
    requires IsTopicLine(line)
    ensures topic != [] ==> !IsSpace(topic[0]) && !IsSpace(topic[|topic| - 1])
    ensures |topic| <= |line| - |TOPIC_HEADER|
  {
    Strip(line[|TOPIC_HEADER|..])
  }

  /** A line opens with a bracketed prefix when it starts with `[` and
      contains a `]`. */
  predicate Bracketed(line: string) {
    StartsWith(line, "[") && ']' in line
  }

  /** The prefix split off a data line: `args` is what the brackets enclose,
      `text` the rest of the line. */
  datatype Annotation = Annotation(args: string, text: string)

  /** The `[args]` prefix: `args` runs from the opening `[` to the first `]`,
      and the text is what follows that `]` with all leading whitespace
      removed. A line without such a prefix is all text. */
  function SplitAnnotation(line: string): (a: Annotation)
    ensures Bracketed(line) ==>
              && ']' !in a.args
              && |a.args| + 2 <= |line|
              && line[..|a.args| + 2] == "[" + a.args + "]"
              && a.text == LStrip(line[|a.args| + 2..])
    ensures !Bracketed(line) ==> a == Annotation("", line)
  {
    if Bracketed(line) then
      assert line[0] == '[';
      var args := BeforeFirst(AfterFirst(line, '['), ']');
      assert AfterFirst(line, '[') == line[1..];
      assert line[..|args| + 2] == "[" + args + "]";
      Annotation(args, LStrip(line[|args| + 2..]))
    else
      Annotation("", line)
  }

  /** The name and timestamp cells: `args` padded with commas up to the one
      separator two cells need. A list that already has a comma is kept as
      it is, never cut down. */
  function Fields(args: string): (fields: string)
    ensures ',' in args ==> fields == args
    ensures ',' !in args ==> fields == args + ","
    ensures Count(fields, ',') == if ',' in args then Count(args, ',') else 1
  {
    var padding := Repeat(',', |LINE_HEADER| - 1 - Count(args, ','));
    CountAppend(args, padding, ',');
    assert ',' !in args ==> padding == [','];
    args + padding
  }

  /** A line made of a bracketed prefix and a rest splits back into the
      prefix's contents and the rest with its leading whitespace removed. */
  lemma AnnotationOfPrefixed(args: string, rest: string)
    requires ']' !in args
    ensures SplitAnnotation("[" + args + "]" + rest) == Annotation(args, LStrip(rest))
  {
    var line := "[" + args + "]" + rest;
    assert line[..1] == "[";
    assert line[|args| + 1] == ']';
    OpeningBracket(line);
    assert line[1..] == args + [']'] + rest;
    BeforeFirstOf(args, ']', rest);
    assert line[|args| + 2..] == rest;
  }

  /** A line whose bracket is never closed is all text. */
  lemma UnclosedBracketExample()
    ensures SplitAnnotation("[Ann hi") == Annotation("", "[Ann hi")
  {
    assert forall k :: 0 <= k < |"[Ann hi"| ==> ("[Ann hi")[k] != ']';
  }

  /** The padding on a few argument lists. */
  lemma FieldsExamples()
    ensures Fields("") == "," && Fields("Ann") == "Ann," && Fields("Ann,00:01,x") == "Ann,00:01,x"
  {
    assert ("Ann,00:01,x")[3] == ',';
    assert ',' !in "Ann";
  }

  /** The CSV line written for one data line of a transcript:
      `group,datatype,topic,fields,"text"` and a newline. Only the text is
      quoted, and nothing in it is escaped. */
  function Row(group: string, dataType: string, topic: string, line: string): (row: string)
  {
    var a := SplitAnnotation(line);
    Join([group, dataType, topic, Fields(a.args), "\"" + a.text + "\""], ',') + "\n"
  }

  /** Every data row ends with the closing quote of its text and a newline. */
  lemma RowEnding(group: string, dataType: string, topic: string, line: string)
    ensures EndsInQuote(Row(group, dataType, topic, line))
  {
    var a := SplitAnnotation(line);
    var cells := [group, dataType, topic, Fields(a.args), "\"" + a.text + "\""];
    QuotedLineEnding(cells, a.text);
  }

  /** A joined line whose last cell is quoted ends, once its newline is
      added, in a quote and a newline. */
  lemma QuotedLineEnding(cells: seq<string>, text: string)
    requires cells != [] && cells[|cells| - 1] == "\"" + text + "\""
    ensures EndsInQuote(Join(cells, ',') + "\n")
  {
    var joined := Join(cells, ',');
    JoinEnds(cells, ',');
    var q := cells[|cells| - 1];
    assert joined[|joined| - 1] == q[|q| - 1];
  }

  /** The last two characters of every data row. */
  predicate EndsInQuote(s: string) {
    |s| >= 2 && s[|s| - 2] == '"' && s[|s| - 1] == '\n'
  }

  // ---------------------------------------------------------------------
  // create_csv: the whole dataset

  /** One transcript line with the group and datatype of its file. */
  datatype Entry = Entry(group: string, dataType: string, line: string)

  /** The lines of one file, each tagged with the file's group and datatype. */
  function Tagged(group: string, dataType: string, lines: seq<string>): (entries: seq<Entry>)
    ensures |entries| == |lines|
    ensures forall k :: 0 <= k < |lines| ==> entries[k] == Entry(group, dataType, lines[k])
  {
    if lines == [] then []
    else Tagged(group, dataType, lines[..|lines| - 1]) + [Entry(group, dataType, lines[|lines| - 1])]
  }

  /** All lines of all files in file order, then line order. */
  function Entries(data: seq<SourceFile>): (entries: seq<Entry>)
  {
    if data == [] then []
    else
      var f := data[|data| - 1];
      Entries(data[..|data| - 1]) + Tagged(f.group, f.dataType, f.lines)
  }

  /** Where `create_csv` stands between two lines: the running topic and
      everything written so far. */
  datatype Progress = Progress(topic: string, rows: seq<string>)

  /** One line: a `TOPIC:` line replaces the topic and writes nothing; any
      other line writes its row under the current topic. */
  function Step(p: Progress, e: Entry): Progress {
    if IsTopicLine(e.line) then Progress(TopicOf(e.line), p.rows)
    else Progress(p.topic, p.rows + [Row(e.group, e.dataType, p.topic, e.line)])
  }

  /** The lines `entries` one after the other, from `p`. */
  function Run(p: Progress, entries: seq<Entry>): Progress {
    if entries == [] then p
    else Step(Run(p, entries[..|entries| - 1]), entries[|entries| - 1])
  }

  /** What `create_csv` writes: the header, then the rows of every file.
      The topic starts empty once, before the first file. */
  function CsvText(data: seq<SourceFile>): seq<string> {
    Run(Progress("", [CSV_HEADER]), Entries(data)).rows
  }

  /** The output file, opened in append mode: the chunks written to it so
      far, after whatever it held before. */
  class AppendFile {
    var written: seq<string>

    constructor (existing: seq<string>)
      ensures written == existing
    {
      written := existing;
    }

    /** `output.write(s)` */
    method Write(s: string)
      modifies this
      ensures written == old(written) + [s]
    {
      written := written + [s];
    }
  }

  /** `create_csv(filename, data)` writing to the opened `output`: the
      header, then every file in turn, with one running topic. */
  method CreateCsv(output: AppendFile, data: seq<SourceFile>)
    modifies output
    ensures output.written == old(output.written) + CsvText(data)
  {
    var topic := "";
    output.Write(CSV_HEADER);
    ghost var start := Progress(topic, output.written);
    for i := 0 to |data|
      invariant Progress(topic, output.written) == Run(start, Entries(data[..i]))
    {
      var group := data[i].group;
      var dataType := data[i].dataType;
      topic := WriteTranscript(output, group, dataType, data[i].lines, topic);
      EntriesStep(data, i);
      RunSplit(start, Entries(data[..i]), Tagged(group, dataType, data[i].lines));
    }
    assert data[..|data|] == data;
    RunAfterPrefix(old(output.written), Progress("", [CSV_HEADER]), Entries(data));
  }

  /** The inner loop of `create_csv` over one transcript's lines, from the
      topic the previous file left; it returns the topic for the next. */
  method WriteTranscript(output: AppendFile, group: string, dataType: string, lines: seq<string>, topicIn: string)
    returns (topic: string)
    modifies output
    ensures Progress(topic, output.written)
            == Run(Progress(topicIn, old(output.written)), Tagged(group, dataType, lines))
  {
    topic := topicIn;
    ghost var start := Progress(topic, output.written);
    ghost var entries := Tagged(group, dataType, lines);
    for j := 0 to |lines|
      invariant Progress(topic, output.written) == Run(start, entries[..j])
    {
      topic := WriteLine(output, group, dataType, topic, lines[j]);
      RunStep(start, entries, j);
    }
    assert entries[..|lines|] == entries;
  }

  /** The body of that loop for one line: a `TOPIC:` line sets the topic
      to its stripped remainder and writes nothing; any other line is
      written as a row. */
  method WriteLine(output: AppendFile, group: string, dataType: string, topic: string, text: string)
    returns (newTopic: string)
    modifies output
    ensures Progress(newTopic, output.written)
            == Step(Progress(topic, old(output.written)), Entry(group, dataType, text))
  {
    if StartsWith(text, TOPIC_HEADER) {
      newTopic := Strip(text[|TOPIC_HEADER|..]);
      return;
    }
    newTopic := topic;
    WriteRow(output, group, dataType, topic, text);
  }

  /** A data line: split off the bracketed prefix, pad the fields and write
      the joined row. */
  method WriteRow(output: AppendFile, group: string, dataType: string, topic: string, text: string)
    modifies output
    ensures output.written == old(output.written) + [Row(group, dataType, topic, text)]
  {
    var args := "";
    var rest := text;
    if StartsWith(text, "[") && ']' in text {
      OpeningBracket(text);
      args := BeforeFirst(AfterFirst(text, '['), ']');
      rest := LStrip(text[|args| + 2..]);
    }
    var fields := args + Repeat(',', |LINE_HEADER| - 1 - Count(args, ','));
    var line := Join([group, dataType, topic, fields, "\"" + rest + "\""], ',');
    assert line + "\n" == Row(group, dataType, topic, text) by {
      RowByStatements(group, dataType, topic, text, args, rest);
    }
    output.Write(line + "\n");
  }

  /** One more entry of a run. */
  lemma RunStep(p: Progress, entries: seq<Entry>, j: nat)
    requires j < |entries|
    ensures Run(p, entries[..j + 1]) == Step(Run(p, entries[..j]), entries[j])
  {
    assert entries[..j + 1][..j] == entries[..j];
  }

  /** Two runs of lines one after the other: the second starts from the
      topic the first left, and its rows follow the first's. */
  lemma {:induction false} RunSplit(p: Progress, a: seq<Entry>, b: seq<Entry>)
    ensures Run(p, a + b) == Run(Run(p, a), b)
    decreases |b|
  {
    if b == [] {
      assert a + b == a;
    } else {
      var b' := b[..|b| - 1];
      assert (a + b)[..|a + b| - 1] == a + b';
      RunSplit(p, a, b');
    }
  }

  /** What was written before a run is left in front of its rows, and does
      not influence them. */
  lemma {:induction false} RunAfterPrefix(before: seq<string>, p: Progress, entries: seq<Entry>)
    ensures Run(Progress(p.topic, before + p.rows), entries)
            == Progress(Run(p, entries).topic, before + Run(p, entries).rows)
    decreases |entries|
  {
    if entries != [] {
      RunAfterPrefix(before, p, entries[..|entries| - 1]);
    }
  }

  // ---------------------------------------------------------------------
  // create_csv: what the written file holds

  /** How many of `entries` are data lines rather than `TOPIC:` lines. */
  function DataLineCount(entries: seq<Entry>): (n: nat)
    ensures n <= |entries|
  {
    if entries == [] then 0
    else DataLineCount(entries[..|entries| - 1]) + (if IsTopicLine(entries[|entries| - 1].line) then 0 else 1)
  }

  /** A run only appends: what was written before it stays in front, and
      exactly one row is added per data line. */
  lemma {:induction false} RunRowCount(p: Progress, entries: seq<Entry>)
    ensures |Run(p, entries).rows| == |p.rows| + DataLineCount(entries)
    ensures Run(p, entries).rows[..|p.rows|] == p.rows
    decreases |entries|
  {
    if entries != [] {
      RunRowCount(p, entries[..|entries| - 1]);
    }
  }

  /** A run cut anywhere: the second part starts where the first left off. */
  lemma RunCut(p: Progress, entries: seq<Entry>, j: nat)
    requires j <= |entries|
    ensures Run(p, entries) == Run(Run(p, entries[..j]), entries[j..])
  {
    assert entries == entries[..j] + entries[j..];
    RunSplit(p, entries[..j], entries[j..]);
  }

  /** A run's rows start with the rows of any prefix of it. */
  lemma RunPrefix(p: Progress, entries: seq<Entry>, j: nat)
    requires j <= |entries|
    ensures var r := Run(p, entries[..j]).rows;
            |r| <= |Run(p, entries).rows| && Run(p, entries).rows[..|r|] == r
  {
    RunCut(p, entries, j);
    RunRowCount(Run(p, entries[..j]), entries[j..]);
  }

  /** The data line at position `k` of a run writes its row at position
      `DataLineCount(entries[..k])` after what was there before, under the
      topic in force just before that line. With `RunRowCount` this gives
      one row per data line, in line order, and nothing else. */
  lemma RunRowAt(p: Progress, entries: seq<Entry>, k: nat)
    requires k < |entries| && !IsTopicLine(entries[k].line)
    ensures |p.rows| + DataLineCount(entries[..k]) < |Run(p, entries).rows|
    ensures Run(p, entries).rows[|p.rows| + DataLineCount(entries[..k])]
            == Row(entries[k].group, entries[k].dataType, Run(p, entries[..k]).topic, entries[k].line)
  {
    var before := Run(p, entries[..k]);
    RunStep(p, entries, k);
    RunRowCount(p, entries[..k]);
    RunPrefix(p, entries, k + 1);
    var r := Run(p, entries[..k + 1]).rows;
    assert r[|before.rows|] == Row(entries[k].group, entries[k].dataType, before.topic, entries[k].line);
  }

  /** A run without `TOPIC:` lines keeps the topic it started with. */
  lemma {:induction false} TopicWithoutMarker(p: Progress, entries: seq<Entry>)
    requires forall k :: 0 <= k < |entries| ==> !IsTopicLine(entries[k].line)
    ensures Run(p, entries).topic == p.topic
    decreases |entries|
  {
    if entries != [] {
      TopicWithoutMarker(p, entries[..|entries| - 1]);
    }
  }

  /** After a run, the topic is the stripped remainder of its last
      `TOPIC:` line, whatever came before it. */
  lemma TopicIsLastMarker(p: Progress, entries: seq<Entry>, k: nat)
    requires k < |entries| && IsTopicLine(entries[k].line)
    requires forall m :: k < m < |entries| ==> !IsTopicLine(entries[m].line)
    ensures Run(p, entries).topic == TopicOf(entries[k].line)
  {
    var head, rest := entries[..k + 1], entries[k + 1..];
    RunStep(p, entries, k);
    RunCut(p, entries, k + 1);
    forall m | 0 <= m < |rest|
      ensures !IsTopicLine(rest[m].line)
    {
      assert rest[m] == entries[k + 1 + m];
    }
    TopicWithoutMarker(Run(p, head), rest);
  }

  /** A file added after others starts from the topic they left, not from
      the empty topic: the topic is set once for the whole output. */
  lemma LaterFileKeepsTopic(data: seq<SourceFile>, f: SourceFile)
    ensures CsvText(data + [f])
            == Run(Run(Progress("", [CSV_HEADER]), Entries(data)), Tagged(f.group, f.dataType, f.lines)).rows
  {
    var all := data + [f];
    assert all[..|data|] == data;
    EntriesStep(all, |data|);
    assert all[..|data| + 1] == all;
    RunSplit(Progress("", [CSV_HEADER]), Entries(data), Tagged(f.group, f.dataType, f.lines));
  }

  /** A file holding a `TOPIC:` line and then a data line gives one row,
      under the marker's topic (`TOPIC: Foo` then `Hello` is one row with
      topic `Foo`, and for `Hello` empty name and timestamp cells). */
  lemma TopicThenLine(group: string, dataType: string, marker: string, line: string)
    requires IsTopicLine(marker) && !IsTopicLine(line)
    ensures CsvText([SourceFile(group, dataType, [marker, line])])
            == [CSV_HEADER, Row(group, dataType, TopicOf(marker), line)]
  {
    var f := SourceFile(group, dataType, [marker, line]);
    EntriesOfOne(f);
    var e1, e2 := Entry(group, dataType, marker), Entry(group, dataType, line);
    assert Tagged(group, dataType, f.lines) == [e1, e2];
    RunPair(Progress("", [CSV_HEADER]), e1, e2);
  }

  /** The lines of a single file. */
  lemma EntriesOfOne(f: SourceFile)
    ensures Entries([f]) == Tagged(f.group, f.dataType, f.lines)
  {
    assert [f][..0] == [];
    assert [] + Tagged(f.group, f.dataType, f.lines) == Tagged(f.group, f.dataType, f.lines);
  }

  /** A run of two lines is two steps. */
  lemma RunPair(p: Progress, e1: Entry, e2: Entry)
    ensures Run(p, [e1, e2]) == Step(Step(p, e1), e2)
  {
    assert [e1][..0] == [];
    assert Run(p, [e1]) == Step(p, e1);
    assert [e1, e2][..1] == [e1];
  }

  /** The header's last cell is `text`, so it ends in `t` and a newline. */
  lemma HeaderEnding()
    ensures |CSV_HEADER| >= 2 && CSV_HEADER[|CSV_HEADER| - 2] == 't' && CSV_HEADER[|CSV_HEADER| - 1] == '\n'
  {
    var cells := DIC[..2] + ["topic"] + LINE_HEADER + [DIC[2]];
    var joined := Join(cells, ',');
    JoinEnds(cells, ',');
    assert EndsWith(joined, cells[|cells| - 1]);
    assert cells[|cells| - 1] == "text";
    assert joined[|joined| - 1] == 't';
  }

  /** Everything a run writes is a data row ending in a closing quote. */
  lemma {:induction false} RunWritesRows(p: Progress, entries: seq<Entry>)
    ensures |p.rows| <= |Run(p, entries).rows|
    ensures forall k :: |p.rows| <= k < |Run(p, entries).rows| ==> EndsInQuote(Run(p, entries).rows[k])
    decreases |entries|
  {
    if entries != [] {
      var prefix, e := entries[..|entries| - 1], entries[|entries| - 1];
      RunWritesRows(p, prefix);
      var before := Run(p, prefix);
      RowEnding(e.group, e.dataType, before.topic, e.line);
    }
  }

  /** The header is the first thing written and is never written again:
      every later chunk is a row, which ends in a closing quote. */
  lemma HeaderWrittenOnce(data: seq<SourceFile>)
    ensures |CsvText(data)| >= 1 && CsvText(data)[0] == CSV_HEADER
    ensures forall k :: 1 <= k < |CsvText(data)| ==> CsvText(data)[k] != CSV_HEADER
  {
    HeaderEnding();
    FirstChunkOnce(CSV_HEADER, Entries(data));
  }

  /** A first chunk that does not end like a row is never repeated by a run. */
  lemma FirstChunkOnce(first: string, entries: seq<Entry>)
    requires !EndsInQuote(first)
    ensures var rows := Run(Progress("", [first]), entries).rows;
            |rows| >= 1 && rows[0] == first && forall k :: 1 <= k < |rows| ==> rows[k] != first
  {
    var p := Progress("", [first]);
    RunRowCount(p, entries);
    RunWritesRows(p, entries);
    var rows := Run(p, entries).rows;
    assert rows[0] == rows[..1][0];
  }

  /** Every written row after the first `|p.rows|` comes from some data
      line. */
  lemma {:induction false} RowIndex(p: Progress, entries: seq<Entry>, k: nat) returns (i: nat)
    requires |p.rows| <= k < |Run(p, entries).rows|
    ensures i < |entries| && !IsTopicLine(entries[i].line)
    ensures k == |p.rows| + DataLineCount(entries[..i])
    decreases |entries|
  {
    var prefix := entries[..|entries| - 1];
    RunRowCount(p, entries);
    RunRowCount(p, prefix);
    assert entries != [];
    if k < |Run(p, prefix).rows| {
      i := RowIndex(p, prefix, k);
      PrefixOfPrefix(entries, |entries| - 1, i);
    } else {
      i := |entries| - 1;
    }
  }

  // ---------------------------------------------------------------------
  // create_csv: reading a row back

  /** A character missing from a line is missing from both parts of its
      annotation. */
  lemma AnnotationChars(line: string, c: char)
    requires c !in line
    ensures c !in SplitAnnotation(line).args && c !in SplitAnnotation(line).text
  {
    var a := SplitAnnotation(line);
    if Bracketed(line) {
      var n := |a.args| + 2;
      var head, rest := line[..n], line[n..];
      SliceChars(line, 0, n, c);
      assert a.args == head[1..n - 1];
      SliceChars(head, 1, n - 1, c);
      SliceChars(line, n, |line|, c);
      SliceChars(rest, |rest| - |a.text|, |rest|, c);
    }
  }

  /** The padded fields hold only the characters of the bracketed
      arguments and commas. */
  lemma FieldsChars(args: string, c: char)
    requires c !in args && c != ','
    ensures c !in Fields(args)
  {
    if ',' !in args {
      assert Fields(args) == args + [','];
    }
  }

  /** A row read back as CSV: group, datatype and topic, then the cells of
      the padded fields, then the text, with its quotation marks gone.
      The row is read correctly as long as the first three cells need no
      quoting and the line has no quotation mark (which `load_textfile`
      removes) and no line end. */
  lemma RowCells(group: string, dataType: string, topic: string, line: string)
    requires Plain(group) && Plain(dataType) && Plain(topic)
    requires '"' !in line && '\n' !in line
    ensures var a := SplitAnnotation(line);
            ReadRecord(Row(group, dataType, topic, line))
            == [group, dataType, topic] + Split(Fields(a.args), ',') + [a.text]
  {
    var a := SplitAnnotation(line);
    AnnotationChars(line, '"');
    AnnotationChars(line, '\n');
    var f := Fields(a.args);
    FieldsChars(a.args, '"');
    FieldsChars(a.args, '\n');
    var q := "\"" + a.text + "\"";
    var tail := f + [','] + (q + "\n");
    JoinFive(group, dataType, topic, f, q);
    ReadThreePlain(group, dataType, topic, tail);
    ReadSplitQuoted(f, a.text, [group, dataType, topic]);
  }

  /** The topic cell is written without quotation marks, so each comma in a
      topic splits it into further cells: the row reads back as group and
      datatype, the pieces of the topic, the pieces of the padded fields and
      the text. */
  lemma RowCellsSplitTopic(group: string, dataType: string, topic: string, line: string)
    requires Plain(group) && Plain(dataType)
    requires '"' !in topic && '\n' !in topic
    requires '"' !in line && '\n' !in line
    ensures var a := SplitAnnotation(line);
            ReadRecord(Row(group, dataType, topic, line))
            == [group, dataType] + Split(topic, ',') + Split(Fields(a.args), ',') + [a.text]
  {
    var a := SplitAnnotation(line);
    AnnotationChars(line, '"');
    AnnotationChars(line, '\n');
    var f := Fields(a.args);
    FieldsChars(a.args, '"');
    FieldsChars(a.args, '\n');
    JoinFive(group, dataType, topic, f, "\"" + a.text + "\"");
    ReadTwoPlainTwoSplit(group, dataType, topic, f, a.text);
  }

  /** With the usual `[name,timestamp]` prefix, every comma in the topic of
      a `TOPIC:` line adds one cell to each row written under it, so such a
      row no longer lines up with the six header columns. */
  lemma TopicCommasAddCells(group: string, dataType: string, topic: string, line: string)
    requires Plain(group) && Plain(dataType)
    requires '"' !in topic && '\n' !in topic
    requires '"' !in line && '\n' !in line
    requires Count(SplitAnnotation(line).args, ',') <= 1
    ensures |ReadRecord(Row(group, dataType, topic, line))| == 6 + Count(topic, ',')
  {
    RowCellsSplitTopic(group, dataType, topic, line);
  }

  /** The five cells of a row, joined and ended, as nested concatenations. */
  lemma JoinFive(g: string, d: string, t: string, f: string, q: string)
    ensures Join([g, d, t, f, q], ',') + "\n"
            == g + ([','] + (d + ([','] + (t + ([','] + (f + [','] + (q + "\n")))))))
  {
    var cells := [g, d, t, f, q];
    assert cells[1..][1..][1..][1..] == [q];
    assert Join(cells[3..], ',') == f + [','] + q;
    assert Join(cells[2..], ',') == t + [','] + (f + [','] + q);
    assert Join(cells[1..], ',') == d + [','] + (t + [','] + (f + [','] + q));
  }

  /** The header reads back as its six column names. */
  lemma HeaderCells()
    ensures ReadRecord(CSV_HEADER) == ["group", "datatype", "topic", "name", "timestamp", "text"]
  {
    var cells := DIC[..2] + ["topic"] + LINE_HEADER + [DIC[2]];
    assert cells == ["group", "datatype", "topic", "name", "timestamp", "text"];
    ReadJoined(cells, []);
  }

  /** When the bracketed arguments hold at most one comma (`name,timestamp`,
      a bare name, or nothing), a row has exactly as many cells as the
      header; more commas are kept and give more cells. */
  lemma RowHasSixCells(group: string, dataType: string, topic: string, line: string)
    requires Plain(group) && Plain(dataType) && Plain(topic)
    requires '"' !in line && '\n' !in line
    requires Count(SplitAnnotation(line).args, ',') <= 1
    ensures |ReadRecord(Row(group, dataType, topic, line))| == 6 == |ReadRecord(CSV_HEADER)|
  {
    RowCells(group, dataType, topic, line);
    HeaderCells();
  }

  /** The statements of the loop body compute `Row`. */
  lemma RowByStatements(group: string, dataType: string, topic: string, line: string, args: string, text: string)
    requires Bracketed(line) ==> args == BeforeFirst(line[1..], ']') && |args| + 2 <= |line|
                                 && text == LStrip(line[|args| + 2..])
    requires !Bracketed(line) ==> args == "" && text == line
    ensures SplitAnnotation(line) == Annotation(args, text)
    ensures Row(group, dataType, topic, line)
            == Join([group, dataType, topic, Fields(args), "\"" + text + "\""], ',') + "\n"
  {
    if Bracketed(line) {
      OpeningBracket(line);
      assert AfterFirst(line, '[') == line[1..];
    }
  }

  lemma OpeningBracket(s: string)
    requires StartsWith(s, "[")
    ensures s[0] == '[' && '[' in s && AfterFirst(s, '[') == s[1..]
  {
    assert s[..1][0] == s[0];
  }

  lemma PrefixOfPrefix<T>(s: seq<T>, n: nat, i: nat)
    requires i <= n <= |s|
    ensures s[..n][..i] == s[..i]
  {
  }

  /** Files given one after the other contribute their lines one after the
      other. */
  lemma {:induction false} EntriesAppend(a: seq<SourceFile>, b: seq<SourceFile>)
    ensures Entries(a + b) == Entries(a) + Entries(b)
    decreases |b|
  {
    if b == [] {
      assert a + b == a;
    } else {
      var f := b[|b| - 1];
      assert (a + b)[..|a + b| - 1] == a + b[..|b| - 1];
      EntriesAppend(a, b[..|b| - 1]);
    }
  }

  lemma EntriesStep(data: seq<SourceFile>, i: nat)
    requires i < |data|
    ensures Entries(data[..i + 1]) == Entries(data[..i]) + Tagged(data[i].group, data[i].dataType, data[i].lines)
  {
    assert data[..i + 1][..i] == data[..i];
  }
}
