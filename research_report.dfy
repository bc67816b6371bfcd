/** The text builders of the research report scaffolder: the shape check on
    the loaded JSON, the bullet list of sources and the report template. */
module ResearchReport {
  import opened Optional
  import opened Text

  /** A source record: a JSON object whose values are strings. */
  type Source = map<string, string>

  const NotAList := "Input JSON must be a list of source objects"
  const NoSources := "- (No sources provided)"
  const Untitled := "(untitled)"
  const UrlPrefix := "  - URL: "
  const NotesPrefix := "  - Notes: "

  // ---------------------------------------------------------------------
  // Loading

  /** A parsed JSON document; numbers are kept as their literal text. */
  datatype Json =
    | Null
    | Bool(b: bool)
    | Number(literal: string)
    | Str(s: string)
    | Array(items: seq<Json>)
    | Object(fields: map<string, Json>)

  /** The check `load_sources` makes after parsing: a top-level list is
      returned as it is, anything else is refused with a `ValueError`. */
  function LoadSources(data: Json): (r: Result<seq<Json>, string>)
    ensures r.Ok? <==> data.Array?
    ensures r.Ok? ==> r.value == data.items
    ensures r.Err? ==> r.error == NotAList
  {
    if data.Array? then Ok(data.items) else Err(NotAList)
  }

  // ---------------------------------------------------------------------
  // Sources

  /** `item.get(key, default)`: the default only when the key is absent. */
  function Get(item: Source, key: string, default: string): string
  {
    if key in item then item[key] else default
  }

  function Title(item: Source): string
  {
    Get(item, "title", Untitled)
  }

  /** An optional field; absent and empty read the same. */
  function Field(item: Source, key: string): string
  {
    Get(item, key, "")
  }

  /** A missing title reads `(untitled)`; a present one, even empty, is used
      as it is. */
  lemma TitleLookup(item: Source)
    ensures "title" !in item ==> Title(item) == Untitled
    ensures "title" in item ==> Title(item) == item["title"]
  {
  }

  /** The first line of an entry: the bullet and the title, then ` [DATE]`
      if a date is given, then ` (TYPE)` if a type is given. */
  function HeaderLine(item: Source): string
  {
    var date := Field(item, "date");
    var kind := Field(item, "type");
    "- " + Title(item)
    + (if date != "" then " [" + date + "]" else "")
    + (if kind != "" then " (" + kind + ")" else "")
  }

  /** The lines under the first: the URL, if given, then the notes, if given. */
  function SubLines(item: Source): seq<string>
  {
    var url := Field(item, "url");
    var notes := Field(item, "notes");
    (if url != "" then [UrlPrefix + url] else [])
    + (if notes != "" then [NotesPrefix + notes] else [])
  }

  function EntryLines(item: Source): seq<string>
  {
    [HeaderLine(item)] + SubLines(item)
  }

  /** The text one source contributes. */
  function Entry(item: Source): string
  {
    Join(EntryLines(item), "\n")
  }

  function Entries(sources: seq<Source>): seq<string>
  {
    seq(|sources|, i requires 0 <= i < |sources| => Entry(sources[i]))
  }

  /** The bullet list of all sources, or the placeholder for none. */
  function SourcesText(sources: seq<Source>): string
  {
    if |sources| == 0 then NoSources else Join(Entries(sources), "\n")
  }

  /** An entry is its header followed, line by line, by its sub-lines. */
  lemma EntryText(item: Source)
    ensures var url := Field(item, "url");
      var notes := Field(item, "notes");
      Entry(item) == HeaderLine(item)
                     + (if url != "" then "\n" + (UrlPrefix + url) else "")
                     + (if notes != "" then "\n" + (NotesPrefix + notes) else "")
  {
    var url := Field(item, "url");
    var notes := Field(item, "notes");
    var header := [HeaderLine(item)];
    var withUrl := if url != "" then header + [UrlPrefix + url] else header;
    JoinMaybe(header, "\n", url != "", UrlPrefix + url);
    JoinMaybe(withUrl, "\n", notes != "", NotesPrefix + notes);
    assert EntryLines(item) == if notes != "" then withUrl + [NotesPrefix + notes] else withUrl;
  }

  /** The header parts, joined by spaces behind the bullet, give the header line. */
  lemma HeaderJoin(item: Source, parts: seq<string>)
    requires var date := Field(item, "date");
      var kind := Field(item, "type");
      parts == [Title(item)] + (if date != "" then ["[" + date + "]"] else [])
               + (if kind != "" then ["(" + kind + ")"] else [])
    ensures "- " + Join(parts, " ") == HeaderLine(item)
  {
    var date := Field(item, "date");
    var kind := Field(item, "type");
    var dated := [Title(item)] + (if date != "" then ["[" + date + "]"] else []);
    JoinMaybe([Title(item)], " ", date != "", "[" + date + "]");
    JoinMaybe(dated, " ", kind != "", "(" + kind + ")");
    assert parts == if kind != "" then dated + ["(" + kind + ")"] else dated;
    if date != "" {
      assert " " + ("[" + date + "]") == " [" + date + "]";
    }
    if kind != "" {
      assert " " + ("(" + kind + ")") == " (" + kind + ")";
    }
  }

  /** The body of the loop of `format_sources`: the header parts joined by
      spaces, then the URL and notes lines appended to it. */
  method FormatEntry(item: Source) returns (line: string)
    ensures line == Entry(item)
  {
    var title := Title(item);
    var url := Field(item, "url");
    var date := Field(item, "date");
    var notes := Field(item, "notes");
    var sourceType := Field(item, "type");
    var parts := [title];
    if date != "" {
      parts := parts + ["[" + date + "]"];
    }
    if sourceType != "" {
      parts := parts + ["(" + sourceType + ")"];
    }
    HeaderJoin(item, parts);
    line := "- " + Join(parts, " ");
    ghost var urlTail := if url != "" then "\n" + (UrlPrefix + url) else "";
    ghost var notesTail := if notes != "" then "\n" + (NotesPrefix + notes) else "";
    assert line == HeaderLine(item);
    if url != "" {
      line := line + "\n" + UrlPrefix + url;
      assert line == HeaderLine(item) + ("\n" + (UrlPrefix + url));
    }
    assert line == HeaderLine(item) + urlTail;
    ghost var before := line;
    if notes != "" {
      line := line + "\n" + NotesPrefix + notes;
      assert line == before + ("\n" + (NotesPrefix + notes));
    }
    assert line == HeaderLine(item) + urlTail + notesTail;
    EntryText(item);
  }

  /** `format_sources`: the placeholder for no sources, otherwise one entry
      per source, in order, joined by line breaks. */
  method FormatSources(sources: seq<Source>) returns (text: string)
    ensures text == SourcesText(sources)
    ensures |sources| == 0 ==> text == NoSources
  {
    if |sources| == 0 {
      return NoSources;
    }
    var lines: seq<string> := [];
    for n := 0 to |sources|
      invariant lines == Entries(sources[..n])
    {
      var line := FormatEntry(sources[n]);
      assert Entries(sources[..n + 1]) == Entries(sources[..n]) + [line];
      lines := lines + [line];
    }
    assert sources[..|sources|] == sources;
    text := Join(lines, "\n");
  }

  /** None of the fields an entry prints holds a line break. */
  predicate PlainFields(item: Source)
  {
    && '\n' !in Title(item)
    && '\n' !in Field(item, "url")
    && '\n' !in Field(item, "date")
    && '\n' !in Field(item, "notes")
    && '\n' !in Field(item, "type")
  }

  /** Read back line by line, an entry is its header, then the URL line
      exactly when a URL is given, then the notes line exactly when notes are
      given. */
  lemma EntryShape(item: Source)
    requires PlainFields(item)
    ensures var lines := Split(Entry(item), '\n');
      var url := Field(item, "url");
      var notes := Field(item, "notes");
      && lines == EntryLines(item)
      && |lines| == 1 + (if url != "" then 1 else 0) + (if notes != "" then 1 else 0)
      && lines[0] == HeaderLine(item)
      && (url != "" ==> lines[1] == UrlPrefix + url)
      && (notes != "" ==> lines[|lines| - 1] == NotesPrefix + notes)
  {
    var ls := EntryLines(item);
    assert '\n' !in "- " && '\n' !in " [" && '\n' !in "]" && '\n' !in " (" && '\n' !in ")";
    assert '\n' !in UrlPrefix && '\n' !in NotesPrefix;
    forall i | 0 <= i < |ls| ensures '\n' !in ls[i] {
    }
    SplitJoinPlain(ls, '\n');
  }

  /** The header begins with the bullet and the title; a URL line and a notes
      line are told apart by their prefixes, so an entry has a URL line iff
      it has a URL and a notes line iff it has notes. */
  lemma EntryLineKinds(item: Source)
    requires PlainFields(item)
    ensures var lines := Split(Entry(item), '\n');
      && HasPrefix(lines[0], "- " + Title(item))
      && ((exists j :: 1 <= j < |lines| && HasPrefix(lines[j], UrlPrefix)) <==> Field(item, "url") != "")
      && ((exists j :: 1 <= j < |lines| && HasPrefix(lines[j], NotesPrefix)) <==> Field(item, "notes") != "")
  {
    EntryShape(item);
    var lines := Split(Entry(item), '\n');
    var url := Field(item, "url");
    var notes := Field(item, "notes");
    assert UrlPrefix[4] == 'U' && NotesPrefix[4] == 'N';
    if url != "" {
      assert HasPrefix(lines[1], UrlPrefix);
    }
    if notes != "" {
      assert HasPrefix(lines[|lines| - 1], NotesPrefix);
    }
    assert HeaderLine(item)[..|"- " + Title(item)|] == "- " + Title(item);
  }

  /** The lines of every entry, source after source. */
  function AllEntryLines(sources: seq<Source>): seq<string>
    decreases |sources|
  {
    if |sources| == 0 then [] else EntryLines(sources[0]) + AllEntryLines(sources[1..])
  }

  /** Read back line by line, the list of sources is the lines of the first
      entry, then those of the second, and so on, in input order. */
  lemma {:induction false} SourcesShape(sources: seq<Source>)
    requires |sources| >= 1
    requires forall i :: 0 <= i < |sources| ==> PlainFields(sources[i])
    ensures Split(SourcesText(sources), '\n') == AllEntryLines(sources)
  {
    SplitJoin(Entries(sources), '\n');
    EntriesSplit(sources);
  }

  lemma {:induction false} EntriesSplit(sources: seq<Source>)
    requires forall i :: 0 <= i < |sources| ==> PlainFields(sources[i])
    ensures SplitEach(Entries(sources), '\n') == AllEntryLines(sources)
    decreases |sources|
  {
    if |sources| > 0 {
      EntryShape(sources[0]);
      assert Entries(sources)[1..] == Entries(sources[1..]);
      EntriesSplit(sources[1..]);
    }
  }

  // ---------------------------------------------------------------------
  // Report

  const ReportHeading := "# Research Report: "

  /** The template of `build_report` up to and including the Sources heading. */
  function Preamble(topic: string): seq<string>
  {
    [ ReportHeading + topic,
      "",
      "## Summary",
      "- ...",
      "- ...",
      "",
      "## Key facts (with dates)",
      "- ...",
      "",
      "## Contradictions / uncertainties",
      "- ...",
      "",
      "## Sources" ]
  }

  /** The whole template of `build_report`, line by line: the preamble, the
      source list, and a final empty line. */
  function ReportLines(topic: string, sourcesText: string): seq<string>
  {
    Preamble(topic) + [sourcesText, ""]
  }

  /** Only the topic could put a line break into the preamble. */
  lemma PreamblePlain(topic: string)
    requires '\n' !in topic
    ensures forall i :: 0 <= i < |Preamble(topic)| ==> '\n' !in Preamble(topic)[i]
  {
    assert '\n' !in ReportHeading;
  }

  /** `build_report`. */
  function BuildReport(topic: string, sources: seq<Source>): string
  {
    Join(ReportLines(topic, SourcesText(sources)), "\n")
  }

  /** The report ends in a line break, because the template's last line is empty. */
  lemma ReportEndsWithNewline(topic: string, sources: seq<Source>)
    ensures var report := BuildReport(topic, sources);
      |report| >= 1 && report[|report| - 1] == '\n'
  {
    var text := SourcesText(sources);
    var ls := ReportLines(topic, text);
    assert ls == (Preamble(topic) + [text]) + [""];
    JoinSnoc(Preamble(topic) + [text], "\n", "");
  }

  /** Read back line by line, the report is the heading with the topic, the
      Summary, Key facts and Contradictions sections in that order, the
      Sources heading, the lines of the source list right after it, and a
      final empty line. */
  lemma ReportShape(topic: string, sources: seq<Source>)
    requires '\n' !in topic
    ensures var lines := Split(BuildReport(topic, sources), '\n');
      var listed := Split(SourcesText(sources), '\n');
      && |lines| == 14 + |listed|
      && lines[0] == ReportHeading + topic
      && lines[2] == "## Summary"
      && lines[6] == "## Key facts (with dates)"
      && lines[9] == "## Contradictions / uncertainties"
      && lines[12] == "## Sources"
      && (forall i :: 0 <= i < |listed| ==> lines[13 + i] == listed[i])
      && lines[|lines| - 1] == ""
  {
    var text := SourcesText(sources);
    ReportSplit(topic, text);
    TemplateLines(topic, Split(text, '\n'));
  }

  /** Where the headings and the source lines sit in the template. */
  lemma TemplateLines(topic: string, listed: seq<string>)
    ensures var lines := Preamble(topic) + listed + [""];
      && |lines| == 14 + |listed|
      && lines[0] == ReportHeading + topic
      && lines[2] == "## Summary"
      && lines[6] == "## Key facts (with dates)"
      && lines[9] == "## Contradictions / uncertainties"
      && lines[12] == "## Sources"
      && (forall i :: 0 <= i < |listed| ==> lines[13 + i] == listed[i])
      && lines[|lines| - 1] == ""
  {
  }

  lemma ReportSplit(topic: string, text: string)
    requires '\n' !in topic
    ensures Split(Join(ReportLines(topic, text), "\n"), '\n') == Preamble(topic) + Split(text, '\n') + [""]
  {
    var fixed := Preamble(topic);
    SplitJoin(fixed + [text, ""], '\n');
    SplitEachAppend(fixed, [text, ""], '\n');
    PreamblePlain(topic);
    SplitEachPlain(fixed, '\n');
    assert [text, ""][1..] == [""];
    SplitNoSeparator("", '\n');
    assert SplitEach([""], '\n') == [""] by {
      assert [""][1..] == [];
    }
    assert SplitEach([text, ""], '\n') == Split(text, '\n') + [""];
  }
}
