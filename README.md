# Changelog and research-report text builders

This project models the text-building core of two command-line scripts:

- **generate_changelog.py** turns git history into a Markdown changelog. From the optional
  start ref, end ref and start date it builds a git revision range and the `git log` argument
  vector. It filters the lines `git log` prints into commit lines, assembles a title, and
  renders the title and the commits as a Markdown bullet list.
- **build_research_report.py** turns a JSON list of source records into a Markdown
  research-report scaffold. It refuses a top-level JSON value that is not a list. It renders
  each record as a bullet with optional `[date]` and `(type)` decorations and optional URL
  and notes sub-lines, and places the list in a fixed section template.

Modules:

- `Optional` (optional.dfy): `Option` and `Result`, plus Python truthiness of an
  `Optional[str]` (`None` and `""` are both false).
- `Text` (text.dfy): `sep.join`, `str.split`, `str.strip` and `str.splitlines`.
  `strip` and `splitlines` use Python's exact whitespace and line-boundary code points. It
  also holds the lemmas that read a joined string back line by line.
- `Decimal` (decimal.dfy): `f"{n}"` for an `int`, and the reading that recovers `n`.
- `Changelog` (changelog.dfy): `build_range`, `build_log_args`, `format_markdown`,
  the start-ref fallback, the commit filter and the title assembly of `main`.
- `ResearchReport` (research_report.dfy): the list check of `load_sources`,
  `format_sources` and `build_report`.

The builders that grow a list one append at a time (`build_log_args`, `format_markdown`,
the title assembly, `format_sources` and its loop body) are methods. Each is proved equal to
a specification function, and the lemmas state what that function's output looks like.
Output shapes are stated on the result split at `"\n"`, i.e. line by line.

## Model

| member | source | states |
|---|---|---|
| Changelog.BuildRange | skills/private/vanta-speech-swift-expert/scripts/generate_changelog.py:42-49 | `build_range`: `SINCE..UNTIL` when both refs are truthy, `SINCE..HEAD` for the start ref alone, the end ref alone as it is, and `None` for neither |
| Changelog.BuildRangeCases | skills/private/vanta-speech-swift-expert/scripts/generate_changelog.py:42-49 | both refs give `since..until`; only the start ref gives `since..HEAD`; only the end ref gives it unchanged; there is no range iff neither ref is given |
| Changelog.BuildRangeTruthy | skills/private/vanta-speech-swift-expert/scripts/generate_changelog.py:42-49 | the range is a non-empty string iff some ref is given |
| Changelog.EffectiveSinceRef | skills/private/vanta-speech-swift-expert/scripts/generate_changelog.py:89-91 | the start ref `main` passes on: the last tag, given as a parameter, when neither the start ref nor the start date is truthy, otherwise the start ref |
| Changelog.EffectiveSinceRefCases | skills/private/vanta-speech-swift-expert/scripts/generate_changelog.py:89-91 | a given start ref is kept; a given start date keeps the start ref as it is; the last tag is used only when neither is given |
| Changelog.BuildLogArgs | skills/private/vanta-speech-swift-expert/scripts/generate_changelog.py:52-67 | appending step by step yields exactly the argument vector `LogArgs` |
| Changelog.LogArgsLayout | skills/private/vanta-speech-swift-expert/scripts/generate_changelog.py:58-66 | exact length; `log` first; the format flag last; the range second if present; `--no-merges` right after it if merges are excluded; then the limit; `--since` and the date just before the format flag |
| Changelog.LogArgsNoMerges | skills/private/vanta-speech-swift-expert/scripts/generate_changelog.py:61-62 | `--no-merges` is present iff merges are excluded, when no user string is spelled like that flag |
| Changelog.LogArgsNoSince | skills/private/vanta-speech-swift-expert/scripts/generate_changelog.py:64-65 | without a date, no `--since` appears, when the range is not spelled like that flag |
| Changelog.LogArgsMaxCount | skills/private/vanta-speech-swift-expert/scripts/generate_changelog.py:63 | exactly one element begins with `--max-count=`, and it is the flag built from `max_count` |
| Changelog.MaxCountFlagValue | skills/private/vanta-speech-swift-expert/scripts/generate_changelog.py:63 | the text after `--max-count=` is a decimal numeral that reads back as `max_count` |
| Changelog.LogArgsRefLooksLikeFlag | skills/private/vanta-speech-swift-expert/scripts/generate_changelog.py:59-62 | an end ref spelled `--no-merges` puts that flag into the vector even when merges are wanted |
| Decimal.NatRoundTrip | skills/private/vanta-speech-swift-expert/scripts/generate_changelog.py:63 | reading the decimal digits of a natural number gives the number back |
| Decimal.IntRoundTrip | skills/private/vanta-speech-swift-expert/scripts/generate_changelog.py:63 | the text of an `int` is a numeral with a minus sign iff the number is negative, and it reads back as the number |
| Text.TrimStartSlice | skills/private/vanta-speech-swift-expert/scripts/generate_changelog.py:102 | `lstrip` keeps a suffix that does not begin with whitespace and drops only whitespace |
| Text.TrimEndSlice | skills/private/vanta-speech-swift-expert/scripts/generate_changelog.py:102 | `rstrip` keeps a prefix that does not end with whitespace and drops only whitespace |
| Text.Strip | skills/private/vanta-speech-swift-expert/scripts/generate_changelog.py:102 | `str.strip()`: `rstrip` of `lstrip`, over the code points for which Python's `isspace` holds |
| Text.StripSlice | skills/private/vanta-speech-swift-expert/scripts/generate_changelog.py:102 | `strip` keeps a slice that neither begins nor ends with whitespace and drops only whitespace |
| Text.StripEmptyIff | skills/private/vanta-speech-swift-expert/scripts/generate_changelog.py:102 | a line strips to `""` iff it is all whitespace |
| Text.StripIdempotent | skills/private/vanta-speech-swift-expert/scripts/generate_changelog.py:102 | stripping a stripped line changes nothing |
| Text.SplitLines | skills/private/vanta-speech-swift-expert/scripts/generate_changelog.py:102 | `str.splitlines()`: cuts at every line boundary, CR LF counting as one, and opens no line after a final boundary; no line it returns holds a boundary |
| Text.SplitLinesJoin | skills/private/vanta-speech-swift-expert/scripts/generate_changelog.py:102 | lines without boundaries, joined by LF with a non-empty last line, come back out of `splitlines` unchanged |
| Text.SplitLinesJoinAll | skills/private/vanta-speech-swift-expert/scripts/generate_changelog.py:102 | boundary-free lines joined by LF come back out of `splitlines` unchanged, except that an empty last line is lost (so no lines, or one empty line, give none) |
| Changelog.KeepCommits | skills/private/vanta-speech-swift-expert/scripts/generate_changelog.py:102 | the list comprehension: every line stripped, lines that strip to `""` dropped, order kept |
| Changelog.Commits | skills/private/vanta-speech-swift-expert/scripts/generate_changelog.py:102 | the commit lines of the `git log` output: the filter applied to its `splitlines` |
| Changelog.KeepCommitsStripped | skills/private/vanta-speech-swift-expert/scripts/generate_changelog.py:102 | every kept commit line is non-empty and already stripped |
| Changelog.KeepCommitsLength | skills/private/vanta-speech-swift-expert/scripts/generate_changelog.py:102 | the filter never yields more lines than it is given |
| Changelog.KeepCommitsIn | skills/private/vanta-speech-swift-expert/scripts/generate_changelog.py:102 | a string is kept iff it is non-empty and is one of the stripped input lines |
| Changelog.KeepCommitsAppend | skills/private/vanta-speech-swift-expert/scripts/generate_changelog.py:102 | filtering a concatenation concatenates the filtered parts, so order is kept |
| Changelog.KeepCommitsAll | skills/private/vanta-speech-swift-expert/scripts/generate_changelog.py:102 | when no line is blank, line `j` of the result is input line `j` stripped |
| Changelog.KeepCommitsBreakFree | skills/private/vanta-speech-swift-expert/scripts/generate_changelog.py:102 | no kept line contains a line boundary |
| Changelog.KeepCommitsDropFinalEmpty | skills/private/vanta-speech-swift-expert/scripts/generate_changelog.py:102 | an empty last line adds no commit line |
| Changelog.CommitsOfLog | skills/private/vanta-speech-swift-expert/scripts/generate_changelog.py:102 | for any output made of boundary-free lines joined by LF, including empty output and output ending in a line break, the commits are exactly the filtered lines |
| Changelog.CommitsPlain | skills/private/vanta-speech-swift-expert/scripts/generate_changelog.py:102 | every commit line taken from any `git log` output is non-empty and holds no LF |
| Changelog.BuildTitle | skills/private/vanta-speech-swift-expert/scripts/generate_changelog.py:104-111 | collecting the parts and joining them with spaces gives `## Changelog`, then ` (since REF)`, ` (since DATE)` and ` (until REF)` for the ones given, in that order |
| Changelog.ChangelogTitleHeading | skills/private/vanta-speech-swift-expert/scripts/generate_changelog.py:104-111 | the title starts with `## Changelog`, and is exactly that iff no ref and no date is given |
| Changelog.FormatMarkdown | skills/private/vanta-speech-swift-expert/scripts/generate_changelog.py:70-76 | the loop that appends the bullets yields the title, an empty line, then the bullets or the no-commits line, joined by LF |
| Changelog.MarkdownShape | skills/private/vanta-speech-swift-expert/scripts/generate_changelog.py:70-76 | read line by line: the title, then `""`, then either exactly `- (No commits found)` (three lines in all) or `len(commits)+2` lines with line `i+2` equal to `"- " + commits[i]` |
| Changelog.ChangelogOfOutput | skills/private/vanta-speech-swift-expert/scripts/generate_changelog.py:102-113 | the changelog of any `git log` output has one non-empty bullet per kept commit line, in order, after the title |
| ResearchReport.LoadSources | skills/private/web-research-master/scripts/build_research_report.py:24-26 | a top-level JSON list is returned unchanged; any other value is refused with the `ValueError` message |
| ResearchReport.TitleLookup | skills/private/web-research-master/scripts/build_research_report.py:34 | a record without `title` reads `(untitled)`; a present title, even an empty one, is used verbatim |
| ResearchReport.HeaderJoin | skills/private/web-research-master/scripts/build_research_report.py:39-44 | the title and the optional `[date]` and `(type)` parts joined by spaces give the header line: title, then ` [date]` if the date is non-empty, then ` (type)` if the type is non-empty |
| ResearchReport.EntryText | skills/private/web-research-master/scripts/build_research_report.py:44-48 | an entry is its header line, then `"\n  - URL: " + url` if the URL is non-empty, then `"\n  - Notes: " + notes` if the notes are non-empty |
| ResearchReport.FormatEntry | skills/private/web-research-master/scripts/build_research_report.py:34-49 | the loop body, building the header parts and growing the line, yields the entry of the record |
| ResearchReport.FormatSources | skills/private/web-research-master/scripts/build_research_report.py:29-50 | the placeholder `- (No sources provided)` for no sources, otherwise the entries of all sources, in order, joined by LF |
| ResearchReport.EntryShape | skills/private/web-research-master/scripts/build_research_report.py:39-48 | read line by line, an entry is the header, then the URL line iff a URL is given, then the notes line iff notes are given |
| ResearchReport.EntryLineKinds | skills/private/web-research-master/scripts/build_research_report.py:44-48 | the first line begins with `"- " + title`; there is a URL line iff the URL is non-empty and a notes line iff the notes are non-empty |
| ResearchReport.SourcesShape | skills/private/web-research-master/scripts/build_research_report.py:32-50 | read line by line, the source list is the lines of each entry, source after source, in input order |
| ResearchReport.BuildReport | skills/private/web-research-master/scripts/build_research_report.py:53-70 | `build_report`: the fixed template lines, with the topic in the first and the formatted sources after `## Sources`, joined by LF |
| ResearchReport.ReportEndsWithNewline | skills/private/web-research-master/scripts/build_research_report.py:53-70 | the report ends with a line break, because the template's last element is `""` |
| ResearchReport.ReportShape | skills/private/web-research-master/scripts/build_research_report.py:53-70 | read line by line: `# Research Report: TOPIC` first; Summary, Key facts, Contradictions and Sources headings at fixed lines in that order; the source-list lines right after `## Sources`; a final empty line |

## Left out

- `run_git` and `get_last_tag` run git as a subprocess; they are not modelled. The last tag is the `lastTag` parameter of `Changelog.EffectiveSinceRef`, and the `git log` output is the `output` parameter of `Changelog.Commits`.
- Argument parsing (and the default limit of 50), the sequencing of the two `main` functions, their exit codes, stderr messages, `print` and the file writes (including the final `"\n"` the changelog writer adds) are I/O and are not modelled.
- `json.load` is treated as a foreign parser: the model starts from a parsed `Json` value, with numbers kept as their literal text.
- Source records are modelled as string-to-string maps. In the script, a record that is not an object, or a title that is not a string, raises an exception, and other field values are formatted with `str`. None of these cases is modelled.
- Strings are sequences of Unicode scalar values, so Python strings holding lone surrogates are outside the model.
- Changelog.LogArgsNoMerges: proved only when neither the range nor the date is the string `--no-merges`, because such a user string would itself be that element (see `LogArgsRefLooksLikeFlag`).
- Changelog.LogArgsNoSince: proved only when the range is not the string `--since`, for the same reason.
- Changelog.LogArgsMaxCount: proved only when neither the range nor the date begins with `--max-count=`, for the same reason.
- Changelog.MarkdownShape: the line-by-line reading needs a title and commits free of `"\n"`. Commits produced by the filter always are (`ChangelogOfOutput`).
- ResearchReport.EntryShape: needs record fields free of `"\n"`, because a line break inside a field would start extra lines.
- ResearchReport.EntryLineKinds: needs record fields free of `"\n"`, for the same reason.
- ResearchReport.SourcesShape: needs record fields free of `"\n"`, for the same reason.
- ResearchReport.ReportShape: needs a topic free of `"\n"`, for the same reason.
