/** The text builders of the changelog generator: the git revision range,
    the `git log` argument vector, the commit-line filter, the title and the
    Markdown list. */
module Changelog {
  import opened Optional
  import opened Text
  import Decimal

  const NoMerges := "--no-merges"
  const MaxCountPrefix := "--max-count="
  const SinceFlag := "--since"
  const PrettyFormat := "--pretty=format:%h %s"
  const Heading := "## Changelog"
  const NoCommits := "- (No commits found)"

  // ---------------------------------------------------------------------
  // Revision range

  /** `build_range`: `since..until`, `since..HEAD`, `until`, or no range. */
  function BuildRange(sinceRef: Option<string>, untilRef: Option<string>): Option<string>
  {
    if Truthy(sinceRef) && Truthy(untilRef) then Some(sinceRef.value + ".." + untilRef.value)
    else if Truthy(sinceRef) then Some(sinceRef.value + "..HEAD")
    else if Truthy(untilRef) then Some(untilRef.value)
    else None
  }

  /** Which ref is present selects one of four ranges. */
  lemma BuildRangeCases(sinceRef: Option<string>, untilRef: Option<string>)
    ensures var r := BuildRange(sinceRef, untilRef);
      && (Truthy(sinceRef) && Truthy(untilRef) ==> r == Some(sinceRef.value + ".." + untilRef.value))
      && (Truthy(sinceRef) && !Truthy(untilRef) ==> r == Some(sinceRef.value + "..HEAD"))
      && (!Truthy(sinceRef) && Truthy(untilRef) ==> r == untilRef)
      && (r == None <==> !Truthy(sinceRef) && !Truthy(untilRef))
  {
  }

  /** A range exists, and is a non-empty string, exactly when some ref is given,
      so the argument builder passes it on exactly then. */
  lemma BuildRangeTruthy(sinceRef: Option<string>, untilRef: Option<string>)
    ensures Truthy(BuildRange(sinceRef, untilRef)) <==> Truthy(sinceRef) || Truthy(untilRef)
  {
  }

  /** The start ref `main` uses: the given one, unless neither a start ref nor
      a start date is given, in which case the last tag (`None` when the
      repository has none). */
  function EffectiveSinceRef(sinceRef: Option<string>, sinceDate: Option<string>,
                             lastTag: Option<string>): Option<string>
  {
    if !Truthy(sinceRef) && !Truthy(sinceDate) then lastTag else sinceRef
  }

  /** The last tag is consulted only when neither a start ref nor a start date
      is given; a given start ref always wins. */
  lemma EffectiveSinceRefCases(sinceRef: Option<string>, sinceDate: Option<string>,
                               lastTag: Option<string>)
    ensures var r := EffectiveSinceRef(sinceRef, sinceDate, lastTag);
      && (Truthy(sinceRef) ==> r == sinceRef)
      && (Truthy(sinceDate) ==> r == sinceRef)
      && (!Truthy(sinceRef) && !Truthy(sinceDate) ==> r == lastTag)
  {
  }

  // ---------------------------------------------------------------------
  // git log arguments

  function MaxCountFlag(maxCount: int): string
  {
    MaxCountPrefix + Decimal.IntToDecimal(maxCount)
  }

  /** The argument vector, slot by slot: `log`, the range if any, `--no-merges`
      unless merges are wanted, the commit limit, `--since DATE` if a date is
      given, and the output format. */
  function LogArgs(gitRange: Option<string>, sinceDate: Option<string>,
                   maxCount: int, includeMerges: bool): seq<string>
  {
    ["log"]
    + (if Truthy(gitRange) then [gitRange.value] else [])
    + (if includeMerges then [] else [NoMerges])
    + [MaxCountFlag(maxCount)]
    + (if Truthy(sinceDate) then [SinceFlag, sinceDate.value] else [])
    + [PrettyFormat]
  }

  /** `build_log_args`: grows the vector one append at a time. */
  method BuildLogArgs(gitRange: Option<string>, sinceDate: Option<string>,
                      maxCount: int, includeMerges: bool) returns (args: seq<string>)
    ensures args == LogArgs(gitRange, sinceDate, maxCount, includeMerges)
  {
    ghost var rangePart := if Truthy(gitRange) then [gitRange.value] else [];
    ghost var mergePart := if includeMerges then [] else [NoMerges];
    ghost var sincePart := if Truthy(sinceDate) then [SinceFlag, sinceDate.value] else [];
    args := ["log"];
    if Truthy(gitRange) {
      args := args + [gitRange.value];
    }
    assert args == ["log"] + rangePart;
    if !includeMerges {
      args := args + [NoMerges];
    }
    assert args == ["log"] + rangePart + mergePart;
    args := args + [MaxCountFlag(maxCount)];
    ghost var limited := args;
    if Truthy(sinceDate) {
      args := args + [SinceFlag, sinceDate.value];
    }
    assert args == limited + sincePart;
    args := args + [PrettyFormat];
  }

  /** Where each argument sits: `log` first, the format last, the range (if
      any) second, `--no-merges` (if any) right after it, then the limit, and
      `--since DATE` (if any) just before the format. */
  lemma LogArgsLayout(gitRange: Option<string>, sinceDate: Option<string>,
                      maxCount: int, includeMerges: bool)
    ensures var args := LogArgs(gitRange, sinceDate, maxCount, includeMerges);
      var r := if Truthy(gitRange) then 1 else 0;
      var m := if includeMerges then 0 else 1;
      var d := if Truthy(sinceDate) then 2 else 0;
      && |args| == 3 + r + m + d
      && args[0] == "log"
      && args[|args| - 1] == PrettyFormat
      && (Truthy(gitRange) ==> args[1] == gitRange.value)
      && (!includeMerges ==> args[1 + r] == NoMerges)
      && args[1 + r + m] == MaxCountFlag(maxCount)
      && (Truthy(sinceDate) ==> args[|args| - 3] == SinceFlag && args[|args| - 2] == sinceDate.value)
  {
  }

  /** `--no-merges` is present exactly when merges are not wanted, provided
      neither the range nor the date is itself that flag. */
  lemma LogArgsNoMerges(gitRange: Option<string>, sinceDate: Option<string>,
                        maxCount: int, includeMerges: bool)
    requires Truthy(gitRange) ==> gitRange.value != NoMerges
    requires Truthy(sinceDate) ==> sinceDate.value != NoMerges
    ensures NoMerges in LogArgs(gitRange, sinceDate, maxCount, includeMerges) <==> !includeMerges
  {
    assert MaxCountFlag(maxCount)[2] == 'm' && NoMerges[2] == 'n';
    assert PrettyFormat[2] == 'p' && SinceFlag[2] == 's' && NoMerges[2] == 'n';
  }

  /** Without a date there is no `--since`, provided the range is not itself
      that flag. */
  lemma LogArgsNoSince(gitRange: Option<string>, sinceDate: Option<string>,
                       maxCount: int, includeMerges: bool)
    requires !Truthy(sinceDate)
    requires Truthy(gitRange) ==> gitRange.value != SinceFlag
    ensures SinceFlag !in LogArgs(gitRange, sinceDate, maxCount, includeMerges)
  {
    assert MaxCountFlag(maxCount)[2] == 'm' && SinceFlag[2] == 's';
    assert PrettyFormat[2] == 'p' && NoMerges[2] == 'n';
  }

  /** The number written after `--max-count=` is a decimal numeral that reads
      back as the limit it was built from. */
  lemma MaxCountFlagValue(maxCount: int)
    ensures var flag := MaxCountFlag(maxCount);
      && HasPrefix(flag, MaxCountPrefix)
      && var digits := flag[|MaxCountPrefix|..];
         && |digits| >= 1
         && (forall i :: 0 <= i < |digits| ==> Decimal.IsDigit(digits[i]) || (i == 0 && digits[i] == '-'))
         && (digits[0] == '-' ==> |digits| >= 2)
         && Decimal.ParseInt(digits) == maxCount
  {
    var flag := MaxCountFlag(maxCount);
    assert flag[|MaxCountPrefix|..] == Decimal.IntToDecimal(maxCount);
    Decimal.IntRoundTrip(maxCount);
  }

  /** Exactly one argument is a commit limit, and it is the flag for
      `maxCount`, provided neither the range nor the date itself begins with
      `--max-count=`. */
  lemma LogArgsMaxCount(gitRange: Option<string>, sinceDate: Option<string>,
                        maxCount: int, includeMerges: bool) returns (k: nat)
    requires Truthy(gitRange) ==> !HasPrefix(gitRange.value, MaxCountPrefix)
    requires Truthy(sinceDate) ==> !HasPrefix(sinceDate.value, MaxCountPrefix)
    ensures var args := LogArgs(gitRange, sinceDate, maxCount, includeMerges);
      && k < |args|
      && args[k] == MaxCountFlag(maxCount)
      && forall j :: 0 <= j < |args| && HasPrefix(args[j], MaxCountPrefix) ==> j == k
  {
    var args := LogArgs(gitRange, sinceDate, maxCount, includeMerges);
    var r := if Truthy(gitRange) then 1 else 0;
    var m := if includeMerges then 0 else 1;
    k := 1 + r + m;
    LogArgsLayout(gitRange, sinceDate, maxCount, includeMerges);
    assert !HasPrefix("log", MaxCountPrefix) && !HasPrefix(NoMerges, MaxCountPrefix);
    assert !HasPrefix(SinceFlag, MaxCountPrefix);
    assert PrettyFormat[..|MaxCountPrefix|][2] != MaxCountPrefix[2];
  }

  /** The premise of `LogArgsNoMerges` is needed: an end ref spelled like the
      flag puts `--no-merges` into the vector even when merges are wanted. */
  lemma LogArgsRefLooksLikeFlag()
    ensures NoMerges in LogArgs(BuildRange(None, Some(NoMerges)), None, 50, true)
  {
    assert LogArgs(BuildRange(None, Some(NoMerges)), None, 50, true)[1] == NoMerges;
  }

  // ---------------------------------------------------------------------
  // Commit lines

  /** What the filter keeps of one line: the line stripped, unless that is empty. */
  function Kept(line: string): seq<string>
  {
    var stripped := Strip(line);
    if stripped != "" then [stripped] else []
  }

  /** The filter of `main`: every line stripped, blank ones dropped, order kept. */
  function KeepCommits(lines: seq<string>): seq<string>
    decreases |lines|
  {
    if |lines| == 0 then [] else Kept(lines[0]) + KeepCommits(lines[1..])
  }

  /** The commit lines of the `git log` output. */
  function Commits(output: string): seq<string>
  {
    KeepCommits(SplitLines(output))
  }

  /** Every input line, stripped. */
  function Stripped(lines: seq<string>): seq<string>
  {
    seq(|lines|, j requires 0 <= j < |lines| => Strip(lines[j]))
  }

  /** Exactly the non-blank stripped lines are kept. */
  lemma {:induction false} KeepCommitsIn(lines: seq<string>, x: string)
    ensures x in KeepCommits(lines) <==> x != "" && x in Stripped(lines)
    decreases |lines|
  {
    if |lines| > 0 {
      KeepCommitsIn(lines[1..], x);
      assert Stripped(lines) == [Strip(lines[0])] + Stripped(lines[1..]);
    }
  }

  /** There are no more kept lines than lines. */
  lemma {:induction false} KeepCommitsLength(lines: seq<string>)
    ensures |KeepCommits(lines)| <= |lines|
    decreases |lines|
  {
    if |lines| > 0 {
      KeepCommitsLength(lines[1..]);
    }
  }

  /** Every kept line is non-blank and already stripped. */
  lemma KeepCommitsStripped(lines: seq<string>)
    ensures var r := KeepCommits(lines);
      forall i :: 0 <= i < |r| ==> r[i] != "" && Strip(r[i]) == r[i]
  {
    var r := KeepCommits(lines);
    forall i | 0 <= i < |r| ensures r[i] != "" && Strip(r[i]) == r[i] {
      KeepCommitsIn(lines, r[i]);
      var j :| 0 <= j < |lines| && Stripped(lines)[j] == r[i];
      StripIdempotent(lines[j]);
    }
  }

  /** The filter respects order: filtering a concatenation concatenates the
      filtered halves. */
  lemma {:induction false} KeepCommitsAppend(a: seq<string>, b: seq<string>)
    ensures KeepCommits(a + b) == KeepCommits(a) + KeepCommits(b)
    decreases |a|
  {
    if |a| == 0 {
      assert a + b == b;
    } else {
      assert (a + b)[1..] == a[1..] + b;
      KeepCommitsAppend(a[1..], b);
    }
  }

  /** When no line is blank, every line is kept, stripped, at its own position. */
  lemma {:induction false} KeepCommitsAll(lines: seq<string>)
    requires forall j :: 0 <= j < |lines| ==> Strip(lines[j]) != ""
    ensures var r := KeepCommits(lines);
      |r| == |lines| && forall j :: 0 <= j < |lines| ==> r[j] == Strip(lines[j])
    decreases |lines|
  {
    if |lines| > 0 {
      KeepCommitsAll(lines[1..]);
      assert Kept(lines[0]) == [Strip(lines[0])];
    }
  }

  /** No commit line holds a line boundary. */
  lemma KeepCommitsBreakFree(lines: seq<string>)
    requires forall j :: 0 <= j < |lines| ==> BreakFree(lines[j])
    ensures var r := KeepCommits(lines);
      forall i :: 0 <= i < |r| ==> BreakFree(r[i])
  {
    var r := KeepCommits(lines);
    forall i | 0 <= i < |r| ensures BreakFree(r[i]) {
      KeepCommitsIn(lines, r[i]);
      var j :| 0 <= j < |lines| && Stripped(lines)[j] == r[i];
      StripBreakFree(lines[j]);
    }
  }

  /** An empty last line contributes no commit. */
  lemma KeepCommitsDropFinalEmpty(lines: seq<string>)
    ensures KeepCommits(DropFinalEmpty(lines)) == KeepCommits(lines)
  {
    if |lines| > 0 && lines[|lines| - 1] == "" {
      var init := lines[..|lines| - 1];
      assert lines == init + [""];
      KeepCommitsAppend(init, [""]);
      assert Kept("") == [];
      assert KeepCommits([""]) == Kept("") + KeepCommits([]);
    }
  }

  /** Output whose lines are joined by LF, as `git log` prints them, yields
      the filtered lines; this includes empty output and output that ends in
      a line break. */
  lemma CommitsOfLog(lines: seq<string>)
    requires forall j :: 0 <= j < |lines| ==> BreakFree(lines[j])
    ensures Commits(Join(lines, "\n")) == KeepCommits(lines)
  {
    SplitLinesJoinAll(lines);
    KeepCommitsDropFinalEmpty(lines);
  }

  // ---------------------------------------------------------------------
  // Title

  /** One space and `OPENING VALUE)` when the value is given, nothing otherwise. */
  function Tagged(opening: string, o: Option<string>): string
  {
    if Truthy(o) then " " + (opening + o.value + ")") else ""
  }

  /** The title: the heading, then `(since REF)`, `(since DATE)` and
      `(until REF)` for the ones given, in that order, each after one space. */
  function ChangelogTitle(sinceRef: Option<string>, sinceDate: Option<string>,
                          untilRef: Option<string>): string
  {
    Heading + Tagged("(since ", sinceRef) + Tagged("(since ", sinceDate) + Tagged("(until ", untilRef)
  }

  /** Adding the part for one optional value to the title parts adds its
      tag to the joined title. */
  lemma TitleStep(parts: seq<string>, opening: string, o: Option<string>)
    requires |parts| >= 1
    ensures Join(if Truthy(o) then parts + [opening + o.value + ")"] else parts, " ")
            == Join(parts, " ") + Tagged(opening, o)
  {
    if Truthy(o) {
      JoinSnoc(parts, " ", opening + o.value + ")");
    }
  }

  /** The title assembly of `main`: collects the parts, then joins them with spaces. */
  method BuildTitle(sinceRef: Option<string>, sinceDate: Option<string>,
                    untilRef: Option<string>) returns (title: string)
    ensures title == ChangelogTitle(sinceRef, sinceDate, untilRef)
  {
    var parts := [Heading];
    TitleStep([Heading], "(since ", sinceRef);
    if Truthy(sinceRef) {
      parts := parts + ["(since " + sinceRef.value + ")"];
    }
    ghost var first := parts;
    TitleStep(first, "(since ", sinceDate);
    if Truthy(sinceDate) {
      parts := parts + ["(since " + sinceDate.value + ")"];
    }
    ghost var second := parts;
    TitleStep(second, "(until ", untilRef);
    if Truthy(untilRef) {
      parts := parts + ["(until " + untilRef.value + ")"];
    }
    title := Join(parts, " ");
  }

  /** The title always starts with the heading, and is the heading alone
      exactly when no ref and no date is given. */
  lemma ChangelogTitleHeading(sinceRef: Option<string>, sinceDate: Option<string>,
                              untilRef: Option<string>)
    ensures var t := ChangelogTitle(sinceRef, sinceDate, untilRef);
      && HasPrefix(t, Heading)
      && (t == Heading <==> !Truthy(sinceRef) && !Truthy(sinceDate) && !Truthy(untilRef))
  {
    var t := ChangelogTitle(sinceRef, sinceDate, untilRef);
    if Truthy(sinceRef) || Truthy(sinceDate) || Truthy(untilRef) {
      assert |t| > |Heading|;
    }
  }

  // ---------------------------------------------------------------------
  // Markdown

  function Bullets(commits: seq<string>): seq<string>
  {
    seq(|commits|, i requires 0 <= i < |commits| => "- " + commits[i])
  }

  /** The lines of the changelog: title, blank line, then one bullet per
      commit or the no-commits line. */
  function MarkdownLines(title: string, commits: seq<string>): seq<string>
  {
    [title, ""] + (if |commits| == 0 then [NoCommits] else Bullets(commits))
  }

  function Markdown(title: string, commits: seq<string>): string
  {
    Join(MarkdownLines(title, commits), "\n")
  }

  /** `format_markdown`: starts from the title and a blank line and appends
      one bullet per commit. */
  method FormatMarkdown(title: string, commits: seq<string>) returns (md: string)
    ensures md == Markdown(title, commits)
  {
    var lines := [title, ""];
    if |commits| == 0 {
      lines := lines + [NoCommits];
      md := Join(lines, "\n");
      return;
    }
    var i := 0;
    while i < |commits|
      invariant 0 <= i <= |commits|
      invariant lines == [title, ""] + Bullets(commits[..i])
    {
      assert Bullets(commits[..i + 1]) == Bullets(commits[..i]) + ["- " + commits[i]];
      lines := lines + ["- " + commits[i]];
      i := i + 1;
    }
    assert commits[..i] == commits;
    md := Join(lines, "\n");
  }

  /** Read back line by line, the changelog is the title, a blank line, and
      either exactly the no-commits line or one bullet per commit in order. */
  lemma MarkdownShape(title: string, commits: seq<string>)
    requires '\n' !in title
    requires forall i :: 0 <= i < |commits| ==> '\n' !in commits[i]
    ensures var lines := Split(Markdown(title, commits), '\n');
      && |lines| == (if |commits| == 0 then 3 else |commits| + 2)
      && lines[0] == title
      && lines[1] == ""
      && (|commits| == 0 ==> lines[2] == NoCommits)
      && (forall i :: 0 <= i < |commits| ==> lines[i + 2] == "- " + commits[i])
  {
    var ls := MarkdownLines(title, commits);
    forall i | 0 <= i < |ls| ensures '\n' !in ls[i] {
      if i >= 2 && |commits| > 0 {
        assert ls[i] == "- " + commits[i - 2];
      }
    }
    SplitJoinPlain(ls, '\n');
  }

  /** Every commit line of a `git log` output is non-blank and holds no LF. */
  lemma CommitsPlain(output: string)
    ensures var commits := Commits(output);
      forall i :: 0 <= i < |commits| ==> commits[i] != "" && '\n' !in commits[i]
  {
    var lines := SplitLines(output);
    var commits := Commits(output);
    forall i | 0 <= i < |commits| ensures commits[i] != "" && '\n' !in commits[i] {
      KeepCommitsIn(lines, commits[i]);
      var j :| 0 <= j < |lines| && Stripped(lines)[j] == commits[i];
      StripBreakFree(lines[j]);
      BreakFreeNoNewline(commits[i]);
    }
  }

  /** The changelog of a `git log` output has one bullet per non-blank output
      line, in order, after the title and the blank line. */
  lemma ChangelogOfOutput(title: string, output: string)
    requires '\n' !in title
    ensures var commits := Commits(output);
      var lines := Split(Markdown(title, commits), '\n');
      && |lines| == (if |commits| == 0 then 3 else |commits| + 2)
      && lines[0] == title
      && (forall i :: 0 <= i < |commits| ==> lines[i + 2] == "- " + commits[i] && commits[i] != "")
  {
    CommitsPlain(output);
    MarkdownShape(title, Commits(output));
  }
}
