/** The git helpers: the working-tree status (`getGitStatusAsync`), the
    clean check (`ensureCleanAsync`) and tagging the current version
    (`tagVersionAsync`). Running git is a parameter: the output of
    `git status -z` is given as a string, and an operation returns the
    commands it runs, in order, with how it ended. */
module Git {
  import opened Failures
  import opened Fields
  import opened Versions
  import opened Codec
  import opened Store

  const Nul: char := '\0'

  const StatusCommand: seq<string> := ["git", "status", "-z"]

  function TagCommand(name: string): seq<string> {
    ["git", "tag", name]
  }

  predicate IsTagCommand(command: seq<string>) {
    |command| == 3 && command[0] == "git" && command[1] == "tag"
  }

  /** The commands an operation ran, in order, and how it ended. */
  datatype Run = Run(commands: seq<seq<string>>, outcome: Outcome)

  /** The `filter(line => !!line)` step: drop the empty records, keep the
      others in order. */
  function NonEmpty(records: seq<string>): (kept: seq<string>)
    ensures forall i :: 0 <= i < |kept| ==> kept[i] != [] && kept[i] in records
  {
    if records == [] then []
    else if records[0] == [] then NonEmpty(records[1..])
    else [records[0]] + NonEmpty(records[1..])
  }

  const Empty: string := []

  /** The filter keeps every non-empty record as often as it occurs and
      drops every empty one. */
  lemma {:induction false} NonEmptyCounts(records: seq<string>)
    ensures multiset(NonEmpty(records)) == multiset(records)[Empty := 0]
  {
    if records != [] {
      NonEmptyCounts(records[1..]);
      assert records == [records[0]] + records[1..];
    }
  }

  /** Every non-empty record survives the filter. */
  lemma NonEmptyKeepsRecords(records: seq<string>, r: string)
    requires r in records && r != []
    ensures r in NonEmpty(records)
  {
    NonEmptyCounts(records);
    assert r in multiset(records);
    assert r in multiset(NonEmpty(records));
  }

  lemma NonEmptyCons(x: string, rest: seq<string>)
    ensures NonEmpty([x] + rest) == if x == [] then NonEmpty(rest) else [x] + NonEmpty(rest)
  {
    assert ([x] + rest)[1..] == rest;
  }

  /** Filtering works record by record, so it keeps the order of the
      records it keeps: filtering a concatenation concatenates the results. */
  lemma {:induction false} NonEmptyAppend(a: seq<string>, b: seq<string>)
    ensures NonEmpty(a + b) == NonEmpty(a) + NonEmpty(b)
  {
    if a == [] {
      assert a + b == b;
    } else {
      var x, tail := a[0], a[1..];
      assert (a + b)[0] == x && (a + b)[1..] == tail + b;
      NonEmptyAppend(tail, b);
      if x != [] {
        calc {
          NonEmpty(a + b);
          [x] + NonEmpty(tail + b);
          [x] + (NonEmpty(tail) + NonEmpty(b));
          ([x] + NonEmpty(tail)) + NonEmpty(b);
          NonEmpty(a) + NonEmpty(b);
        }
      }
    }
  }

  /** The entries of `git status -z` output: split on NUL, empty records
      dropped. No entry is empty and none contains a NUL. */
  function GetGitStatus(output: string): (files: seq<string>)
    ensures forall i :: 0 <= i < |files| ==> files[i] != [] && Nul !in files[i]
  {
    NonEmpty(Split(output, Nul))
  }

  /** Output as git writes it with `-z`: every record ends with a NUL. */
  function Records(entries: seq<string>): string {
    if entries == [] then [] else entries[0] + [Nul] + Records(entries[1..])
  }

  /** Status parsing recovers the records git wrote, exactly and in order. */
  lemma {:induction false} StatusRecoversRecords(entries: seq<string>)
    requires forall i :: 0 <= i < |entries| ==> entries[i] != [] && Nul !in entries[i]
    ensures GetGitStatus(Records(entries)) == entries
  {
    if entries == [] {
      var none: string := [];
      SplitNoSeparator(none, Nul);
      assert NonEmpty([none]) == NonEmpty([]);
    } else {
      var rest := Records(entries[1..]);
      SplitAtSeparator(entries[0], Nul, rest);
      StatusRecoversRecords(entries[1..]);
      var fields := [entries[0]] + Split(rest, Nul);
      assert fields[1..] == Split(rest, Nul);
      assert entries == [entries[0]] + entries[1..];
    }
  }

  /** A leading NUL only ends an empty record, which the filter drops. */
  lemma StatusSkipsLeadingNul(output: string)
    requires output != [] && output[0] == Nul
    ensures GetGitStatus(output) == GetGitStatus(output[1..])
  {
    var none: string := [];
    assert IndexOf(output, Nul) == 0 && output[..0] == none;
    assert Split(output, Nul) == [none] + Split(output[1..], Nul);
    NonEmptyCons(none, Split(output[1..], Nul));
  }

  /** Output that starts with a character other than NUL has an entry. */
  lemma StatusOfLeadingRecord(output: string)
    requires output != [] && output[0] != Nul
    ensures GetGitStatus(output) != []
  {
    var i := IndexOf(output, Nul);
    var first := output[..i];
    var others: seq<string> := if i == |output| then [] else Split(output[i + 1..], Nul);
    if i == |output| {
      assert first == output;
    }
    assert Split(output, Nul) == [first] + others;
    assert first != [];
    NonEmptyCons(first, others);
  }

  /** The status list is empty exactly when the output is nothing but NULs. */
  lemma {:induction false} NoEntriesIffOnlySeparators(output: string)
    ensures GetGitStatus(output) == [] <==> forall i :: 0 <= i < |output| ==> output[i] == Nul
    decreases |output|
  {
    if output == [] {
      SplitNoSeparator(output, Nul);
      NonEmptyCons(output, []);
      assert [output] + [] == [output];
    } else if output[0] == Nul {
      StatusSkipsLeadingNul(output);
      NoEntriesIffOnlySeparators(output[1..]);
      assert forall k :: 1 <= k < |output| ==> output[k] == output[1..][k - 1];
    } else {
      StatusOfLeadingRecord(output);
    }
  }

  /** `ensureCleanAsync`: fail, listing the entries, when there is any
      entry at all. Untracked files count: no entry is classified. */
  function EnsureClean(status: string): Outcome {
    var files := GetGitStatus(status);
    if |files| > 0 then Fail(UncommittedChanges(files)) else Pass
  }

  /** The check passes exactly when the status output holds no record, and
      a failure carries the whole, non-empty list of entries. */
  lemma EnsureCleanIff(status: string)
    ensures EnsureClean(status).Pass? <==> forall i :: 0 <= i < |status| ==> status[i] == Nul
    ensures EnsureClean(status).Fail? ==>
      GetGitStatus(status) != [] && EnsureClean(status).error == UncommittedChanges(GetGitStatus(status))
  {
    NoEntriesIffOnlySeparators(status);
  }

  /** An untracked file alone (status code `??`) makes the tree dirty. */
  lemma UntrackedFileIsDirty(path: string)
    requires Nul !in path
    ensures EnsureClean(Records(["?? " + path])) == Fail(UncommittedChanges(["?? " + path]))
  {
    var entry := "?? " + path;
    assert Nul !in entry by {
      assert forall k :: 0 <= k < |entry| ==> entry[k] == if k < 3 then "?? "[k] else path[k - 3];
    }
    StatusRecoversRecords([entry]);
  }

  /** `tagVersionAsync`: read the current version; without a version file
      do nothing; otherwise run the clean check, and only if it passes tag
      the formatted version. */
  function TagVersion(read: ReadOutcome, status: string): Run {
    match GetCurrentVersion(read)
    case Err(e) => Run([], Fail(e))
    case Ok(None) => Run([], Pass)
    case Ok(Some(v)) =>
      match EnsureClean(status)
      case Fail(e) => Run([StatusCommand], Fail(e))
      case Pass => Run([StatusCommand, TagCommand(VersionToString(v))], Pass)
  }

  /** Nothing happens when the version file is absent; a read error or a
      malformed file stops before git is run at all. */
  lemma TagWithoutVersion(read: ReadOutcome, status: string)
    ensures read == NotFound ==> TagVersion(read, status) == Run([], Pass)
    ensures GetCurrentVersion(read).Err? ==> TagVersion(read, status) == Run([], Fail(GetCurrentVersion(read).error))
  {
  }

  /** With a version file, the status is always checked first; a dirty tree
      fails with its entries and tags nothing; a clean tree is tagged with
      the version the file holds. */
  lemma TagWithVersion(read: ReadOutcome, status: string, v: Version)
    requires GetCurrentVersion(read) == Ok(Some(v))
    ensures GetGitStatus(status) != [] ==>
      TagVersion(read, status) == Run([StatusCommand], Fail(UncommittedChanges(GetGitStatus(status))))
    ensures GetGitStatus(status) == [] ==>
      TagVersion(read, status) == Run([StatusCommand, TagCommand(VersionToString(v))], Pass)
  {
  }

  /** Exit statuses are never checked: a status command that prints
      nothing (as a failing one does) lets the tag go ahead. */
  lemma TagAfterSilentStatus(read: ReadOutcome, v: Version)
    requires GetCurrentVersion(read) == Ok(Some(v))
    ensures TagVersion(read, "") == Run([StatusCommand, TagCommand(VersionToString(v))], Pass)
  {
    NoEntriesIffOnlySeparators("");
  }

  /** The ordering rule: a tag command is only ever issued after the status
      command, when that status was clean, and it is named by the version
      whose exact encoding is the file's text, so the tag parses back to
      that version. */
  lemma TagOnlyAfterCleanCheck(read: ReadOutcome, status: string, j: nat)
    requires j < |TagVersion(read, status).commands| && IsTagCommand(TagVersion(read, status).commands[j])
    ensures StatusCommand in TagVersion(read, status).commands[..j]
    ensures GetGitStatus(status) == [] && TagVersion(read, status).outcome == Pass
    ensures read.Contents? && TypeScriptToVersion(read.text).Ok?
    ensures read.text == VersionToTypeScript(TypeScriptToVersion(read.text).value)
    ensures TagVersion(read, status).commands[j] == TagCommand(VersionToString(TypeScriptToVersion(read.text).value))
    ensures StringToVersion(TagVersion(read, status).commands[j][2]) == TypeScriptToVersion(read.text)
  {
    var run := TagVersion(read, status);
    GetCurrentVersionOutcomes(read);
    var v := GetCurrentVersion(read).value.value;
    assert run.commands == [StatusCommand, TagCommand(VersionToString(v))];
    assert run.commands[..j] == [StatusCommand];
    ParseFormat(v);
  }
}
