/**
 * The single-package check of `rpm_gpg_key_verifier_single_package.py`:
 * the installed package's signature key against the key in a freshly
 * downloaded RPM of the same architecture, with `/tmp` as the directory
 * the download lands in and the clean-up removes from.
 */
module VerifySinglePackage {
  import opened Wrappers
  import opened Shell
  import opened Text

  // ---------------------------------------------------------------------------
  // run_command and the helpers that swallow its failure

  /** `run_command`: the stripped stdout, or the `CalledProcessError` it lets escape. */
  function RunCommand(q: Query): (r: Result<string, Fault>)
    ensures r.Err? <==> q.Failed?
    ensures r.Err? ==> r.error == CalledProcessError
    ensures r.Ok? ==> r.value == Strip(q.stdout) && (r.value == [] <==> AllSpace(q.stdout))
  {
    match q
    case Failed => Err(CalledProcessError)
    case Completed(out) =>
      StripEmpty(out);
      Ok(Strip(out))
  }

  /** `get_package_metadata` and `get_rpm_metadata`: the stripped output, or `None` when the command fails. */
  function OutputOrNone(q: Query): (r: Option<string>)
    ensures r.None? <==> q.Failed?
    ensures r.Some? ==> RunCommand(q) == Ok(r.value)
  {
    var out := RunCommand(q);
    if out.Err? then None else Some(out.value)
  }

  // ---------------------------------------------------------------------------
  // get_gpg_key_installed / get_gpg_key_from_rpm_metadata

  /** The test both extractors apply to a line. */
  predicate IsSignatureLine(line: string) {
    Contains(line, "Signature")
  }

  /** A line containing "Signature" is not all whitespace, so `split()` gives it a last token. */
  lemma SignatureLineHasWords(line: string)
    requires IsSignatureLine(line)
    ensures Words(line) != []
  {
    var i :| 0 <= i <= |line| && OccursAt(line, "Signature", i);
    assert line[i] == "Signature"[0];
    WordsOfMarked(line, i);
  }

  /**
   * The loop of both extractors over the lines of the text: the last
   * whitespace-separated token of the first line containing "Signature",
   * stripped, or `None` when no line contains it.
   */
  function SignatureTokenIn(lines: seq<string>): (r: Option<string>)
    ensures r.None? <==> forall k :: 0 <= k < |lines| ==> !IsSignatureLine(lines[k])
    ensures r.Some? ==> r.value != [] && NoSpace(r.value)
  {
    var i := FirstIndex(lines, IsSignatureLine);
    if i.None? then None
    else
      var line := lines[i.value];
      SignatureLineHasWords(line);
      var token := Last(Words(line));
      StripUnchanged(token);
      Some(Strip(token))
  }

  /** The token comes from the first line containing "Signature" and is that line's last word. */
  lemma SignatureTokenOfFirstLine(lines: seq<string>, k: nat)
    requires k < |lines| && IsSignatureLine(lines[k])
    requires forall j :: 0 <= j < k ==> !IsSignatureLine(lines[j])
    ensures Words(lines[k]) != []
    ensures SignatureTokenIn(lines) == Some(Last(Words(lines[k])))
  {
    SignatureLineHasWords(lines[k]);
    var i := FirstIndex(lines, IsSignatureLine);
    assert i == Some(k);
    StripUnchanged(Last(Words(lines[k])));
  }

  /** Lines after the first line containing "Signature" are ignored. */
  lemma LaterLinesIgnored(lines: seq<string>, more: seq<string>)
    requires SignatureTokenIn(lines).Some?
    ensures SignatureTokenIn(lines + more) == SignatureTokenIn(lines)
  {
    var k := FirstIndex(lines, IsSignatureLine).value;
    assert (lines + more)[k] == lines[k];
    assert forall j :: 0 <= j < k ==> (lines + more)[j] == lines[j];
    SignatureTokenOfFirstLine(lines, k);
    SignatureTokenOfFirstLine(lines + more, k);
  }

  /**
   * Where the token sits in its line: after whitespace or at the line's
   * start, with only whitespace after it.
   */
  lemma SignatureTokenPosition(lines: seq<string>) returns (k: nat, i: nat)
    requires SignatureTokenIn(lines).Some?
    ensures k < |lines| && IsSignatureLine(lines[k])
    ensures forall j :: 0 <= j < k ==> !IsSignatureLine(lines[j])
    ensures OccursAt(lines[k], SignatureTokenIn(lines).value, i)
    ensures i == 0 || IsSpace(lines[k][i - 1])
    ensures AllSpace(lines[k][i + |SignatureTokenIn(lines).value|..])
  {
    k := FirstIndex(lines, IsSignatureLine).value;
    SignatureTokenOfFirstLine(lines, k);
    SignatureLineHasWords(lines[k]);
    assert !AllSpace(lines[k]);
    i := LastWord(lines[k]);
  }

  /** A "Signature" line ending in a space and a whitespace-free token yields that token. */
  lemma SignatureTokenOfLine(pre: string, token: string)
    requires IsSignatureLine(pre + " " + token)
    requires token != [] && NoSpace(token)
    ensures SignatureTokenIn([pre + " " + token]) == Some(token)
  {
    SignatureTokenOfFirstLine([pre + " " + token], 0);
    LastWordAfterSpace(pre, token);
  }

  /** `get_gpg_key_from_rpm_metadata` on text: its lines as `splitlines()` gives them. */
  function SignatureToken(text: string): (r: Option<string>)
    ensures r == SignatureTokenIn(Lines(text))
    ensures r.None? <==> forall k :: 0 <= k < |Lines(text)| ==> !IsSignatureLine(Lines(text)[k])
  {
    SignatureTokenIn(Lines(text))
  }

  /**
   * `get_gpg_key_from_rpm_metadata(metadata)`: `None` has no `splitlines`,
   * so a missing text is an `AttributeError`.
   */
  function GpgKeyFromRpmMetadata(metadata: Option<string>): (r: Result<Option<string>, Fault>)
    ensures r.Err? <==> metadata.None?
    ensures r.Err? ==> r.error == AttributeError
    ensures r.Ok? ==> r.value == SignatureToken(metadata.value)
  {
    match metadata
    case None => Err(AttributeError)
    case Some(text) => Ok(SignatureToken(text))
  }

  /** `get_gpg_key_installed`: the same extraction on `rpm -qi`, whose failure escapes. */
  function GpgKeyInstalled(rpmQi: Query): (r: Result<Option<string>, Fault>)
    ensures r.Err? <==> rpmQi.Failed?
    ensures r.Err? ==> r.error == CalledProcessError
  {
    var out := RunCommand(rpmQi);
    if out.Err? then Err(out.error) else Ok(SignatureToken(out.value))
  }

  /** On the same `rpm -qi` outcome, both extractors give the same key whenever the query succeeds. */
  lemma ExtractorsAgree(rpmQi: Query)
    requires rpmQi.Completed?
    ensures GpgKeyInstalled(rpmQi) == GpgKeyFromRpmMetadata(OutputOrNone(rpmQi))
  {
  }

  /** A typical "Signature" line of `rpm -qi` yields its key ID, the line's last token. */
  lemma SignatureLineExample()
    ensures SignatureTokenIn(["Signature" + "   : RSA/SHA256, Tue 10 Oct 2023, Key ID" + " " + "199e2f91fd431d51"])
            == Some("199e2f91fd431d51")
  {
    var pre := "Signature" + "   : RSA/SHA256, Tue 10 Oct 2023, Key ID";
    var token := "199e2f91fd431d51";
    assert (pre + " " + token)[..9] == "Signature";
    assert OccursAt(pre + " " + token, "Signature", 0);
    assert NoSpace(token);
    SignatureTokenOfLine(pre, token);
  }

  // ---------------------------------------------------------------------------
  // download_rpm_package: the filter of line 44

  /** The test of the comprehension: the package name as a bare prefix, `.rpm` at the end, no `.src.rpm`. */
  predicate IsBinaryRpmFor(f: string, package: string) {
    StartsWith(f, package) && EndsWith(f, ".rpm") && !Contains(f, ".src.rpm")
  }

  /** The comprehension itself: the qualifying entries of the listing (`PickIsFirstQualifying` states which comes first). */
  function BinaryRpms(listing: seq<string>, package: string): (rpms: seq<string>)
    ensures forall k :: 0 <= k < |rpms| ==> IsBinaryRpmFor(rpms[k], package)
    ensures forall f :: f in rpms <==> f in listing && IsBinaryRpmFor(f, package)
    decreases |listing|
  {
    if listing == [] then []
    else
      var rest := BinaryRpms(listing[1..], package);
      if IsBinaryRpmFor(listing[0], package) then [listing[0]] + rest else rest
  }

  /** `rpms[0] if rpms else None`. */
  function PickDownloadedRpm(listing: seq<string>, package: string): (r: Option<string>)
    ensures r.None? <==> forall k :: 0 <= k < |listing| ==> !IsBinaryRpmFor(listing[k], package)
    ensures r.Some? ==> r.value in listing && IsBinaryRpmFor(r.value, package)
  {
    var rpms := BinaryRpms(listing, package);
    if rpms == [] then
      assert forall k :: 0 <= k < |listing| ==> listing[k] !in rpms;
      None
    else
      assert rpms[0] in rpms;
      Some(rpms[0])
  }

  /** The chosen file is the first qualifying entry in listing order. */
  lemma {:induction false} PickIsFirstQualifying(listing: seq<string>, package: string)
    ensures PickDownloadedRpm(listing, package).Some? ==>
              var k := FirstIndex(listing, f => IsBinaryRpmFor(f, package));
              k.Some? && listing[k.value] == PickDownloadedRpm(listing, package).value
    decreases |listing|
  {
    if listing != [] && !IsBinaryRpmFor(listing[0], package) {
      PickIsFirstQualifying(listing[1..], package);
      var p := f => IsBinaryRpmFor(f, package);
      var k := FirstIndex(listing, p);
      var k' := FirstIndex(listing[1..], p);
      if k'.Some? {
        assert p(listing[k'.value + 1]);
        assert forall j :: 1 <= j <= k'.value ==> listing[j] == listing[1..][j - 1];
        assert k == Some(k'.value + 1);
      }
    }
  }

  /** There is no separator check: package `foo` accepts `foobar-1.rpm`. */
  lemma PrefixWithoutSeparator()
    ensures IsBinaryRpmFor("foobar-1.rpm", "foo")
  {
    var f := "foobar-1.rpm";
    forall i | 0 <= i <= |f| ensures !OccursAt(f, ".src.rpm", i) {
      if i + 8 <= |f| {
        assert f[i..i + 8][0] == f[i] != '.';
      }
    }
  }

  /** No entry containing ".src.rpm" is ever chosen, whatever the listing. */
  lemma SourceRpmRejected(listing: seq<string>, package: string, f: string)
    requires Contains(f, ".src.rpm")
    ensures f !in BinaryRpms(listing, package)
    ensures PickDownloadedRpm(listing, package) != Some(f)
  {
  }

  /** When the downloader left only the source RPM, there is nothing to check. */
  lemma OnlySourceRpmDownloaded()
    ensures PickDownloadedRpm(["foo-1.0-1.src.rpm"], "foo") == None
  {
    assert OccursAt("foo-1.0-1.src.rpm", ".src.rpm", 9);
    SourceRpmRejected(["foo-1.0-1.src.rpm"], "foo", "foo-1.0-1.src.rpm");
  }

  // ---------------------------------------------------------------------------
  // /tmp

  /** `/tmp` after the downloader writes `files`: a new name goes last, an existing one is overwritten in place. */
  function AddFiles(entries: seq<string>, files: seq<string>): (r: seq<string>)
    ensures forall x :: x in r <==> x in entries || x in files
    ensures |r| >= |entries| && r[..|entries|] == entries
    ensures Distinct(entries) ==> Distinct(r)
    decreases |files|
  {
    if files == [] then entries
    else
      var next := if files[0] in entries then entries else entries + [files[0]];
      var r := AddFiles(next, files[1..]);
      assert r[..|entries|] == r[..|next|][..|entries|];
      r
  }

  /** `/tmp` after `os.remove` of `name`: every other entry stays, in its order. */
  function Without(entries: seq<string>, name: string): (r: seq<string>)
    ensures forall x :: x in r <==> x in entries && x != name
    ensures Distinct(entries) ==> Distinct(r)
    ensures name !in entries ==> r == entries
    ensures Distinct(entries) && name in entries ==> |r| == |entries| - 1
    decreases |entries|
  {
    if entries == [] then []
    else
      var rest := Without(entries[1..], name);
      assert Distinct(entries) ==> Distinct(entries[1..]) && entries[0] !in entries[1..];
      assert name in entries && entries[0] != name ==> name in entries[1..];
      assert entries == [entries[0]] + entries[1..];
      if entries[0] == name then rest else [entries[0]] + rest
  }

  /** Removing the entry at position `i` of a listing without repeats keeps the others in order. */
  lemma {:induction false} WithoutKeepsOrder(entries: seq<string>, i: nat)
    requires Distinct(entries) && i < |entries|
    ensures Without(entries, entries[i]) == entries[..i] + entries[i + 1..]
    decreases i
  {
    var name := entries[i];
    if i == 0 {
      assert name !in entries[1..];
      assert Without(entries, name) == Without(entries[1..], name);
    } else {
      var tail := entries[1..];
      assert entries[0] != name && tail[i - 1] == name;
      WithoutKeepsOrder(tail, i - 1);
      assert Without(entries, name) == [entries[0]] + Without(tail, name);
      assert entries[..i] == [entries[0]] + tail[..i - 1];
      assert entries[i + 1..] == tail[i..];
    }
  }

  // ---------------------------------------------------------------------------
  // check_package_lib

  /** What the package database, the downloader and the file system answer for one package. */
  datatype Rpm = Rpm(
    query: Query,                 // rpm -q <package>                      (line 16)
    info: Query,                  // rpm -qi <package>, first run           (line 24)
    infoAgain: Query,             // rpm -qi <package>, second run          (line 31)
    arch: Query,                  // rpm -q --qf %{ARCH} <package>          (line 93)
    download: string -> Download, // yumdownloader --archlist=<arch> ...    (line 40)
    queryFile: string -> Query,   // rpm -qpi /tmp/<file>                   (line 50)
    verify: Query                 // rpm -V <package>                       (line 65)
  )

  /** The downloader either fails or writes some files into `/tmp`. */
  datatype Download = DownloadError | Downloaded(files: seq<string>)

  /** How `check_package_lib` ends, with the values it prints on the way. */
  datatype CheckOutcome =
    | NotInstalled                    // lines 75-77
    | NoInstalledMetadata             // lines 80-86: query failed or printed nothing
    | Crashed(fault: Fault)           // an exception escaped (lines 89, 93 or 112)
    | NoDownload(arch: string, downloaderFailed: bool)  // lines 97-100
    | Checked(
        installedKey: Option<string>,
        arch: string,
        rpmFile: string,
        repositoryMetadata: string,   // empty: the warning of line 109 was printed
        repositoryKey: Option<string>,
        keysMatch: bool,              // lines 116-119
        filesVerified: bool)          // lines 62-68: failure is only a warning

  /**
   * What `check_package_lib` reports and leaves in `/tmp` (from `before`
   * to `after`), stage by stage: each early exit, each escaping exception,
   * and the full check with its clean-up.
   */
  ghost predicate Reported(package: string, rpm: Rpm, before: seq<string>, after: seq<string>, outcome: CheckOutcome) {
    && (outcome.NotInstalled? <==> rpm.query.Failed?)
    && (outcome.NoInstalledMetadata? <==> rpm.query.Completed? && (rpm.info.Failed? || AllSpace(rpm.info.stdout)))
    && match outcome
       case NotInstalled => after == before
       case NoInstalledMetadata => after == before
       case Crashed(fault) =>
         && fault != IndexError
         && rpm.query.Completed? && rpm.info.Completed? && !AllSpace(rpm.info.stdout)
         && (fault == CalledProcessError ==> after == before && (rpm.infoAgain.Failed? || rpm.arch.Failed?))
         && (fault == AttributeError ==>
               && rpm.infoAgain.Completed? && rpm.arch.Completed?
               && rpm.download(Strip(rpm.arch.stdout)).Downloaded?
               && after == AddFiles(before, rpm.download(Strip(rpm.arch.stdout)).files)
               && PickDownloadedRpm(after, package).Some?
               && rpm.queryFile(PickDownloadedRpm(after, package).value).Failed?)
       case NoDownload(arch, downloaderFailed) =>
         && rpm.infoAgain.Completed? && rpm.arch.Completed? && arch == Strip(rpm.arch.stdout)
         && (downloaderFailed <==> rpm.download(arch).DownloadError?)
         && (downloaderFailed ==> after == before)
         && (!downloaderFailed ==>
               && after == AddFiles(before, rpm.download(arch).files)
               && forall k :: 0 <= k < |after| ==> !IsBinaryRpmFor(after[k], package))
       case Checked(installedKey, arch, rpmFile, repositoryMetadata, repositoryKey, keysMatch, filesVerified) =>
         && rpm.infoAgain.Completed? && installedKey == SignatureToken(Strip(rpm.infoAgain.stdout))
         && rpm.arch.Completed? && arch == Strip(rpm.arch.stdout)
         && rpm.download(arch).Downloaded?
         && var listing := AddFiles(before, rpm.download(arch).files);
            && PickDownloadedRpm(listing, package) == Some(rpmFile)
            && rpm.queryFile(rpmFile).Completed? && repositoryMetadata == Strip(rpm.queryFile(rpmFile).stdout)
            && repositoryKey == SignatureToken(repositoryMetadata)
            && (keysMatch <==> repositoryKey == installedKey)
            && filesVerified == rpm.verify.Completed?
            && after == Without(listing, rpmFile)
  }

  /** What `main` does with the name typed in. */
  datatype MainOutcome = EmptyPackageName | Ran(outcome: CheckOutcome)

  /** `/tmp`, as the download and the clean-up change it. */
  class TmpDir {
    var entries: seq<string>

    ghost predicate Valid()
      reads this
    {
      Distinct(entries)
    }

    constructor(initial: seq<string>)
      requires Distinct(initial)
      ensures Valid() && entries == initial
    {
      entries := initial;
    }

    /** The downloader writes `files`. */
    method Receive(files: seq<string>)
      requires Valid()
      modifies this
      ensures Valid() && entries == AddFiles(old(entries), files)
    {
      entries := AddFiles(entries, files);
    }

    /** `os.remove('/tmp/' + name)`. */
    method Remove(name: string)
      requires Valid() && name in entries
      modifies this
      ensures Valid() && entries == Without(old(entries), name)
    {
      entries := Without(entries, name);
    }

    /** `check_package_lib(package)`, stage by stage. */
    method CheckPackageLib(package: string, rpm: Rpm) returns (outcome: CheckOutcome)
      requires Valid()
      modifies this
      ensures Valid()
      ensures Reported(package, rpm, old(entries), entries, outcome)
    {
      if rpm.query.Failed? {
        return NotInstalled;
      }
      var installedMetadata := OutputOrNone(rpm.info);
      if installedMetadata.None? || installedMetadata.value == [] {
        return NoInstalledMetadata;
      }
      var installedKey := GpgKeyInstalled(rpm.infoAgain);
      if installedKey.Err? {
        return Crashed(installedKey.error);
      }
      var arch := RunCommand(rpm.arch);
      if arch.Err? {
        return Crashed(arch.error);
      }
      var download := rpm.download(arch.value);
      if download.DownloadError? {
        return NoDownload(arch.value, true);
      }
      Receive(download.files);
      var rpmFile := PickDownloadedRpm(entries, package);
      if rpmFile.None? {
        return NoDownload(arch.value, false);
      }
      var f := rpmFile.value;
      var rpmMetadata := OutputOrNone(rpm.queryFile(f));
      var repositoryKey := GpgKeyFromRpmMetadata(rpmMetadata);
      if repositoryKey.Err? {
        return Crashed(repositoryKey.error);
      }
      var keysMatch := repositoryKey.value == installedKey.value;
      var filesVerified := rpm.verify.Completed?;
      Remove(f);
      outcome := Checked(installedKey.value, arch.value, f, rpmMetadata.value, repositoryKey.value, keysMatch, filesVerified);
    }

    /** `main`: an empty name runs no check at all. */
    method CheckFromInput(input: string, rpm: Rpm) returns (result: MainOutcome)
      requires Valid()
      modifies this
      ensures Valid()
      ensures input == [] ==> result == EmptyPackageName && entries == old(entries)
      ensures input != [] ==> result.Ran? && Reported(input, rpm, old(entries), entries, result.outcome)
    {
      if input == [] {
        return EmptyPackageName;
      }
      var outcome := CheckPackageLib(input, rpm);
      result := Ran(outcome);
    }
  }

  // ---------------------------------------------------------------------------
  // Properties of the flow

  /** Two texts without any "Signature" line count as matching keys. */
  lemma UnsignedOnBothSidesMatches(package: string, rpm: Rpm, before: seq<string>, after: seq<string>, outcome: CheckOutcome)
    requires Reported(package, rpm, before, after, outcome) && outcome.Checked?
    requires forall k :: 0 <= k < |Lines(Strip(rpm.infoAgain.stdout))| ==> !IsSignatureLine(Lines(Strip(rpm.infoAgain.stdout))[k])
    requires forall k :: 0 <= k < |Lines(outcome.repositoryMetadata)| ==> !IsSignatureLine(Lines(outcome.repositoryMetadata)[k])
    ensures outcome.keysMatch && outcome.installedKey.None?
  {
  }

  /**
   * The clean-up removes the checked file, a qualifying entry of `/tmp`
   * after the download, and no other entry.
   */
  lemma CleanupRemovesOnlyChosenFile(package: string, rpm: Rpm, before: seq<string>, after: seq<string>, outcome: CheckOutcome)
    requires Reported(package, rpm, before, after, outcome) && outcome.Checked?
    requires Distinct(before)
    ensures var listing := AddFiles(before, rpm.download(outcome.arch).files);
            && outcome.rpmFile in listing
            && IsBinaryRpmFor(outcome.rpmFile, package)
            && outcome.rpmFile !in after
            && (forall x :: x in after <==> x in listing && x != outcome.rpmFile)
            && |after| == |listing| - 1
  {
  }

  /** With both `rpm -qi` runs answering alike, the only escaping `CalledProcessError` is the architecture query's. */
  lemma SameInfoCannotCrashAtKeyLookup(package: string, rpm: Rpm, before: seq<string>, after: seq<string>, outcome: CheckOutcome)
    requires Reported(package, rpm, before, after, outcome)
    requires rpm.infoAgain == rpm.info && outcome == Crashed(CalledProcessError)
    ensures rpm.arch.Failed?
  {
  }
}
