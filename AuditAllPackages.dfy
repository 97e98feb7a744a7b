/**
 * The bulk audit of rpm_gpg_key_audit_all_packages.py: list every installed
 * package, read each one's signing key ID from its `rpm -qi` text, and record
 * the packages whose key ID ends with none of the fragments taken from the
 * installed `gpg-pubkey` pseudo-packages.  Every `rpm` run is an input
 * `Query`: its standard output, or the failure that raised
 * `CalledProcessError`.
 */
module AuditAllPackages {
  import opened Wrappers
  import opened Shell
  import opened Text

  /** What `get_gpg_key_id` returns when no line carries a key ID. */
  const NoKeyIdFound := "No GPG key ID found"

  /** What `get_gpg_key_id` returns when `rpm -qi` itself fails. */
  const KeyIdLookupError := "Error retrieving GPG key ID"

  // ---------------------------------------------------------------------------
  // get_installed_packages

  /**
   * `get_installed_packages`: the stripped `rpm -qa` output split at every
   * '\n'.  A failed `rpm -qa` is not caught.  The pieces joined with '\n' give
   * back the stripped output, and there is always at least one piece.
   */
  function InstalledPackages(rpmQa: Query): (r: Result<seq<string>, Fault>)
    ensures r.Err? <==> rpmQa.Failed?
    ensures r.Err? ==> r.error == CalledProcessError
    ensures r.Ok? ==> |r.value| >= 1 && Join(r.value, "\n") == Strip(rpmQa.stdout)
    ensures r.Ok? ==> forall k :: 0 <= k < |r.value| ==> '\n' !in r.value[k]
  {
    match rpmQa
    case Failed => Err(CalledProcessError)
    case Completed(out) =>
      var names := Split(Strip(out), "\n");
      SplitJoin(Strip(out), "\n");
      SplitPiecesFree(Strip(out), "\n");
      forall k | 0 <= k < |names| ensures '\n' !in names[k] {
        ContainsChar(names[k], '\n');
      }
      Ok(names)
  }

  /**
   * Output that is empty or all whitespace gives the one-name list `[""]`, not
   * an empty list: the "No packages found." branch of `main` is never taken.
   */
  lemma BlankOutputGivesOneEmptyName(out: string)
    requires AllSpace(out)
    ensures InstalledPackages(Completed(out)) == Ok([""])
  {
    StripEmpty(out);
    assert IndexOf("", "\n") == None;
  }

  // ---------------------------------------------------------------------------
  // get_gpg_key_id

  /** A line of `rpm -qi` text that the key ID is read from. */
  predicate IsKeyIdLine(line: string) {
    Contains(line, "Signature") && Contains(line, "Key ID")
  }

  /** `line.split('Key ID ')[-1].strip()` */
  function KeyIdOfLine(line: string): string {
    Strip(Last(Split(line, "Key ID ")))
  }

  /**
   * `get_gpg_key_id`, given the outcome of `rpm -qi <package>`: the key ID of
   * the first line naming both "Signature" and "Key ID", the "not found"
   * sentinel when no line does, the "error" sentinel when the query fails.
   */
  function GpgKeyId(rpmQi: Query): (id: string)
    ensures rpmQi.Failed? ==> id == KeyIdLookupError
    ensures rpmQi.Completed? && (forall line | line in Split(rpmQi.stdout, "\n") :: !IsKeyIdLine(line)) ==>
              id == NoKeyIdFound
  {
    match rpmQi
    case Failed => KeyIdLookupError
    case Completed(out) =>
      var lines := Split(out, "\n");
      var k := FirstIndex(lines, IsKeyIdLine);
      if k.None? then NoKeyIdFound else KeyIdOfLine(lines[k.value])
  }

  /**
   * When line `k` is the first line naming both markers, the key ID is read
   * from that line alone: earlier lines do not qualify and later lines are
   * never looked at.
   */
  lemma KeyIdFromFirstMarkedLine(out: string, k: nat)
    requires k < |Split(out, "\n")|
    requires IsKeyIdLine(Split(out, "\n")[k])
    requires forall j :: 0 <= j < k ==> !IsKeyIdLine(Split(out, "\n")[j])
    ensures GpgKeyId(Completed(out)) == KeyIdOfLine(Split(out, "\n")[k])
  {
    var m := FirstIndex(Split(out, "\n"), IsKeyIdLine);
    assert m == Some(k);
  }

  /**
   * The key ID read from a line is the stripped text after the last
   * "Key ID " of the line (the pieces of `split` do not overlap), or the whole
   * stripped line when "Key ID " does not occur, as when the line ends in
   * "Key ID" with no space after it.
   */
  lemma KeyIdAfterLastMarker(line: string) returns (tail: string)
    ensures KeyIdOfLine(line) == Strip(tail)
    ensures EndsWith(line, tail) && !Contains(tail, "Key ID ")
    ensures Contains(line, "Key ID ") ==> EndsWith(line, "Key ID " + tail)
    ensures !Contains(line, "Key ID ") ==> tail == line
  {
    SplitLast(line, "Key ID ");
    tail := Last(Split(line, "Key ID "));
  }

  /** Splitting `pre + "Key ID " + post` when neither part holds a 'K'. */
  lemma SplitAroundKeyId(pre: string, post: string)
    requires 'K' !in pre && 'K' !in post
    ensures Split(pre + "Key ID " + post, "Key ID ") == [pre, post]
  {
    SplitAtFirst(pre, "Key ID ", post);
    AbsentFirstChar(post, "Key ID ");
    SplitAbsent(post, "Key ID ");
  }

  /**
   * A line `<prefix>Key ID <id>` whose prefix and id hold no 'K' and whose id
   * neither starts nor ends with whitespace gives exactly that id.
   */
  lemma KeyIdAfterMarker(prefix: string, id: string)
    requires 'K' !in prefix && 'K' !in id
    requires id != [] && !IsSpace(id[0]) && !IsSpace(id[|id| - 1])
    ensures KeyIdOfLine(prefix + "Key ID " + id) == id
  {
    SplitAroundKeyId(prefix, id);
    StripUnchanged(id);
  }

  /** A typical `rpm -qi` signature line gives the hexadecimal key ID at its end. */
  lemma KeyIdOfSignatureLine()
    ensures KeyIdOfLine("Signature   : RSA/SHA256, Tue 10 Oct 2023, " + "Key ID " + "199e2f91fd431d51") == "199e2f91fd431d51"
  {
    KeyIdAfterMarker("Signature   : RSA/SHA256, Tue 10 Oct 2023, ", "199e2f91fd431d51");
  }

  /**
   * The "not found" sentinel is in-band: a line naming both markers whose
   * text after "Key ID " is the sentinel's own wording yields the sentinel,
   * so `NoKeyIdFound` does not by itself prove that no line was marked.
   */
  lemma SentinelAlsoReadFromMarkedLine()
    ensures IsKeyIdLine("Signature " + "Key ID " + NoKeyIdFound)
    ensures KeyIdOfLine("Signature " + "Key ID " + NoKeyIdFound) == NoKeyIdFound
  {
    var line := "Signature " + "Key ID " + NoKeyIdFound;
    assert OccursAt(line, "Signature", 0);
    assert OccursAt(line, "Key ID", 10);
    KeyIdAfterMarker("Signature ", NoKeyIdFound);
  }

  // ---------------------------------------------------------------------------
  // get_installed_gpg_keys

  /**
   * `line.split('-')[2]`: the third '-'-separated field, or the `IndexError`
   * that a line with fewer than two '-' raises.
   */
  function FragmentOf(line: string): (r: Result<string, Fault>)
    ensures r.Ok? <==> multiset(line)['-'] >= 2
    ensures r.Err? ==> r.error == IndexError
    ensures r.Ok? ==> '-' !in r.value
  {
    var fields := Split(line, "-");
    SplitCount(line, '-');
    if |fields| < 3 then Err(IndexError)
    else
      SplitPiecesFree(line, "-");
      ContainsChar(fields[2], '-');
      Ok(fields[2])
  }

  /**
   * The fragment sits between the second and the third '-' of the line (or
   * runs to its end): `line == a + "-" + b + "-" + fragment + rest`.
   */
  lemma FragmentPosition(line: string) returns (a: string, b: string, rest: string)
    requires FragmentOf(line).Ok?
    ensures line == a + "-" + b + "-" + FragmentOf(line).value + rest
    ensures '-' !in a && '-' !in b
    ensures rest == [] || rest[0] == '-'
  {
    var fields := Split(line, "-");
    assert |fields| >= 3 && FragmentOf(line).value == fields[2] by {
      SplitCount(line, '-');
    }
    assert '-' !in fields[0] && '-' !in fields[1] by {
      SplitPiecesFree(line, "-");
      ContainsChar(fields[0], '-');
      ContainsChar(fields[1], '-');
    }
    assert line == Join(fields, "-") by {
      SplitJoin(line, "-");
    }
    a, b := fields[0], fields[1];
    rest := JoinThirdPiece(fields, "-");
  }

  /** The list comprehension of `get_installed_gpg_keys`, line by line. */
  function FragmentsOf(lines: seq<string>): (r: Result<seq<string>, Fault>)
    ensures r.Ok? <==> forall k :: 0 <= k < |lines| ==> FragmentOf(lines[k]).Ok?
    ensures r.Err? ==> r.error == IndexError
    ensures r.Ok? ==> |r.value| == |lines| && forall k :: 0 <= k < |lines| ==> r.value[k] == FragmentOf(lines[k]).value
    decreases |lines|
  {
    if lines == [] then Ok([])
    else
      var head := FragmentOf(lines[0]);
      if head.Err? then Err(head.error)
      else
        var tail := FragmentsOf(lines[1..]);
        if tail.Err? then Err(tail.error) else Ok([head.value] + tail.value)
  }

  /**
   * `get_installed_gpg_keys`: one fragment per line of the stripped
   * `rpm -q gpg-pubkey` output, in order, or the first fault.
   */
  function TrustedFragments(rpmQGpgPubkey: Query): (r: Result<seq<string>, Fault>)
    ensures rpmQGpgPubkey.Failed? ==> r == Err(CalledProcessError)
    ensures rpmQGpgPubkey.Completed? ==> r == FragmentsOf(Split(Strip(rpmQGpgPubkey.stdout), "\n"))
  {
    match rpmQGpgPubkey
    case Failed => Err(CalledProcessError)
    case Completed(out) => FragmentsOf(Split(Strip(out), "\n"))
  }

  /** `gpg-pubkey-<fragment>-<date>` splits on '-' into four fields, the third being the fragment. */
  lemma PubkeyFields(fragment: string, date: string)
    requires '-' !in fragment && '-' !in date
    ensures FragmentOf("gpg-pubkey-" + fragment + "-" + date) == Ok(fragment)
  {
    var fields := ["gpg", "pubkey", fragment, date];
    JoinTwoFirst(fields, "-");
    assert fields[2..] == [fragment, date];
    JoinCons(fields[2..], "-");
    assert fields[2..][1..] == [date];
    assert Join(fields, "-") == "gpg-pubkey-" + fragment + "-" + date;
    JoinSplit(fields, '-');
  }

  /** The usual one-line output `gpg-pubkey-<fragment>-<date>` gives just that fragment. */
  lemma PubkeyLineFragment(fragment: string, date: string)
    requires '-' !in fragment && '-' !in date && '\n' !in fragment && '\n' !in date
    requires date != [] && !IsSpace(Last(date))
    ensures TrustedFragments(Completed("gpg-pubkey-" + fragment + "-" + date + "\n")) == Ok([fragment])
  {
    PubkeyFields(fragment, date);
    PubkeyLineShape(fragment, date);
    OneLineOutput("gpg-pubkey-" + fragment + "-" + date);
  }

  /** A `gpg-pubkey` line is one line, starting with 'g' and ending where its date ends. */
  lemma PubkeyLineShape(fragment: string, date: string)
    requires '\n' !in fragment && '\n' !in date && date != [] && !IsSpace(Last(date))
    ensures var line := "gpg-pubkey-" + fragment + "-" + date;
            line != [] && !IsSpace(line[0]) && !IsSpace(Last(line)) && '\n' !in line
  {
    var line := "gpg-pubkey-" + fragment + "-" + date;
    assert line[0] == 'g' && Last(line) == Last(date);
  }

  /** Output of a single line, without surrounding spaces, gives that line's fragment only. */
  lemma OneLineOutput(line: string)
    requires line != [] && !IsSpace(line[0]) && !IsSpace(Last(line)) && '\n' !in line
    requires FragmentOf(line).Ok?
    ensures TrustedFragments(Completed(line + "\n")) == Ok([FragmentOf(line).value])
  {
    StripFinalNewline(line);
    AbsentFirstChar(line, "\n");
    SplitAbsent(line, "\n");
    FragmentsOfOne(line);
  }

  /** The comprehension over a single line gives that line's fragment alone. */
  lemma FragmentsOfOne(line: string)
    requires FragmentOf(line).Ok?
    ensures FragmentsOf([line]) == Ok([FragmentOf(line).value])
  {
    var r := FragmentsOf([line]);
    assert [line][0] == line;
    assert r.Ok? && |r.value| == 1 && r.value[0] == FragmentOf(line).value;
    assert r.value == [FragmentOf(line).value];
  }

  /** `gpg-pubkey-abcd1234-5f3a2b1c` gives the fragment `abcd1234`. */
  lemma PubkeyLineExample()
    ensures TrustedFragments(Completed("gpg-pubkey-" + "abcd1234" + "-" + "5f3a2b1c" + "\n")) == Ok(["abcd1234"])
  {
    PubkeyLineFragment("abcd1234", "5f3a2b1c");
  }

  // ---------------------------------------------------------------------------
  // key_id_matches_gpg_key

  /** `key_id_matches_gpg_key`: the loop that returns True at the first fragment ending the key ID. */
  function KeyIdMatches(keyId: string, fragments: seq<string>): bool
    decreases |fragments|
  {
    fragments != [] && (EndsWith(keyId, fragments[0]) || KeyIdMatches(keyId, fragments[1..]))
  }

  /** A key ID matches exactly when some fragment is a suffix of it; so never for no fragments. */
  lemma {:induction false} KeyIdMatchesIffSuffix(keyId: string, fragments: seq<string>)
    ensures KeyIdMatches(keyId, fragments) <==> exists k :: 0 <= k < |fragments| && EndsWith(keyId, fragments[k])
    decreases |fragments|
  {
    if fragments != [] {
      KeyIdMatchesIffSuffix(keyId, fragments[1..]);
      if EndsWith(keyId, fragments[0]) {
        assert 0 < |fragments|;
      } else {
        forall k | 1 <= k < |fragments|
          ensures fragments[k] == fragments[1..][k - 1]
        {
        }
      }
    }
  }

  /** Adding fragments never turns a match into a non-match. */
  lemma KeyIdMatchesMonotone(keyId: string, fragments: seq<string>, more: seq<string>)
    requires forall f :: f in fragments ==> f in more
    ensures KeyIdMatches(keyId, fragments) ==> KeyIdMatches(keyId, more)
  {
    KeyIdMatchesIffSuffix(keyId, fragments);
    KeyIdMatchesIffSuffix(keyId, more);
    if KeyIdMatches(keyId, fragments) {
      var k :| 0 <= k < |fragments| && EndsWith(keyId, fragments[k]);
      assert fragments[k] in more;
    }
  }

  /** The order and repetition of the fragments do not matter. */
  lemma KeyIdMatchesOrderFree(keyId: string, fragments: seq<string>, others: seq<string>)
    requires forall f :: f in fragments <==> f in others
    ensures KeyIdMatches(keyId, fragments) == KeyIdMatches(keyId, others)
  {
    KeyIdMatchesMonotone(keyId, fragments, others);
    KeyIdMatchesMonotone(keyId, others, fragments);
  }

  // ---------------------------------------------------------------------------
  // main

  /** The `missing_keys` dict: its keys in insertion order, which the report follows, and its contents. */
  datatype MissingKeys = MissingKeys(order: seq<string>, keyIds: map<string, string>)
  {
    ghost predicate Valid() {
      && Distinct(order)
      && (forall p :: p in keyIds <==> p in order)
    }
  }

  /**
   * `missing_keys[package] = key_id`: a new key goes last, a key already
   * present keeps its place and takes the new value.
   */
  function Insert(d: MissingKeys, package: string, keyId: string): (r: MissingKeys)
    requires d.Valid()
    ensures r.Valid()
    ensures r.keyIds == d.keyIds[package := keyId]
    ensures r.order == if package in d.keyIds then d.order else d.order + [package]
  {
    if package in d.keyIds then MissingKeys(d.order, d.keyIds[package := keyId])
    else MissingKeys(d.order + [package], d.keyIds[package := keyId])
  }

  /** The test of line 56: a key ID other than the "not found" sentinel that no trusted fragment ends. */
  predicate Flagged(keyId: string, trusted: seq<string>) {
    keyId != NoKeyIdFound && !KeyIdMatches(keyId, trusted)
  }

  /** `get_gpg_key_id` for every package, given the `rpm -qi` outcome per package. */
  function KeyIdOracle(rpmQi: string -> Query): string -> string {
    package => GpgKeyId(rpmQi(package))
  }

  /** The dict after the loop of `main` has visited `packages` in order. */
  function Scan(packages: seq<string>, keyIdOf: string -> string, trusted: seq<string>): (d: MissingKeys)
    ensures d.Valid()
    decreases |packages|
  {
    if packages == [] then MissingKeys([], map[])
    else
      var d := Scan(packages[..|packages| - 1], keyIdOf, trusted);
      var p := Last(packages);
      if Flagged(keyIdOf(p), trusted) then Insert(d, p, keyIdOf(p)) else d
  }

  /**
   * After the scan a package is a key of the dict exactly when it was
   * scanned and its key ID is flagged, and the stored value is that key ID.
   */
  lemma {:induction false} ScanContents(packages: seq<string>, keyIdOf: string -> string, trusted: seq<string>)
    ensures forall p :: p in Scan(packages, keyIdOf, trusted).keyIds <==> p in packages && Flagged(keyIdOf(p), trusted)
    ensures forall p :: p in Scan(packages, keyIdOf, trusted).keyIds ==> Scan(packages, keyIdOf, trusted).keyIds[p] == keyIdOf(p)
    decreases |packages|
  {
    if packages != [] {
      var init := packages[..|packages| - 1];
      ScanContents(init, keyIdOf, trusted);
      assert packages == init + [Last(packages)];
    }
  }

  /** One more package scanned: it is inserted exactly when flagged. */
  lemma ScanStep(packages: seq<string>, i: nat, keyIdOf: string -> string, trusted: seq<string>)
    requires i < |packages|
    ensures var d := Scan(packages[..i], keyIdOf, trusted);
            var p := packages[i];
            Scan(packages[..i + 1], keyIdOf, trusted) == if Flagged(keyIdOf(p), trusted) then Insert(d, p, keyIdOf(p)) else d
  {
    assert packages[..i + 1][..i] == packages[..i];
  }

  /** Nothing is recorded exactly when no scanned package is flagged. */
  lemma ScanEmpty(packages: seq<string>, keyIdOf: string -> string, trusted: seq<string>)
    ensures Scan(packages, keyIdOf, trusted).keyIds == map[] <==> forall p :: p in packages ==> !Flagged(keyIdOf(p), trusted)
  {
    ScanContents(packages, keyIdOf, trusted);
    var keys := Scan(packages, keyIdOf, trusted).keyIds;
    if keys != map[] {
      var p :| p in keys;
    }
  }

  /** The scenario of three packages, one trusted, one without a key ID, one untrusted. */
  lemma ScanThreePackages()
    ensures
      var keyIdOf := (p: string) => if p == "A" then "abcd1234" else if p == "B" then NoKeyIdFound else "deadbeef";
      Scan(["A", "B", "C"], keyIdOf, ["abcd1234"]) == MissingKeys(["C"], map["C" := "deadbeef"])
  {
    var keyIdOf := (p: string) => if p == "A" then "abcd1234" else if p == "B" then NoKeyIdFound else "deadbeef";
    assert KeyIdMatches("abcd1234", ["abcd1234"]);
    assert !EndsWith("deadbeef", "abcd1234") by {
      assert "deadbeef"[0] != "abcd1234"[0];
    }
    assert !KeyIdMatches("deadbeef", ["abcd1234"]);
    assert ["A", "B", "C"][..2] == ["A", "B"];
    assert ["A", "B"][..1] == ["A"];
    assert ["A"][..0] == [];
  }

  /**
   * The "error" sentinel is not exempted: a package whose `rpm -qi` fails is
   * recorded, with that sentinel, unless some fragment ends the sentinel.
   */
  lemma LookupErrorIsRecorded(packages: seq<string>, rpmQi: string -> Query, trusted: seq<string>, p: string)
    requires p in packages && rpmQi(p).Failed?
    requires forall k :: 0 <= k < |trusted| ==> !EndsWith(KeyIdLookupError, trusted[k])
    ensures p in Scan(packages, KeyIdOracle(rpmQi), trusted).keyIds
    ensures Scan(packages, KeyIdOracle(rpmQi), trusted).keyIds[p] == KeyIdLookupError
  {
    KeyIdMatchesIffSuffix(KeyIdLookupError, trusted);
    ScanContents(packages, KeyIdOracle(rpmQi), trusted);
  }

  /** The closing report of `main`. */
  datatype Report =
    | NoMissingKeys                                   // "No missing GPG keys found."
    | MissingKeyList(entries: seq<(string, string)>)  // one "<package>: Missing GPG key ID <key id>" per entry

  /** The closing lines of `main`: nothing missing exactly for an empty dict, otherwise every entry once, in dict order. */
  function ReportOf(d: MissingKeys): (r: Report)
    requires d.Valid()
    ensures r.NoMissingKeys? <==> d.keyIds == map[]
    ensures r.MissingKeyList? ==> (set e | e in r.entries) == d.keyIds.Items
    ensures r.MissingKeyList? ==> forall i, j :: 0 <= i < j < |r.entries| ==> r.entries[i].0 != r.entries[j].0
    ensures r.MissingKeyList? ==> |r.entries| == |d.order| && forall k :: 0 <= k < |d.order| ==> r.entries[k].0 == d.order[k]
  {
    if d.order == [] then
      assert d.keyIds == map[];
      NoMissingKeys
    else
      assert d.order[0] in d.keyIds;
      var entries := seq(|d.order|, k requires 0 <= k < |d.order| => (d.order[k], d.keyIds[d.order[k]]));
      assert (set e | e in entries) == d.keyIds.Items by {
        forall e | e in d.keyIds.Items ensures e in entries {
          var k :| 0 <= k < |d.order| && d.order[k] == e.0;
          assert entries[k] == e;
        }
      }
      MissingKeyList(entries)
  }

  /**
   * The loop of `main`: one status line per package, in order, and the
   * `missing_keys` dict built step by step.
   */
  method ScanPackages(packages: seq<string>, keyIdOf: string -> string, trusted: seq<string>)
    returns (statuses: seq<(string, string)>, missing: MissingKeys)
    ensures |statuses| == |packages|
    ensures forall k :: 0 <= k < |packages| ==> statuses[k] == (packages[k], keyIdOf(packages[k]))
    ensures missing == Scan(packages, keyIdOf, trusted)
  {
    missing := MissingKeys([], map[]);
    statuses := [];
    for i := 0 to |packages|
      invariant missing == Scan(packages[..i], keyIdOf, trusted)
      invariant |statuses| == i
      invariant forall k :: 0 <= k < i ==> statuses[k] == (packages[k], keyIdOf(packages[k]))
    {
      var package := packages[i];
      var keyId := keyIdOf(package);
      statuses := statuses + [(package, keyId)];
      ScanStep(packages, i, keyIdOf, trusted);
      if keyId != NoKeyIdFound && !KeyIdMatches(keyId, trusted) {
        missing := Insert(missing, package, keyId);
      }
    }
    assert packages[..|packages|] == packages;
  }

  /** The result of `main`. */
  datatype AuditOutcome =
    | Aborted(fault: Fault)  // an exception escaped before the scan
    | Audited(statuses: seq<(string, string)>, report: Report)

  /**
   * `main`: list the packages and the trusted fragments, then scan every
   * package, printing its key ID and recording it when flagged, then report.
   * The printed lines are returned as values.
   */
  method Audit(rpmQa: Query, rpmQGpgPubkey: Query, rpmQi: string -> Query) returns (outcome: AuditOutcome)
    ensures InstalledPackages(rpmQa).Err? ==> outcome == Aborted(CalledProcessError)
    ensures InstalledPackages(rpmQa).Ok? && TrustedFragments(rpmQGpgPubkey).Err? ==>
              outcome == Aborted(TrustedFragments(rpmQGpgPubkey).error)
    ensures outcome.Audited? <==> InstalledPackages(rpmQa).Ok? && TrustedFragments(rpmQGpgPubkey).Ok?
    ensures outcome.Audited? ==>
              var packages := InstalledPackages(rpmQa).value;
              && |outcome.statuses| == |packages|
              && forall k :: 0 <= k < |packages| ==> outcome.statuses[k] == (packages[k], GpgKeyId(rpmQi(packages[k])))
    ensures outcome.Audited? ==>
              var packages := InstalledPackages(rpmQa).value;
              var trusted := TrustedFragments(rpmQGpgPubkey).value;
              && outcome.report == ReportOf(Scan(packages, KeyIdOracle(rpmQi), trusted))
              && (outcome.report.NoMissingKeys? <==> forall p :: p in packages ==> !Flagged(GpgKeyId(rpmQi(p)), trusted))
  {
    var listed := InstalledPackages(rpmQa);
    if listed.Err? {
      return Aborted(listed.error);
    }
    var fragments := TrustedFragments(rpmQGpgPubkey);
    if fragments.Err? {
      return Aborted(fragments.error);
    }
    var packages, trusted := listed.value, fragments.value;
    // The "No packages found." branch: `split` never returns an empty list.
    assert packages != [];

    var statuses, missing := ScanPackages(packages, KeyIdOracle(rpmQi), trusted);
    ScanEmpty(packages, KeyIdOracle(rpmQi), trusted);
    outcome := Audited(statuses, ReportOf(missing));
  }
}
