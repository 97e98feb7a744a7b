# RPM GPG key audit tools, modelled in Dafny

This project models the two scripts of the repository's RPM signing-key tools.

- `rpm_gpg_key_audit_all_packages.py` is the bulk audit. It lists every installed package with `rpm -qa` and reads each package's signing key ID from its `rpm -qi` text, taking it from the first line that names both "Signature" and "Key ID". It collects the trusted key fragments, which are the third `-`-separated field of each `gpg-pubkey-<fragment>-<date>` line of `rpm -q gpg-pubkey`. Then it records in a dict every package whose key ID is not the "No GPG key ID found" sentinel and does not end with any trusted fragment. It finally reports that dict in insertion order.
- `rpm_gpg_key_verifier_single_package.py` is the single-package check. It takes one package and checks that it is installed and has metadata. It reads the installed signature key, which is the last whitespace-separated token of the first line containing "Signature". It downloads a binary RPM of the same architecture into `/tmp`, reads the key of that file the same way, and compares the two keys. It then runs `rpm -V` and removes the downloaded file.

Every external command is an input of type `Shell.Query`. A query either completed with its standard output or failed; a failure is what raised `CalledProcessError` in the scripts. An exception that escapes a function is a `Shell.Fault` value. The downloader is a function from the architecture to the files it writes. Keyboard input is a parameter.

The Python string operations the scripts rely on are modelled in `Text` on `seq<char>`:
- `split(sep)`, `sep.join`, `split()`, `splitlines()`, `strip()`, `startswith`, `endswith` and `in`;
- the leftmost-occurrence search behind `split(sep)`.

Their properties are proved there: split/join round trips, the last piece of a split, piece counts, and what `strip()` and `split()[-1]` keep.

`/tmp` is a class, `VerifySinglePackage.TmpDir`, whose entry list the download extends and the clean-up shrinks. `check_package_lib` is an imperative method on it. Its postcondition is the ghost predicate `Reported`, which states stage by stage what is reported and what `/tmp` holds afterwards. The audit loop of `main` is an imperative method, `ScanPackages`, proved against the recursive specification `Scan`. `Scan` is what the lemmas about the `missing_keys` dict speak of.

The code as written has these consequences, which a reader may not expect:
- The key ID is the text after the last "Key ID " of the line, not after the first, because `split('Key ID ')[-1]` keeps the last piece (`KeyIdAfterLastMarker`).
- A line in which "Key ID " (with the trailing space) does not occur, such as one ending in "Key ID", yields the whole stripped line.
- An empty `rpm -qa` output gives the one-name list `[""]`, so the "No packages found." branch of `main` is never taken (`BlankOutputGivesOneEmptyName`).
- A package whose `rpm -qi` fails is recorded as missing, with the "Error retrieving GPG key ID" sentinel, unless a fragment happens to end that text (`LookupErrorIsRecorded`).

## Model

| member | source | states |
|---|---|---|
| AuditAllPackages.InstalledPackages | rpm_gpg_key_audit_all_packages.py:12-16 | fails with `CalledProcessError` exactly when `rpm -qa` fails; otherwise at least one name, none containing '\n', and the names joined with '\n' give back the stripped output |
| AuditAllPackages.BlankOutputGivesOneEmptyName | rpm_gpg_key_audit_all_packages.py:15 | an empty or all-whitespace `rpm -qa` output gives the list `[""]`, never an empty list |
| AuditAllPackages.IsKeyIdLine | rpm_gpg_key_audit_all_packages.py:23 | a line qualifies exactly when it contains both "Signature" and "Key ID" |
| AuditAllPackages.KeyIdOfLine | rpm_gpg_key_audit_all_packages.py:24 | the key ID of a line: its last "Key ID "-separated piece, stripped |
| AuditAllPackages.GpgKeyId | rpm_gpg_key_audit_all_packages.py:18-28 | a failed `rpm -qi` gives the "error" sentinel; output with no line naming both "Signature" and "Key ID" gives the "not found" sentinel |
| AuditAllPackages.KeyIdFromFirstMarkedLine | rpm_gpg_key_audit_all_packages.py:22-25 | the key ID is read from the first line naming both markers, whatever the earlier unmarked and the later lines hold |
| AuditAllPackages.KeyIdAfterLastMarker | rpm_gpg_key_audit_all_packages.py:24 | the key ID is the stripped suffix after the last "Key ID " of the line (a suffix free of "Key ID "), or the whole stripped line when "Key ID " does not occur |
| AuditAllPackages.KeyIdAfterMarker | rpm_gpg_key_audit_all_packages.py:24 | `<prefix>Key ID <id>` with no 'K' in prefix or id and no surrounding whitespace on id gives exactly id |
| AuditAllPackages.KeyIdOfSignatureLine | rpm_gpg_key_audit_all_packages.py:24 | a typical `Signature : RSA/SHA256, <date>, Key ID <hex>` line gives the hex key ID |
| AuditAllPackages.SentinelAlsoReadFromMarkedLine | rpm_gpg_key_audit_all_packages.py:23-26 | a marked line can yield the "not found" sentinel too, so the sentinel does not prove that no line was marked |
| AuditAllPackages.FragmentOf | rpm_gpg_key_audit_all_packages.py:33 | `line.split('-')[2]` succeeds exactly when the line holds at least two '-', raises `IndexError` otherwise, and the field holds no '-' |
| AuditAllPackages.FragmentPosition | rpm_gpg_key_audit_all_packages.py:33 | the fragment lies between the second and third '-' of the line, or after the second '-' up to the end |
| AuditAllPackages.FragmentsOf | rpm_gpg_key_audit_all_packages.py:33 | the comprehension succeeds exactly when every line has a third field, with `IndexError` otherwise, and then gives each line's field in order |
| AuditAllPackages.TrustedFragments | rpm_gpg_key_audit_all_packages.py:30-34 | a failed `rpm -q gpg-pubkey` raises `CalledProcessError`; otherwise the fragments of the lines of the stripped output |
| AuditAllPackages.PubkeyFields | rpm_gpg_key_audit_all_packages.py:33 | `gpg-pubkey-<fragment>-<date>` with no '-' in fragment or date gives fragment |
| AuditAllPackages.PubkeyLineFragment | rpm_gpg_key_audit_all_packages.py:30-34 | the one-line output `gpg-pubkey-<fragment>-<date>\n` gives the single fragment |
| AuditAllPackages.PubkeyLineExample | rpm_gpg_key_audit_all_packages.py:30-34 | `gpg-pubkey-abcd1234-5f3a2b1c` gives `["abcd1234"]` |
| AuditAllPackages.KeyIdMatches | rpm_gpg_key_audit_all_packages.py:36-41 | the loop over the fragments, True at the first fragment that ends the key ID, False when none does |
| AuditAllPackages.KeyIdMatchesIffSuffix | rpm_gpg_key_audit_all_packages.py:36-41 | the loop returns True exactly when some fragment is a suffix of the key ID, so never for an empty fragment list |
| AuditAllPackages.KeyIdMatchesMonotone | rpm_gpg_key_audit_all_packages.py:36-41 | more trusted fragments never turn a match into a mismatch |
| AuditAllPackages.KeyIdMatchesOrderFree | rpm_gpg_key_audit_all_packages.py:36-41 | the order and repetition of fragments do not affect the verdict |
| AuditAllPackages.MissingKeys.Valid | rpm_gpg_key_audit_all_packages.py:51 | the `missing_keys` dict: its keys, in insertion order and without repetition, are exactly the keys of its map |
| AuditAllPackages.Flagged | rpm_gpg_key_audit_all_packages.py:56 | a package is recorded when its key ID is not the "not found" sentinel and no trusted fragment ends it |
| AuditAllPackages.Insert | rpm_gpg_key_audit_all_packages.py:57 | the dict assignment maps the package to the key ID, appends a new key at the end of the order and keeps an existing key in place, with keys distinct and matching the order |
| AuditAllPackages.Scan | rpm_gpg_key_audit_all_packages.py:51-57 | the dict after the loop has distinct keys and holds exactly the keys of its order |
| AuditAllPackages.ScanContents | rpm_gpg_key_audit_all_packages.py:51-57 | after the loop a package is in the dict exactly when it was listed and its key ID is flagged, and its value is that key ID |
| AuditAllPackages.ScanStep | rpm_gpg_key_audit_all_packages.py:53-57 | one more iteration inserts the package exactly when its key ID is flagged and otherwise leaves the dict alone |
| AuditAllPackages.ScanEmpty | rpm_gpg_key_audit_all_packages.py:56-59 | the dict ends up empty exactly when no listed package is flagged |
| AuditAllPackages.ScanThreePackages | rpm_gpg_key_audit_all_packages.py:51-57 | trusted, unsigned and untrusted packages: only the untrusted one is recorded, with its key ID |
| AuditAllPackages.LookupErrorIsRecorded | rpm_gpg_key_audit_all_packages.py:56 | a package whose `rpm -qi` failed is recorded with the "error" sentinel unless a fragment ends that text |
| AuditAllPackages.ReportOf | rpm_gpg_key_audit_all_packages.py:59-64 | "No missing GPG keys found." exactly for an empty dict; otherwise each dict entry exactly once, in insertion order |
| AuditAllPackages.ScanPackages | rpm_gpg_key_audit_all_packages.py:53-57 | one status (package, key ID) per listed package in order, and the dict equal to `Scan` of the packages |
| AuditAllPackages.Audit | rpm_gpg_key_audit_all_packages.py:43-64 | aborts with the fault of the package or fragment listing; otherwise prints one status per package and reports the dict, which is empty exactly when no package is flagged |
| VerifySinglePackage.RunCommand | rpm_gpg_key_verifier_single_package.py:8-11 | the stripped output, empty exactly for all-whitespace output, or `CalledProcessError` exactly when the command fails |
| VerifySinglePackage.OutputOrNone | rpm_gpg_key_verifier_single_package.py:21-27 | `None` exactly when the command fails, else the stripped output |
| VerifySinglePackage.IsSignatureLine | rpm_gpg_key_verifier_single_package.py:58 | a line qualifies exactly when it contains "Signature" |
| VerifySinglePackage.SignatureLineHasWords | rpm_gpg_key_verifier_single_package.py:34 | a line containing "Signature" has a last whitespace-separated token, so `split()[-1]` cannot raise |
| VerifySinglePackage.SignatureTokenIn | rpm_gpg_key_verifier_single_package.py:57-60 | `None` exactly when no line contains "Signature"; otherwise a non-empty token without whitespace |
| VerifySinglePackage.SignatureTokenOfFirstLine | rpm_gpg_key_verifier_single_package.py:57-59 | the token is the last word of the first line containing "Signature" |
| VerifySinglePackage.LaterLinesIgnored | rpm_gpg_key_verifier_single_package.py:57-59 | lines after the first "Signature" line never change the token |
| VerifySinglePackage.SignatureTokenPosition | rpm_gpg_key_verifier_single_package.py:59 | the token sits in the first "Signature" line after whitespace or at the start, followed only by whitespace |
| VerifySinglePackage.SignatureTokenOfLine | rpm_gpg_key_verifier_single_package.py:59 | a "Signature" line ending in a space and a whitespace-free token yields that token |
| VerifySinglePackage.SignatureLineExample | rpm_gpg_key_verifier_single_package.py:57-59 | a typical `rpm -qi` signature line yields its hex key ID |
| VerifySinglePackage.SignatureToken | rpm_gpg_key_verifier_single_package.py:55-60 | the token of the text's lines, `None` exactly when no line contains "Signature" |
| VerifySinglePackage.GpgKeyFromRpmMetadata | rpm_gpg_key_verifier_single_package.py:55-60 | missing metadata raises `AttributeError`, and only then; otherwise the token of the text |
| VerifySinglePackage.GpgKeyInstalled | rpm_gpg_key_verifier_single_package.py:29-35 | a failed `rpm -qi` escapes as `CalledProcessError`, and only then |
| VerifySinglePackage.ExtractorsAgree | rpm_gpg_key_verifier_single_package.py:29-35 | both extractors give the same key on the same successful `rpm -qi` output |
| VerifySinglePackage.IsBinaryRpmFor | rpm_gpg_key_verifier_single_package.py:44 | an entry qualifies when it starts with the package name, ends in `.rpm` and contains no `.src.rpm` |
| VerifySinglePackage.BinaryRpms | rpm_gpg_key_verifier_single_package.py:44 | the comprehension keeps exactly the listed entries that start with the package name, end in `.rpm` and contain no `.src.rpm` |
| VerifySinglePackage.PickDownloadedRpm | rpm_gpg_key_verifier_single_package.py:44-45 | `None` exactly when no entry qualifies; otherwise a qualifying entry of the listing |
| VerifySinglePackage.PickIsFirstQualifying | rpm_gpg_key_verifier_single_package.py:45 | the chosen file is the first qualifying entry in listing order |
| VerifySinglePackage.PrefixWithoutSeparator | rpm_gpg_key_verifier_single_package.py:44 | the prefix test has no separator check: package `foo` accepts `foobar-1.rpm` |
| VerifySinglePackage.SourceRpmRejected | rpm_gpg_key_verifier_single_package.py:44 | whatever the listing, no entry containing `.src.rpm` is among the qualifying files or is the one chosen |
| VerifySinglePackage.OnlySourceRpmDownloaded | rpm_gpg_key_verifier_single_package.py:44-45 | when the download left only `foo-1.0-1.src.rpm`, no file is chosen |
| VerifySinglePackage.AddFiles | rpm_gpg_key_verifier_single_package.py:40 | after the download `/tmp` holds the old and the new names; the old entries keep their places and no name appears twice |
| VerifySinglePackage.Without | rpm_gpg_key_verifier_single_package.py:125 | removing a name keeps exactly the other entries, with one entry fewer when the name was present |
| VerifySinglePackage.WithoutKeepsOrder | rpm_gpg_key_verifier_single_package.py:125 | in a listing without repeats, removing the entry at position `i` leaves the entries before and after it, in their order |
| VerifySinglePackage.TmpDir.Receive | rpm_gpg_key_verifier_single_package.py:40 | the downloader's files are added to `/tmp` |
| VerifySinglePackage.TmpDir.Remove | rpm_gpg_key_verifier_single_package.py:125 | `os.remove` of a present entry removes that entry only |
| VerifySinglePackage.Reported | rpm_gpg_key_verifier_single_package.py:70-125 | for each way `check_package_lib` can end, the conditions on the command answers that lead there, the values needed to tell the exits apart, and `/tmp` afterwards |
| VerifySinglePackage.TmpDir.CheckPackageLib | rpm_gpg_key_verifier_single_package.py:70-125 | each early exit, each escaping exception and the full check, with the keys, architecture, chosen file, match verdict and `/tmp` after the clean-up, as `Reported` states |
| VerifySinglePackage.TmpDir.CheckFromInput | rpm_gpg_key_verifier_single_package.py:127-132 | an empty name runs nothing and leaves `/tmp` alone; any other name runs the check |
| VerifySinglePackage.UnsignedOnBothSidesMatches | rpm_gpg_key_verifier_single_package.py:116-119 | with no "Signature" line on either side the keys are both absent and count as matching |
| VerifySinglePackage.CleanupRemovesOnlyChosenFile | rpm_gpg_key_verifier_single_package.py:124-125 | the clean-up removes the checked file, a qualifying entry, and no other entry of `/tmp` |
| VerifySinglePackage.SameInfoCannotCrashAtKeyLookup | rpm_gpg_key_verifier_single_package.py:80-93 | when both `rpm -qi` runs answer alike, an escaping `CalledProcessError` can only come from the architecture query |
| Text.StartsWith | rpm_gpg_key_verifier_single_package.py:44 | `s.startswith(prefix)`: the first characters of `s` are `prefix` |
| Text.EndsWith | rpm_gpg_key_audit_all_packages.py:39 | `s.endswith(suffix)`: the last characters of `s` are `suffix` |
| Text.Contains | rpm_gpg_key_audit_all_packages.py:23 | `sub in s`: `sub` occurs at some position of `s` |
| Text.IndexOf | rpm_gpg_key_audit_all_packages.py:15 | the search for the separator behind `split(sep)`: a position where the separator fits in the text, or none |
| Text.FirstIndex | rpm_gpg_key_verifier_single_package.py:57-60 | the loop returning at the first hit: the first index whose element satisfies the test, or none exactly when none does |
| Text.IndexOfLeftmost | rpm_gpg_key_audit_all_packages.py:15 | the search behind `split(sep)` finds the leftmost occurrence, and nothing exactly when `sep` does not occur |
| Text.Split | rpm_gpg_key_audit_all_packages.py:15 | `s.split(sep)` always gives at least one piece |
| Text.Join | rpm_gpg_key_audit_all_packages.py:15 | `sep.join(parts)`: the pieces with the separator between each two |
| Text.SplitAtFirst | rpm_gpg_key_audit_all_packages.py:24 | when the separator's first character is absent before its first occurrence, the split peels off the text before it |
| Text.SplitJoin | rpm_gpg_key_audit_all_packages.py:15 | joining the pieces of `s.split(sep)` with `sep` gives back `s` |
| Text.SplitPiecesFree | rpm_gpg_key_audit_all_packages.py:15 | no piece of `s.split(sep)` contains `sep` |
| Text.SplitAbsent | rpm_gpg_key_audit_all_packages.py:15 | text without the separator splits into itself alone |
| Text.JoinSplit | rpm_gpg_key_audit_all_packages.py:33 | splitting a join of '-'-free pieces on '-' gives back the pieces |
| Text.SplitCount | rpm_gpg_key_audit_all_packages.py:33 | splitting on one character gives one more piece than its occurrences |
| Text.SplitLast | rpm_gpg_key_audit_all_packages.py:24 | `s.split(sep)[-1]` is a suffix free of `sep`: `s` itself when `sep` is absent, otherwise preceded by `sep` |
| Text.Strip | rpm_gpg_key_verifier_single_package.py:11 | the result neither starts nor ends with whitespace and sits in the text with only whitespace around it |
| Text.StripUnchanged | rpm_gpg_key_verifier_single_package.py:34 | text not starting or ending with whitespace is left alone by `strip()` |
| Text.StripIdempotent | rpm_gpg_key_verifier_single_package.py:11 | `strip()` twice is `strip()` once |
| Text.StripFinalNewline | rpm_gpg_key_audit_all_packages.py:32-33 | a non-empty line that neither starts nor ends with whitespace, followed by its final '\n', strips to that line |
| Text.StripEmpty | rpm_gpg_key_verifier_single_package.py:81 | the stripped output is empty, and so falsy, exactly for all-whitespace text |
| Text.Words | rpm_gpg_key_verifier_single_package.py:34 | `split()` gives non-empty whitespace-free words, and none exactly for all-whitespace text |
| Text.LastWord | rpm_gpg_key_verifier_single_package.py:34 | `split()[-1]` sits after whitespace or at the start, followed only by whitespace |
| Text.LastWordAfterSpace | rpm_gpg_key_verifier_single_package.py:34 | text ending in a space and a whitespace-free token has that token as its last word |
| Text.Lines | rpm_gpg_key_verifier_single_package.py:32 | `splitlines()` gives lines free of '\n', and none exactly for empty text |
| Text.LinesJoin | rpm_gpg_key_verifier_single_package.py:32 | the lines joined with '\n', plus a final '\n' when the text had one, give back the text |

## Left out

- Printing, the ANSI colour codes and the wording of the messages are not modelled. The audit returns the status pairs and the `Report` it prints. `check_package_lib` returns a `CheckOutcome`, which holds the values needed to tell its exits apart, not everything it prints.
- VerifySinglePackage.CheckOutcome: these printed values are not returned. The installed metadata printed at line 83 is not returned on any path. `NoDownload` does not return the installed key printed at line 90. `Crashed(CalledProcessError)` from the architecture query (line 93) does not return the key printed at line 90. `Crashed(AttributeError)` (line 112) does not return the installed key, the architecture or the chosen file printed at lines 90, 94 and 101.
- `subprocess.run` is not modelled. Each command is a `Query` value and its standard error is ignored.
- AuditAllPackages.KeyIdOracle: the audit gives each package name one fixed `rpm -qi` answer. `main` (lines 53-54) runs `rpm -qi` once per listed entry. A name that `rpm -qa` lists twice is queried twice, and the two runs may answer differently. The model assumes that every `rpm -qi` of the same name gives the same answer, so `ScanContents`' value `keyIdOf(p)` does not capture a repeated name whose runs disagree. For such a name, Python's dict keeps the value of the last flagged run.
- Keyboard input is the `input` parameter of `TmpDir.CheckFromInput`. `EOFError` and `KeyboardInterrupt` from `input()` are not modelled.
- Text.Lines: `splitlines()` also breaks at '\r', '\v', '\f', '\x1c'-'\x1e', '\x85' and the Unicode line separators. The model breaks at '\n' only, the boundary `rpm` output uses.
- Text.Strip, Text.Words: Python's `strip()` and `split()` also treat '\x1c'-'\x1f', '\x85' and Unicode spaces as whitespace. The model uses the ASCII set ' ', '\t'-'\r'.
- `os.listdir('/tmp')` returns names in an order the file system chooses. `TmpDir` lists the existing entries in a fixed order and appends new files after them. Files other processes write to `/tmp` while the check runs are not modelled.
- `yumdownloader` is a function from the architecture to the files it writes. Its options and its printed error text are not modelled.
- The two `rpm -qi` runs of `check_package_lib` (lines 80 and 89) are separate answers, `info` and `infoAgain`. The package database may change between them.
- `subprocess.run` raises `FileNotFoundError` when the program itself is missing, for example a host without `yumdownloader`. No `except subprocess.CalledProcessError` block catches it, so on such a host `is_package_installed` (line 16) and `download_rpm_package` (line 40) raise out of `check_package_lib`. `Query` has no outcome for a program that could not be started, so the model does not capture these crashes.
- `Download.DownloadError` carries no files: the model assumes a downloader that exits non-zero has written nothing into `/tmp`. The script removes nothing on that path either way, but a partial download left behind there is not modelled.
- `universal_newlines=True` (audit lines 14, 21 and 32, single-package line 10) makes `subprocess.run` decode the output with the locale's encoding and translate '\r\n' and '\r' into '\n'. `Query.stdout` is that decoded, translated text. Output that fails to decode raises `UnicodeDecodeError`, which no `except` catches: in the audit, `rpm -qi` of one package (line 21) would stop `main` in the middle of its loop (line 54). `Query` has no outcome for this, so the model does not capture these crashes.
- A failing `os.remove` is not modelled: the file removed is one just listed in `/tmp`.
- AuditAllPackages.GpgKeyId: its contract states the two sentinel cases only. The key ID of a marked line is stated by `KeyIdFromFirstMarkedLine` and `KeyIdAfterLastMarker`. The converse of the "not found" case does not hold, because the sentinel can also be read from a marked line (`SentinelAlsoReadFromMarkedLine`).
- VerifySinglePackage.GpgKeyInstalled: its contract states the failure case only. Its successful value is stated by `ExtractorsAgree` in terms of `GpgKeyFromRpmMetadata`.
- `split(sep)` with an empty separator raises `ValueError` in Python. It is not modelled because every separator the scripts use is non-empty.
