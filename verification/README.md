# A model of the stateful algorithms in OpenSSL's command-line applications

The repository carries OpenSSL 1.1.1l. Its `apps` directory holds several self-contained algorithms
that keep state, work in place or must survive failures. This project models them in Dafny and
proves what they promise. Code that changes things step by step is modelled by methods and classes;
each is proved against a function on values, and the theorems are about that function.

- **rehash** numbers the hash links of a certificate directory. `RehashBucket`, `RehashTable`,
  `LinkName`, `LinkNumbers`, `IdMask` and `RehashDirectory` model one run, from the listing to the
  last system call. `RehashScan` says what a listing enters, `RehashResult` what a run leaves under
  every name, `RehashRemoval` which links it removes, `RehashLookup` when certificate lookup finds
  every file, `RehashFixpoint` what happens when it is run again, and `RehashLimits` where the bit
  mask does not suffice.
- **The certificate database** of `ca` and its readers. `Serial` and `Revocation` are the text
  formats, `CaDatabase` the indexes and the commands, `CaLaws` what each command does in terms of the
  rows, `CaRuns` every sequence of commands, `TxtDbFile` the file format, `CaFile` the way from one
  session to the next, `OcspResponder` the answers given from the database, `PolicyFilter` the choice
  of subject attributes and `IndexRotation` the renames that put a saved database into place.
- **The OCSP daemon**: `ChildPool` is the parent process, `UrlDecode` the request path.
- **Streams, texts and options**: `PrefixFilter`, `ProtocolList`, `SubjectName`, `SignerOptions`
  and `ShaCrypt`.

`CText` holds the C library's text functions and `SeqFacts` facts about sequences.

## Main results

- Take a directory whose hash links all point at files that need them, at most 256 in a bucket. Run
  again over its own result, rehash creates and removes nothing if and only if the second listing
  picks the same file among files of equal contents (`RehashFixpoint.FixedPoint`). It holds without
  copies, and for equal file orders; a family of directories where it fails is given. With links to
  files that need none the first result need not be a fixed point
  (`RehashRemoval.UndoneIsMadeNext`).
- For every directory that do_dir can handle, what stands under each name after a run is what the last
  action on its number left there (`RehashResult.NameAfterRun`). A file that needs a link gets it if
  and only if no later entry of its bucket has a link of the same number removed
  (`RehashResult.CreatedStays`), which cannot happen where the numbers in use leave room
  (`RehashResult.RoomKeepsLinks`), and does happen otherwise (`RehashRemoval.NewLinkIsUndone`).
- The numbers of a bucket are exactly 0 to n - 1 if and only if the numbers kept were distinct and
  no file without need of a link holds one (`LinkNumbers.DenseNumbering`), by a pigeonhole argument
  that also bounds the scan of the bit mask.
- Every run of issue, revoke, add, expire and reload commands, from any indexed database, keeps
  serials unique modulo leading zeros, at most one valid row per name, and revoked rows unchanged; and
  readable revocation fields stay readable (`CaRuns.RunIsSafe`). From any loaded database, all of a
  run passes the load checks if and only if no command revokes a row without a type
  (`CaRuns.RunAcceptedIff`), and then every file saved is read back row for row and accepted
  (`CaFile.SavedFileIsAccepted`).
- From any indexed database, a serial once answered as revoked gets the same answer ever after
  (`OcspResponder.RevokedNeverGood`); and on every checked database with upper-case serials that a
  run reaches, the CRL and the responder agree (`OcspResponder.ReadersAgreeInRuns`).
- Whatever rename fails, the rollback restores the files, if and only if the directory holds no
  left-over `.old` file for a missing live one before the rotation (`IndexRotation.FailureRestores`);
  at no point is the previous database lost (`IndexRotation.NeverLost`). `FileSystem.RotateIndex` says
  this of the file names.
- For every directory, a run of rehash leaves every file that needs a link under the name printed for
  its number if and only if the links it keeps had such names and no new link is removed again
  (`RehashLookup.CanonicalIff`). These are the numbers 0 to n - 1, so that lookup finds every file, if
  and only if the kept links had such names and no file without need holds such a number
  (`RehashLookup.LookupIff`).
- After any successful revocation the row under the certificate's serial is revoked as asked for, no
  other row has changed, and the responder says so (`CaLaws.RevokeKnown`, `RevokeUnknown`,
  `OcspResponder.RevokedIsAnswered`).
- A text is accepted as a subject name if and only if it writes a list of entries none of which is
  refused, with any escapes; entries of unknown type or without a value drop out
  (`SubjectName.AcceptedIff`, `ParseMeans`).
- What a printed password hash holds between its magic and the digest, taken as the salt argument,
  gives the same hash again (`ShaCrypt.CryptReproduces`).
- Exact round trips: link names, revocation fields, database rows and files, percent-encodings,
  protocol lists, subject names, the password digest.

## Where code and expectation differ

- `sk_OPENSSL_STRING_sort` at `openssl-1.1.1l/apps/rehash.c:369` has no effect: the stack has no
  comparison function, and `openssl-1.1.1l/crypto/stack/stack.c:401-408` then does not sort. The
  listing order is the order of the directory, and so can change between runs. This is why the
  fixed point has a condition.
- The documentation of rehash (`openssl-1.1.1l/doc/man1/rehash.pod:51-53`) says that all links of the
  hash syntax are removed first. The code removes a link exactly if its name is the printed one and
  its number is the least number of a file that needs no link, at or above the count, and not given
  anew (`RehashRemoval.GoneExactly`, `RemovesWithRoom`). Further links of a file
  (`RehashRemoval.FurtherLinkStays`), links of other spelling, and links below the count to files
  that need none (`RehashRemoval.IdleLinkStays`) stay. Nothing but what the run wants is left if and
  only if it replaces, removes or wants every link that was there (`RehashRemoval.OnlyWantedIff`).
- A new link can be removed again in the same run, because links to be removed are unlinked by number
  without regard to links made meanwhile. With links 0 and 1 to files that need none, and a
  certificate read between them, the certificate is left without a link, and no error is counted
  (`RehashRemoval.NewLinkIsUndone`).
- The limit of 256 is tested only when an entry is made, not when a file known from its link turns
  out to need one. So 257 different certificates can be entered, and clearing the mask then writes
  beyond its end (`RehashLimits.CountPassesLimit`); this happens if and only if a file known from a
  link brings a new certificate to a full bucket (`RehashLimits.CountStaysWithin`). The bit mask is
  not initialised, and cleared only as far as the count of needed links requires. A link of a file
  that needs none can push the scan past the cleared bits, and for 256 files past the end of the
  mask: `RehashLimits.ScanCanLeaveMask` gives such directories. Whatever the mask holds, no scan
  leaves it if and only if `LinkNumbers.MaskSuffices` holds (`LinkNumbers.MaskSufficesExactly`), so
  this is what `RehashDirectory.DoDir` asks for.
- A link named like `0123abcd.` or `0123abcd.00` counts as number 0 and is kept, so that the name
  `0123abcd.0`, which lookup opens, never appears (`RehashLookup.OtherSpellingIsKept`).
- Revoking writes `R` and a terminator over the type column in place. The columns of a loaded row
  lie one behind the other, so for a row with an empty type, which the load checks accept, this wipes
  out the expiry date, and the next session refuses the database (`CaRuns.EmptyTypeIsLost`). The
  exact condition is `CaRuns.RevokedRowOk`.
- The responder loads the database without checking its rows. A revoked row whose time cannot be read
  gets no answer at all (`OcspResponder.UnreadableIsSilent`).
- A name whose row was revoked stays in the name index of the running session, so the same subject
  can be issued again only after the database has been loaded anew (`CaRuns.ReissueNeedsReload`).
- A column that ends in a backslash swallows the tab behind it when the file is read; a row whose
  first column begins with `#` is skipped (`TxtDbFile.FileRoundTrip`). Of a comment longer than the
  read buffer only the first 511 characters are skipped (`TxtDbFile.LongCommentIsRead`).
- A file that appears as `.old` although the live file is missing is moved to the live name by the
  rollback (`IndexRotation.FailureRestores`).
- Serial numbers that differ in case only are different keys: a number finds exactly its upper-case
  spellings (`Serial.NumberFindsUpperCaseOnly`). A row with a lower-case serial passes the load
  checks, but is unknown to the responder although the CRL lists it
  (`OcspResponder.LowerCaseReadersDisagree`), and revoking its certificate adds a second row of the
  same number (`CaDatabase.LowerCaseRowIsDoubled`).

## Model

| member | source | states |
|---|---|---|
| IdMask.BitSet | openssl-1.1.1l/apps/rehash.c:110-113 | sets one bit and leaves every other bit of the array |
| IdMask.BitIsset | openssl-1.1.1l/apps/rehash.c:115-118 | reads the bit that BitSet sets |
| IdMask.Clear | openssl-1.1.1l/apps/rehash.c:388-388 | the first bytes hold no bit, the others are unchanged |
| RehashBucket.RunInvariant | openssl-1.1.1l/apps/rehash.c:124-187 | after any history of calls: distinct file names, distinct digests among entries needing links, old_id the least id seen for the file, num_needed the count of entries needing links, refusals only when full |
| RehashBucket.RunShape | openssl-1.1.1l/apps/rehash.c:124-187 | for histories of any length: distinct file names, distinct needed digests, num_needed the count of needed entries modulo 65536 |
| RehashBucket.NeededAreChosen | openssl-1.1.1l/apps/rehash.c:146-186 | whatever links are met and when, the entries needing links are the first file of each digest |
| RehashBucket.AllEntriesNeeded | openssl-1.1.1l/apps/rehash.c:146-186 | when every link points at a picked file, no entry is without need of a link |
| RehashBucket.AddRefuses | openssl-1.1.1l/apps/rehash.c:146-187 | the one error is a file unknown to a bucket with 256 needed entries, no duplicate of one in it; the bucket is then unchanged |
| RehashTable.HashTable.FindBucket | openssl-1.1.1l/apps/rehash.c:134-136 | finds the first bucket of the key in the chain |
| RehashTable.ScanEntries | openssl-1.1.1l/apps/rehash.c:146-159 | reports a duplicate digest exactly when there is one, otherwise the entry of the file |
| RehashTable.AddToBucket | openssl-1.1.1l/apps/rehash.c:146-187 | the bucket and error count of the specification, the 16-bit counter included |
| RehashTable.HashTable.AddEntry | openssl-1.1.1l/apps/rehash.c:124-187 | changes one bucket of one chain, makes it if missing, and keeps one bucket per key in the right chain |
| RehashTable.TableRefinesMap | openssl-1.1.1l/apps/rehash.c:124-187 | the chained table stands for a map: after any mix of calls, a key's bucket is the run of its own calls |
| LinkName.ReadName | openssl-1.1.1l/apps/rehash.c:193-219 | accepts a name exactly when it has eight hex digits, a dot, an optional r and a number that ends it, and returns hash, type and number |
| LinkName.ParseInvertsPrint | openssl-1.1.1l/apps/rehash.c:193-227 | every name printed for a bucket and a number is read back to them |
| LinkName.PrintText | openssl-1.1.1l/apps/rehash.c:407-409 | eight lower-case hex digits of the hash, a dot, r for a CRL, the number in decimal without leading zeros |
| LinkName.LinkTextMeans | openssl-1.1.1l/apps/rehash.c:193-219 | what every spelling of a link name means: hex digits of either case, r of either case, and blanks, sign and digits as strtoul reads them, modulo 65536 |
| LinkName.LinkTextOnly | openssl-1.1.1l/apps/rehash.c:193-219 | no other name is read |
| LinkName.PrintInjective | openssl-1.1.1l/apps/rehash.c:407-409 | different buckets or numbers give different names |
| LinkName.LinkNamesAreNotFiles | openssl-1.1.1l/apps/rehash.c:243-251 | no name is both a hash link and a certificate file |
| LinkName.ExtensionIff | openssl-1.1.1l/apps/rehash.c:243-251 | a name is a certificate file if and only if its last dot is followed by pem, crt, cer or crl in any case |
| LinkName.NoDotNoExtension | openssl-1.1.1l/apps/rehash.c:243-244 | a name without a dot is none |
| LinkNumbers.CreatedAreFresh | openssl-1.1.1l/apps/rehash.c:402-426 | new numbers were free, and there are as many as entries that need one |
| LinkNumbers.CreatedAreDense | openssl-1.1.1l/apps/rehash.c:402-405 | below a new number every number is taken in the end |
| LinkNumbers.CreatedDistinct | openssl-1.1.1l/apps/rehash.c:402-426 | no two new links get the same number |
| LinkNumbers.ScanStaysBelow | openssl-1.1.1l/apps/rehash.c:388-405 | all new numbers are below a limit if and only if the taken and the wanted numbers fit below it |
| LinkNumbers.NewIdsBelowNeeded | openssl-1.1.1l/apps/rehash.c:388-405 | the scan stops below num_needed if and only if the numbers in use and the entries wanting one are together at most num_needed |
| LinkNumbers.DenseNumbering | openssl-1.1.1l/apps/rehash.c:384-448 | the entries needing links end with exactly the numbers below num_needed, if and only if kept numbers are distinct and none is held idly |
| LinkNumbers.NumbersDistinct | openssl-1.1.1l/apps/rehash.c:384-448 | numbers after the pass are pairwise distinct if and only if the kept ones were |
| LinkNumbers.CleanBucket | openssl-1.1.1l/apps/rehash.c:384-448 | with at most 256 needed entries and both conditions: numbers 0 to n - 1, pairwise distinct, kept where already below n, no scan outside the mask |
| LinkNumbers.AllNeededFit | openssl-1.1.1l/apps/rehash.c:384-405 | when every entry needs a link, the mask suffices and no number reaches num_needed |
| LinkNumbers.MaskSufficesExactly | openssl-1.1.1l/apps/rehash.c:334-405 | whatever the uninitialised mask holds, neither clearing it nor a scan leaves it, if and only if the numbers in use and the entries wanting one fit in the cleared bits; the numbers then do not depend on what it held |
| RehashDirectory.MarkUsed | openssl-1.1.1l/apps/rehash.c:388-391 | the mask holds exactly the old numbers below num_needed |
| RehashDirectory.NextFree | openssl-1.1.1l/apps/rehash.c:404-405 | the scan ends at the least free number without leaving the cleared bits |
| RehashDirectory.MakeLink | openssl-1.1.1l/apps/rehash.c:413-425 | without an error the name is a link to the file and nothing else changed |
| RehashDirectory.RelinkEntry | openssl-1.1.1l/apps/rehash.c:395-441 | one entry: kept, linked under the least free number, or unlinked; mask and nextid stay in step |
| RehashDirectory.RelinkEntries | openssl-1.1.1l/apps/rehash.c:393-444 | the second loop performs the actions of the plan in order |
| RehashDirectory.RelinkBucket | openssl-1.1.1l/apps/rehash.c:387-445 | a bucket's two loops leave the directory that the plan of the bucket describes |
| RehashDirectory.RelinkChain | openssl-1.1.1l/apps/rehash.c:385-446 | the buckets of a chain in turn |
| RehashDirectory.RelinkAll | openssl-1.1.1l/apps/rehash.c:384-448 | all chains in turn |
| RehashDirectory.DoFile | openssl-1.1.1l/apps/rehash.c:232-304 | enters a certificate or CRL file under its new hash, its old hash or both and nothing for other names; counts a file that cannot be read or entered |
| RehashDirectory.HandleSymlink | openssl-1.1.1l/apps/rehash.c:193-227 | -1 for a name that is no hash link, otherwise the link is entered with its target and number and the answer of add_entry returned |
| RehashDirectory.ScanName | openssl-1.1.1l/apps/rehash.c:372-382 | one name of the listing: its calls, and its errors, to which a refused link does not count |
| RehashDirectory.ScanNames | openssl-1.1.1l/apps/rehash.c:371-382 | the table after the listing is the run of all calls, and the count is the sum of their errors |
| RehashDirectory.DoDir | openssl-1.1.1l/apps/rehash.c:328-454 | the count is at least that of the scan; if it is no more, the directory is the one that the specification describes |
| RehashScan.OpIn | openssl-1.1.1l/apps/rehash.c:371-382 | what a listing enters: each hash link under its bucket and number for its target, each certificate or CRL under its new hash unless only old ones are wanted and under its old hash unless only new ones are, and nothing else |
| RehashScan.OpsAppend | openssl-1.1.1l/apps/rehash.c:371-382 | the calls come in the order of the listing |
| RehashScan.HistInOrder | openssl-1.1.1l/apps/rehash.c:134-144 | the calls about one bucket are those with its key, all of them and in order |
| RehashScan.ScanErrsZero | openssl-1.1.1l/apps/rehash.c:371-382 | the scan counts no error if and only if no certificate file is unreadable and none is refused for lack of room |
| RehashResult.NameAfterRun | openssl-1.1.1l/apps/rehash.c:384-448 | for every directory that do_dir can handle and every name: what the last action on its number left there; all names that are not printed ones are as before |
| RehashResult.CreatedStays | openssl-1.1.1l/apps/rehash.c:402-441 | a new link is there after the run if and only if no later entry has its number removed; otherwise nothing is left under the name |
| RehashResult.RoomKeepsLinks | openssl-1.1.1l/apps/rehash.c:388-441 | where the numbers in use leave room below num_needed for the entries wanting one, no new link is removed again |
| RehashResult.KeptStays | openssl-1.1.1l/apps/rehash.c:395-401 | a link with a kept number is the same after the run |
| RehashResult.KeptName | openssl-1.1.1l/apps/rehash.c:395-401 | every entry that keeps its number has a link with it, before and after |
| RehashResult.NeededIsLinked | openssl-1.1.1l/apps/rehash.c:384-448 | a file that needs a link has one with its number after the run, if and only if the number was kept, not taken away again, or there was a link of other spelling |
| RehashRemoval.GoneExactly | openssl-1.1.1l/apps/rehash.c:427-441 | a hash link is gone after a run if and only if links are to be removed, its name is printed, and its bucket removes the number and does not give it anew |
| RehashRemoval.RemovesWithRoom | openssl-1.1.1l/apps/rehash.c:395-441 | with room, the numbers removed are those at or above num_needed that are the least number of a file that needs no link |
| RehashRemoval.OnlyWantedIff | openssl-1.1.1l/apps/rehash.c:384-448 | no hash link is left but the wanted ones, if and only if the run replaces, removes or wants each one that was there |
| RehashRemoval.FurtherLinkStays | openssl-1.1.1l/apps/rehash.c:395-441 | for any certificate with a link of too large a number: it gets number 0, and the old link stays |
| RehashRemoval.IdleLinkStays | openssl-1.1.1l/apps/rehash.c:395-401 | for any certificate and a link numbered 0 to a file that needs none: that link stays |
| RehashRemoval.NewLinkIsUndone | openssl-1.1.1l/apps/rehash.c:402-441 | for any certificate between links 0 and 1 to files that need none: its new link is removed again, and no error is counted |
| RehashRemoval.UndoneIsMadeNext | openssl-1.1.1l/apps/rehash.c:402-441 | only the next run makes that link |
| RehashFixpoint.FixedPoint | openssl-1.1.1l/apps/rehash.c:359-448 | where all links point at files that need them: a second run is quiet, and changes nothing, if and only if both listings pick the same files |
| RehashFixpoint.SameOrderIsFixed | openssl-1.1.1l/apps/rehash.c:359-448 | it is quiet when the files come in the same order, wherever the links come |
| RehashFixpoint.NoCopiesIsFixed | openssl-1.1.1l/apps/rehash.c:359-448 | it is quiet in any order when no two files have the same contents |
| RehashFixpoint.SwappedCopiesAreNotFixed | openssl-1.1.1l/apps/rehash.c:369-382 | two copies of any certificate, listed in the other order, make the second run create a link |
| RehashFixpoint.EveryDigestPicked | openssl-1.1.1l/apps/rehash.c:146-186 | every certificate seen is picked under some name, and only seen ones are |
| RehashFixpoint.MaskAlwaysSuffices | openssl-1.1.1l/apps/rehash.c:384-405 | a directory whose links are all in use meets what DoDir needs |
| RehashFixpoint.StaysInUse | openssl-1.1.1l/apps/rehash.c:359-448 | and so does the result of a run, as long as the picks stay the same |
| RehashLookup.CanonicalIff | openssl-1.1.1l/apps/rehash.c:384-448 | for every directory: every file that needs a link ends under the printed name of its number, if and only if the kept links had theirs and no new link is removed again |
| RehashLookup.LookupIff | openssl-1.1.1l/apps/rehash.c:384-448 | for every directory: and these numbers are 0 to n - 1, if and only if the kept links had printed names and no file without need holds such a number |
| RehashLookup.LookupFindsAll | openssl-1.1.1l/apps/rehash.c:384-448 | lookup then meets every file that needs a link: the printed names 0 to n - 1 link to such files, and each of those has one |
| RehashLookup.BareNameIsZero | openssl-1.1.1l/apps/rehash.c:193-219 | a name without a number is read as number 0 |
| RehashLookup.OtherSpellingIsKept | openssl-1.1.1l/apps/rehash.c:395-401 | for any certificate and any other spelling of number 0, the link is kept and the printed name never appears |
| RehashLimits.IdleLinkLeavesMask | openssl-1.1.1l/apps/rehash.c:384-405 | a link to a file that needs none and a whole number of mask bytes of files that do: a number beyond the cleared bits is handed out |
| RehashLimits.ScanCanLeaveMask | openssl-1.1.1l/apps/rehash.c:384-405 | for every hash and any different certificates that fill mask bytes there is such a directory and listing |
| RehashLimits.KnownFilePasses | openssl-1.1.1l/apps/rehash.c:146-186 | a full bucket accepts one more file that needs a link if a link has made it known |
| RehashLimits.CountPassesLimit | openssl-1.1.1l/apps/rehash.c:162-187 | for every hash and any 257 different certificates, a directory and a listing whose count is 257 |
| RehashLimits.CountStaysWithin | openssl-1.1.1l/apps/rehash.c:146-186 | from the 256th needed file on, the count stays within the limit if and only if no file known from an earlier link brings a new certificate |
| Serial.SkipZeros | openssl-1.1.1l/apps/apps.c:1332-1340 | the rest after the leading zeros |
| Serial.IndexSerialCmp | openssl-1.1.1l/apps/apps.c:1342-1350 | equal exactly when equal after the leading zeros |
| Serial.SameKeySameNumber | openssl-1.1.1l/apps/apps.c:1342-1350 | on upper-case hex serials, compared equal if and only if the numbers are equal |
| Serial.SameKeyExactly | openssl-1.1.1l/apps/apps.c:1342-1350 | an upper-case key finds a text if and only if that is an upper-case spelling of its number |
| Serial.EqualSerialsHashEqually | openssl-1.1.1l/apps/apps.c:1332-1340 | equal numbers hash equally, for any string hash |
| Serial.LowerCaseIsAnotherKey | openssl-1.1.1l/apps/apps.c:1332-1350 | a hex serial is missed by the key of its own number if and only if it is not in upper case |
| Serial.NumberFindsUpperCaseOnly | openssl-1.1.1l/apps/ca.c:2066-2084 | the key made for a number finds a serial column if and only if that spells the number in upper case |
| Serial.SerialTextValue | openssl-1.1.1l/apps/ca.c:1735-1738 | the serial column is upper-case hex and denotes the number |
| Serial.BuildStatusKey | openssl-1.1.1l/apps/ca.c:2157-2186 | the buffer holds the typed text, padded to even length, in upper case |
| Serial.StatusKeyValue | openssl-1.1.1l/apps/ca.c:2167-2186 | any spelling of a number gives an upper-case key of that number |
| Revocation.SearchReasons | openssl-1.1.1l/apps/ca.c:2313-2322 | the first reason equal up to case |
| Revocation.Strlcat | openssl-1.1.1l/apps/ca.c:2370-2378 | appends the whole text when it fits, otherwise as much as leaves room for the terminator |
| Revocation.Compose | openssl-1.1.1l/apps/ca.c:2362-2380 | the computed length is exactly enough and no append truncates |
| Revocation.MakeRevocationStr | openssl-1.1.1l/apps/ca.c:2299-2381 | refuses unknown reasons, objects and times, otherwise returns time, reason and argument separated by commas |
| Revocation.UnpackRevinfo | openssl-1.1.1l/apps/ca.c:2486-2595 | cuts at the first two commas and decodes the reason; refuses what it cannot read |
| Revocation.UnpackInvertsMake | openssl-1.1.1l/apps/ca.c:2299-2381 | unpacking what was made returns the same time, the same argument, commas included, and the CRLReason number of section 5.3.1 of RFC 5280 |
| Revocation.UnpackMeans | openssl-1.1.1l/apps/ca.c:2486-2595 | what any field means: the RFC 5280 number of a reason under any spelling, hold, key and CA key compromise with their argument, and a refusal of everything else |
| CaDatabase.LoadCorrect | openssl-1.1.1l/apps/apps.c:1604-1624 | loading succeeds if and only if serials are unique and, when asked for, names of valid rows are; the indexes are then consistent |
| CaDatabase.CreateSerialIndex | openssl-1.1.1l/crypto/txt_db/txt_db.c:150-188 | indexes every row by serial, or fails at a clash |
| CaDatabase.CreateNameIndex | openssl-1.1.1l/crypto/txt_db/txt_db.c:150-188 | indexes the valid rows by name, or fails at a clash |
| CaDatabase.CaDb.IndexIndex | openssl-1.1.1l/apps/apps.c:1604-1624 | builds both indexes, or reports that they cannot be built |
| CaDatabase.CaDb.TxtDbInsert | openssl-1.1.1l/crypto/txt_db/txt_db.c:237-280 | refuses a clash on either index and then changes nothing, otherwise appends the row and indexes it |
| CaDatabase.IssueConsistent | openssl-1.1.1l/apps/ca.c:1729-1881 | issuing keeps the indexes consistent, and succeeds if and only if serial and name are free: its own checks make the insertion succeed |
| CaLaws.NewRow | openssl-1.1.1l/apps/ca.c:2062-2107 | the row of a certificate column by column |
| CaLaws.SerialTextNumber | openssl-1.1.1l/apps/ca.c:1735-1738 | the serial column of any number, negative ones included, is read back to it |
| CaLaws.IssueMeans | openssl-1.1.1l/apps/ca.c:1729-1881 | issuing succeeds if and only if no row has the serial and the name index does not hold the name; then one row has been appended and indexed, otherwise nothing changed |
| CaDatabase.RetypeIsTwoByteWrites | openssl-1.1.1l/apps/ca.c:2146-2147 | the new type is what two byte writes make of the columns as they lie in memory; under an empty type they wipe out the expiry date |
| CaDatabase.CaDb.DoBody | openssl-1.1.1l/apps/ca.c:1729-1881 | the database after issuing, with its refusals |
| CaDatabase.RevokeConsistent | openssl-1.1.1l/apps/ca.c:2051-2155 | revoking or adding keeps the indexes consistent |
| CaDatabase.CaDb.DoRevoke | openssl-1.1.1l/apps/ca.c:2051-2155 | the database after revoking or adding a certificate, with its refusals and the overwritten expiry date, as RevokeKnown, RevokeUnknown and RevokeRevokes tell it |
| CaLaws.MakeSucceeds | openssl-1.1.1l/apps/ca.c:2299-2361 | a revocation can be written if and only if its argument is a reason of RFC 5280 in any case, an object or a time, as its kind wants |
| CaLaws.MadeText | openssl-1.1.1l/apps/ca.c:2299-2381 | the text written for each kind |
| CaLaws.RevokeKnown | openssl-1.1.1l/apps/ca.c:2128-2150 | on a serial that the database has: success if and only if the name is the same, the row is not revoked, a revocation is asked for and the argument suits; then that row is revoked with the time, reason and argument asked for, and no other row changes |
| CaLaws.RevokeUnknown | openssl-1.1.1l/apps/ca.c:2085-2126 | on a new serial: success if and only if the name is free and the argument suits; one row is appended, and is revoked unless it was only to be added |
| CaLaws.RevokeRevokes | openssl-1.1.1l/apps/ca.c:2051-2155 | after any success the row under the serial is an R row whose field unpacks to what was asked for |
| CaDatabase.MarkExpired | openssl-1.1.1l/apps/ca.c:2224-2272 | exactly the valid rows with a past date are marked, up to an unreadable date; the count is the number of such rows, and zero means no change |
| CaDatabase.ExpireConsistent | openssl-1.1.1l/apps/ca.c:2224-2272 | expiring keeps the indexes consistent although it does not touch them |
| CaDatabase.CaDb.DoUpdatedb | openssl-1.1.1l/apps/ca.c:2224-2272 | the database after expiring, and the number of rows that were due |
| CaDatabase.MarkLoop | openssl-1.1.1l/apps/ca.c:2240-2268 | the loop marks row by row, and counts what it marks |
| CaLaws.ExpireMeans | openssl-1.1.1l/apps/ca.c:2240-2268 | up to the first valid row with an unreadable date, a row changes if and only if it was valid with a past date, and then only its type, to E; the rest is unchanged; success if and only if there is no such row, and then no valid row has a past date |
| CaDatabase.CaDb.GetCertificateStatus | openssl-1.1.1l/apps/ca.c:2157-2222 | finds the row of the typed serial, none exactly when there is none, and succeeds for the four known types |
| CaDatabase.LookupByNumber | openssl-1.1.1l/apps/ca.c:2190-2191 | a lookup finds the row that spells the number in upper case, and none exactly when there is none |
| CaDatabase.StatusBySpelling | openssl-1.1.1l/apps/ca.c:2157-2191 | so does one under any hexadecimal spelling, in any case, of any length, with any leading zeros |
| CaDatabase.LowerCaseRowIsDoubled | openssl-1.1.1l/apps/ca.c:2080-2126 | for a number that stands in the database in lower case only, adding its certificate makes a second row of that number |
| CaRuns.CheckRows | openssl-1.1.1l/apps/ca.c:631-667 | accepts exactly rows with a readable revocation field where revoked and none elsewhere, a readable date and a proper serial |
| CaRuns.CheckSerial | openssl-1.1.1l/apps/ca.c:648-666 | accepts exactly an optional minus and a positive even number of hex digits |
| CaRuns.SerialOkIff | openssl-1.1.1l/apps/ca.c:648-666 | the same by parts: any text behind an optional minus |
| CaRuns.RowRefusedIff | openssl-1.1.1l/apps/ca.c:631-667 | the four reasons to refuse a row |
| CaRuns.RevokedRowOk | openssl-1.1.1l/apps/ca.c:2146-2148 | revoking an acceptable row leaves it acceptable if and only if its type is not empty (or an empty date were readable) |
| CaRuns.RevokeKeepsRows | openssl-1.1.1l/apps/ca.c:2051-2155 | what do_revoke leaves passes the load checks if and only if it revoked no row without a type |
| CaRuns.StepKeepsChecks | openssl-1.1.1l/apps/ca.c:1729-2272 | what any command saves passes the load checks if and only if it revoked no row without a type |
| CaRuns.StepGrows | openssl-1.1.1l/apps/ca.c:1729-2272 | every command only adds rows and lets rows age, whatever they hold |
| CaRuns.StepKeepsRevs | openssl-1.1.1l/apps/ca.c:633-643 | every command keeps the checks on revocation fields, also where a row has no type |
| CaRuns.RunAcceptedIff | openssl-1.1.1l/apps/ca.c:631-667 | every database of a run passes the load checks if and only if no command revokes a row without a type |
| CaRuns.EmptyTypeIsLost | openssl-1.1.1l/apps/ca.c:2146-2147 | a database that loads, and that the next session refuses after one revocation |
| CaRuns.RunStaysConsistent | openssl-1.1.1l/apps/apps.c:1604-1624 | the indexes stay consistent in every run, whatever the rows hold |
| CaRuns.StepKeepsInv | openssl-1.1.1l/apps/ca.c:1729-2272 | every command keeps a checked database with types one, and only lets rows age |
| CaRuns.RunIsSafe | openssl-1.1.1l/apps/ca.c:1729-2272 | over every run from an indexed database: consistent indexes, unique serials, unique valid names, rows only added or aged, revoked rows the same, readable revocation fields stay readable |
| CaRuns.SavedIsLoadable | openssl-1.1.1l/apps/ca.c:631-667 | every database written by such a run passes the load checks of the next session |
| CaRuns.RevokedForGood | openssl-1.1.1l/apps/ca.c:2135-2149 | from any indexed database, a revoked row is the same row in every later database, and is found under its serial |
| CaRuns.ReissueNeedsReload | openssl-1.1.1l/apps/apps.c:1352-1355 | a name held by a row no longer valid is refused in the session, accepted after loading |
| CaRuns.RunKeepsUpper | openssl-1.1.1l/apps/ca.c:1735-1738 | runs with certificate numbers that are not negative keep every serial in upper case |
| CaRuns.GenCrl | openssl-1.1.1l/apps/ca.c:1122-1143 | the loop makes the list of the specification or fails at an unreadable field or serial |
| CaRuns.CrlListsRevoked | openssl-1.1.1l/apps/ca.c:1122-1143 | on checked rows the CRL lists all revoked rows and no others, in order, with their numbers and what their fields say |
| CaLaws.CrlInOrder | openssl-1.1.1l/apps/ca.c:1122-1143 | the entries are the revoked rows at increasing positions, all of them |
| TxtDbFile.PutRow | openssl-1.1.1l/crypto/txt_db/txt_db.c:190-235 | the columns with tabs escaped, separated by tabs, ended by a newline |
| TxtDbFile.EscapeAppend | openssl-1.1.1l/crypto/txt_db/txt_db.c:216-222 | escaping goes character by character |
| TxtDbFile.EscapePlain | openssl-1.1.1l/crypto/txt_db/txt_db.c:216-222 | a tab gets a backslash, a text without tabs stays as it is |
| TxtDbFile.WriteRowAppend | openssl-1.1.1l/crypto/txt_db/txt_db.c:213-224 | columns are separated by tabs |
| TxtDbFile.WriteRowsAppend | openssl-1.1.1l/crypto/txt_db/txt_db.c:201-230 | every row ends in a newline |
| TxtDbFile.TakeLine | openssl-1.1.1l/crypto/txt_db/txt_db.c:79-111 | cuts a line in place into its columns and accepts exactly num of them, or one more that is empty |
| TxtDbFile.TakeRows | openssl-1.1.1l/crypto/txt_db/txt_db.c:20-128 | reads the rows of a file piece by piece with a growing buffer, skipping what one read from a # on takes |
| TxtDbFile.LongCommentIsRead | openssl-1.1.1l/crypto/txt_db/txt_db.c:56-72 | of a comment line longer than the buffer, only the first 511 characters are skipped |
| TxtDbFile.CommentIsSkipped | openssl-1.1.1l/crypto/txt_db/txt_db.c:66-67 | a comment line that fits the buffer leaves nothing behind |
| TxtDbFile.LineIsRow | openssl-1.1.1l/crypto/txt_db/txt_db.c:68-116 | any other line is a row, or the file is refused |
| TxtDbFile.NoNewlineNoRow | openssl-1.1.1l/crypto/txt_db/txt_db.c:63-70 | what follows the last newline is dropped |
| TxtDbFile.GrownIs | openssl-1.1.1l/crypto/txt_db/txt_db.c:57-61 | the buffer grows by 512 bytes at a time, and no more often than it must |
| TxtDbFile.RowRoundTrip | openssl-1.1.1l/crypto/txt_db/txt_db.c:79-111 | a written row is read back if and only if no column but the last ends in a backslash |
| TxtDbFile.FileRoundTrip | openssl-1.1.1l/crypto/txt_db/txt_db.c:190-235 | a written file is read back to its rows if and only if every row is storable |
| TxtDbFile.ReadIsStorable | openssl-1.1.1l/crypto/txt_db/txt_db.c:56-116 | whatever can be read is storable |
| TxtDbFile.ReadWriteRead | openssl-1.1.1l/crypto/txt_db/txt_db.c:190-235 | so, written and read again, it is the same |
| CaFile.SavedFileIsAccepted | openssl-1.1.1l/apps/apps.c:1626-1670 | from any file that was read and accepted, the next session accepts every file of a run, if and only if no command of the run revokes a row without a type |
| CaFile.SavedFileIsReadBack | openssl-1.1.1l/apps/apps.c:1626-1670 | from any file that was read and indexed, every file of a run is read back row for row and indexed |
| CaFile.SavedLine | openssl-1.1.1l/apps/apps.h:503-510 | the columns in their order |
| OcspResponder.FindIssuer | openssl-1.1.1l/apps/ocsp.c:1180-1188 | finds whether some CA certificate has the issuer id asked for |
| OcspResponder.LookupSerial | openssl-1.1.1l/apps/ocsp.c:1266-1285 | a row found is one of the database and has the key, and so spells the number; none exactly when no row has the key |
| OcspResponder.AnswerOne | openssl-1.1.1l/apps/ocsp.c:1180-1226 | the status of one query: unknown, good, revoked or none, as the row found says |
| OcspResponder.MakeOcspResponse | openssl-1.1.1l/apps/ocsp.c:1160-1227 | malformed exactly for no query, an internal error exactly when some digest is unknown, otherwise at strictly increasing positions every query that has a status, with that status |
| OcspResponder.RespondMeans | openssl-1.1.1l/apps/ocsp.c:1148-1227 | the same of the specification, with the positions |
| OcspResponder.AnswersInOrder | openssl-1.1.1l/apps/ocsp.c:1160-1227 | answers come in request order, each with the status of its query |
| OcspResponder.StatusMeaning | openssl-1.1.1l/apps/ocsp.c:1190-1226 | on any indexed database: good and unknown exactly as section 2.2 of RFC 6960 wants them, revoked exactly for a revoked row whose time can be read, with what the row says, and no answer exactly for any other row |
| OcspResponder.UnreadableIsSilent | openssl-1.1.1l/apps/ocsp.c:1206-1226 | a revoked row whose time cannot be read is loaded, and gets no answer |
| OcspResponder.GoodByNumber | openssl-1.1.1l/apps/ocsp.c:1196-1205 | by number: good if and only if the issuer is known and a valid row spells the number in upper case |
| OcspResponder.RevokedIsAnswered | openssl-1.1.1l/apps/ocsp.c:1206-1226 | after a successful revocation the answer for a known issuer is revoked, with the time, reason and argument asked for |
| OcspResponder.IssuedIsGood | openssl-1.1.1l/apps/ocsp.c:1203-1205 | after a certificate was issued the answer is good |
| OcspResponder.LowerCaseReadersDisagree | openssl-1.1.1l/apps/ocsp.c:1266-1285 | a revoked row in lower case only is on the CRL, but unknown to the responder |
| OcspResponder.CrlAndResponderAgree | openssl-1.1.1l/apps/ocsp.c:1196-1226 | on upper-case serials: answered as revoked with a time and reason if and only if the CRL lists the number with them |
| OcspResponder.ReadersAgreeInRuns | openssl-1.1.1l/apps/ocsp.c:1196-1226 | so on every database that a run from upper-case serials reaches |
| OcspResponder.RevokedNeverGood | openssl-1.1.1l/apps/ocsp.c:1206-1226 | from any indexed database, a serial once answered as revoked gets the same answer from every later database |
| PolicyFilter.GetIndexByObj | openssl-1.1.1l/crypto/x509/x509name.c:67-85 | the first entry of the object after a position, or -1 |
| PolicyFilter.MatchInCa | openssl-1.1.1l/apps/ca.c:1535-1561 | finds an equal entry of the CA's name if there is one |
| PolicyFilter.FilterLine | openssl-1.1.1l/apps/ca.c:1497-1577 | one policy line: refuses, or appends all request entries of its type |
| PolicyFilter.ApplyPolicy | openssl-1.1.1l/apps/ca.c:1487-1578 | refuses if and only if some line has an unknown type or word, a required field that is missing or a value that the CA lacks; otherwise the subject holds, line by line and within a line by position, every request entry of the line's type |
| PolicyFilter.FilterSucceeds | openssl-1.1.1l/apps/ca.c:1487-1578 | success if and only if every type and word is known, every supplied or match field is present and every matched value is one of the CA's |
| PolicyFilter.FilterContents | openssl-1.1.1l/apps/ca.c:1487-1578 | the subject holds an entry if and only if it was requested and its type is listed |
| PolicyFilter.FilterInOrder | openssl-1.1.1l/apps/ca.c:1487-1578 | an index map from the subject to pairs of line and request position, strictly increasing in lexicographic order, whose image is every pair of a line and an entry of its type |
| PolicyFilter.SelectInOrder | openssl-1.1.1l/apps/ca.c:1497-1575 | for one line: all positions of the type, in order |
| PolicyFilter.RefusedIff | openssl-1.1.1l/apps/ca.c:1487-1578 | the reasons to refuse, line by line |
| PolicyFilter.DeleteEmails | openssl-1.1.1l/apps/ca.c:1702-1727 | deleting while walking leaves the entries of every other type, all of them at increasing positions |
| PolicyFilter.WithoutMembers | openssl-1.1.1l/apps/ca.c:1702-1727 | exactly the e-mail entries are gone |
| PolicyFilter.WithoutInOrder | openssl-1.1.1l/apps/ca.c:1702-1727 | an index map of what is left |
| IndexRotation.CallersNamesDistinct | openssl-1.1.1l/apps/apps.c:1687-1691 | the suffixes in use give six different names for any database file |
| IndexRotation.DistinctIff | openssl-1.1.1l/apps/apps.c:1687-1691 | for which suffixes at all the six names differ |
| IndexRotation.SuccessRotates | openssl-1.1.1l/apps/apps.c:1672-1736 | on success the live files hold what was staged, the .old files what was live, and no other file changed |
| IndexRotation.RotateSucceeds | openssl-1.1.1l/apps/apps.c:1699-1735 | success if and only if both staged files exist and no rename fails |
| IndexRotation.FailureRestores | openssl-1.1.1l/apps/apps.c:1699-1733 | whatever fails, a working rollback restores live and staged files, if and only if no left-over .old file stands for a missing live one before the rotation |
| IndexRotation.RestoredAfter | openssl-1.1.1l/apps/apps.c:1699-1733 | for one run, which left-over matters after which rename |
| IndexRotation.ExistingIndexSurvives | openssl-1.1.1l/apps/apps.c:1699-1733 | if database and attribute file exist, any failing rename leaves them as they were |
| IndexRotation.NeverLost | openssl-1.1.1l/apps/apps.c:1699-1733 | after every single rename, whatever fails, the previous database is under its name or under .old |
| IndexRotation.AttrNeverLost | openssl-1.1.1l/apps/apps.c:1699-1733 | so are the previous attributes |
| IndexRotation.OthersUntouched | openssl-1.1.1l/apps/apps.c:1699-1733 | no rename, forward or back, touches any other file |
| IndexRotation.RotationInNames | openssl-1.1.1l/apps/apps.c:1672-1736 | all of this in file names: success, what is in place and kept, what is restored and when, and what is held after every rename |
| IndexRotation.TooLongIff | openssl-1.1.1l/apps/apps.c:1678-1685 | refused as too long if and only if some name with its terminator exceeds 256 bytes |
| IndexRotation.FileSystem.RotateAttrNames | openssl-1.1.1l/apps/apps.c:1714-1733 | the attribute file's renames, and the rollback of all of them in reverse order |
| IndexRotation.FileSystem.RotateNames | openssl-1.1.1l/apps/apps.c:1699-1735 | the renames pass through exactly the states of the specification |
| IndexRotation.FileSystem.RotateIndex | openssl-1.1.1l/apps/apps.c:1672-1736 | refused before any rename exactly for names that do not fit; for suffixes that keep the names apart, success exactly when both .new files exist and no rename fails, after which the database and its .attr file hold what stood under their new suffix and the old suffix holds what they held; after a failure both and what was staged are as before, if and only if no left-over was taken for them; at no point is either lost |
| IndexRotation.SerialRotates | openssl-1.1.1l/apps/apps.c:1468-1509 | the same for the serial file: success, rollback, nothing lost, no other file changed |
| IndexRotation.SerialInNames | openssl-1.1.1l/apps/apps.c:1468-1509 | the same in file names |
| IndexRotation.FileSystem.RotateSerial | openssl-1.1.1l/apps/apps.c:1468-1509 | the same for the serial file |
| ChildPool.Parent.Forget | openssl-1.1.1l/apps/ocsp.c:940-952 | frees the slot of a reaped child, found exactly when it is in the table |
| ChildPool.Parent.Remember | openssl-1.1.1l/apps/ocsp.c:991-1003 | stores a new child, with a free slot exactly when fewer than multi live |
| ChildPool.Parent.Killall | openssl-1.1.1l/apps/ocsp.c:886-896 | signals the nonzero slots in order |
| ChildPool.Parent.SpawnLoop | openssl-1.1.1l/apps/ocsp.c:910-1010 | the slots are the forked and unreaped children, procs counts them and never exceeds multi, both internal errors are unreachable, termination signals the survivors, the exit status is 1 exactly after a failed waitpid |
| ChildPool.EachChildSignalledOnce | openssl-1.1.1l/apps/ocsp.c:886-896 | each child in the table is signalled exactly once, nobody else at all |
| ChildPool.SurvivorsAre | openssl-1.1.1l/apps/ocsp.c:910-1010 | the survivors are the children there from the start or forked, and not reaped since, up to the event that ends the parent |
| ChildPool.ExitStatusIs | openssl-1.1.1l/apps/ocsp.c:931-1010 | the status is 1 exactly if a waitpid failed before any other end |
| UrlDecode.Urldecode | openssl-1.1.1l/apps/ocsp.c:1329-1348 | in place: the decoding and its length, or -1; unread input is never overwritten |
| UrlDecode.FailsExactlyAtBad | openssl-1.1.1l/apps/ocsp.c:1329-1348 | fails if and only if the scan reaches a percent sign without two hex digits |
| UrlDecode.DecodeInvertsEncoding | openssl-1.1.1l/apps/ocsp.c:1329-1348 | a text decodes to x if and only if it is a percent-encoding of x (section 2.1 of RFC 3986) |
| UrlDecode.EveryStringIsEncodable | openssl-1.1.1l/apps/ocsp.c:1329-1348 | every byte string has an encoding that is read back |
| PrefixFilter.RenderSplit | openssl-1.1.1l/apps/bf_prefix.c:81-137 | the prefixed text does not depend on how the text is cut into writes |
| PrefixFilter.RenderLine | openssl-1.1.1l/apps/bf_prefix.c:81-137 | a line is shown as the prefix and the line |
| PrefixFilter.Filter.PassThrough | openssl-1.1.1l/apps/bf_prefix.c:89-95 | without a prefix the text passes unchanged |
| PrefixFilter.Filter.BeginLine | openssl-1.1.1l/apps/bf_prefix.c:103-111 | the prefix is written once at a line start and not again after a failure |
| PrefixFilter.Filter.WritePart | openssl-1.1.1l/apps/bf_prefix.c:119-129 | partial writes of a line add exactly the bytes counted |
| PrefixFilter.Filter.WriteToNewline | openssl-1.1.1l/apps/bf_prefix.c:113-133 | the bytes up to and including the next newline, and the line state after them |
| PrefixFilter.Filter.WriteLine | openssl-1.1.1l/apps/bf_prefix.c:99-134 | one round: prefix if due, then the bytes up to the newline |
| PrefixFilter.Filter.PrefixWrite | openssl-1.1.1l/apps/bf_prefix.c:81-137 | what was emitted is the accepted text with the prefix before each line's first byte, also after a failure |
| PrefixFilter.Filter.SetPrefix | openssl-1.1.1l/apps/bf_prefix.c:139-154 | a new prefix leaves the line state alone |
| PrefixFilter.WriteAll | openssl-1.1.1l/apps/bf_prefix.c:81-137 | resubmitting the unwritten tail after any failures neither loses nor repeats a prefix |
| ProtocolList.Turn | openssl-1.1.1l/apps/apps.c:1972-1997 | one turn of the loop: byte stored, element closed or extra comma skipped |
| ProtocolList.ScanList | openssl-1.1.1l/apps/apps.c:1972-1997 | all stores stay within len + 1 bytes; it stops exactly at a name over 255 bytes |
| ProtocolList.NextProtosParse | openssl-1.1.1l/apps/apps.c:1960-2006 | fails exactly for no nonempty element, one over 255 bytes or a length outside 1 to 65534; otherwise outlen bytes encode the nonempty elements in order |
| ProtocolList.SplitJoins | openssl-1.1.1l/apps/apps.c:1972-1997 | the elements have no commas, and joined by commas are the text |
| ProtocolList.NonEmptyInOrder | openssl-1.1.1l/apps/apps.c:1983-1987 | the names are the elements that are not empty, all of them in order |
| ProtocolList.DecodeInvertsEncode | openssl-1.1.1l/apps/apps.c:1960-2006 | the output decodes as length-prefixed names (section 3.1 of RFC 7301) to the elements |
| SubjectName.CollectType | openssl-1.1.1l/apps/apps.c:1802-1810 | the type up to the equals sign, or the end |
| SubjectName.CollectValue | openssl-1.1.1l/apps/apps.c:1814-1827 | the unescaped value; writes stay below the length of the copied input |
| SubjectName.CollectEntry | openssl-1.1.1l/apps/apps.c:1795-1832 | one entry and its separator |
| SubjectName.TakeEntry | openssl-1.1.1l/apps/apps.c:1795-1850 | skips unknown types and empty values, fails where the library refuses |
| SubjectName.ParseName | openssl-1.1.1l/apps/apps.c:1772-1860 | the loops compute the parse of the specification |
| SubjectName.ParseInvertsRender | openssl-1.1.1l/apps/apps.c:1772-1860 | parsing any writing of any list of proper entries, whichever characters are escaped, gives the list and the flags back |
| SubjectName.ParseMeans | openssl-1.1.1l/apps/apps.c:1772-1860 | for any list of entries in any writing: those of unknown type or without a value drop out, the others come in order, and it fails if and only if the library refuses one of these |
| SubjectName.ParseReads | openssl-1.1.1l/apps/apps.c:1772-1860 | every accepted text is such a writing |
| SubjectName.AcceptedIff | openssl-1.1.1l/apps/apps.c:1772-1860 | so a text is accepted if and only if it writes entries none of which is refused, with perhaps a separator at its end |
| SignerOptions.OptionState.OptSigner | openssl-1.1.1l/apps/cms.c:472-488 | a second signer moves the pending pair to the lists and becomes pending |
| SignerOptions.OptionState.OptInKey | openssl-1.1.1l/apps/cms.c:489-507 | a second key does, and is refused without a pending signer |
| SignerOptions.OptionState.OptKeyOpt | openssl-1.1.1l/apps/cms.c:530-561 | a parameter joins those of the pending position, and is refused before any |
| SignerOptions.SignerHolds | openssl-1.1.1l/apps/cms.c:472-488 | after a -signer the variables again hold the closed segments and the pending one |
| SignerOptions.InKeyHolds | openssl-1.1.1l/apps/cms.c:489-507 | so after an -inkey, refused exactly where a segment would close without a signer |
| SignerOptions.KeyOptHolds | openssl-1.1.1l/apps/cms.c:530-561 | so after a -keyopt, refused exactly as the first option |
| SignerOptions.Finish | openssl-1.1.1l/apps/cms.c:604-626 | the pending pair is pushed, or the command line refused |
| SignerOptions.ParseOptions | openssl-1.1.1l/apps/cms.c:472-626 | accepts exactly the acceptable command lines and computes their meaning |
| SignerOptions.SegmentsConcat | openssl-1.1.1l/apps/cms.c:472-561 | the segments are the command line cut up |
| SignerOptions.SegmentsGreedy | openssl-1.1.1l/apps/cms.c:472-507 | each holds at most one signer and key, and each next one begins with an option that the one before already has |
| SignerOptions.ParamsPlaced | openssl-1.1.1l/apps/cms.c:530-561 | parameter positions strictly increase and name the segment they were given in |
| SignerOptions.AcceptedPairing | openssl-1.1.1l/apps/cms.c:472-626 | equal lists, every signer and key once and in order, a signer without a key paired with itself, parameters kept in order |
| SignerOptions.SignerHasKey | openssl-1.1.1l/apps/cms.c:472-626 | the i-th signer is the one that the i-th segment names, with the key that it names or, without one, its own file |
| SignerOptions.CutAt | openssl-1.1.1l/apps/cms.c:472-507 | each cut is before a second -signer or a second -inkey |
| SignerOptions.ArgsInOrder | openssl-1.1.1l/apps/cms.c:472-561 | the arguments of each option are all of them, in the order of the command line |
| ShaCrypt.FeedCyclic | openssl-1.1.1l/apps/passwd.c:620-625 | the first digest is fed exactly passwd_len cyclic bytes of B |
| ShaCrypt.FeedBits | openssl-1.1.1l/apps/passwd.c:627-634 | one piece per bit of the length, lowest first |
| ShaCrypt.FillCyclic | openssl-1.1.1l/apps/passwd.c:649-670 | byte k of P and S is the digest byte at k modulo its size |
| ShaCrypt.RunRounds | openssl-1.1.1l/apps/passwd.c:672-693 | the rounds of Drepper's description |
| ShaCrypt.RoundPieces | openssl-1.1.1l/apps/passwd.c:672-693 | the input of each round by the remainders of its number |
| ShaCrypt.BitByBit | openssl-1.1.1l/apps/passwd.c:627-634 | a one bit adds the digest, a zero bit the password |
| ShaCrypt.RepeatCopies | openssl-1.1.1l/apps/passwd.c:642-666 | the text so many times |
| ShaCrypt.ComputeDigest | openssl-1.1.1l/apps/passwd.c:604-693 | all loops together compute the digest of the description |
| ShaCrypt.TwoBytePassword | openssl-1.1.1l/apps/passwd.c:604-693 | for any two-byte password: every digest of the first two rounds with its input written out |
| ShaCrypt.B64From24bit | openssl-1.1.1l/apps/passwd.c:706-715 | n characters of six bits, lowest first |
| ShaCrypt.FourChars | openssl-1.1.1l/apps/passwd.c:706-715 | the characters written out |
| ShaCrypt.CovTable | openssl-1.1.1l/apps/passwd.c:25-35 | the alphabet in its order |
| ShaCrypt.WriteTail | openssl-1.1.1l/apps/passwd.c:717-757 | the groups one after the other |
| ShaCrypt.TableCovers | openssl-1.1.1l/apps/passwd.c:717-757 | every digest byte is in some group |
| ShaCrypt.TailDecodes | openssl-1.1.1l/apps/passwd.c:703-758 | the printed tail decodes to the whole digest |
| ShaCrypt.HeaderLength | openssl-1.1.1l/apps/passwd.c:583-602 | the header is at most 3 + 17 bytes and the salt |
| ShaCrypt.RoundsAreRead | openssl-1.1.1l/apps/passwd.c:544-572 | any number of rounds before the salt is cut to the range 1000 to 999999999, the salt to 16 characters |
| ShaCrypt.NoRoundsAreDefault | openssl-1.1.1l/apps/passwd.c:517-572 | without it there are 5000 rounds |
| ShaCrypt.HeaderReadsBack | openssl-1.1.1l/apps/passwd.c:544-598 | the header behind its magic is a salt argument that means the same |
| ShaCrypt.CryptFits | openssl-1.1.1l/apps/passwd.c:507-507 | the whole text and its terminator fit the static buffer |
| ShaCrypt.CryptReproduces | openssl-1.1.1l/apps/passwd.c:493-763 | a printed hash tells how to make it again: its own header as salt gives the same hash |
| ShaCrypt.Shacrypt | openssl-1.1.1l/apps/passwd.c:493-763 | the result of the description, or none for a malformed rounds field or an empty password or salt |

## Left out

- RehashBucket.RunInvariant: once 65536 entries of one bucket need links the 16-bit counter wraps, and RunShape says what is left.
- RehashBucket.NeededAreChosen: does not say which files are refused when more than 256 of one bucket need links.
- RehashDirectory.DoDir: asks that no scan leaves the cleared bits of the mask, without which the code reads and writes outside an array (MaskSufficesExactly); the resulting directory is stated for runs whose system calls do not fail. So do NextFree, RelinkEntry, RelinkBucket, RelinkChain and RelinkAll.
- RehashDirectory.DoFile: what reading a file gives is part of the directory; PEM parsing and the SHA-1 computation are not modelled.
- RehashDirectory.HandleSymlink: a link target is always readable and shorter than the buffer.
- RehashDirectory.Node: what reading a name gives is a fixed attribute of it, so a link from another name through a hash link keeps its contents when that hash link changes.
- RehashFixpoint.FixedPoint: states nothing beyond UndoneIsMadeNext about directories with links to files that need none. A file's digest is assumed to differ from the all-zero filler of fresh entries.
- HashTable: linked chains and entries are sequences, so pointers, sharing and freeing are not captured; nor are directory permissions, path joining and verbose output.
- CaRuns: what counts as a UTCTime, a generalized time, an object or a date is a parameter of the model; the clock is assumed to give a UTCTime without commas, as it does until 2049. A command that fails saves nothing. CRL entries are listed before they are sorted. Names, extensions and certificates are values: building, signing and printing them is left out, and so are prompts and the configuration file.
- CaFile: texts given to the commands are assumed free of newlines and trailing backslashes where TxtDbFile requires it; the .attr file is left out.
- TxtDbFile: read, write and memory errors are left out.
- PolicyFilter: the preserve option, the self-signed CA name and the ASN.1 string type conversions before the filter are left out; a string with its type is one value.
- OcspResponder: the signature, the nonce, update times and the network are left out.
- IndexRotation: a rename either happens or not, and only renames change files; ENOTDIR counts as a missing file.
- ChildPool: the system is assumed to reap only children and to give new ones unused process ids; the children's exit statuses, pauses and the child's own path are left out; multi is positive.
- PrefixFilter: the next BIO takes a prefix whole or not at all and at least one byte of any successful write. PassThrough notes the line state of the whole text even when only part of it is taken, as the code does.
- SignerOptions: the operation is a signing one; parameters given for encryption and the other options are left out.
- ShaCrypt: digest functions are uninterpreted; EBCDIC branches and the other password schemes are left out.
- The JavaScript client under app, the other commands and the libraries behind them: option handling around library calls.
- Rewriting of the command line (chopup_args), reading into memory (bio_to_mem), string escapes of dgst and the option parser: not modelled.
