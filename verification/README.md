# The certificate authority of openssl-0.9.8zg

A Dafny model of the `openssl ca` tool and of the code in `apps/` it stands on, with proofs about it. The
tool keeps a certificate database in a text file and the next serial number in another one. It issues,
revokes and expires certificates by editing rows in memory, and it replaces the files by a sequence of
renames that may fail or be cut off at any point.

| file | what it models |
|---|---|
| `CaDatabase.dfy` | rows, the two indexes, issue, revoke, expire, and the invariant of every run of commands |
| `CaObjects.dfy` | the same operations on `TxtDb`, an object whose rows are edited in place while two indexes hold pointers to them |
| `CaSessions.dfy` | saving and loading between sessions, the load-time checks, the CRL |
| `TxtDbFile.dfy` | the bytes of the database file, reader and writer, the reader's packed block |
| `Revocation.dfy` | the revocation field: building it, splitting it in place, the CRL reason codes |
| `Expiry.dfy`, `Asn1Time.dfy` | expiry by string comparison, the accepted time formats |
| `SerialNames.dfy`, `SerialNumberFile.dfy` | serial numbers as text: index keys, queries, file names, the serial file |
| `FileSystem.dfy`, `Rotation.dfy` | `rename`, and the rotation of the serial file and of the database with its rollback |
| `CaRuns.dfy`, `CaMain.dfy` | whole runs of the tool: every state of the files, as a model and as the program text |
| `CaEffects.dfy` | what a run that gets to its end has done to the files, and when it gets there |
| `CaHistories.dfy`, `CaNumbers.dfy` | histories of runs, crashed ones included: the database survives, loads again and keeps subjects unique; which certificates share a number |
| `SubjectName.dfy` | the escaped subject grammar and the in-place parser for it |
| `ChopArgs.dfy` | the in-place argument splitter with its growing pointer array |
| `Policy.dfy` | the policy loop and the subject it builds |
| `ExtCopy.dfy` | copying the request's extensions into the certificate |
| `SignerPairs.dfy` | pairing `-signer` and `-inkey` options of the `cms` tool |
| `SetHex.dfy` | hex decoding into a byte array and hex printing |
| `CStrings.dfy`, `Deletion.dfy`, `Positions.dfy`, `Options.dfy` | C strings in buffers, `strcmp`, packed strings; deletion from lists; lists of the elements at certain positions; optional values |

Code that works on buffers, lists or objects is a method on arrays or objects, proved equal to a function on
values. The functions carry the theorems.

Where the code does less than its names and messages promise, the model keeps the code and proves exactly
when it does what is promised:

- `rotate_index` can lose the new database: when an attribute rename fails and the rollback cannot move the
  new database back to `.new`, the next rollback rename overwrites it (`Rotation.NewLostIff`).
- A failed `rotate_index` is undone only if the failing step was in the database half, or the attribute file
  could be examined and either existed or had no stale `.old` (`Rotation.FailureUndoneIff`).
- Revoking a certificate that is not listed stores the text of its expiry time without any check. When that is
  not an accepted time the tool writes a database that it refuses to load from then on
  (`CaSessions.RevokeReloadsIff`, `CaSessions.RevokeUnloadableExample`), and with a newline or a final
  backslash in it the file cannot be parsed at all (`TxtDbFile.BrokenRowUnreadable`).
- Revoking a certificate that is not listed can put a serial number into the index that is still to be
  issued (`CaRuns.UnlistedRevokeSafeIff`).
- The expiry comparison is exact for the UTCTime of RFC 5280, wrong for a UTCTime without seconds in the
  very minute of expiry, and reads a GeneralizedTime as if it were a UTCTime, so that every certificate valid
  to a date from 2050 to 2099 is marked expired from 2021 on (`Expiry.NoSecondsRightIff`,
  `Expiry.GeneralizedMarkedIff`, `Expiry.GeneralizedRightIff`).
- The clock of that comparison is always printed with two digits for the year, so from 2050 on it is taken
  for 1950 and no certificate of 2000 to 2049 is marked any more (`Expiry.ClockRightIff`,
  `Expiry.ClockMarksNothing`).
- An offset from GMT in an expiry time is ignored, so the answer is wrong for as long as the offset
  (`Asn1Time.OffsetRightIff`).
- A revocation field is readable only while the clock prints as UTCTime (`Revocation.FieldRoundTripIff`).
- Certificate files are written before the new serial file is live, so that after a crash in between the next
  run gives the same number to another certificate (`CaNumbers.NumbersSharedIff`,
  `CaNumbers.CrashReusesNumber`).
- A short write of the serial file goes unnoticed, and what is left of it is read as a smaller number after an
  even number of digits (`SerialNumberFile.CutShortLoads`, `CaRuns.ShortWriteSafeIff`).
- Between the renames of the attribute files there is no live one. A run after a crash there takes
  unique_subject from the configuration and can issue a valid subject twice (`CaHistories.UniqueSurvives`,
  `CaHistories.DuplicateIssued`).
- A serial number of more than 35 bytes is saved on several lines, and no such file can be loaded
  (`SerialNumberFile.RoundTripIff`).
- The length test for certificate file names is sound for serial numbers up to 125 bytes only, and beyond that
  every accepted name overruns its buffer (`SerialNames.LengthTestSound`, `SerialNames.CertFileName`).
- A row survives saving and loading exactly when it has no newline, no field but the last ends in a
  backslash, and the row does not start with `#` (`TxtDbFile.RoundTripIff`).
- A serial with a lower-case digit, which the load check accepts, is never found under the number it denotes,
  and every other one is (`SerialNames.ComparesAsNumberIff`, `SerialNames.QueryFindsItsNumber`).
- A line with a quote that opens an argument and is never closed is read past its end, and no other line is
  (`ChopArgs.ChopupArgs`).
- A subject whose last value is empty cannot be written down so that it is accepted
  (`SubjectName.RoundTripIff`, `SubjectName.ClosingSlash`).

## Model

| member | source | states |
|---|---|---|
| CaDatabase.RunInv | openssl-0.9.8zg/apps/ca.c:2106 | In every state of every sequence of expire, issue and revoke commands no two rows have the same serial key, with unique_subject no two V rows have the same subject, and the name index covers every V row although rows are edited under it. |
| CaDatabase.InsertInv | openssl-0.9.8zg/crypto/txt_db/txt_db.c:305-339 | An accepted insertion keeps uniqueness of serials and of valid subjects and the cover by the name index. |
| CaDatabase.EditInv | openssl-0.9.8zg/apps/ca.c:2406-2408 | Editing a row in place keeps the invariant, whatever the stale index says, as long as serial and subject stay and no row becomes V. |
| CaDatabase.LoadedInv | openssl-0.9.8zg/apps/apps.c:1701-1721 | What passes the load checks and gets its indexes satisfies the invariant. |
| CaDatabase.RunEvolves | openssl-0.9.8zg/apps/ca.c:2491-2552 | Over any commands rows never disappear or move, their serial, subject and expiry never change, a type only goes from V to E or from V or E to R, and an R row keeps its revocation data. |
| CaDatabase.RevokeOnceInserted | openssl-0.9.8zg/apps/ca.c:2335-2382 | The call of do_revoke to itself meets the row just inserted, so an unlisted certificate is inserted once and the recursion ends. |
| CaDatabase.RevokeUnlisted | openssl-0.9.8zg/apps/ca.c:2335-2382 | Revoking an unlisted certificate successfully leaves all earlier rows alone and adds exactly one row, which is R with the revocation field. |
| CaDatabase.RevokeListed | openssl-0.9.8zg/apps/ca.c:2384-2408 | Revoking a listed certificate successfully makes its row R with the new revocation field, whatever was there before, and changes no other row, nor the name index. |
| CaDatabase.RevokeFails | openssl-0.9.8zg/apps/ca.c:2335-2417 | A revocation that fails changes nothing, except that the V row it has inserted for an unlisted certificate stays behind. |
| CaDatabase.InsertIff | openssl-0.9.8zg/crypto/txt_db/txt_db.c:305-339 | A row is accepted exactly when no row has its serial and, if it is V and unique_subject is on, its subject is not in the name index; it is then the last row. |
| CaDatabase.IssueIff | openssl-0.9.8zg/apps/ca.c:2071-2111 | A certificate is issued exactly when no row has its serial and its subject is free; the new last row is V with its expiry, no revocation date, its serial, the file name unknown and its subject. |
| CaDatabase.IssueLoadedIff | openssl-0.9.8zg/apps/ca.c:2071-2111 | Right after loading, with unique_subject, the subject has to be that of no V row. |
| CaDatabase.ExpiredSubjectTaken | openssl-0.9.8zg/apps/ca.c:2511-2544 | The subject of a row that has just been marked expired is still taken in the same run. |
| CaDatabase.RevokeSucceedsIff | openssl-0.9.8zg/apps/ca.c:2313-2417 | do_revoke succeeds exactly when the arguments are accepted and the certificate is either unlisted and its subject free in the name index, or listed under its own subject and not revoked yet. |
| CaDatabase.ExpireExact | openssl-0.9.8zg/apps/ca.c:2511-2544 | With RFC 5280 dates a V row stays V exactly when its date is later than now, and no other row becomes V. |
| CaDatabase.ExpireAccepted | openssl-0.9.8zg/apps/ca.c:2511-2544 | For every date that the load check accepts a V row becomes E, and nothing else changes, exactly when its local date, or of a GeneralizedTime the misread one, is at or before now, but for the bare minute. |
| CaDatabase.ExpireOnce | openssl-0.9.8zg/apps/ca.c:2511-2544 | A second pass at the same time changes and counts nothing. |
| CaDatabase.CountIsChanged | openssl-0.9.8zg/apps/ca.c:2511-2544 | The count returned is the number of rows that changed. |
| CaDatabase.StatusFindsNumber | openssl-0.9.8zg/apps/ca.c:2419-2457 | Among rows that pass the load check, negative and lower-case serials included, a status query in any case and of odd or even length finds the upper-case row of that number, or nothing when there is none. |
| CaObjects.TxtDb.constructor | openssl-0.9.8zg/crypto/txt_db/txt_db.c:71-201 | Loading leaves the rows of the file, in order, without indexes. |
| CaObjects.TxtDb.CreateIndexes | openssl-0.9.8zg/apps/apps.c:1701-1721 | Building the indexes succeeds exactly when serials, and with unique_subject the subjects of V rows, are distinct, and then they describe the rows. |
| CaObjects.TxtDb.GetBySerial | openssl-0.9.8zg/crypto/txt_db/txt_db.c:203-220 | A lookup through the serial index returns the row object whose serial has the same key, or null if there is none. |
| CaObjects.TxtDb.Insert | openssl-0.9.8zg/crypto/txt_db/txt_db.c:305-339 | The row is refused exactly when an index whose qualifier takes it has an equal row, and then nothing changed; otherwise it is appended and indexed. |
| CaObjects.TxtDb.Issue | openssl-0.9.8zg/apps/ca.c:1833-2118 | The database part of do_body: the new row is added if serial and subject are free, or the database stays as it was. |
| CaObjects.TxtDb.DoRevoke | openssl-0.9.8zg/apps/ca.c:2313-2417 | The recursive procedure on row objects ends and leaves exactly the rows, the index and the return value of CaDatabase.Revoke. |
| CaObjects.TxtDb.DoUpdateDb | openssl-0.9.8zg/apps/ca.c:2491-2552 | One pass edits in place exactly the rows that expire, leaves both indexes alone and returns their number. |
| CaObjects.TxtDb.GetCertificateStatus | openssl-0.9.8zg/apps/ca.c:2419-2489 | The answer is the type of the row found under the upper-cased, zero-padded query. |
| CaObjects.TxtDb.MakeCrl | openssl-0.9.8zg/apps/ca.c:1319-1340 | The loop over row objects collects the CRL of CaSessions.Crl, and fails where that fails. |
| CaObjects.TxtDb.LookupIsFind | openssl-0.9.8zg/apps/apps.c:1390-1407 | The serial index and a search through the rows agree on presence and on the row. |
| CaSessions.ReloadClosure | openssl-0.9.8zg/apps/ca.c:827-866 | The file a run of commands writes, starting from an accepted file, passes every load-time check again if and only if each revocation that inserts a row had an accepted expiry text and each one that succeeded a UTCTime clock; then it is read back as the same rows. |
| CaSessions.RevokeReloadsIff | openssl-0.9.8zg/apps/ca.c:2347-2408 | After one successful revocation the file loads again exactly when the clock prints as UTCTime and the certificate is listed or has an accepted expiry text. |
| CaSessions.RevokeUnloadableExample | openssl-0.9.8zg/apps/ca.c:2347-2350 | Revoking a certificate with an empty expiry time makes an empty database unloadable. |
| CaSessions.SaveLoad | openssl-0.9.8zg/apps/apps.c:1723-1784 | Clean rows come back from the saved text, a null revocation date having become empty. |
| CaSessions.RowText | openssl-0.9.8zg/apps/apps.h:303-308 | The text of a row without tabs is type, expiry, revocation, serial, file name and subject with tabs between them. |
| CaSessions.FileTextConcat | openssl-0.9.8zg/crypto/txt_db/txt_db.c:271-293 | The text of a file is the texts of its rows one behind the other. |
| CaSessions.SerialLoadsIff | openssl-0.9.8zg/apps/ca.c:843-866 | A serial loads exactly when it is the hex digits of at least one byte, in either case, with at most one minus sign in front. |
| CaSessions.FieldLoadsIff | openssl-0.9.8zg/apps/ca.c:2401-2408 | A revocation field that was made passes the revocation check of the next load exactly when the clock printed as UTCTime. |
| CaSessions.CrlInOrder | openssl-0.9.8zg/apps/ca.c:1319-1340 | The CRL is the list of the R rows in database order, each with the number of its serial and the meaning of its revocation field; it fails exactly when one of them has no serial or no readable field. |
| CaSessions.CrlListsRevoked | openssl-0.9.8zg/apps/ca.c:1319-1340 | From loaded rows the CRL loop never fails, and an entry is on the CRL exactly when some R row has its number and its data. |
| CaSessions.RevokedIsOnCrl | openssl-0.9.8zg/apps/ca.c:1319-1340 | After a successful revocation with a UTCTime clock the CRL lists the number of the certificate with what the arguments mean. |
| CaSessions.NumberOfSerialText | openssl-0.9.8zg/apps/ca.c:1328-1334 | The number the CRL reads from a row is the number the row was issued under, also for negative serials. |
| CaSessions.SessionsEvolve | openssl-0.9.8zg/apps/ca.c:827-866 | Over any sequence of sessions the file stays loadable exactly as long as every session that saved ran such harmless commands only, and as long as it does its rows only evolve. |
| CaSessions.RevokedForever | openssl-0.9.8zg/apps/ca.c:1319-1340 | After every sequence of such sessions a row once revoked is on the CRL with its number and the meaning of its revocation field. |
| TxtDbFile.RoundTripIff | openssl-0.9.8zg/crypto/txt_db/txt_db.c:257-303 | Reading the written rows gives the rows back, null fields having become empty, exactly when every row is clean. |
| TxtDbFile.BackslashExample | openssl-0.9.8zg/crypto/txt_db/txt_db.c:271-293 | A field that ends in a backslash is written so that the row does not come back. |
| TxtDbFile.BrokenRowUnreadable | openssl-0.9.8zg/crypto/txt_db/txt_db.c:133-169 | One otherwise clean row with a newline or a final backslash in its second field, the expiry time, makes the whole file unreadable. |
| TxtDbFile.ReadIsClean | openssl-0.9.8zg/crypto/txt_db/txt_db.c:71-201 | Whatever the file, the rows read from it are clean and have the required number of fields. |
| TxtDbFile.ParseIff | openssl-0.9.8zg/crypto/txt_db/txt_db.c:133-169 | A line is read as a row exactly when it is the written form of that row, with or without a tab at its end, and no field but the last ends in a backslash. |
| TxtDbFile.SkippedLines | openssl-0.9.8zg/crypto/txt_db/txt_db.c:110-130 | Lines that start with a hash are skipped, and a last line without a newline is dropped. |
| TxtDbFile.WriteRowInto | openssl-0.9.8zg/crypto/txt_db/txt_db.c:271-293 | The buffer of twice the text plus one character a field is enough for every row, and then holds the escaped row. |
| TxtDbFile.ReadLine | openssl-0.9.8zg/crypto/txt_db/txt_db.c:133-169 | The field loop packs the fields into one block no larger than the line and its terminator, the write before the field-count test included; its pointers denote exactly the fields of the line, and it fails exactly on a wrong number of fields. |
| Revocation.MakeRevocationStr | openssl-0.9.8zg/apps/ca.c:2579-2666 | The field is built for exactly the accepted arguments: a reason of the table in any case, a known instruction, an accepted time. |
| Revocation.Concatenate | openssl-0.9.8zg/apps/ca.c:2642-2663 | The computed allocation is exactly the length of the joined text and its terminator, so the bounded concatenations cut nothing off. |
| Revocation.UnpackRevInfo | openssl-0.9.8zg/apps/ca.c:2780-2879 | The commas are overwritten in the copy, and the strings behind the pointers are checked and interpreted like the three parts of the text. |
| Revocation.SplitJoin | openssl-0.9.8zg/apps/ca.c:2790-2805 | Splitting a joined field gives its parts back verbatim, the last one with its commas. |
| Revocation.ReasonText | openssl-0.9.8zg/apps/ca.c:2588-2604 | The field is the time, a comma and the name in the spelling of the table exactly for the eight reason names, in any case; other reasons are refused. |
| Revocation.FieldText | openssl-0.9.8zg/apps/ca.c:2605-2663 | Without a reason the field is the time alone; for hold and compromise it is the time, the pseudo reason and the argument, exactly for accepted arguments. |
| Revocation.AnyCaseReads | openssl-0.9.8zg/apps/ca.c:2819-2879 | Reasons are read in any case; an argument behind a plain reason is ignored, and behind a pseudo reason an accepted one is required. |
| Revocation.BareTimeReads | openssl-0.9.8zg/apps/ca.c:2780-2818 | A field without a comma is read as a time without a reason exactly when it is an accepted UTCTime. |
| Revocation.FieldRoundTripIff | openssl-0.9.8zg/apps/ca.c:2780-2879 | For every accepted argument the field reads back as time, reason code of section 5.3.1 of RFC 5280 (never 7) and extra argument if and only if the clock text is a UTCTime; otherwise it is rejected. |
| Revocation.LateClockExample | openssl-0.9.8zg/apps/ca.c:2638-2663 | A field made in 2050 is rejected when it is read. |
| Expiry.MarksExactlyTheExpired | openssl-0.9.8zg/apps/ca.c:2511-2544 | For UTCTime texts of section 4.1.2.5.1 of RFC 5280, century flag and strcmp mark a row exactly when its date is at or before now. |
| Expiry.NoSecondsRightIff | openssl-0.9.8zg/apps/ca.c:2523-2532 | For a UTCTime without seconds the answer is right exactly when the ten digits down to the minute differ from those of now. |
| Expiry.NoSecondsExample | openssl-0.9.8zg/apps/ca.c:2523-2532 | Half a minute after its expiry at noon a certificate dated without seconds is still V. |
| Expiry.GeneralizedIsMisread | openssl-0.9.8zg/apps/ca.c:2518-2540 | A GeneralizedTime is compared as if its first twelve digits were a UTCTime. |
| Expiry.GeneralizedRightIff | openssl-0.9.8zg/apps/ca.c:2518-2540 | A GeneralizedTime from 2050 on is always later than now, and the row stays V exactly when the year now is below the one its century is taken for, or equal to it and the date now before the one misread from the rest; when its year does not end in 00 to 12 the year now alone decides. |
| Expiry.GeneralizedMarkedIff | openssl-0.9.8zg/apps/ca.c:2518-2540 | Every certificate valid to a date from 2050 to 2099 is marked expired exactly from 2021 on. |
| Expiry.GeneralizedMarkedTooEarly | openssl-0.9.8zg/apps/ca.c:2518-2540 | A certificate valid to 2051 is marked expired in 2024. |
| Expiry.ClockRightIff | openssl-0.9.8zg/apps/ca.c:2498-2540 | With a clock of any year from 1950 on, printed as UTCTime, the answer about a UTCTime date is right exactly until 2049, and later for the dates that had passed in the year the clock is taken for. |
| Expiry.ClockMarksNothing | openssl-0.9.8zg/apps/ca.c:2498-2540 | From 2050 to 2099 no date of 2000 to 2049 is marked, though all have passed. |
| Expiry.OrderIsSeconds | openssl-0.9.8zg/crypto/asn1/a_utctm.c:229-246 | The field by field order of valid dates is the order of their seconds on the calendar, leap years included. |
| Asn1Time.ZoneIgnored | openssl-0.9.8zg/apps/ca.c:2511-2544 | For every text ASN1_UTCTIME_check accepts the local time is compared with the clock whatever its zone, except that one without seconds that ends in Z is not marked in its own minute. |
| Asn1Time.GeneralizedMisread | openssl-0.9.8zg/apps/ca.c:2518-2540 | For every text ASN1_GENERALIZEDTIME_check accepts, with or without seconds, fraction and zone, the first twelve digits read as a UTCTime decide. |
| Asn1Time.UtcCheckIff | openssl-0.9.8zg/crypto/asn1/a_utctm.c:112-169 | Of the texts of thirteen characters ending in Z exactly those are accepted that are UTCTimes of RFC 5280 with fields in range. |
| Asn1Time.OffsetCheckIff | openssl-0.9.8zg/crypto/asn1/a_utctm.c:112-169 | With an offset exactly those whose local time is accepted and whose offset is at most twelve hours and 59 minutes. |
| Asn1Time.GeneralizedCheckIff | openssl-0.9.8zg/crypto/asn1/a_gentm.c:120-196 | Of the texts of fifteen characters ending in Z exactly those are accepted that are GeneralizedTimes of RFC 5280 with fields in range. |
| Asn1Time.FractionIff | openssl-0.9.8zg/crypto/asn1/a_gentm.c:163-172 | A fraction is accepted exactly with at least one digit. |
| Asn1Time.OffsetRightIff | openssl-0.9.8zg/crypto/asn1/a_utctm.c:229-246 | With an offset the answer is right, by the instant ASN1_UTCTIME_cmp_time_t compares, exactly when now is not between the expiry and the local time taken for it. |
| Asn1Time.OffsetExample | openssl-0.9.8zg/apps/ca.c:2511-2544 | Half an hour after it expired, a certificate dated an hour ahead of GMT is still V. |
| Asn1Time.AcceptedChars | openssl-0.9.8zg/apps/ca.c:2300-2311 | An accepted time is not empty and has only digits, a zone and perhaps a decimal point, so it contains no comma, tab or newline. |
| SerialNames.SerialTextDenotes | openssl-0.9.8zg/apps/ca.c:1833-1836 | The stored serial of a natural number is an upper-case numeral of even length, at least two digits, that denotes the number. |
| SerialNames.DigitValues | openssl-0.9.8zg/crypto/bn/bn_print.c:67-109 | The digits printed and the values of the digits read in either case. |
| SerialNames.SerialTextInjective | openssl-0.9.8zg/apps/apps.c:1400-1407 | Stored serials of two numbers of any sign compare equal in the index exactly when the numbers are equal. |
| SerialNames.IndexComparesNumbers | openssl-0.9.8zg/apps/apps.c:1390-1407 | On upper-case numerals index_serial_cmp is 0 exactly for equal numbers, and then index_serial_hash agrees whatever the string hash. |
| SerialNames.ComparesAsNumberIff | openssl-0.9.8zg/apps/apps.c:1400-1407 | A hex serial compares equal to the stored text of the number it denotes exactly when it has no lower-case digit. |
| SerialNames.LowerCaseIsAnotherNumber | openssl-0.9.8zg/apps/apps.c:1400-1407 | A witness: `0a` and `0A` denote the same number but differ in the index. |
| SerialNames.MakeStatusKey | openssl-0.9.8zg/apps/ca.c:2429-2451 | The key is made in place in a buffer of two more characters: padded to even length and upper-cased, within bounds. |
| SerialNames.QueryFindsItsNumber | openssl-0.9.8zg/apps/ca.c:2429-2457 | The key of a hex query compares equal to a stored hex serial exactly when they denote the same number and the stored one is upper-case. |
| SerialNames.QueryFindsNoNegative | openssl-0.9.8zg/apps/ca.c:2429-2457 | The key of a hex query never compares equal to a negative serial. |
| SerialNames.CertFileName | openssl-0.9.8zg/apps/ca.c:1203-1235 | For every directory and serial: the length test refuses the name, or the serial has more than 125 bytes and the code writes behind its buffer, or the buffer holds directory, slash, two digits a byte and `.pem`. |
| SerialNames.FileNameIsSerialText | openssl-0.9.8zg/apps/ca.c:1203-1235 | The file is named after the row's serial text, and two serials share a file exactly when they are equal. |
| SerialNames.LengthTestSound | openssl-0.9.8zg/apps/ca.c:1203-1206 | A directory name that passes the length test leaves room for the whole name exactly when the serial has at most 125 bytes. |
| SerialNames.LengthTestExample | openssl-0.9.8zg/apps/ca.c:1203-1206 | A serial of 126 bytes and a directory name of 250 characters pass the test and do not fit. |
| SerialNumberFile.WriteInteger | openssl-0.9.8zg/crypto/asn1/f_int.c:64-100 | The saved text is the sign, two digits a byte, and a backslash and newline before every 35 bytes but the first. |
| SerialNumberFile.ReadInteger | openssl-0.9.8zg/crypto/asn1/f_int.c:102-215 | The line loop reads exactly the bytes of the grammar of lines, or fails where that fails. |
| SerialNumberFile.RoundTripIff | openssl-0.9.8zg/apps/apps.c:1430-1538 | A saved serial number is loaded back exactly when it is not negative and has at most 35 bytes; otherwise loading fails. |
| SerialNumberFile.LimitExample | openssl-0.9.8zg/apps/apps.c:1430-1538 | The largest number that is loaded back is one below 256 to the power of 35, which is the first to be lost. |
| SerialNumberFile.CutShortLoads | openssl-0.9.8zg/apps/apps.c:1525-1527 | What is read from any prefix of the saved text: the number when all its digits are there, the number of the leading bytes after an even number of digits of the first line, and nothing otherwise. |
| SerialNumberFile.CutShortIsSmaller | openssl-0.9.8zg/apps/apps.c:1525-1527 | A number read from a prefix is the one saved exactly when all its digits were written, and smaller otherwise. |
| SerialNumberFile.ContinuedFails | openssl-0.9.8zg/crypto/asn1/f_int.c:128-168 | A file whose first line is continued after an even number of digits, as every written one is, is rejected. |
| SerialNumberFile.LinesOf | openssl-0.9.8zg/crypto/asn1/f_int.c:64-100 | Every 35 bytes make one line of the saved text, and all lines but the last end in a backslash. |
| SerialNumberFile.HandWritten | openssl-0.9.8zg/crypto/asn1/f_int.c:102-215 | A file whose first line starts with an even number of hex digits, in either case, and is not continued is loaded as the number they denote, whatever follows; with an odd number it is rejected. |
| SerialNumberFile.ContinuedByHand | openssl-0.9.8zg/crypto/asn1/f_int.c:128-215 | A first line continued after an odd number of digits loses the last of them, and the next line goes on. |
| Rotation.DoRotateSerial | openssl-0.9.8zg/apps/apps.c:1540-1597 | The renames, stat calls and rollback pass through exactly the states of RotateSerial, or nothing happens when the name is too long. |
| Rotation.DoRotateIndex | openssl-0.9.8zg/apps/apps.c:1786-1889 | The renames and rollbacks pass through exactly the states of RotateIndex for every combination of refused calls, or nothing happens when the name is too long. |
| Rotation.NotCut | openssl-0.9.8zg/apps/apps.c:1793-1825 | Under the length test the six built names are the uncut ones. |
| Rotation.PathsDistinctIff | openssl-0.9.8zg/apps/apps.c:1793-1825 | The six names, before any cut, are pairwise different exactly when the suffixes do not clash with each other or with the attribute file. |
| Rotation.SerialNeverLost | openssl-0.9.8zg/apps/apps.c:1540-1597 | After every step, whatever fails, the previous serial is live or `.old` and the new one `.new` or live. |
| Rotation.OldNeverLost | openssl-0.9.8zg/apps/apps.c:1786-1889 | After every step, whatever fails, the previous database is live or `.old`, and so is the previous attribute file, and the new attribute file is `.new` or live. |
| Rotation.NewLostIff | openssl-0.9.8zg/apps/apps.c:1854-1885 | After every step the new database is `.new` or live if and only if not: the attribute half failed, moving the new database back is refused and moving the old one back works. |
| Rotation.NewLostExample | openssl-0.9.8zg/apps/apps.c:1866-1884 | In that case no file holds the new database any more. |
| Rotation.CommitComplete | openssl-0.9.8zg/apps/apps.c:1786-1889 | On return 1 both live files hold the new contents, both `.old` files the previous ones, and the `.new` files are gone. |
| Rotation.SerialOkIff | openssl-0.9.8zg/apps/apps.c:1566-1597 | rotate_serial returns 1 exactly when the live file can be examined and moved aside and the new one, which has to be there, into its place; then both are where they belong. |
| Rotation.IndexOkIff | openssl-0.9.8zg/apps/apps.c:1826-1889 | rotate_index returns 1 exactly when this holds of the database and of the attribute file. |
| Rotation.FailureUndoneIff | openssl-0.9.8zg/apps/apps.c:1826-1885 | On return 0 with working rollback renames all four files are as before if and only if the database half failed, or the attribute file could be examined and either existed or had no stale `.old`. |
| Rotation.FailureNotUndoneExample | openssl-0.9.8zg/apps/apps.c:1878-1884 | A failed call with working rollback renames that leaves a stale `.attr.old` as the live attribute file. |
| Rotation.SerialFailureUndone | openssl-0.9.8zg/apps/apps.c:1566-1597 | On return 0 of rotate_serial with a working rollback rename the live and the new serial file are as before. |
| Rotation.IndexLive | openssl-0.9.8zg/apps/apps.c:1786-1889 | Throughout, the live name holds the previous or the new database or nothing, and no other file is touched. |
| CaRuns.IssueAllBelow | openssl-0.9.8zg/apps/ca.c:1078-1160 | Every success takes one serial number and adds one row, and no row reaches the next number. |
| CaRuns.IssueAllIff | openssl-0.9.8zg/apps/ca.c:1078-1160 | With a next serial above all rows the request loop gets to its end exactly when no request fails and the subjects of those certified are free and different; then these have, in order, the next serials and V rows with their expiry and subject. |
| CaRuns.CommitSafe | openssl-0.9.8zg/apps/ca.c:1185-1256 | Because the serial is rotated before the index, every state of saving and rotating has the stored next serial above every live row, and success stores both, provided no short write leaves a smaller serial number. |
| CaRuns.RunSafe | openssl-0.9.8zg/apps/ca.c:884-1424 | In every state of a run that expires, issues, commits and revokes, with any call failing, the stored next serial exceeds every serial in the live index, provided a certificate that is not listed when it is revoked has a serial already used up and no short write leaves a smaller serial number. |
| CaRuns.SerialSafety | openssl-0.9.8zg/apps/ca.c:1078-1256 | The same after any history of runs that completed, were cancelled, failed or crashed after any number of steps; listed certificates may be revoked freely. |
| CaRuns.ListedIsBelow | openssl-0.9.8zg/apps/ca.c:2331-2334 | The number of a listed certificate is below the stored next serial, because equal keys of loaded serials are equal numbers. |
| CaRuns.CheckedBeforehand | openssl-0.9.8zg/apps/ca.c:1402-1415 | When no short write goes unnoticed, the condition on a revocation can be checked before the run starts, against the live files of that moment. |
| CaRuns.CoversIff | openssl-0.9.8zg/apps/apps.c:1525-1527 | After a short write the serial file is not below the next number exactly when all of its digits got written or it cannot be read. |
| CaRuns.ShortWriteSafeIff | openssl-0.9.8zg/apps/ca.c:1185-1256 | A commit that gets to its end after such a write keeps serial safety exactly in that case. |
| CaEffects.RunEnds | openssl-0.9.8zg/apps/ca.c:827-1424 | A run that gets to its end has made live what its commands make of the database it loaded, the unique_subject setting and the next serial; when no call fails it gets there exactly when the database loads, requests and revocation are accepted and the names fit. |
| CaEffects.RevocationReachesDisk | openssl-0.9.8zg/apps/ca.c:1402-1424 | After a run with a revocation that gets to its end the live index has an R row with the serial and the subject of the certificate and the revocation field of the arguments. |
| CaEffects.ExpiryReachesDisk | openssl-0.9.8zg/apps/ca.c:884-908 | After a run that expires and gets to its end every row of the starting file with an RFC 5280 date is E if it was V and its date is at or before now, and as it was otherwise, except for a certificate that is also revoked. |
| CaEffects.IssuesReachDisk | openssl-0.9.8zg/apps/ca.c:1078-1256 | After a run with requests that gets to its end the live index has, behind the rows of the starting file, one for each certified request with the serials from the stored one on, and the serial file is past them. |
| CaEffects.RevocationEndsIff | openssl-0.9.8zg/apps/ca.c:1402-1424 | A run that only revokes, when no call fails, gets to its end exactly when the database loads, the name fits, the arguments are accepted, and the certificate is listed under its subject and not revoked, or unlisted with a free subject. |
| CaEffects.RequestsEndIff | openssl-0.9.8zg/apps/ca.c:1078-1256 | A run that only issues, when no call fails, gets to its end exactly when the database and the serial load, no request fails, all subjects are free, and what is certified is confirmed and can be stored. |
| CaEffects.SubjectAgainIff | openssl-0.9.8zg/apps/apps.c:1672-1687 | A request for a valid subject goes through exactly when the live attribute file says no, or there is none and the configuration says no. |
| CaEffects.RefusedRequestsWriteNothing | openssl-0.9.8zg/apps/ca.c:1161-1183 | When the database does not load, a request fails, the serial cannot be read or the certificates are not confirmed, no file is written. |
| CaEffects.RefusedRevocationWritesNothing | openssl-0.9.8zg/apps/ca.c:1402-1415 | When do_revoke refuses no file is written. |
| CaHistories.DatabaseSurvives | openssl-0.9.8zg/apps/apps.c:1723-1889 | After any such history, with no condition on it, the database is live or under `.old`, and its rows have only evolved from the initial ones. |
| CaHistories.RevocationSurvives | openssl-0.9.8zg/apps/ca.c:1402-1424 | A row that is revoked in the live index is, after any such history, revoked with the same data in the live index if that is there. |
| CaHistories.LiveLoads | openssl-0.9.8zg/apps/ca.c:827-866 | After any history, crashes and rollbacks included, in which each successful revocation had a UTCTime clock and a certificate that was listed or had an accepted expiry text, the live index, whenever it is there, is read back as its rows and passes the load checks. |
| CaHistories.UniqueSurvives | openssl-0.9.8zg/apps/apps.c:1646-1687 | Valid subjects are unique after any history in which the attribute files say yes at first and every run that starts without a live one has yes in its configuration. |
| CaHistories.NextRunOpens | openssl-0.9.8zg/apps/apps.c:1626-1721 | After any history with both conditions a next run, with any configuration, gets past loading exactly when the live index is there. |
| CaHistories.DuplicateIssued | openssl-0.9.8zg/apps/apps.c:1672-1687 | Without a live attribute file and with no in the configuration a run that commits a request for a subject that is valid already leaves it valid twice. |
| Rotation.NoAttrInBetween | openssl-0.9.8zg/apps/apps.c:1854-1885 | Such a state is passed in every successful rotation: after its third rename the new database is live and no attribute file is. |
| CaNumbers.HistoryGrows | openssl-0.9.8zg/apps/ca.c:1078-1256 | From one run to any later one of a history the stored serial does not go back, provided no short write leaves a smaller one. |
| CaNumbers.NumbersSharedIff | openssl-0.9.8zg/apps/ca.c:1185-1256 | Of two runs that wrote certificate files the later one gave a number again exactly when the serial stored at its start was still among those the earlier one wrote out. |
| CaNumbers.LiveSerialNotReused | openssl-0.9.8zg/apps/ca.c:1245-1256 | Numbers are never given again once the new serial file of their run was live at its end. |
| CaNumbers.CrashReusesNumber | openssl-0.9.8zg/apps/ca.c:1185-1256 | A run that crashes while it writes certificate files leaves its first number to the next. |
| CaRuns.UnlistedRevokeSafeIff | openssl-0.9.8zg/apps/ca.c:1402-1424 | A stored revocation of an unlisted certificate keeps serial safety exactly when its serial was already used up. |
| CaRuns.UnlistedRevokeExample | openssl-0.9.8zg/apps/ca.c:1402-1424 | With 01 as the next serial and an empty index, revoking certificate 05 breaks it. |
| CaMain.SeparateIff | openssl-0.9.8zg/apps/apps.c:1545-1565 | The nine names of the serial and database files, of any length, are pairwise different exactly when neither file has a name that rotating the other uses. |
| CaMain.LoadIndex | openssl-0.9.8zg/apps/ca.c:827-882 | A database is built exactly when every row passes the checks and the indexes can be created. |
| CaMain.IssueRequests | openssl-0.9.8zg/apps/ca.c:1078-1160 | The request loop on the database object leaves the rows, the next serial, the number done and the result of IssueAll. |
| CaMain.CommitRun | openssl-0.9.8zg/apps/ca.c:1185-1256 | Saving and rotating passes through exactly the states of Commit, also when a name is too long and only the serial file has been written. |
| CaMain.RunTool | openssl-0.9.8zg/apps/ca.c:827-1424 | For names of any length the program text of a run takes the disk through exactly the states of RunOutcome, one for every write and rename, with the same result. |
| SubjectName.ParseName | openssl-0.9.8zg/apps/apps.c:1927-2015 | For every subject all accesses stay inside the buffers of the computed sizes; it fails exactly where the grammar fails; otherwise each recorded type, value and flag is that of the parsed element, so nothing recorded is overwritten. |
| SubjectName.CollectType | openssl-0.9.8zg/apps/apps.c:1963-1987 | The type loop appends exactly the unescaped type and its terminator, or fails at an escape or an end without a value. |
| SubjectName.CollectValue | openssl-0.9.8zg/apps/apps.c:1988-2013 | The value loop appends exactly the unescaped value and its terminator and reports the separator that ended it. |
| SubjectName.RoundTripIff | openssl-0.9.8zg/apps/apps.c:1927-2015 | Printing elements with escapes and parsing the text gives back the same types, values and flags exactly when the last value is not empty, the first element is not joined, and joined elements are allowed. |
| SubjectName.SpellingIff | openssl-0.9.8zg/apps/apps.c:1927-2015 | The same for every spelling in which the special characters, the plus only with multi-valued RDNs, and any others are escaped: an escaped character stands for itself. |
| SubjectName.Rejected | openssl-0.9.8zg/apps/apps.c:1927-2015 | A subject without a leading slash, a type that is not ended and an escape with nothing behind it are rejected. |
| SubjectName.ReparseIff | openssl-0.9.8zg/apps/apps.c:1927-2015 | What was accepted is accepted again in printed form with the same elements exactly when its last value is not empty. |
| SubjectName.ClosingSlash | openssl-0.9.8zg/apps/apps.c:1982-2015 | `/CN=/` is accepted as one element with an empty value, and its printed form `/CN=` is rejected. |
| ChopArgs.ChopupArgs | openssl-0.9.8zg/apps/apps.c:355-421 | It reads past the terminator exactly when a quote that opens an argument is never closed. Otherwise the strings behind the returned pointers in the overwritten buffer are the arguments of the original line, accesses stay inside it, entries survive the growth of the array, and the slots behind them are null. |
| ChopArgs.ArgumentsOfLine | openssl-0.9.8zg/apps/apps.c:355-421 | A line written with each argument between quotes it does not contain is split into those arguments. |
| ChopArgs.ArgumentsOfPieces | openssl-0.9.8zg/apps/apps.c:355-421 | A line of plain words and quoted arguments, separated by any blanks, tabs and newlines, is split into exactly these. |
| ChopArgs.TokensIncrease | openssl-0.9.8zg/apps/apps.c:355-421 | Tokens do not overlap and the pointers strictly increase. |
| Policy.FindMatch | openssl-0.9.8zg/apps/ca.c:1748-1773 | The `again2` search ends, and finds an equal entry of the CA name exactly when there is one. |
| Policy.ApplyRule | openssl-0.9.8zg/apps/ca.c:1702-1792 | The loop for one rule ends, succeeds exactly when the rule is met, and then appends all request entries of its attribute in order. |
| Policy.CheckPolicy | openssl-0.9.8zg/apps/ca.c:1702-1792 | The policy loop succeeds exactly when every rule is met, and the subject is then, rule by rule, all request entries of the rule's attribute. |
| Policy.BuildSubject | openssl-0.9.8zg/apps/ca.c:1692-1831 | With preserve the subject is the request's name, though the rules must still be met, and without e-mail exactly the e-mail entries are removed. |
| Policy.SelectedEntries | openssl-0.9.8zg/apps/ca.c:1702-1792 | The subject has exactly the request entries whose attribute the policy mentions. |
| Policy.SubjectInOrder | openssl-0.9.8zg/apps/ca.c:1702-1792 | The subject has one entry for each rule and request entry of its attribute, the rules in policy order and for each rule the entries in request order. |
| Policy.RulesInOrder | openssl-0.9.8zg/apps/ca.c:1702-1792 | When the policy mentions no attribute twice, the rule of an earlier entry of the subject stands no later in the policy. |
| Policy.AttributeInOrder | openssl-0.9.8zg/apps/ca.c:1702-1792 | And for each attribute mentioned the entries of the subject are those of the request, in its order. |
| Policy.KindsKnown | openssl-0.9.8zg/apps/ca.c:1722-1781 | Only the values optional, supplied and match are known. |
| Policy.SelectedPermutes | openssl-0.9.8zg/apps/ca.c:1702-1792 | When the policy mentions every attribute of the request, and none twice, the subject is a permutation of the request's name. |
| Policy.SelfSignedMatches | openssl-0.9.8zg/apps/ca.c:1692-1695 | With selfsign a match rule is met exactly when a supplied rule is. |
| ExtCopy.Certificate.DeleteType | openssl-0.9.8zg/apps/apps.c:1173-1180 | The inner loop ends with all extensions of the type gone and the others in order. |
| ExtCopy.Certificate.CopyExtensions | openssl-0.9.8zg/apps/apps.c:1155-1193 | The loop leaves, with copyall, the certificate's other types in order and then the last request extension of each type, and with copy everything that was there and then the first of each new type. |
| ExtCopy.CopiedCounts | openssl-0.9.8zg/apps/apps.c:1155-1193 | With copyall every request type occurs exactly once and every other type as often as before; with copy existing types occur as often as before and new ones once. |
| ExtCopy.WhoWins | openssl-0.9.8zg/apps/apps.c:1155-1193 | The extension that is there is the request's last of its type with copyall, and its first with copy when the certificate had none. |
| ExtCopy.CopiedInOrder | openssl-0.9.8zg/apps/apps.c:1155-1193 | With copyall the extensions kept come first, in their order, and then the last of each type of the request, in the order of the request; with copy all that were there and then the first of each new type. |
| ExtCopy.CopyTwice | openssl-0.9.8zg/apps/apps.c:1155-1193 | Copying the same request again changes nothing in any mode, order included. |
| SignerPairs.AcceptsIffBlocks | openssl-0.9.8zg/apps/cms.c:347-397 | The options are accepted exactly when they fall into blocks of a signer alone or a signer and its key in either order, and there is one. |
| SignerPairs.PairsIffBlocks | openssl-0.9.8zg/apps/cms.c:347-397 | Pairing from the left succeeds exactly when some division into blocks exists. |
| SignerPairs.PairSigners | openssl-0.9.8zg/apps/cms.c:347-482 | On acceptance the two stacks are the pairs found from the left: two arguments of different kinds are one pair, a signer without a key of its own is its own key. So the signers are the -signer arguments in order and the keys not taken over are the -inkey arguments in order. |
| SignerPairs.KeyBetweenSigners | openssl-0.9.8zg/apps/cms.c:347-482 | A key between two signers belongs to the first, and one in front of them too. |
| SetHex.Decode | openssl-0.9.8zg/apps/enc.c:624-656 | It succeeds exactly for hex texts that fit; then the target is the nibbles from the left with zero fill on the right; it says how much of the input is wiped in each case. |
| SetHex.DecodeUndoesPrint | openssl-0.9.8zg/apps/enc.c:555-573 | The printed form of a byte string decodes, in a target of its size, to that byte string and no other. |
| SetHex.HexExample | openssl-0.9.8zg/apps/enc.c:624-656 | The text `0aF` decodes to the bytes 0a and f0, which print as `0AF0`. |

## Left out

- Input and output, prompts, configuration lookup, option parsing other than `-signer` and `-inkey`, and the other tools.
- Cryptography, ASN.1 encoding and the X509 calls: a request's outcome, its expiry time and its printed subject are parameters.
- OBJ_txt2nid and OBJ_txt2obj are function parameters; nothing is assumed of them but that an accepted identifier has no newline and does not end in a backslash, where that matters.
- Hash tables: an index is a map under the canonical key; that comparison and hash agree with that key is `SerialNames.IndexComparesNumbers`.
- The early subject lookup at ca.c:1843, which is made with a null subject and finds nothing; uniqueness comes from the insertion.
- Lines longer than one block of `BIO_gets`, comments longer than that, and NUL characters in the database file.
- A row with an empty type field: the code would write two characters into a field of one.
- Short writes of the database and the attribute file that go unnoticed; a refused or interrupted write is modelled, the latter as an incomplete file, and for the serial file a short one too.
- The contents of certificate files and their names on the disk; of their writing only the numbers and the place in the sequence of steps are modelled.
- An attribute file is read as its unique_subject setting; one that holds anything else is taken for one that cannot be parsed.
- `-create_serial`, the CRL number file, CRL sorting and the writing of the CRL, which changes no file of the model.
- Memory allocation failures and freeing; a null pointer is an absent value, and only the revocation date can be null in a row.
- Platform branches other than Unix.
- The second half of `parse_name`, which turns the recorded elements into name entries.
- The iOS framework in the same repository: device input and output and foreign calls.
- ChopArgs.ChopupArgs: what the code does once it is past the terminator is not modelled.
- SerialNames.CertFileName: the arithmetic on the length is on unbounded integers; the C code overflows an `int` from 2^30 bytes on.
- CaRuns.SerialSafety: has a condition on revoking certificates that are not listed, and one on short writes of the serial file; `CaRuns.UnlistedRevokeSafeIff` and `CaRuns.ShortWriteSafeIff` show that they are needed.
- CaHistories.UniqueSurvives: requires the name of the attribute file not to be cut off when it is read; it is not when the database's name passes the length test of saving (`CaMain.IndexFits`), and otherwise no database is ever saved.
- CaRuns.RunSafe: requires the file names to be pairwise different; `CaMain.SeparateIff` says when they are.
- CaSessions.ReloadClosure: requires serials and subjects as the library prints them, the latter without newlines, a clock that prints an accepted time, and accepted expiry times of the certificates that do_body makes (ca.c:1038, ca.c:1928-1931); nothing is required of the expiry text of a certificate that is revoked.
- SerialNumberFile.ReadInteger: bytes are appended to a sequence; the doubling of the allocation is not modelled.
- CaObjects.TxtDb.MakeCrl: the list of entries is built as a value; CRL extensions are abstracted to the revocation data.
