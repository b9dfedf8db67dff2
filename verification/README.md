# Black-Bag credential engine: a verified model

This project models the parts of Black-Bag whose correctness no finite set of
tests can settle, and proves what each of them is for.

- **Secret generator** (`Counting`, `Charset`, `UniformDraw`, `Password`,
  `Passphrase`, `PhraseEntropy`, `EmbeddedWords`). The random generator is a
  tape of 32-bit words. Password and passphrase minting are methods over the
  tape; the alternating sum behind the entropy figure is proved to count the
  strings that can be produced, and for a tape of any length every such string
  is minted by equally many tapes. The embedded word list is written out and
  proved prefix free, so a passphrase is worth exactly nine bits a word whatever
  its separator.
- **Plaintext export and import** (`Csv`, `CsvReading`, `MetaBlock`,
  `MetaRoundTrip`, `Base32`, `Otpauth`, `OtpauthRoundTrip`, `OtpauthReading`,
  `KeePass`, `KeePassImport`, `KeePassParts`, `KeePassRoundTrip`,
  `KeePassReading`). The printer/parser pairs (CSV, the block in the notes,
  base 32, percent encoding, `otpauth` addresses, defanged cells) are inverted
  one by one, each with the exact condition under which the original comes back,
  and then composed into a round trip of whole records and whole exports, second
  factors included, again with its exact condition. The three `Reading` modules
  say what the readers make of files other programs write.
- **Audit log** (`AuditLog`, `Bytes`). The digest is an arbitrary function. A
  claim that would need collision resistance ends in "or these two lists show a
  collision, or an entry whose digest is the genesis value".
- **Consent desk** (`ConsentDesk`, `ConsentRuns`, `ConsentLives`,
  `ConsentAnswers`). The methods of the desk implement a step function. In every run the desk is proved to be
  nothing but its registrations, each living by itself, and what becomes of each
  is told exactly from the requests. Clock readings are inputs and may go
  backwards.
- **Stream splitter** (`SplitParser`, `Substring`).
- **Backup log** (`BackupLog`, `StableSort`).
- **Breach matcher** (`BreachMatch`, `BreachFetch`).
- **Relying-party rule** (`RelyingParty`), section 5.1.3 of WebAuthn Level 3
  and "is a registrable domain suffix of or is equal to" of the HTML Standard.
- **Hygiene report** (`Hygiene`).
- Shared: `Bytes`, `Text`, `Lists`, `Wrappers`.

Code that loops or changes fields is modelled by methods and classes, each
proved against a specification function; the theorems are about those
functions. What a random generator, a clock, a disk or the network supplies is a
parameter.

Where the code does less than one might read into it:

- A cell that begins with an apostrophe before a formula character loses it on
  import (`KeePass.UndefangUndoesDefang`, `KeePassImport.ColumnsComeBack`).
- A record that lacks the field its kind shows in the Password column shows its
  first field there. A seed that is a text is then printed as it is and comes
  back as a password (`KeePassParts.SeedTurnsIntoPassword`, exactly when
  `KeePassParts.FirstFieldMoves` says).
- A seed without settings is printed nowhere; when a seed is lost is
  `KeePassParts.SeedComesBack`.
- A second factor without an issuer comes back with the title as its issuer, and
  one whose issuer holds a colon with another account; when the settings come
  back as they were is `OtpauthRoundTrip.ConfigComesBack`.
- A base 32 secret of a single letter is accepted and stands for no byte at all
  (`Base32.ReadSecretExactly`).
- An attribute called `account` comes back as `username`, and values lose the
  white space around them; when none of this happens is
  `KeePassParts.AttributesComeBack`.
- A text that begins with U+FEFF loses that character (`Csv.ParseUndoesPrint`).
- An absent and an empty optional text have one digest, so exchanging them is
  never noticed (`AuditLog.BlankEditsAreInvisible`); nothing else goes unnoticed
  by the digest (`AuditLog.PreimageIdentifiesContent`).
- An IPv6 address in brackets has no host, but with a port after it the whole
  text is taken for one (`RelyingParty.BracketedOrigin`).
- A push cuts the vault of the newest entry, not the one pushed to
  (`BackupLog.PushActsPerVault`). With a clock set back a vault can therefore
  outgrow its eight entries, exactly when `BackupLog.BoundKeptExactly` says, and
  without bound (`BackupLog.ClockSetBackHasNoBound`).
- A refusal or a deferral overwrites an approval that has not been collected
  (`ConsentLives.ApprovalCanBeOverruled`); when an approval survives is
  `ConsentLives.ApprovalSurvivesExactly`.

`dafny verify dfyconfig.toml` checks everything.

## Model

| member | source | states |
|---|---|---|
| Counting.AcceptedCount | crates/blackbag-core/src/generate.rs:439-485 | for disjoint classes inside an alphabet, the alternating sum equals the number of strings of that length that touch every class |
| Counting.AcceptedPositive | crates/blackbag-core/src/generate.rs:333-345 | with non-empty classes the sum is never negative, and positive exactly when the length is at least the number of classes |
| Counting.SubsetSumIsAlternating | crates/blackbag-core/src/generate.rs:464-480 | the loop's sum over bitmask subsets, with the sign given by the number of ones, is the inclusion-exclusion recursion |
| Charset.Build | crates/blackbag-core/src/generate.rs:292-346 | succeeds exactly for lengths 1 to 512 with at least one switch on and no more switches on than characters; which error is returned when; the alphabet holds exactly the small letters, capitals, digits and symbols that are switched on, less the ambiguous ones when asked; the table maps each byte to the one class that holds it; no class is ever emptied by the exclusions |
| Charset.EnterSource | crates/blackbag-core/src/generate.rs:312-330 | entering one class keeps the class table and the alphabet in step |
| Charset.AllClassesPresent | crates/blackbag-core/src/generate.rs:349-362 | the bitmask scan with its early exit accepts exactly the strings that touch every class |
| Charset.ClassConstraint | crates/blackbag-core/src/generate.rs:459-485 | the accumulated probability is the counted strings over all strings, and there is none exactly when the count is not positive |
| Charset.RemovedSize | crates/blackbag-core/src/generate.rs:467-474 | the bit loop adds up the sizes of the classes in the subset |
| Charset.StrengthOfSpec | crates/blackbag-core/src/generate.rs:494-546 | a usable figure exactly when the spec generates; size to the power of length times the probability is the exact number of producible strings, which is positive |
| Charset.EnabledIsProper | crates/blackbag-core/src/generate.rs:292-346 | for every spec the enabled classes are disjoint, non-empty and without repeats |
| Charset.ProperClasses | crates/blackbag-core/src/generate.rs:292-346 | such classes, as sets, meet the counting theorem's conditions and have the sizes the table records |
| Charset.AlphabetIsAllowed | crates/blackbag-core/src/generate.rs:307-330 | for every spec the alphabet is, character by character, what the switches ask for |
| Charset.AcceptableAre | crates/blackbag-core/src/generate.rs:349-362 | the strings that are counted and minted are exactly those of the asked length, of allowed characters only, with at least one of each group switched on |
| UniformDraw.SpanIsTight | crates/blackbag-core/src/generate.rs:159-176 | for every n of at least 2, n <= mask + 1 < 2n, and mask + 1 divides 2 to the 32 |
| UniformDraw.EveryValueHasEquallyManyWords | crates/blackbag-core/src/generate.rs:165-185 | every value below n is hit by exactly 2^32 / (mask + 1) of the 2^32 words |
| UniformDraw.DrawWithinIsFirst | crates/blackbag-core/src/generate.rs:177-184 | the result is the first masked draw in range; a malfunction means that every allowed draw was out of range |
| UniformDraw.UniformBelow | crates/blackbag-core/src/generate.rs:165-185 | the masked loop draws exactly what the drawing function says of the tape, and leaves the same words; an empty range is an error, and a range of one draws nothing |
| UniformDraw.DrawIsFirstInRange | crates/blackbag-core/src/generate.rs:165-185 | what is drawn is the first of at most 256 masked words that is in range, and just the words up to it are gone; there is no value only when none of them is in range |
| UniformDraw.Rng.NextU32 | crates/blackbag-core/src/generate.rs:178-178 | one word off the tape |
| Password.Password | crates/blackbag-core/src/generate.rs:618-636 | a bad spec is refused without drawing, with its own error; a minted password has the asked length, only allowed characters and at least one of each group switched on, and is the one the tape spells; otherwise the draws failed or all attempts missed a class |
| Password.FillScratch | crates/blackbag-core/src/generate.rs:622-626 | fills the buffer in place with one independent draw per byte |
| Password.MintingIsUniform | crates/blackbag-core/src/generate.rs:618-636 | with redraws until accepted, any two accepted index strings come from equally many tapes of every length |
| Password.PasswordIsUniform | crates/blackbag-core/src/generate.rs:618-636 | any two acceptable passwords of a spec are minted by equally many tapes of every length |
| Password.ReachesEveryAcceptableString | crates/blackbag-core/src/generate.rs:618-636 | every acceptable password is minted by some tape |
| Password.MintIsFirstAccepted | crates/blackbag-core/src/generate.rs:618-636 | what is minted is the first accepted one of the strings the draws spell one after another, and luck has run out only when as many as are allowed were all turned down |
| Password.AtMostAThousand | crates/blackbag-core/src/generate.rs:618-636 | for a password that is at most 1000 strings |
| Passphrase.Passphrase | crates/blackbag-core/src/generate.rs:639-675 | refused exactly for no words, more than 64 or a control character as separator, and then nothing is drawn; otherwise it succeeds exactly when the tape has a word for each word asked for, uses just those, and gives the words at their low nine bits joined by the separator |
| Passphrase.DrawPicks | crates/blackbag-core/src/generate.rs:645-648 | one index for each of the next words of tape, and failure only when the tape ends |
| Passphrase.NoDrawIsRejected | crates/blackbag-core/src/generate.rs:56-60 | with 512 words every draw is accepted at once |
| Passphrase.Assemble | crates/blackbag-core/src/generate.rs:650-674 | writes stay in bounds, the cursor ends exactly at the precomputed total, and the buffer is the joined phrase |
| Passphrase.CopyInto | crates/blackbag-core/src/generate.rs:657-671 | copying one word in place changes nothing before the cursor and upper-cases only its first letter |
| Passphrase.PhraseLength | crates/blackbag-core/src/generate.rs:650-655 | the precomputed total is the length of the joined phrase |
| Passphrase.PhraseDeterminesPicks | crates/blackbag-core/src/generate.rs:548-578 | for a decodable list and separator, equal phrases come from equal picks |
| Passphrase.DifferentPicksDifferentPhrases | crates/blackbag-core/src/generate.rs:548-578 | different picks give different phrases, capitalised or not, when the separator is not an ASCII letter or the list is prefix free |
| Passphrase.DressIs | crates/blackbag-core/src/generate.rs:657-671 | capitalising makes the first letter a capital and changes nothing else |
| Passphrase.PhraseFront | crates/blackbag-core/src/generate.rs:657-671 | a phrase is its first word, and then the separator and the phrase of the other words |
| PhraseEntropy.PhraseEntropyIsExact | crates/blackbag-core/src/generate.rs:552-578 | the number of distinct phrases of a spec is exactly 2 to the 9 per word |
| PhraseEntropy.PassphraseIsUniform | crates/blackbag-core/src/generate.rs:639-675 | any two phrases of a spec are minted by equally many tapes of every length |
| PhraseEntropy.MintedExactly | crates/blackbag-core/src/generate.rs:639-675 | the phrases counted are exactly those that tapes of one word a pick mint |
| EmbeddedWords.ListIsPrefixFree | crates/blackbag-core/src/generate.rs:53-130 | the embedded list has 512 distinct lower-case words, none of which begins another |
| EmbeddedWords.EveryPhraseIsExact | crates/blackbag-core/src/generate.rs:548-578 | with that list, for every separator, exactly 2 to the 9 per word distinct phrases, each as likely as every other |
| Csv.ParseCsv | crates/blackbag-cli/src/import.rs:448-515 | the character loop is the reader automaton, and fails exactly on an unterminated quote |
| Csv.ScanUndoesPrint | crates/blackbag-cli/src/import.rs:454-515 | rows of at least one cell, printed with any one of LF, CRLF or CR, scan back to themselves without trailing all-empty rows |
| Csv.ParseUndoesPrint | crates/blackbag-cli/src/import.rs:448-524 | parsing undoes printing if and only if the text does not begin with U+FEFF |
| Csv.LastRowNeedsNoEnd | crates/blackbag-cli/src/import.rs:503-506 | a last row without a line end is read like any other, if and only if the text does not begin with U+FEFF |
| Csv.OpenQuoteIsRefused | crates/blackbag-cli/src/import.rs:500-502 | a quote that opens the last cell and is never closed is an error, whatever stands before it |
| CsvReading.AnyWritingReads | crates/blackbag-cli/src/import.rs:448-515 | however a table is written, quoted or not, with quotes inside bare cells, text after closing quotes and any mixture of line ends, its rows are read, and one U+FEFF at the start is passed over |
| CsvReading.RefusedExactly | crates/blackbag-cli/src/import.rs:500-502 | a text is refused if and only if no table is written so, and then a quote is open at its end |
| MetaBlock.MetaEscape | crates/blackbag-cli/src/import.rs:683-694 | the loop computes the escaping that UnescapeUndoesEscape inverts and EscapeIsOneLine describes |
| MetaBlock.MetaUnescape | crates/blackbag-cli/src/import.rs:699-719 | the loop is the unescaping that UnescapeUndoesEscape inverts, lone and unknown escapes included |
| MetaBlock.UnescapeUndoesEscape | crates/blackbag-cli/src/import.rs:683-719 | unescaping undoes escaping for every value |
| MetaBlock.EscapeIsOneLine | crates/blackbag-cli/src/import.rs:675-694 | an escaped value holds no line break, so it cannot forge a directive |
| MetaBlock.ParseKindUndoesText | crates/blackbag-cli/src/import.rs:1226-1228 | every kind's printed name parses back to that kind |
| MetaBlock.SplitMeta | crates/blackbag-cli/src/import.rs:724-745 | the line loop reads exactly the directives after the first marker and keeps the notes before it |
| MetaBlock.ParseKindExactly | crates/blackbag-core/src/record.rs:177-197 | a text names a kind exactly when it is that kind in any case |
| MetaBlock.UnescapedValuesStay | crates/blackbag-cli/src/import.rs:696-719 | a value that was never escaped is read as it is if and only if no backslash in it stands before a backslash, n or r |
| MetaRoundTrip.CellReads | crates/blackbag-cli/src/import.rs:724-745 | for clean names, what a printed block reads back as, values losing exactly their trailing white space other than line breaks |
| MetaRoundTrip.SplitUndoesPrint | crates/blackbag-cli/src/import.rs:1221-1243 | kind, attributes, secrets and notes all come back in order if and only if names hold no line feed and no ": ", values are non-empty and end in no white space but a line break, and the notes hold no marker nor, before a block, trailing white space |
| Text.FromUtf8Exactly | crates/blackbag-core/src/record.rs:66-68 | a secret has a text exactly when its bytes are that text's encoding |
| Text.PrecedesExactly | crates/blackbag-core/src/hygiene.rs:599-614 | one text precedes another exactly when it is a proper beginning of it or has the smaller character where the two part |
| Base32.DecodeUndoesEncode | crates/blackbag-cli/src/import.rs:1246-1246 | every byte string is read back from its unpadded base 32 |
| Base32.CopiedSecretReads | crates/blackbag-core/src/session.rs:634-647 | however a printed secret is grouped, cased and padded, its bytes are read, and only the empty one is refused |
| Base32.ReadSecretExactly | crates/blackbag-core/src/session.rs:634-647 | a text is refused as empty exactly when it is all white space, hyphens and padding, and read exactly when the rest is letters of the alphabet in either case, as five eighths of a byte a letter |
| Base32.VectorFo | crates/blackbag-cli/src/import.rs:1246-1246 | the bits go highest first into the letters and the last letter is filled up with zeros, as in the test vectors of section 10 of RFC 4648 |
| Otpauth.PercentEncode | crates/blackbag-cli/src/import.rs:1292-1303 | the byte loop computes the encoding that PercentDecodeUndoesEncode inverts |
| Otpauth.PercentDecode | crates/blackbag-core/src/session.rs:649-667 | the byte loop computes the tolerant decoding: a lone or broken escape stays, a plus is a space, and bytes that are no UTF-8 are replaced |
| Otpauth.PercentDecodeUndoesEncode | crates/blackbag-cli/src/import.rs:1292-1303 | decoding undoes encoding for every text |
| Otpauth.PercentIs | crates/blackbag-cli/src/import.rs:1292-1303 | exactly ASCII letters, digits and six marks stay as they are, and anything else becomes a percent sign and two capital digits |
| Otpauth.NumberReads | crates/blackbag-core/src/session.rs:597-606 | every number a field can hold is read back from its decimal digits |
| Otpauth.ParseOtpauth | crates/blackbag-core/src/session.rs:571-632 | the parameter loop, later parameters replacing earlier ones, and the refusals in their order |
| Otpauth.Render | crates/blackbag-cli/src/import.rs:1244-1265 | one address: label, secret, digits, period, algorithm, and the issuer when there is one |
| OtpauthRoundTrip.ParseUndoesRender | crates/blackbag-core/src/session.rs:571-632 | whatever the settings, seed, title and user name, what a printed address reads back as: refused exactly for an empty seed, digits other than 6 to 8 or a zero period, and otherwise the same seed, digits, period and algorithm, with issuer and account as the label leaves them |
| OtpauthRoundTrip.ConfigComesBack | crates/blackbag-cli/src/import.rs:1248-1262 | the settings come back unchanged if and only if the skew is 1, the issuer is there and holds no colon, and the account has no white space around it or is absent with no user name to stand in for it |
| OtpauthRoundTrip.RenderedIsTidy | crates/blackbag-cli/src/import.rs:619-624 | a printed address is no blank cell, loses nothing to trimming and is told from a bare secret |
| OtpauthRoundTrip.ReadAgain | crates/blackbag-core/src/session.rs:571-632 | whatever address a second factor was read from, its settings are within limits, and printed and read again it is the same if and only if it has a seed, an issuer without a colon, and an account or no user name to stand in for one |
| OtpauthReading.AnyEncodingReads | crates/blackbag-core/src/session.rs:649-667 | a text is read however its bytes are written: as themselves, as a plus sign for a space, or escaped with digits of either case |
| OtpauthReading.BrokenEscapeStays | crates/blackbag-core/src/session.rs:654-664 | a percent sign that two hexadecimal digits do not follow stays |
| OtpauthReading.NumberReadsExactly | crates/blackbag-core/src/session.rs:597-606 | a numeral, with a plus sign and leading noughts or not, is read if and only if it is within bounds |
| OtpauthReading.OnlyNumeralsRead | crates/blackbag-core/src/session.rs:597-606 | nothing else is read as a number |
| OtpauthReading.ParametersRead | crates/blackbag-core/src/session.rs:593-617 | whatever order and case, the last value of each parameter counts, and of digits and period the last number in range; unknown parameters change nothing |
| OtpauthReading.LastIsLast | crates/blackbag-core/src/session.rs:593-617 | that value is one of the parameter, counts, and no later one does; there is none exactly when none counts |
| OtpauthReading.LabelReads | crates/blackbag-core/src/session.rs:581-586 | a label is an account, with an issuer before the first colon if there is one, both trimmed |
| OtpauthReading.SchemesRead | crates/blackbag-core/src/session.rs:571-575 | both spellings of the scheme are read alike, and nothing else is taken for an address |
| KeePass.UndefangUndoesDefang | crates/blackbag-cli/src/import.rs:754-776 | a defanged cell starts with none of the six formula characters and is changed only if it did, and undefanging restores it if and only if it does not begin with an apostrophe before one of them |
| KeePass.PrimaryFieldsAre | crates/blackbag-cli/src/import.rs:647-661 | which kinds keep their main secret under which name |
| KeePass.MetaFor | crates/blackbag-cli/src/import.rs:1221-1239 | which attributes and fields go into the block, in order |
| KeePass.TotpFor | crates/blackbag-cli/src/import.rs:1244-1265 | a second factor is printed exactly when both its settings and its seed are there |
| KeePass.LineFor | crates/blackbag-cli/src/import.rs:1189-1287 | one record's ten cells, defanged where they should be and quoted where they must be, joined by commas |
| KeePass.RenderKeepassxc | crates/blackbag-cli/src/import.rs:1187-1290 | the header and one line for each record |
| KeePass.RenderedParses | crates/blackbag-cli/src/import.rs:1187-1290 | whatever the records hold, the rendered text parses to the header and exactly one row of cells for each record |
| KeePassImport.ImportKeepassxc | crates/blackbag-cli/src/import.rs:957-1019 | the three refusals, blank rows dropped, one record rebuilt from each remaining row, and of those exactly the ones within limits kept; what is reported of each row, second factors included |
| KeePassImport.AttachTotp | crates/blackbag-cli/src/import.rs:618-643 | a blank cell attaches nothing, an address its own settings, a bare secret the defaults under the record's title and user name; what cannot be read is told and leaves the record alone |
| KeePassImport.ImportRows | crates/blackbag-cli/src/import.rs:961-1017 | a row whose one-time password cannot be read is reported and kept, one beyond the limits reported and skipped |
| KeePassImport.NonBlankRows | crates/blackbag-cli/src/import.rs:554-565 | only rows with some cell that is not white space are kept |
| KeePassImport.HeaderColumns | crates/blackbag-cli/src/import.rs:532-541 | each column the importer asks for is found under our own header, case folding notwithstanding |
| KeePassImport.ColumnsComeBack | crates/blackbag-cli/src/import.rs:957-978 | column by column: password, one-time code and group always come back, title, username and URL if and only if they are not mistaken for defanged cells, notes and block if and only if they also split cleanly |
| KeePassParts.GroupComesBack | crates/blackbag-cli/src/import.rs:1003-1008 | a record's tags come back if and only if each is non-empty, already trimmed, without a slash and not Root |
| KeePassParts.SetKeepsDistinct | crates/blackbag-core/src/record.rs:320-338 | setting an attribute or a field never makes two of one name |
| KeePassParts.ImportedNamesAreDistinct | crates/blackbag-cli/src/import.rs:976-1011 | no row, whatever it holds, gives a record two attributes or two fields of one name |
| KeePassParts.AttributesComeBack | crates/blackbag-cli/src/import.rs:997-999 | every attribute name answers as before, whether it travelled in a column or in the block, if and only if none is called account and each value is non-empty and already trimmed |
| KeePassParts.TotpComesBack | crates/blackbag-cli/src/import.rs:1009-1011 | from a record's own cell the seed and the printed settings are attached if and only if the seed is not empty and the settings are there and within limits; it is reported exactly when printed and refused |
| KeePassParts.FieldsComeBack | crates/blackbag-cli/src/import.rs:1000-1011 | every field name, the seed's too, answers with the same bytes as before if and only if every other field is some text, a seed can be read back, and the Password column holds the field that belongs there or nothing |
| KeePassParts.FirstFieldMoves | crates/blackbag-cli/src/import.rs:1207-1215 | without the field that belongs in the Password column, that field comes back with the bytes of the first field if and only if those are some text |
| KeePassParts.SeedComesBack | crates/blackbag-cli/src/import.rs:1235-1264 | a seed comes back if and only if it is not empty and has settings within limits, and is lost otherwise |
| KeePassParts.SeedTurnsIntoPassword | crates/blackbag-cli/src/import.rs:1207-1215 | a record of nothing but a seed of text that comes back with that seed as its password |
| KeePassRoundTrip.ImportReadsExport | crates/blackbag-cli/src/import.rs:957-1019 | importing our own export reads each record's own cells, in order, and no other row |
| KeePassRoundTrip.RecordComesBack | crates/blackbag-cli/src/import.rs:957-1011 | a record whose columns can be read back and whose names are distinct comes back with its kind, title, tags, notes, second factor, attributes and fields if and only if it is portable |
| KeePassRoundTrip.SampleComesBack | crates/blackbag-cli/src/import.rs:1485-1507 | the login with a second factor that the program's own test exports comes back whole with any password and any seed |
| KeePassRoundTrip.LimitsComeBack | crates/blackbag-core/src/record.rs:390-428 | a record that comes back whole is within the vault's limits if and only if the original is |
| KeePassRoundTrip.ExportComesBack | crates/blackbag-cli/src/import.rs:1187-1290 | a whole export of such records comes back record by record, in order, if and only if each is portable and within limits, and then nothing is reported |
| KeePassReading.TimesAreNamed | crates/blackbag-cli/src/import.rs:1271-1287 | the two times stand under their own column names |
| KeePassReading.PositionExactly | crates/blackbag-cli/src/import.rs:532-541 | a column is the first whose name matches, white space around it and case aside |
| KeePassReading.CellsRead | crates/blackbag-cli/src/import.rs:532-541 | a cell is the one under that name, and empty in a row too short for it |
| KeePassReading.RefusedExactly | crates/blackbag-cli/src/import.rs:554-591 | a file is refused exactly when it is no CSV, has no rows, or its header names neither a title nor a password |
| KeePassReading.BlankRowsGo | crates/blackbag-cli/src/import.rs:560-563 | of the rows exactly those with a character other than white space are kept, in order |
| KeePassReading.RowsAreReported | crates/blackbag-cli/src/import.rs:1009-1015 | a row is reported under its number, counted from 2 without blank rows, exactly when its second factor cannot be read, and exactly when its record is beyond the limits |
| KeePassReading.RowsAreImported | crates/blackbag-cli/src/import.rs:961-1018 | the imported records are those of the rows within limits, each and in order |
| KeePassReading.LimitsExactly | crates/blackbag-core/src/record.rs:390-428 | a record is within limits if and only if none of the sizes is over its number of bytes and the second factor has 6 to 8 digits and a period |
| KeePassReading.BareRowIsNote | crates/blackbag-cli/src/import.rs:985-992 | a row without user name, password, address and further secrets is a note, whose body is the notes just as they are |
| KeePassReading.HostReads | crates/blackbag-cli/src/import.rs:778-785 | the host of a web address is read without user, port, path and a leading www. |
| KeePassReading.UntitledLoginIsItsHost | crates/blackbag-cli/src/import.rs:787-794 | a login with a blank title is called after the host of its address |
| AuditLog.PreimageIdentifiesContent | crates/blackbag-core/src/audit.rs:145-161 | two entries feed the digest the same bytes if and only if they agree in all nine parts, an absent text counting as empty |
| AuditLog.VerdictIsUnique | crates/blackbag-core/src/audit.rs:321-359 | what a verdict means leaves one verdict for each list and head |
| AuditLog.Log.Verify | crates/blackbag-core/src/audit.rs:321-359 | Broken at the least failing index and only if there is one; otherwise Truncated exactly when a wanted head is neither the current one nor any entry's digest |
| AuditLog.Log.Append | crates/blackbag-core/src/audit.rs:188-240 | one chained entry is added that holds the request word for word, those before it stay, and the head file changes only if its write lands |
| AuditLog.Log.WriteHead | crates/blackbag-core/src/audit.rs:250-266 | the head file holds the head |
| AuditLog.Log.RecordedHead | crates/blackbag-core/src/audit.rs:274-285 | the part of the head file that starts and ends with no white space and has nothing but white space around it; none exactly when the file is missing or all white space |
| AuditLog.Log.Head | crates/blackbag-core/src/audit.rs:307-313 | the last digest, or genesis |
| AuditLog.SharedDigestSharesHistory | crates/blackbag-core/src/audit.rs:321-344 | two valid chains that share a digest agree on everything up to it, or show the hash broken |
| AuditLog.TamperEvidence | crates/blackbag-core/src/audit.rs:321-359 | a list that verifies Intact against a head recorded from a chain begins with that chain up to the head, or shows the hash broken; and a valid list that begins so is Intact |
| AuditLog.TruncationIsReported | crates/blackbag-core/src/audit.rs:345-359 | any list cut before the recorded head is reported truncated, or shows the hash broken |
| AuditLog.BlankEditsAreInvisible | crates/blackbag-core/src/audit.rs:154-158 | exchanging absent and empty optional texts changes no verdict |
| AuditLog.RunInvariant | crates/blackbag-core/src/audit.rs:188-240 | after any run the log is a valid chain with one entry an append, and the head file records the last append whose head write landed |
| AuditLog.EveryRunVerifiesIntact | crates/blackbag-core/src/audit.rs:188-285 | every run in which any head writes are lost verifies Intact against the head last recorded |
| AuditLog.RunIsProtected | crates/blackbag-core/src/audit.rs:188-359 | whatever replaces the log of a run, an Intact verdict means it begins with the run's entries up to the last landed head, or the hash is broken |
| AuditLog.PreimageReadsBack | crates/blackbag-core/src/audit.rs:145-161 | what is hashed are nine parts, each after its length as eight big-endian bytes, from which they can be read back in order |
| AuditLog.RunRecordsRequests | crates/blackbag-core/src/audit.rs:188-240 | after any run entry k holds the time, caller, surface, decision, subject and detail of request k |
| ConsentDesk.Desk.Register | crates/blackbag-core/src/consent.rs:311-355 | expiry, then every refusal in order, then the frozen request is appended |
| ConsentDesk.Desk.Approve | crates/blackbag-core/src/consent.rs:369-423 | every refusal, the counted wrong proof, the third one refusing for good, and the approved choice |
| ConsentDesk.Desk.SetStateOf | crates/blackbag-core/src/consent.rs:440-449 | the first ceremony of that nonce gets the state, whatever state it had |
| ConsentDesk.Desk.Refuse | crates/blackbag-core/src/consent.rs:426-428 | refuses the named ceremony |
| ConsentDesk.Desk.Defer | crates/blackbag-core/src/consent.rs:436-438 | defers the named ceremony |
| ConsentDesk.Desk.TakeAnswered | crates/blackbag-core/src/consent.rs:455-473 | removes and hands over the first answered ceremony this collector may collect, or nothing |
| ConsentDesk.Desk.CurrentSummaries | crates/blackbag-core/src/consent.rs:487-493 | the ceremonies that are awaiting a human and not expired |
| ConsentDesk.Desk.ExpireAll | crates/blackbag-core/src/consent.rs:511-523 | lapses overdue ceremonies and drops those overdue twice over |
| ConsentDesk.Desk.ClearAll | crates/blackbag-core/src/consent.rs:505-507 | empties the desk |
| ConsentRuns.ReachableIsSound | crates/blackbag-core/src/consent.rs:311-355 | in every reachable desk at most 8 are pending, their nonces are distinct, and an awaiting one has fewer than 3 attempts |
| ConsentRuns.ApproveSucceedsExactly | crates/blackbag-core/src/consent.rs:369-423 | an approval with a true proof succeeds exactly for a ceremony on screen and a choice it recorded |
| ConsentRuns.OnScreenExactlyWhenApprovable | crates/blackbag-core/src/consent.rs:487-493 | a nonce is shown at a time if and only if some approval at that time would succeed |
| ConsentLives.StepActsAlone | crates/blackbag-core/src/consent.rs:311-523 | after a request the desk holds exactly what the request makes of each pending ceremony by itself, and the one it registers |
| ConsentLives.DeskIsItsLives | crates/blackbag-core/src/consent.rs:311-523 | in every run, what is pending is exactly what is left of each registration when the requests treat it as if it were alone |
| ConsentLives.OneLifePerNonce | crates/blackbag-core/src/consent.rs:322-324 | of one nonce at most one registration is pending |
| ConsentLives.StateIsLastAnswer | crates/blackbag-core/src/consent.rs:369-523 | a pending registration awaits a human if and only if no request has answered it, and is approved, refused or deferred as it is if and only if that is its last answer: a refusal or deferral at any time, otherwise the first of lapse, third wrong proof and approval in time |
| ConsentLives.PendingExactlyWhenSpared | crates/blackbag-core/src/consent.rs:455-523 | a registration is still pending if and only if no request since cleared the desk, came 240 s after it or later, or took its answer for someone who may have it |
| ConsentLives.ApprovesExactly | crates/blackbag-core/src/consent.rs:369-423 | an approval of a pending registration succeeds if and only if it has a true proof and a recorded choice, comes in time, and nothing has answered before |
| ConsentLives.ApprovalSurvivesExactly | crates/blackbag-core/src/consent.rs:440-523 | an uncollected approval stands if and only if no request since cleared the desk, took it, turned it away or came after its slot ran out |
| ConsentLives.ApprovalCanBeOverruled | crates/blackbag-core/src/consent.rs:440-449 | a run in which an approved, uncollected ceremony becomes deferred |
| ConsentLives.ExpiringFreesTheSlot | crates/blackbag-core/src/consent.rs:511-523 | whatever is left after an expiring operation was registered less than 240 seconds before it |
| ConsentLives.TakeDeliversExactly | crates/blackbag-core/src/consent.rs:455-473 | a request to take is answered if and only if a young, answered ceremony of that nonce is there that the collector may have, and with that one |
| ConsentLives.DeliveredExactly | crates/blackbag-core/src/consent.rs:455-473 | in every run, what is handed over is exactly such a registration, its owner's if it has one |
| ConsentLives.ApprovedDelivery | crates/blackbag-core/src/consent.rs:369-473 | a ceremony delivered as approved was approved by exactly one call with a true proof, in time and after fewer than three wrong proofs, with a choice frozen at registration or the empty one when there were none, and nothing turned it away |
| ConsentLives.DeliveredAtMostOnce | crates/blackbag-core/src/consent.rs:455-473 | between two deliveries of one nonce it was registered again |
| ConsentAnswers.RegistersExactly | crates/blackbag-core/src/consent.rs:311-355 | a request is registered if and only if fewer than 8 wait, its nonce has 32 bytes and is unused, it has something to sign with and is bound once; what it is refused for is so |
| ConsentAnswers.ApproveAnswers | crates/blackbag-core/src/consent.rs:369-423 | which refusal an approval gets, each with its exact condition |
| ConsentAnswers.AnswersWhenNamed | crates/blackbag-core/src/consent.rs:426-449 | nothing is waiting exactly when no ceremony of that nonce is left; refusing or deferring one that is left succeeds |
| ConsentAnswers.SummaryTells | crates/blackbag-core/src/consent.rs:226-252 | every line of the prompt is the frozen request's own, and the account is the user named or else the first choice |
| ConsentAnswers.DeskKeepsOrder | crates/blackbag-core/src/consent.rs:311-523 | in every run the desk keeps its ceremonies in the order of their registration |
| ConsentAnswers.OldestFirst | crates/blackbag-core/src/consent.rs:482-493 | in every run what is shown is shown oldest first |
| SplitParser.SplitParser.Feed | desktop/src/datastream.cpp:23-43 | one chunk emits exactly the records it completes and holds the rest, also without a marker |
| SplitParser.SplitParser.Finish | desktop/src/datastream.cpp:45-53 | a non-empty tail is a record, and the buffer is empty |
| SplitParser.SplitParser.Reset | desktop/src/datastream.cpp:65-70 | the buffer is empty |
| SplitParser.SplitParser.Run | desktop/src/datastream.cpp:23-53 | feeding any chunks and finishing emits the records of the whole stream |
| SplitParser.CutAnywhere | desktop/src/datastream.cpp:33-42 | a stream cut at any place, inside a marker too, completes and holds the same |
| SplitParser.PiecesAreTheLeftmostCut | desktop/src/datastream.cpp:33-41 | the pieces are the one way to cut the stream at leftmost markers that do not overlap |
| SplitParser.RecordsAreCompletedAndHeld | desktop/src/datastream.cpp:45-53 | all records are the completed ones and the held tail when there is one |
| BackupLog.Log.Push | crates/blackbag-core/src/backup.rs:164-182 | replace, add, sort newest first, and trim the vault of the newest entry |
| BackupLog.Log.RetainFirst | crates/blackbag-core/src/backup.rs:172-181 | the counting retain keeps the first 8 of one vault and everything of the others |
| BackupLog.Log.BackedUpThrough | crates/blackbag-core/src/backup.rs:199-201 | the highest epoch among the vault's copies still present at their size, and none exactly when no copy is |
| BackupLog.PushActsPerVault | crates/blackbag-core/src/backup.rs:164-182 | for any log and any clock, each vault's entries change on their own, and only the vault of the newest entry is cut to 8 |
| BackupLog.LogRefinesHistory | crates/blackbag-core/src/backup.rs:164-182 | with a clock that runs forward, the log of a vault is the newest 8 of its whole history without repeated paths |
| BackupLog.OtherVaultsStay | crates/blackbag-core/src/backup.rs:164-182 | a push for another vault leaves a vault's entries alone |
| BackupLog.BoundKeptExactly | crates/blackbag-core/src/backup.rs:170-181 | whatever the clock, a vault within its bound stays within it if and only if the newest entry is its own or it had room |
| BackupLog.ClockSetBackHasNoBound | crates/blackbag-core/src/backup.rs:170-181 | for every n there is a run, its clock going back, after which one vault keeps n entries |
| BackupLog.BackedUpIsHighest | crates/blackbag-core/src/backup.rs:185-201 | the reported epoch is the highest among the vault's copies still present at their size, and there is none exactly when no copy is |
| BackupLog.BackedUpFromHistory | crates/blackbag-core/src/backup.rs:164-201 | after any forward run it is the highest among the newest 8 of the history still present |
| BackupLog.StateExactly | crates/blackbag-core/src/backup.rs:86-92 | a copy is present exactly when a regular file of its length is at its path, missing when nothing is, changed otherwise |
| BackupLog.LiveForAre | crates/blackbag-core/src/backup.rs:184-193 | exactly the vault's copies still there, each as often as logged, the highest epoch first |
| StableSort.SortBySorts | crates/blackbag-core/src/backup.rs:170-170 | the sort orders and permutes |
| StableSort.FilterSort | crates/blackbag-core/src/backup.rs:185-193 | the sort is stable: what is kept sorts alone as it sorts in company |
| BreachMatch.Candidates | crates/blackbag-core/src/breach.rs:129-146 | one candidate for each checked field, in order, with the first five characters of its hash |
| BreachMatch.CollectBuckets | crates/blackbag-core/src/breach.rs:231-231 | a later bucket of the same prefix replaces an earlier one |
| BreachMatch.MatchRanges | crates/blackbag-core/src/breach.rs:226-266 | the report and the stored map are those of judging every checked field by the bucket of its prefix |
| BreachMatch.EveryCandidateIsCounted | crates/blackbag-core/src/breach.rs:240-251 | checked and unchecked add up to the candidates |
| BreachMatch.SplitLookupIsWholeLookup | crates/blackbag-core/src/breach.rs:226-266 | with buckets that are the corpus restricted to their prefixes, the exposed are exactly those whose whole hash is in the corpus, with its count, among the fields whose bucket arrived |
| BreachMatch.FullFetchIsWholeLookup | crates/blackbag-core/src/breach.rs:226-266 | with every bucket there, nothing is unchecked and the result is the whole-hash lookup |
| BreachMatch.DecoyChangesNothing | crates/blackbag-core/src/breach.rs:159-165 | a bucket nobody needs changes neither report nor map, wherever it stands |
| BreachMatch.OrderChangesNothing | crates/blackbag-core/src/breach.rs:231-231 | nor does the order of buckets with distinct prefixes |
| BreachMatch.StoredIsLatestVerdict | crates/blackbag-core/src/breach.rs:217-266 | over any sequence of checks on distinct keys, what is stored is the verdict of the latest check whose bucket arrived, absent if it did not find the value or none ever arrived, and nothing else is stored |
| BreachMatch.ItemsCover | crates/blackbag-core/src/breach.rs:129-146 | exactly the fields called password, passphrase or pin are looked at, each once and in order |
| BreachFetch.DistinctPrefixesAre | crates/blackbag-core/src/breach.rs:150-157 | strictly ascending, and exactly the candidates' prefixes |
| BreachFetch.Target | crates/blackbag-core/src/breach.rs:172-172 | the least positive multiple of 8 that fits the real prefixes |
| BreachFetch.PaddedPrefixes | crates/blackbag-core/src/breach.rs:166-189 | the real prefixes and the first fresh decoys drawn, shuffled |
| BreachFetch.PaddingHides | crates/blackbag-core/src/breach.rs:166-189 | every real prefix is kept, none is repeated, only drawn decoys are added, and the number of requests is that multiple of 8 |
| BreachFetch.PaddedCheckIsPlainCheck | crates/blackbag-core/src/breach.rs:159-189 | sending decoys, in any order and with any failures, tells what sending the real prefixes alone would |
| RelyingParty.EndsAtALabel | crates/blackbag-core/src/passkey.rs:253-257 | the string test for a dot and the suffix is exactly the rule about labels |
| RelyingParty.SuffixRuleIsLabelRule | crates/blackbag-core/src/passkey.rs:245-286 | for a suffix list that answers with names at or above the host, a name is accepted if and only if it is the host, or has a registrable domain and lies between the host and the host's registrable domain |
| RelyingParty.AcceptedIdBelongsToOrigin | crates/blackbag-core/src/passkey.rs:177-183 | an accepted id is the origin's host or lies between it and its registrable domain |
| RelyingParty.AcceptedSuffixIsRegistrable | crates/blackbag-core/src/passkey.rs:199-214 | an accepted id other than the host is registrable unless it reads as an IP address |
| RelyingParty.OnlySecureOriginsHaveHosts | crates/blackbag-core/src/passkey.rs:293-324 | only https, or http with localhost as last label, has a host, and it is a non-empty name without a final dot that is no IP address |
| RelyingParty.OriginReadsBack | crates/blackbag-core/src/passkey.rs:293-324 | whatever its scheme, path, case and final dots, a written origin has a host if and only if the name is not empty, no IP address, and the scheme is https, or http and the last label localhost; and then it is the name, less a port if that is digits |
| RelyingParty.CanonicalIs | crates/blackbag-core/src/passkey.rs:305-305 | a canonical name is the name less its final dots, capitals made small |
| RelyingParty.BracketedOrigin | crates/blackbag-core/src/passkey.rs:300-318 | an address in brackets has no host, but with a port it has one, port and all |
| RelyingParty.RegistrableExactly | crates/blackbag-core/src/passkey.rs:199-214 | registrable if and only if not empty, no IP address, and with localhost as last label or a registrable domain by the list |
| Hygiene.RecordHandles | crates/blackbag-core/src/hygiene.rs:579-597 | the loop collects the handles that HandlesAre and HandlesDiffer describe |
| Hygiene.HandlesAre | crates/blackbag-core/src/hygiene.rs:574-597 | a handle is collected exactly when some non-empty field has it |
| Hygiene.HandlesDiffer | crates/blackbag-core/src/hygiene.rs:588-590 | no handle is collected twice |
| Hygiene.ClusterMap | crates/blackbag-core/src/hygiene.rs:600-614 | the map built in place holds for each handle the ids that have it, once each in order, and no empty group; its keys are listed by field, then handle |
| Hygiene.ReportClusters | crates/blackbag-core/src/hygiene.rs:497-505 | the groups of more than one, each once, by field, then handle |
| Hygiene.ClustersAreSharedGroups | crates/blackbag-core/src/hygiene.rs:497-505 | a group is reported exactly when two records of different ids share the handle, with exactly the ids that do, each once |
| Hygiene.FindingsAreWorstFirst | crates/blackbag-core/src/hygiene.rs:485-494 | no finding of a record stands before a worse one, reuse stands before all else, none is lost and none added |
| Hygiene.FindingsAre | crates/blackbag-core/src/hygiene.rs:385-402 | a record has a reuse finding for a handle exactly when another id has it, and it names all the others |
| Hygiene.ReuseIsMutual | crates/blackbag-core/src/hygiene.rs:385-402 | with distinct ids, one record is told of another if and only if they differ and share the handle, and then the other is told of it |
| Hygiene.FindingsMatchClusters | crates/blackbag-core/src/hygiene.rs:385-505 | with distinct ids, a record has a finding for a handle if and only if it is in that handle's reported cluster |
| Hygiene.Analyse | crates/blackbag-core/src/hygiene.rs:372-515 | one run: the reports that AllReported describes, the ordered clusters, and a score that tallies those reports, the costliest record first |
| Hygiene.ScoreOf | crates/blackbag-core/src/hygiene.rs:544-572 | the demerits are 5 high + 2 medium + low and also the sum of the contributions, which are a sorted permutation of the per-record totals |
| Hygiene.TotalIsSum | crates/blackbag-core/src/hygiene.rs:283-285 | weighing the counts by severity is adding up the records' demerits |
| Hygiene.SortKeepsSum | crates/blackbag-core/src/hygiene.rs:568-570 | sorting the contributions keeps their sum |
| Hygiene.HandlesInOrder | crates/blackbag-core/src/hygiene.rs:579-597 | handles stand in the order in which the fields first bring them |
| Hygiene.MembersInOrder | crates/blackbag-core/src/hygiene.rs:600-614 | the members of a group stand in the order in which the records first bring them |
| Hygiene.ClustersAreOrdered | crates/blackbag-core/src/hygiene.rs:497-505 | clusters are reported by field, and those of one field by handle, by the first character that differs |
| Hygiene.FindingsAreBySeverity | crates/blackbag-core/src/hygiene.rs:485-494 | a record's findings are its reuse findings, then the high, the medium and the low ones, each kind in the order it was made |
| Hygiene.ReusedInOrder | crates/blackbag-core/src/hygiene.rs:388-402 | reuse findings follow the order of the record's handles |
| Hygiene.AllReported | crates/blackbag-core/src/hygiene.rs:385-495 | exactly the records with a finding are reported, in order, each with its id and its findings worst first |
| Hygiene.TotalsAre | crates/blackbag-core/src/hygiene.rs:283-285 | a report contributes its id and five for each of the worst findings, two for each medium and one for each low one |

## Left out

- Cryptography: SHA-1, SHA-256, BLAKE3 handles and signatures are function parameters or absent.
- Floating point: probabilities are exact reals or integer counts; `log2`, the strength labels and the wording of figures are not modelled.
- `pin` and `strength_of_pin`: one uniform draw per digit, which would only add easy members.
- Password.Password: a tape that ends is an error of the model, since the operating system's generator does not end; the wiping of buffers is not modelled.
- KeePassImport.ImportKeepassxc: the wording of warnings and the kinds of import other than KeePassXC's are not modelled; times are carried as text.
- Base32.CopiedSecretReads: the base 32 library is not part of this model; its decoder is taken to be that of section 6 of RFC 4648, with what is left of the last letter dropped unread.
- KeePassRoundTrip.RecordComesBack: a record with a column that cannot be read back is not covered, since it can come back by luck, as when its notes spell out the very block that it loses; which columns can be read back is proved exactly in KeePassImport.ColumnsComeBack.
- AuditLog.Log.Append: file system errors, JSON lines, torn writes and the 128-byte limit on details are not modelled; a time is its RFC 3339 text.
- AuditLog.Log.RecordedHead: only ASCII white space is trimmed.
- ConsentDesk.Desk.Approve: whether a proof is right is an input; who asked and what is signed are opaque bytes and texts.
- SplitParser.SplitParser.Run: a marker changed in mid-stream, and slots that call back into the parser, are not modelled; a character stands for a UTF-16 unit.
- BackupLog.Log.Push: saving, loading and the offsite step are not modelled; presence is a map from path to size.
- BreachFetch.PaddedPrefixes: what the generator draws and the permutation of the shuffle are parameters; running out of draws is an error of the model.
- `parse_range`: line-by-line reading of a bucket's text is not modelled.
- RelyingParty.SuffixRuleIsLabelRule: the public suffix list and the parsing of IP addresses are parameters.
- Hygiene.Analyse: findings other than reuse (short or all-digit secrets, age, second factors, duplicate titles, breaches) enter as a list of severities for each record; titles and kinds are not carried.
- CTAP, vault storage, memory locking, policy, user interface and the other importers and exporters.
