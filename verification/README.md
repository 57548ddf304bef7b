# Verified model of Paranoid's hard core

Paranoid is a Rust library of security primitives and Postgres coordination primitives. This
project models the parts of it whose correctness is not visible from one function body, and proves
what they are for.

* **Portable queries.** Values are printed as Postgres literals and spliced into a SQL template by
  a one-pass scanner. `SqlGrammar` says what a template is, `SqlScanner` is the scanner,
  `SqlLiterals` the printer and `SqlLiteralParser` its inverse. `SqlStructure` and
  `SqlPreservation` prove when splicing keeps the lexical structure of the template, in both
  directions. `PortableQueries` is the query object callers use.
* **Schema migration.** `SchemaPlanner` plans, `SchemaMigration` is one migration in one
  transaction, and `SchemaMachine` runs any number of them at once, statement by statement, against
  a claim-or-lock row and a compare-and-set.
* **Admission.** `Admission` is the gate of one transaction with its cache and its savepoint stack,
  `AdmissionMachine` any number of transactions against epoch activations.
* **Mnemonic codec.** `MnemonicBits` is the accumulator, `MnemonicText` the words, `Mnemonic` the
  encoder and `MnemonicDecoding` the decoder. `Bits` and `BitGroups` are the bit strings all
  codecs are proved against.
* **Sortable identifiers.** `SortableIds` has ticks, order and windows, `Base32` the text form
  (section 6 of RFC 4648).
* **Envelopes, keysets, MACs, instance keys.** `Envelopes`, `Keysets`, `Tokens`, `InstanceKeys`.
* **Process lock.** `LockFiles` is the lock file as steps on inodes, `LockThreads` the owner and
  the heartbeat thread over the shared lease state.
* **Check expressions.** `CheckExpressions` is the normaliser used to compare catalog constraints.

Loops and in-place updates of the library are methods over arrays and fields, proved against
functions on sequences; protocols are machines whose steps are single statements or system calls,
and their theorems hold for every sequence of steps.

What comes from outside is a parameter: the statements a database accepts and what its checks
return, random bytes and their failure, moments in time, the mnemonic word table and digest, the
ciphers, key derivation and keyed hashes. Where a theorem needs one of these to behave, the
requirement is a named predicate (`GoodTable`, `Sound`, `RejectsAmong`, `GoodHashes`); for the
ciphers `RotationIsPossible` shows that it can be met. Nothing is assumed of key derivation: the
results about derived keys end in "or the lane collides", with both inputs named.

Some results are about where a promise stops, or where the code and its comments differ:

* A cached admission implies the lock exactly in a transaction that has not failed, or whose lock
  was also taken below the savepoint the failure aborted (`CachedMeansAdmitted`,
  `FailedTransactionKeepsStaleEntry`); a failed transaction commits nothing.
* Printed literals determine their value exactly up to casts of hex text to `bytea`
  (`PrintAlikeExactly`), for type names with balanced brackets and quotes and no comma outside
  them; each of these is needed (`CommaInTypeIsAmbiguous`, `UnbalancedTypeIsAmbiguous`,
  `OpenQuoteInTypeIsAmbiguous`).
* Instance keys built from unvalidated labels determine their parts exactly when no label reads as
  several entries (`KeyDeterminesParts`, `EntryLabelCollides`).
* The documentation of the check normaliser speaks of a single layer of redundant parentheses
  (src/db/schema.rs:3-6); the code strips every layer, and so does the model.
* The comment on the float printer puts the value in parentheses (src/db/simple_query.rs:155); the
  code does not, and neither does the model.

Where a specification function says what a loop computes, a further theorem says what that function
is without using it: `MigratesExactly`, `PlansExactly`, `SpelledOutExactly`, `DecryptsExactly`,
`DisguisedExactly`, `MacExactly`.

## Model

| member | source | states |
|---|---|---|
| `SqlGrammar.SegmentsIsGrammar` | src/db/portable_query_template.rs:68-189 | For every valid UTF-8 template, the scan succeeds with a list of segments exactly when the text obeys the declarative grammar of strings, escape strings, quoted identifiers, line comments, nested block comments, placeholders and single characters; that list is then the only one. |
| `SqlGrammar.NextSegmentSound` | src/db/portable_query_template.rs:72-186 | The segment taken at any position is one the grammar allows there, given all the text before it. |
| `SqlGrammar.NextSegmentComplete` | src/db/portable_query_template.rs:72-186 | Whatever segment the grammar begins with is the one the scan takes: strings, comments and placeholders are maximal and an `E` prefix depends on the byte before it. |
| `SqlGrammar.RenderSucceedsExactly` | src/db/portable_query_template.rs:64-190 | Rendering returns `out` if and only if the template has a segmentation with every placeholder bound and `out` is its segments with each placeholder replaced by its fragment. |
| `SqlGrammar.RenderFailsExactly` | src/db/portable_query_template.rs:68-190 | Rendering fails with an error if and only if the template, read from the left, reaches that very fault: an unterminated string, identifier or comment, a `$` without digits, `$0`, or an unbound index. |
| `SqlScanner.RenderPortableQuerySql` | src/db/portable_query_template.rs:64-190 | The one-pass loop terminates, slices only on character boundaries, and returns exactly what the functional specification renders. |
| `SqlScanner.SkipBlockComment` | src/db/portable_query_template.rs:129-150 | The inner loop with its depth counter stops exactly where the nested comment closes, or runs to the end exactly when none does. |
| `SqlScanner.SkipQuoted` | src/db/portable_query_template.rs:70-121 | The inner loop over a quoted body, with doubled quotes and, in escape strings, backslashes, stops exactly at the closing quote. |
| `SqlScanner.ParseIndex` | src/db/portable_query_template.rs:152-172 | The digit loop computes the decimal value, for any number of digits. |
| `SqlScanner.FragmentFor` | src/db/portable_query_template.rs:168-180 | A placeholder yields its one-based fragment, or an error exactly for index zero and for indices beyond the bound values. |
| `SqlStructure.StructurePreserved` | src/db/portable_query_template.rs:60-190 | For any fragments with a shape of their own, re-reading the rendered SQL gives the template's segments with each placeholder replaced by its fragment's segments if and only if every placeholder is delimited by the bytes around it. |
| `SqlPreservation.LiteralsPreserveStructureExactly` | src/db/simple_query.rs:92-208 | The same equivalence for every template and every list of printed values, whatever the values contain; vouched type names may hold quoted identifiers. |
| `SqlPreservation.PlainlyDelimitedSuffices` | src/db/portable_query_template.rs:32-34 | A placeholder not preceded by an identifier byte, a quote or a minus and not followed by an identifier byte or a quote is always delimited, for every value; only a fragment that ends in a quoted name must not meet another quoted name. |
| `SqlPreservation.BoundValuesNeverChangeStructure` | src/db/portable_query_template.rs:60-190 | With plainly delimited placeholders, and quoted type names kept apart from quoted identifiers of the template, rendering succeeds, the output re-reads as the expected segments, and rendering the output again with no fragments returns it unchanged. |
| `SqlPreservation.UndelimitedPlaceholderChangesStructure` | src/db/portable_query_template.rs:70-73 | The template `x$1` with a text value, any text value, renders to SQL that re-reads differently. |
| `SqlPreservation.LiteralShape` | src/db/simple_query.rs:92-208 | Every printed literal, for every type name with a shape of its own, obeys the grammar on its own with no placeholders, and its first and last segments fix which neighbours it tolerates. |
| `SqlPreservation.OnlyNamedCastsEndInName` | src/db/simple_query.rs:103-107 | Only a cast to a type whose name ends in a double quote prints a literal that ends in one. |
| `SqlPreservation.PlainTypeIsShaped` | src/db/simple_query.rs:57-68 | Type names without quotes, dollars, dashes and slashes have a shape of their own, so the structure theorems cover them. |
| `SqlPreservation.QuotedTypeIsShaped` | src/db/simple_query.rs:57-68 | So have quoted type names, alone or behind a schema. |
| `SqlLiteralParser.ParsePrint` | src/db/simple_query.rs:92-208 | Parsing the printed SQL of any literal tree, of any nesting, floats included, before any delimiter, returns its normal form and the rest; the parser has its own spelling of keywords, integer and float casts and array syntax. |
| `SqlLiteralParser.IntegerPrints` | src/db/simple_query.rs:136-153 | An integer prints as its sign and decimal digits in parentheses followed by the cast of its width, spelled out for each of the three. |
| `SqlLiteralParser.PrintAlikeExactly` | src/db/simple_query.rs:92-208 | Two literals print the same SQL if and only if their normal forms agree, where a cast of hex text to `bytea` becomes the byte string it stands for. |
| `SqlLiteralParser.PrintInjective` | src/db/simple_query.rs:92-208 | Two different literals in normal form never print the same SQL. |
| `SqlLiteralParser.ByteaCastIsAmbiguous` | src/db/simple_query.rs:197-208 | A bytea literal prints exactly as a text literal of its hex form cast to `bytea`; this is what the normal form identifies. |
| `SqlLiteralParser.CommaInTypeIsAmbiguous` | src/db/simple_query.rs:108-124 | A comma outside brackets in a vouched type name makes one array element print like two. |
| `SqlLiteralParser.UnbalancedTypeIsAmbiguous` | src/db/simple_query.rs:103-122 | An unbalanced bracket in a type name moves text between an element's type and the array's type. |
| `SqlLiteralParser.OpenQuoteInTypeIsAmbiguous` | src/db/simple_query.rs:103-122 | A quoted part left open in a type name makes two array elements print like one. |
| `SqlLiteralParser.ModifiedTypeName` | src/db/simple_query.rs:57-68 | Names with modifiers in parentheses, commas included, are among the type names covered. |
| `SqlLiteralParser.ArrayTypeName` | src/db/simple_query.rs:57-68 | So are array types of covered types. |
| `SqlLiteralParser.QuotedEndsAtItsOwnQuote` | src/db/simple_query.rs:179-195 | Whatever the text, the printed quoted literal ends at its own last quote: no earlier quote closes it. |
| `SqlLiterals.SqlText.Encode` | src/db/simple_query.rs:92-126 | Appends exactly the literal's printed form and reports failure exactly when some text in the tree holds a NUL byte. |
| `SqlLiterals.SqlText.EncodeText` | src/db/simple_query.rs:179-195 | Appends the escape-string literal of the text, or fails exactly on a NUL byte. |
| `SqlLiterals.SqlText.EncodeBytea` | src/db/simple_query.rs:202-208 | Appends the hex escape string and cast of the bytes. |
| `SqlLiterals.SqlText.EncodeArray` | src/db/portable_query_literal.rs:183-199 | Appends the array constructor with every element in order, separators between them, and the element type; fails exactly if an element fails. |
| `PortableQueries.PortableQuery.Bind` | src/db/portable_query.rs:153-165 | Keeps the printed forms of the bound values in order; once a value cannot be printed the error is kept and later values are not printed. |
| `PortableQueries.PortableQuery.IntoRawSql` | src/db/portable_query.rs:173-180 | Returns the deferred error, the template's error, or the rendered SQL; for a template with plainly delimited placeholders the SQL has the template's structure. |
| `SchemaPlanner.PlanComponentSchemaMigration` | src/db/schema_migration.rs:123-227 | The loop over `cursor` and `selected_steps` terminates and returns exactly the plan of the specification, error cases included. |
| `SchemaPlanner.ValidateUpgradeSteps` | src/db/schema_migration.rs:229-252 | Accepts exactly step lists whose ends are valid and whose versions increase up to the current one. |
| `SchemaPlanner.UpgradePlannedExactly` | src/db/schema_migration.rs:123-227 | An upgrade along a chain is planned if and only if the inputs are valid, the recorded version is older, and at every stop of that chain to the current target its next step is the only one offered. |
| `SchemaPlanner.PlansExactly` | src/db/schema_migration.rs:123-227 | Every other plan and every error is returned if and only if its own reason holds: invalid declarations, nothing recorded, the current target recorded, another fingerprint of its version, a newer version, or a chain forced from the recorded target that stops for want of a step, for several steps, or at a wrong end. |
| `SchemaPlanner.ForcedChainIsContiguous` | src/db/schema_migration.rs:150-227 | Such a chain is drawn from the offered steps, joins end to end from the recorded to the current target, and strictly increases in version. |
| `SchemaPlanner.PlanIgnoresOrder` | src/db/schema_migration.rs:123-227 | Listing the same steps in another order gives the same plan or the same error. |
| `SchemaMigration.MigrationTx.Migrate` | src/db/component_schema.rs:281-350 | Claim or lock, plan, statements, checks and compare-and-set in one transaction produce exactly the outcome, error and view of the one-step serial migration. |
| `SchemaMigration.MigratesExactly` | src/db/component_schema.rs:281-350 | A migration succeeds if and only if the declarations lead from the recorded version to the current one (an install, nothing, or a forced chain whose every step adds exactly the statements of a migration declared for it), every statement is accepted on top of those before it, and every check is true; state and outcome are then exactly these. |
| `SchemaMigration.FailsExactly` | src/db/component_schema.rs:374-428 | It fails for a statement if and only if some statement on that way is refused, and for a check if and only if all are accepted and some check is not true. |
| `SchemaMigration.EndsAre` | src/db/component_schema.rs:281-350 | It fails in planning if and only if the planner fails, with its error, and in no other way. |
| `SchemaMigration.MigrationTx.ClaimOrLock` | src/db/schema_ledger.rs:634-687 | Claims an absent row with the version aimed at and returns none, or returns the recorded version unchanged. |
| `SchemaMigration.MigrationTx.RecordCompletion` | src/db/schema_ledger.rs:418-481 | The compare-and-set hits one row exactly when the row still holds the prior version, or the claim, and then records the current version; the row read back afterwards always holds it. |
| `SchemaMigration.MigrationTx.ValidateVersionRow` | src/db/schema_ledger.rs:541-603 | Accepts the row exactly when it holds the version and fingerprint recorded. |
| `SchemaMigration.MigrationTx.ExecuteStatements` | src/db/component_schema.rs:374-391 | Succeeds exactly when every statement is accepted in turn, and then all are applied in order. |
| `SchemaMigration.MigrationTx.ExecuteChecks` | src/db/component_schema.rs:393-428 | Succeeds exactly when every check returns true; false, null and failure reject. |
| `SchemaMigration.MigrationTx.ExecuteUpgrade` | src/db/component_schema.rs:319-347 | Runs the statements of every step of the chain in order, and fails without a migration for a step or on the first rejected statement; what those statements are is `MigratesExactly`. |
| `SchemaMigration.Database.MigrateComponentSchema` | src/db/component_schema.rs:250-279 | A failed run leaves ledger row and physical schema as they were; a successful one commits both. |
| `SchemaMigration.PlannedWorkExists` | src/db/component_schema.rs:431-448 | Every planned step has a migration, so looking it up never fails. |
| `SchemaMigration.PlannedMigrationIsUnique` | src/db/component_schema.rs:431-448 | Any migration that leaves the source of a planned step is a migration of that very step. |
| `SchemaMachine.InterleavingIsSerial` | src/db/schema_ledger.rs:634-687 | For any number of processes, any interleaving of single statements and any rollbacks, the committed state and the reported outcomes are those of running the committed migrations one after another. |
| `SchemaMachine.StepKeepsInvariant` | src/db/schema_ledger.rs:418-481 | Every single statement of every transaction keeps the inductive invariant: one holder of the row, whose plan and work so far agree with the committed state, and a history that replays serially. |
| `SchemaMachine.OneHolder` | src/db/schema_ledger.rs:634-687 | At most one open transaction has claimed or locked the row, and only it has planned or executed anything. |
| `SchemaMachine.FailuresAreSerial` | src/db/schema_ledger.rs:418-481 | In every run a transaction fails only with the error its migration has on the committed state; the row never disappears, the compare-and-set never misses, the row read back is always the one recorded, and no migration is missing. |
| `SchemaMachine.OneInstallCommits` | src/db/schema_ledger.rs:634-687 | However many processes race, at most one fresh install ever commits, and it is the first commit. |
| `SchemaMachine.LedgerAgreesWithSchema` | src/db/component_schema.rs:281-350 | In every reachable committed state either nothing is recorded and nothing applied, or every commit added exactly the declared statements of its install or of its upgrade's migrations, step by step and in order, the last commit's version is recorded and that version's checks hold. |
| `SchemaMachine.CommittedUpgradeRanItsSteps` | src/db/component_schema.rs:319-347 | In every run, committing an upgrade leaves the previous physical schema followed by the statements of the migration declared for each step of the chain, in order, all accepted, with every check true and the new version recorded. |
| `SchemaMachine.AccountReplays` | src/db/component_schema.rs:250-279 | A list of states in which each is made from the one before by the migration committed next is the only account of a history. |
| `SchemaMachine.VersionNeverDecreases` | src/db/schema_migration.rs:123-252 | Along any continuation of any run the committed version never decreases, an unchanged version keeps its fingerprint, and no applied statement is undone. |
| `SchemaMachine.HolderFinishes` | src/db/component_schema.rs:281-350 | From every reachable state the holder can run to its end without waiting for anyone, and ends as its migration ends on the committed state. |
| `Admission.CheckAcceptsExactly` | src/db/protocol.rs:76-105 | The admission checks accept exactly the one supported record, read under READ COMMITTED. |
| `Admission.CheckRejectsExactly` | src/db/protocol.rs:76-105 | The checks report an incompatible protocol, with its epoch, if and only if there is one well-formed record of another epoch or fingerprint read under READ COMMITTED, and an invalid state if and only if the isolation is another or there is no single well-formed record. |
| `Admission.Tx.Admit` | src/db/protocol.rs:60-108 | Returns ok exactly for a cached relation or for one whose shared lock was granted in a healthy READ COMMITTED transaction with the supported record, and otherwise the error of the first check that fails; only then is it cached, with its lock held. |
| `Admission.Tx.SqlxTransaction` | src/db/pool.rs:292-296 | Lending the transaction to caller SQL empties the cache. |
| `Admission.Tx.CreateLedgerTable` | src/db/schema_ledger.rs:761-820 | Creating the ledger table under its own savepoint leaves savepoints, locks and cache as they were, whether it succeeds, loses a concurrent race or fails. |
| `Admission.LedgerSavepointCloses` | src/db/schema_ledger.rs:761-820 | Opening, failing, rolling back to and releasing the ledger's savepoint restores the session, even when an outer savepoint has the same name. |
| `Admission.RollbackRestores` | src/db/schema_ledger.rs:761-820 | Rolling back to a savepoint gives the session of the moment it was set, whatever was locked, done or nested since. |
| `AdmissionMachine.CachedMeansAdmitted` | src/db/protocol.rs:60-108 | In every interleaving with epoch activations and caller savepoints, a cached protocol has its shared lock, the committed record is the supported one and no activation can lock or commit, if and only if the transaction has not failed or the lock was also taken below the innermost savepoint. |
| `AdmissionMachine.FailureKeepsGuaranteeExactly` | src/db/protocol.rs:60-66 | Before a statement fails: a cached relation keeps that guarantee through the failure if and only if its lock is also held below the innermost savepoint. |
| `AdmissionMachine.CommittedWorkWasAdmitted` | src/db/protocol.rs:60-108 | Over whole runs, every piece of work that took effect did so while the supported record was in force. |
| `AdmissionMachine.CommitPublishesWork` | src/db/protocol.rs:60-108 | Work under a cache entry of a transaction that has not failed takes effect with its commit, together with all work before it. |
| `AdmissionMachine.UncommittedWorkBlocksActivation` | src/db/pool.rs:292-296 | Work that a transaction could still commit keeps every activation of its relation waiting, whatever savepoints were rolled back or released since. |
| `AdmissionMachine.StepKeepsInvariant` | src/db/protocol.rs:60-108 | Every statement of every transaction and every activation step keeps the invariant behind these guarantees. |
| `AdmissionMachine.FailedTransactionKeepsStaleEntry` | src/db/protocol.rs:60-66 | A concrete run in which the cache entry survives its lock after a failed statement and the activation goes ahead; the transaction commits nothing. |
| `AdmissionMachine.StaleSnapshot` | src/db/protocol.rs:88-92 | Above READ COMMITTED a run exists in which the lock is held and the supported record is seen although another one is committed: what the isolation check refuses. |
| `Mnemonic.EncodeMnemonic` | src/crypto/codecs.rs:422-458 | The staged-bit loop writes exactly the header, the bytes' bit string regrouped into 11-bit words and filled up with zeros, and the checksum words. |
| `Mnemonic.SpelledOutExactly` | src/crypto/codecs.rs:422-458 | A word list is the encoding of a byte string if and only if its first word is a padding length below eleven and the others carry, eleven bits each, the bytes, that many zeros, and the first 22 bits of the digest of the label, the 64-bit length and the bytes. |
| `Mnemonic.ChecksumIsDigest` | src/crypto/codecs.rs:562-576 | Shifting, or-ing and masking three digest bytes gives two words with exactly their first 22 bits. |
| `Mnemonic.ChecksumInputInjective` | src/crypto/codecs.rs:562-566 | Different byte strings are never digested as the same input. |
| `MnemonicBits.ShiftIn` | src/crypto/codecs.rs:435-437 | With at most 18 bits staged the 32-bit shift loses none: the accumulator stays below two to the count and its bits are the old ones followed by the new ones. |
| `MnemonicBits.ShiftOut` | src/crypto/codecs.rs:438-444 | Taking a group out leaves exactly the remaining bits, and masking it to its width changes nothing. |
| `MnemonicBits.ShiftUp` | src/crypto/codecs.rs:447-450 | The last incomplete group becomes its bits followed by zeros. |
| `MnemonicBits.LowBitMaskIs` | src/crypto/codecs.rs:585-590 | The mask of n low bits, for every n the loops use. |
| `MnemonicDecoding.DecodeMnemonic` | src/crypto/codecs.rs:460-537 | Returns a byte string if and only if the text is exactly its encoding within the length allowed; fails as non-canonical if and only if the text has the words of such an encoding and other white space; fails on the checksum if and only if the text has the words of such an encoding but for its last two, with others from the table in their place. |
| `MnemonicDecoding.DecodeIndices` | src/crypto/codecs.rs:467-529 | Words that carry the header and data of a byte string are accepted if and only if the last two carry the first 22 bits of its digest, and otherwise rejected for the checksum; all others are rejected for their number, version, length or padding, each for its own reason. |
| `MnemonicDecoding.EncodesExactly` | src/crypto/codecs.rs:467-529 | The encoder produces a word list for a byte string if and only if the list carries its header and data words and ends in its digest bits. |
| `MnemonicDecoding.RegroupWords` | src/crypto/codecs.rs:502-514 | The decoding loop yields all expected bytes and leaves exactly as many staged bits as the padding: the count test can never fire. |
| `MnemonicDecoding.GuardsAdmitEncoded` | src/crypto/codecs.rs:632-644 | The word-count and text-length guards never reject what the encoder writes within the limit. |
| `MnemonicDecoding.LimitsAre` | src/crypto/codecs.rs:632-650 | The word limit is three more than the 11-bit words the bytes need, and the text limit that many times the longest word and a space; nothing saturates below the largest container. |
| `MnemonicDecoding.MnemonicWordIndices` | src/crypto/codecs.rs:539-560 | Returns the table indices of the text's words, or the first unknown word, an empty text, or too many words. |
| `MnemonicDecoding.EncodedTextInjective` | src/crypto/codecs.rs:422-458 | A mnemonic determines the bytes it encodes. |
| `MnemonicText.SplitJoined` | src/crypto/codecs.rs:539-545 | Splitting at Unicode white space recovers exactly the words that were joined with single spaces. |
| `MnemonicText.JoinedBySpaces` | src/crypto/codecs.rs:578-583 | Pushing words puts exactly one space between them and adds nothing else. |
| `SortableIds.PutTicks` | src/id.rs:497-505 | Writing ticks in place sets the first 52 bits and keeps the low half of the seventh byte and the rest. |
| `SortableIds.TicksRoundTrip` | src/id.rs:497-515 | Every 52-bit tick count is read back as written, and the random part is untouched. |
| `SortableIds.ReadIsTicks` | src/id.rs:507-515 | The shifts and ors read the number that the first 52 bits spell; no field overlaps another. |
| `SortableIds.NewAt` | src/id.rs:178-188 | A new identifier has the clamped tick of its moment and exactly the 76 random bits supplied. |
| `SortableIds.OrderIsTicksThenTail` | src/id.rs:39-41 | Byte-lexicographic order is the order of ticks and then of the random part. |
| `SortableIds.WindowIsTick` | src/id.rs:260-273 | An identifier lies between the bounds of a moment if and only if its tick is the clamped tick of that moment. |
| `SortableIds.MicrosRoundTrip` | src/id.rs:229-231 | Reading the moment back gives the moment cut to 100 microseconds, clamped at both ends; no 52-bit count overflows 64 bits. |
| `SortableIds.XorTimeBytes` | src/id.rs:238-258 | The in-place loop flips each bit of the seven time bytes exactly where the byte seven places on has a one, and leaves the other bytes alone. |
| `SortableIds.DisguisedExactly` | src/id.rs:238-258 | The disguised bytes are the only ones that differ from the identifier bit by bit in this way. |
| `SortableIds.DisguiseTwice` | src/id.rs:238-258 | The disguise is an involution. |
| `SortableIds.ParseId` | src/id.rs:246-258 | Parsing returns an identifier if and only if the lower-cased text is that identifier's canonical text; a wrong length is reported exactly for a wrong length. |
| `SortableIds.SerializeId` | src/id.rs:238-244 | The text is the base-32 text of the disguised bytes, 26 symbols long. |
| `SortableIds.TextHides` | src/id.rs:238-244 | The text decodes, as base 32, to bytes that show each time bit flipped exactly where the random byte seven places on has a one, and to no others. |
| `SortableIds.ToTextInjective` | src/id.rs:238-244 | Two identifiers never share a text. |
| `Base32.EncodeBase32NoPaddingLower` | src/id.rs:517-540 | Shifts and masks over the bytes write exactly the 128-bit string, filled up with two zeros, in groups of five. |
| `Base32.EncodeChunk` | src/id.rs:529-540 | Writes the eight symbols of five bytes and nothing else. |
| `Base32.ChunkKeepsBits` | src/id.rs:529-540 | The eight values of a chunk carry exactly its forty bits. |
| `Base32.DecodeExactly` | src/id.rs:546-568 | Decoding returns sixteen bytes if and only if the text is their canonical text up to case. |
| `Base32.TrailingBitsDecide` | src/id.rs:546-568 | Of texts made of symbols exactly those whose last two bits are zero decode, as section 3.5 of RFC 4648 allows. |
| `Envelopes.PaddedLenIsTheBucket` | src/crypto/envelope.rs:503-515 | A plaintext's padded length is the one power of two from 256 to 2097152 that holds it and its length prefix while half of it does not. |
| `Envelopes.PadPlaintext` | src/crypto/envelope.rs:368-377 | Overwriting the random buffer in place gives length, plaintext and the rest of the random bytes. |
| `Envelopes.UnpaddedExactly` | src/crypto/envelope.rs:541-562 | The unpadder accepts a payload if and only if the padder makes it from some plaintext, and returns that plaintext. |
| `Envelopes.BuildHeader` | src/crypto/envelope.rs:456-471 | Filling the array in place gives magic, version, suite, salts and nonces at their offsets. |
| `Envelopes.ParseExactly` | src/crypto/envelope.rs:588-646 | Parsing accepts an envelope if and only if it is a built header followed by a bucket-sized ciphertext, and returns those parts. |
| `Envelopes.Encrypt` | src/crypto/envelope.rs:362-416 | Returns the header and the doubly sealed padded payload, or exactly the error of the first check that fails. |
| `Envelopes.Decrypt` | src/crypto/envelope.rs:263-281 | Trying every key with a flag for the first success is the first success; what that is, `DecryptsExactly` says. |
| `Envelopes.DecryptsExactly` | src/crypto/envelope.rs:263-281 | Decryption returns a plaintext if and only if the bytes are an envelope, the context is within its limit, some key opens both layers, each under its derived key, its nonce and the header with the context, to that plaintext behind its length in its bucket, and no newer key opens the envelope; it fails to decrypt if and only if no key opens it. |
| `Envelopes.ShapeDecides` | src/crypto/envelope.rs:588-646 | Every other error depends on the bytes and the context alone and is reported for the first of its reasons: empty, too large, too short, magic, version, suite, length, context. |
| `Envelopes.EnvelopeParses` | src/crypto/envelope.rs:362-416 | Every produced envelope has a bucket's length, within the accepted limits, and parses to its parts. |
| `Envelopes.DecryptsUnlessNewerKeyOpens` | src/crypto/envelope.rs:263-281 | With ciphers that open what they seal, decryption recovers the plaintext under any keyset holding the encrypting key, unless a newer key of it opens the envelope too. |
| `Envelopes.DecryptsUnderRotation` | src/crypto/envelope.rs:263-281 | With ciphers that open what they seal and tell the keys of the keyset apart, every keyset of distinct keys that still holds the encrypting key recovers the plaintext. |
| `Envelopes.KeysetDecryptsItsOwn` | src/crypto/envelope.rs:263-281 | Keysets derived from distinct root keys recover what any of their keys encrypted, unless the derivation collides on two inputs that deriving this keyset applies it to. |
| `Envelopes.RetiredKeyFails` | src/crypto/envelope.rs:263-281 | Once the encrypting key is gone from the keyset, and the ciphers tell it from the keys left, decrypting the envelope fails; with ciphers that open what they seal it fails as not decryptable. |
| `Envelopes.RotationIsPossible` | src/crypto/envelope.rs:362-416 | For any fewer than 256 keys there are ciphers that open what they seal and tell the keys apart, so what is asked of them can be had. |
| `Envelopes.LayerDataInjective` | src/crypto/envelope.rs:473-490 | The data both layers authenticate determines the header and the context. |
| `Keysets.ValidatePurpose` | src/crypto/keyset.rs:255-271 | Accepts exactly purposes of 1 to 255 printable bytes without a slash, and otherwise names the first offending byte. |
| `Keysets.ForChild` | src/crypto/keyset.rs:128-146 | Joins purpose and child with a slash exactly when the child is valid and the whole is at most 255 bytes. |
| `Keysets.PurposeDeterminesChain` | src/crypto/keyset.rs:128-146 | A purpose string determines its whole chain of child purposes. |
| `Keysets.ChildContextInjective` | src/crypto/keyset.rs:186-206 | The child derivation context determines parent and child; within purpose lengths the 16-bit casts cut nothing off. |
| `Keysets.LengthCastIsExact` | src/crypto/keyset.rs:221-226 | A length-prefixed purpose is read back whole from any text it begins. |
| `Keysets.LongLengthsCollide` | src/crypto/keyset.rs:221-226 | Past 65535 bytes the cast lengths would let bytes move between parent and child under one context: the length limit is needed. |
| `Keysets.DerivedKeyDeterminesChain` | src/crypto/keyset.rs:167-219 | Equal derived keys have equal root keys and equal chains of purposes, of whatever depth, unless the lane collides on two different inputs that these two derivations themselves apply it to. |
| `Keysets.DeriveKeyset` | src/crypto/keyset.rs:25-57 | Succeeds exactly for 1 to 16 distinct keys and a valid purpose, and derives every key in order from its root key and the length-prefixed purpose. |
| `Keysets.DeriveChildKeyset` | src/crypto/keyset.rs:71-84 | The child keyset is the keyset of the longer chain, key by key and in the same order, each derived from the parent key and both length-prefixed purposes; it exists exactly when the longer chain is derivable. |
| `Keysets.ValidateLatestFirstKeys` | src/crypto/keyset.rs:155-165 | Accepts exactly nonempty lists without a repeated key, and otherwise names the first repetition. |
| `Keysets.KeysetKeysAreDistinct` | src/crypto/keyset.rs:71-84 | The keys of a keyset differ pairwise in each lane, unless that lane collides on two inputs of their derivations. |
| `Tokens.MacOverSecretBytesForKey` | src/crypto/token.rs:141-178 | The loop fills the array with the version and the xor of the two lanes, as `MacExactly` spells them out. |
| `Tokens.MacExactly` | src/crypto/token.rs:141-178 | The MAC is the version and then, bit by bit, the difference of two keyed hashes, each under its own half of the key and over its own label, the context and the secret behind their 64-bit lengths; no other value is. |
| `Tokens.MessageInjective` | src/crypto/token.rs:146-167 | The authenticated message determines context and secret. |
| `Tokens.LanesAreApart` | src/crypto/token.rs:146-167 | The two lanes never authenticate the same message. |
| `Tokens.Verify` | src/crypto/token.rs:50-58 | Comparing with every key accepts exactly the MACs made by some key of the keyset. |
| `InstanceKeys.TableInstanceKeysInjective` | src/db/schema_ledger.rs:694-703 | With identifiers as labels the instance key determines the labelled tables. |
| `InstanceKeys.KeyDeterminesParts` | src/db/schema_ledger.rs:728-737 | With arbitrary labels it still does as long as no label reads as an entry, a separator and another label. |
| `InstanceKeys.EntryLabelCollides` | src/db/schema_ledger.rs:728-737 | A list with such a label always shares its key with another list, so the condition is exact. |
| `InstanceKeys.InstanceKeyAppends` | src/db/schema_ledger.rs:694-737 | Each further entry stands behind a semicolon: its label, an equals sign and its quoted table name. |
| `LockFiles.SingleWriter` | src/local_lock.rs:374-402 | Over every interleaving of file-system steps of any number of acquisitions, every write goes to the file its writer created and overwrites no other acquisition's lease. |
| `LockFiles.GoneForGood` | src/local_lock.rs:436-460 | A lock file once removed or replaced never comes back to the path. |
| `LockFiles.LateRefreshReportsLoss` | src/local_lock.rs:630-705 | Every refresh begun after the holder's file was removed or replaced reports loss, whatever the others do before and during it. |
| `LockFiles.RenewalIsOwn` | src/local_lock.rs:696-705 | A refresh that does not report loss ends with the holder's own file at the path, holding the holder's own lease. |
| `LockFiles.NoSecondHolder` | src/local_lock.rs:374-402 | In every run in which nothing removes the file at the path, only one acquisition ever creates the lock file. |
| `LockFiles.OccupiedPathExcludes` | src/local_lock.rs:374-402 | As long as nothing removes the file at the path, it stays there and no other acquisition creates one, whatever the others do. |
| `LockFiles.UnlinksWhatItSaw` | src/local_lock.rs:436-470 | Whatever is about to be unlinked was read twice at the path with the same content, and a release only ever gets that far with its own file. |
| `LockFiles.OverForGood` | src/local_lock.rs:484-493 | An acquisition that is over, as after a reported loss, stays over and writes nothing more. |
| `LockFiles.StepKeepsInvariant` | src/local_lock.rs:345-470 | Every read, stat, truncation, write and unlink keeps the invariant: each file holds at most its creator's lease. |
| `LockThreads.AcquisitionEndsOnce` | src/local_lock.rs:285-343 | Over every interleaving of the owner and heartbeat threads, each acquisition is cleared at most once, by release or by loss and not both, and has been cleared once it is no longer held; the callback runs at most once and only after a loss. |
| `LockThreads.CallbacksFinishBeforeReleaseReturns` | src/local_lock.rs:472-512 | Whenever a release has returned, the callback of every earlier loss has run to its end. |
| `LockThreads.HeldIsWatched` | src/local_lock.rs:472-502 | A held lease between calls is watched by a heartbeat thread of its own. |
| `LockThreads.HeartbeatRunsDown` | src/local_lock.rs:484-499 | A heartbeat thread told to stop has a next step until it has ended, and every step it may take brings it nearer its end. |
| `LockThreads.ReleaseReturns` | src/local_lock.rs:325-343 | A release that has begun can always return, after the stop and at most four heartbeat steps, the callback of a loss included. |
| `LockThreads.AcquireStarts` | src/local_lock.rs:472-502 | A new acquisition can always start its heartbeat once an older thread has stopped. |
| `LockThreads.LeaseState.ClearIfOwned` | src/local_lock.rs:612-628 | Loss clears the lease exactly when it is still the acquisition the heartbeat belongs to; the machine's loss step is this section. |
| `LockThreads.LeaseState.TakeForRelease` | src/local_lock.rs:325-336 | Release takes the owner id out of a held lease and leaves it unheld; the machine's release step is this section. |
| `LockThreads.LeaseState.SetHeld` | src/local_lock.rs:307-311 | Acquiring takes the lease for the new owner id; the machine's acquire step is this section. |
| `CheckExpressions.HasSingleOuterParentheses` | src/db/schema.rs:30-52 | The depth scan is true if and only if the first character is a parenthesis that the last character closes, around a balanced inside. |
| `CheckExpressions.WithoutWhitespaceExactly` | src/db/schema.rs:18-21 | Filtering drops exactly the white space characters and keeps all others in order. |
| `CheckExpressions.Normalize` | src/db/schema.rs:17-28 | The loop terminates; the result wrapped in as many parentheses as were stripped is the text without white space, and no matching outer pair is left. |
| `CheckExpressions.NormalFormIsUnique` | src/db/schema.rs:17-28 | There is only one such result and one number of layers. |
| `CheckExpressions.NormalizeIsIdempotent` | src/db/schema.rs:17-28 | Normalising again changes nothing. |
| `CheckExpressions.NormalizeKeepsBalance` | src/db/schema.rs:17-28 | The result is balanced if and only if the expression is. |
| `CheckExpressions.ExtraParenthesesIgnored` | src/db/schema.rs:17-28 | An extra outer pair leaves the result unchanged if and only if what it encloses is balanced. |

## Left out

- SqlGrammar.NextSegment: does not model the 32-bit depth counter of nested comments or the 64-bit bound on placeholder indices; both are unbounded numbers.
- SqlLiterals.Print: does not model the formatting of floats, dates, JSON and UUIDs by libraries; a float is carried as its finished text, the others arrive as text casts.
- SqlPreservation.LiteralShape: does not cover vouched type names that hold string literals, comments or placeholders, or end in a dash or slash, none of which is a type name in Postgres; the printer copies them verbatim.
- SqlLiteralParser.ParsePrint: two floats count as different when their texts differ; that the formatter gives different floats different texts is the library's.
- SqlLiterals.SqlText: the text escaper works byte by byte where the library works character by character; only ASCII characters are escaped, so the output is the same.
- SchemaMachine.Apply: does not model serialization failures, deadlocks or lost connections other than as a rollback, nor schema changes made outside migrations.
- SchemaMachine.LedgerAgreesWithSchema: the physical schema is the sequence of statements applied; what a statement does is left to the acceptance and check parameters.
- AdmissionMachine.Borrow: does not model a caller that ends the transaction with its own COMMIT or ROLLBACK statement, or that takes stronger locks on the protocol relation.
- Admission.Tx.Admit: does not model database errors other than a failed transaction and a missing relation, or two installations sharing one quoted name.
- The classification of error chains as protocol failures, lock timing options and lease parsing.
- MnemonicDecoding.DecodeMnemonic: takes the decoded limit to be at most that of the largest container, as every caller passes, so no length saturates.
- Base32.Decode: the decoder is a library's; its error positions are not modelled.
- SortableIds.NewAt: the batch constructor, which repeats it over slices of one random buffer, is not modelled.
- Envelopes.DecryptsUnderRotation: telling the keys of a keyset apart is a requirement on the ciphers, not a property shown of them.
- LockFiles.Apply: does not prove mutual exclusion past a removal; re-reading and unlinking a stale file are separate steps in the library, and times and staleness decisions are left open, so any look may lead to a removal.
- LockFiles.FailToRefresh: a write that fails half-way leaves the truncated file as it was.
- LockThreads.LeaseState: mutex poisoning, process exit and panics in callbacks.
- CheckExpressions.Depth: the parenthesis depth is an unbounded integer, not one of 32 bits; they agree for expressions shorter than two to the power 31.
- Ciphers, hashes and key derivation themselves, and the contents of the mnemonic word table.
- Base64url, Crockford base 32, Base58 and random text identifiers: library encoders and rejection sampling.
- The queue, key-value and fleet engines and their own savepoints, the local vault, web cookies, and the connection pool's options.
- Catalog validation queries, observers, zeroization, constant-time comparison, and error texts.
- Dollar-quoted strings, Unicode-escape strings and other Postgres syntax outside the scanner's own rules.
