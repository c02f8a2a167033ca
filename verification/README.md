# Hydrogenuine: a verified model of its core

Hydrogenuine is a local-first agent gateway. This project models the parts of it that other parts
trust without looking: the bridge that runs SQLite statements on Postgres, the stores that keep a
post from going out twice, the content registry, the hash chains and bundles that make a history
checkable, the research runs and capability leases of the community edition, and the budgets,
caches and rules around an agent's memory. Each module follows one component of the repository.

What the repository changes in place is a class or a loop here, proved against a specification
function; what it computes is a function; and the results are lemmas about those functions over all
inputs and all runs. Where a promise of the code or of its comments does not hold for all inputs,
the module has the exact condition under which it does, or a concrete run that breaks it.

| file | component |
|---|---|
| `SqlPlaceholders.dfy` | the placeholder translator: a tokenizer of SQLite text, and the driver's reading of the output |
| `SqlSplitter.dfy` | the statement splitter, and why splitting and translating commute |
| `SqlInsert.dfy`, `SqlPattern.dfy` | the rewrites of `INSERT OR IGNORE` and `INSERT OR REPLACE`: their text, and the language of statements that their patterns match |
| `Upsert.dfy`, `UpsertText.dfy` | what the rewritten statements do to a table, and that their text says so |
| `RuntimeSql.dfy` | a statement's whole way to the driver; where the scanners and SQL agree on quotes |
| `IdentityRepair.dfy` | savepoint, sequence resync and one retry, inside transactions |
| `PostingDedupe.dfy`, `PostingMutex.dfy` | the store of recent posts, and the posting lock as interleaved steps |
| `ContentLedger.dfy` | documents and their numbered versions |
| `EnvFile.dfy` | the `.env` printer and parser |
| `EventChain.dfy` | the event stream and its hash chains per run and chat |
| `Bundle.dfy` | JSONL replay bundles under a hash chain |
| `ResearchRun.dfy`, `Community.dfy` | multi-model research runs; receipts, leases and research records |
| `SessionBudget.dfy`, `MemoryGc.dfy` | the wake payload's token budget; archiving and pruning |
| `Rules.dfy` | the rule evaluator and the cooldown |
| `Text.dfy` | Python string primitives |

What the model found, each stated and proved:

- A translated statement is read back by the driver as the placeholders and literals of the source
  text if and only if the text has no percent sign (`SqlPlaceholders.DriverReadsSourceIff`): the
  translator does not double a `%` in a `LIKE` pattern.
- An upsert with a partial column list keeps old values where `INSERT OR REPLACE` restores defaults
  (`Upsert.UpsertIsReplaceIff` says exactly when the two differ).
- A statement that raises loses every row of its transaction, while the sequence keeps what it handed
  out; a lost id can come again for a sequence row exactly when it is ahead of the sequence
  (`IdentityRepair.NoIdComesAgainIff`, `IdentityRepair.LostIdComesAgain`).
- The posting lock does not exclude across processes, because the lock file is removed after it is
  unlocked. It excludes if and only if there are no three callers of which two differ in process or
  content (`PostingMutex.ExcludesIff`, `PostingMutex.PathIsNotAMutex`).
- Splitter and translator know no comments: their quotes are SQL's all through a text if and only if
  no comment of it holds a quote (`RuntimeSql.ScannersLexIff`).
- A `.env` value that needs quotes and holds a backslash directly before `n` or `r` is read back
  with a line break; a value with a vertical tab or another exotic break never reads back
  (`EnvFile.UnescapedIsTurned`, `EnvFile.WrittenReadsIff`).
- In any registry, a document that was created under another class than the inventory gives its path
  no longer shows its own last version after the next sync (`ContentLedger.SyncedClassMatters`,
  `ContentLedger.CreatedClassMatters`). A repeated sync adds versions if two of its items have one
  path and different hashes (`ContentLedger.SecondSyncAddsNothingIff`).
- A dedupe file or community store that cannot be read is taken for an empty one, and the next save
  writes over it: the window is that of the records since then (`PostingDedupe.StoreIsWindow`), and
  the receipts are lost (`Community.ReceiptsAreLostIff`).
- Timestamps are compared as text, and a whole second sorts after its own fractions, so that an
  event chain can fork (`EventChain.RunIsLinearIff`, `EventChain.WholeSecondSortsLast`). A chat
  forks even with rising timestamps, unless its runs stay in step with it
  (`EventChain.ChatIsLinearIff`), and a run forks if two of its emissions overlap between query and
  INSERT (`EventChain.OverlapForksIff`).
- Two receipts of one creation time are ordered by their random ids once the store was reloaded, so
  that the chain of receipts can fork too (`Community.ReceiptsLinearIff`, `Community.SameTimeForksIff`).
- A validated bundle may have had a record moved between its files (`Bundle.MovedRecordIsAccepted`);
  with one chain, two bundles replay alike if and only if they have as many messages and as many
  approvals, which validation does not look at (`Bundle.ReplayAlikeIff`).
- Capping a context that cannot fit loops forever (`SessionBudget.CapEndsIff`). A section over
  budget is cut to its newest item, where the comment at hg_core/session_manager.py:383 announces a
  trim from the oldest item until it fits (`SessionBudget.CutIsLongestIff`).
- Once the limit has cut rows, merged rows keep their first-seen order exactly as long as no source
  leaves a row that had been cut (`SessionBudget.OrderIsKeptIff`, `SessionBudget.CutRowsComeLast`).
- The dual of a rule condition is its negation if and only if the condition is not left open by
  malformed comparisons and missing features (`Rules.DualIsNegationIff`).
- A garbage collection that cannot read the archive writes over it, and one that cannot write the
  live file archives its items twice (`MemoryGc.KeepsArchiveIff`, `MemoryGc.ConservedIff`).

## Model

| member | source | states |
|---|---|---|
| SqlPlaceholders.TranslatePlaceholders | hg_gateway/db_postgres.py:186-216 | The index-skipping scanner ends and writes the rendering of the text's tokens, as a one-character-at-a-time reader defines them |
| SqlPlaceholders.ScanOne | hg_gateway/db_postgres.py:192-215 | One turn of the scanner, with its look-back and its skip over a key, finds the next token and moves past all of it |
| SqlPlaceholders.TokensAreTheText | hg_gateway/db_postgres.py:186-216 | Spelling the tokens out gives the source text back, so that none of it is dropped or read twice |
| SqlPlaceholders.QuestionIsPositional | hg_gateway/db_postgres.py:200-202 | A question mark outside quotes is a positional placeholder, whatever stands before and after it |
| SqlPlaceholders.KeyIsNamed | hg_gateway/db_postgres.py:207-213 | Outside quotes, a colon that no colon precedes and an identifier are a named placeholder, which ends where the identifier does |
| SqlPlaceholders.KeyCharsIff | hg_gateway/db_postgres.py:207 | An identifier begins with an ASCII letter or underscore and goes on with these and digits |
| SqlPlaceholders.ColonIsLiteral | hg_gateway/db_postgres.py:203-215 | Any other colon outside quotes that no colon precedes is literal |
| SqlPlaceholders.QuotedIsLiteral | hg_gateway/db_postgres.py:193-202 | Within quotes every character is literal |
| SqlPlaceholders.OtherIsLiteral | hg_gateway/db_postgres.py:214-215 | So is every other character outside quotes that is no part of an identifier |
| SqlPlaceholders.CastIsLiteral | hg_gateway/db_postgres.py:204-207 | A `::` cast outside quotes is two literal colons, whatever stands before and after it |
| SqlPlaceholders.TranslateFixesIff | hg_gateway/db_postgres.py:186-216 | Text is unchanged by translation if and only if it has no placeholder outside quotes |
| SqlPlaceholders.TranslateIdempotent | hg_gateway/db_postgres.py:186-216 | Translating a translated text changes nothing |
| SqlPlaceholders.TranslateKeepsQuotes | hg_gateway/db_postgres.py:193-198 | The quoted characters come out as they went in, in order, and the output ends in the quote state of the input |
| SqlPlaceholders.DriverReadsSourceIff | hg_gateway/db_postgres.py:186-216 | The driver reads the output as exactly the placeholders and literal characters of the source, in order, if and only if the source has no percent sign |
| SqlSplitter.SplitSqlStatements | hg_gateway/db_postgres.py:310-330 | The splitting loop returns the non-empty stripped segments of the script in order |
| SqlSplitter.SegmentsCut | hg_gateway/db_postgres.py:315-330 | The segments joined by semicolons are the script, and each cut is at a semicolon outside quotes while no segment holds one |
| SqlSplitter.SegmentsAreTheOnlyCut | hg_gateway/db_postgres.py:315-330 | No other list of segments cuts the script like that |
| SqlSplitter.SplitGivesStatements | hg_gateway/db_postgres.py:310-330 | Every statement is non-empty, stripped, free of separators outside quotes, and splits into itself |
| SqlSplitter.SplitTranslateCommute | hg_gateway/db_postgres.py:186-216 | Splitting the translated script gives the translations of the statements of the script |
| SqlSplitter.SplitConcatIff | hg_gateway/db_postgres.py:310-330 | Two scripts joined by a semicolon split into the statements of both if and only if the first ends outside quotes |
| SqlInsert.IgnoreKeepsSlots | hg_gateway/db_postgres.py:229-230 | The rewritten `INSERT OR IGNORE` has the placeholders of the original in order, for every statement text |
| SqlInsert.MatchIsTheStatement | hg_gateway/db_postgres.py:234-243 | What the pattern captures and what stands between the captures make up the whole stripped statement |
| SqlPattern.MatchIff | hg_gateway/db_postgres.py:234-243 | The match is the reading of the stripped statement, in the pattern's language of keywords in any case, spacing and name characters, that has the shortest columns |
| SqlPattern.MatchedIff | hg_gateway/db_postgres.py:234-240 | A statement is matched if and only if it has such a reading |
| SqlPattern.IgnoreIsPlainInsert | hg_gateway/db_postgres.py:229-230 | A statement that begins with `INSERT OR IGNORE INTO`, in any case and spacing, becomes the plain `INSERT` of its rest that does nothing on a conflict |
| SqlPattern.UnquoteIs | hg_gateway/db_postgres.py:241 | Of a name all quotes at its ends go, and nothing else |
| SqlPattern.CommasCut | hg_gateway/db_postgres.py:244 | The column list is cut at every comma and nowhere else |
| SqlPattern.ColumnNameIs | hg_gateway/db_postgres.py:244 | A column name is its part of the list without outer whitespace and then without quotes at its ends |
| SqlInsert.ReplaceKeepsSlotsIff | hg_gateway/db_postgres.py:233-255 | Whatever columns and values hold, the upsert written for `INSERT OR REPLACE` has the placeholders of the original, in order, and then those of its conflict clause; just those of the original if and only if the clause has none |
| SqlInsert.ReplaceKeepsSlotsIffNames | hg_gateway/db_postgres.py:244-255 | The placeholders stay the same if and only if no assigned column has one in its name, once the quotes at its ends are gone |
| SqlInsert.ReplaceKeepsSlots | hg_gateway/db_postgres.py:233-255 | The placeholders stay the same, in order, whenever the names, quotes at their ends removed, hold no quote, colon, question mark or semicolon |
| RuntimeSql.DriverSeesParametersIff | hg_gateway/db_postgres.py:293-307 | From the caller's statement to the driver: what the driver reads is the rewritten statement if and only if that has no percent sign, and its placeholders are the caller's, in order, if and only if no conflict clause brings in others |
| RuntimeSql.TrimmedKeepsSlots | hg_gateway/db_postgres.py:294 | Stripping whitespace and closing semicolons changes no placeholder |
| RuntimeSql.ScannersLexIff | hg_gateway/db_postgres.py:186-330 | The quote state of both scanners is that of an SQL lexer at every character if and only if no comment holds a quote |
| Upsert.UpdateColumnsAre | hg_gateway/db_postgres.py:248-251 | A column is assigned if and only if it is listed and no conflict column |
| UpsertText.UpsertReads | hg_gateway/db_postgres.py:245-255 | Read back from its text alone, the upsert inserts the original columns and values into the table, has the table's conflict target in order, and assigns every listed column outside it from the proposed row, or, if there is none, the target's columns from the table |
| UpsertText.TextIsUpsert | hg_gateway/db_postgres.py:248-255 | What such a text says, followed on a table, is what the upsert of this model does to it |
| Upsert.ReplaceStores | hg_gateway/db_postgres.py:233-255 | After delete-then-insert exactly one row has the statement's key; it holds every listed value and defaults elsewhere, and no other row is touched |
| Upsert.UpdateStores | hg_gateway/db_postgres.py:233-255 | After the upsert, too, exactly one row has the key and holds every listed value, and no other row is touched |
| Upsert.UpsertIsReplaceIff | hg_gateway/db_postgres.py:233-255 | On a table with one uniqueness constraint, the upsert leaves what delete-then-insert leaves if and only if every row in conflict holds defaults in the unlisted columns |
| Upsert.KeyOnlyIsNoOp | hg_gateway/db_postgres.py:249-251 | With only key columns listed, a conflict changes nothing |
| Upsert.RunsAgreeOnListed | hg_gateway/db_postgres.py:233-255 | Over any sequence of statements with one column list, both forms leave the same table as far as the listed columns show |
| Upsert.FullRunsAgree | hg_gateway/db_postgres.py:233-255 | Over any sequence of statements that list every column, both forms leave the same table |
| Upsert.RunsKeepUnique | hg_gateway/db_postgres.py:233-255 | Both forms keep one row for each key over any sequence of statements |
| IdentityRepair.Connection.ExecuteMany | hg_gateway/db_postgres.py:121-165 | Savepoint, run, rollback, resync and one retry end with each row there under its own id and values, after those of before, or with a raise that fails the transaction and loses its rows |
| IdentityRepair.Connection.SyncSequence | hg_gateway/db_postgres.py:374-387 | Afterwards every id is below the next value and the id just below it is taken, or the table is empty and the next value is 1; it raises exactly when all ids are negative |
| IdentityRepair.SequenceInsertSucceedsIff | hg_gateway/db_postgres.py:121-165 | However far the sequence has drifted, a sequence-id batch succeeds if and only if its other unique values fit; it then adds exactly its rows, under fresh consecutive ids |
| IdentityRepair.HealthyNeedsNoRepair | hg_gateway/db_postgres.py:144-152 | With the sequence ahead of all ids a fitting batch succeeds without a repair and leaves it ahead |
| IdentityRepair.RepairHeals | hg_gateway/db_postgres.py:153-165 | After a repair the sequence is ahead of all ids |
| IdentityRepair.TakenExplicitIdRaises | hg_gateway/db_postgres.py:129-142 | An explicit id that is taken raises, repair or not |
| IdentityRepair.RunAppends | hg_gateway/db_postgres.py:469-511 | Over any mix of explicit-id and sequence-id statements, raises, commits and rollbacks, ids stay unique and no committed row ever changes or goes |
| IdentityRepair.RunThenSequenceInsert | hg_gateway/db_postgres.py:121-165 | After any such run a fitting sequence-id batch succeeds, unless its transaction has failed, under ids that no visible row and no row ever committed has |
| IdentityRepair.NoIdComesAgainIff | hg_gateway/db_postgres.py:469-511 | No id that a row had at any moment, committed or not, can come again for a sequence row if and only if none of them is ahead of the sequence: reached before any taken id, or past all of them while a taken one forces a repair |
| IdentityRepair.SequenceOnlyNeverReuses | hg_gateway/db_postgres.py:121-165 | In a run without explicit ids no id ever comes again, whatever was rolled back |
| IdentityRepair.RaiseLosesEarlierRows | hg_gateway/db_postgres.py:507-509 | An explicit id given twice in one transaction loses the first row with the second |
| IdentityRepair.LostIdComesAgain | hg_gateway/db_postgres.py:507-509 | An explicit id that was rolled back is given to a sequence row |
| PostingDedupe.DedupeFile.PruneData | hg_core/posting_dedupe.py:52-73 | The pruning loops compute the age prune and then the cap prune of the keys, and keep exactly the bucket lists from the cutoff day on |
| PostingDedupe.DedupeFile.RecordPosted | hg_core/posting_dedupe.py:111-130 | After every record, saved or not, on a file that can be read or not, the file holds exactly the window of all records so far, and the key is added to its day's list |
| PostingDedupe.DedupeFile.CheckAlreadyPosted | hg_core/posting_dedupe.py:87-108 | The caller is given a post if and only if the file can be read and it is the last record of the key and inside the window of all records so far |
| PostingDedupe.PruneKeepsNewestRecent | hg_core/posting_dedupe.py:52-73 | A prune keeps exactly the 500 newest of the entries from the cutoff day on |
| PostingDedupe.RecentIff | hg_core/posting_dedupe.py:54-60 | An entry is kept by age if and only if it is not from before the day, in UTC, seven days ago |
| PostingDedupe.StoreIsWindow | hg_core/posting_dedupe.py:111-130 | After any run of records, with failing loads and saves, the store is exactly the newest 500 of the last record of each key since an unreadable file was last written over, from the latest cutoff day on |
| PostingDedupe.CheckFindsIff | hg_core/posting_dedupe.py:87-108 | A check finds a post if and only if it is the last record of its key, names a thread, is inside the window, and fewer than 500 keys were recorded since |
| PostingDedupe.KeysAreInjective | hg_core/posting_dedupe.py:29-31 | Different posts have different keys although task ids may hold colons |
| PostingMutex.StepInv | hg_core/posting_mutex.py:206-310 | Every step of every thread, with timeouts and exceptions anywhere but inside the two updates of the pending set, keeps pending hashes, owners and inode locks consistent |
| PostingMutex.RunInv | hg_core/posting_mutex.py:206-310 | The same over every interleaving |
| PostingMutex.NoDuplicateInFlight | hg_core/posting_mutex.py:207-218 | Two threads of one process past the check have different hashes |
| PostingMutex.RefusedIff | hg_core/posting_mutex.py:208-215 | The check refuses a hash if and only if a thread of the process owns it |
| PostingMutex.OnlyOwnHashIsRemoved | hg_core/posting_mutex.py:289-293 | No step takes out a hash that another thread owns |
| PostingMutex.NothingPendingIff | hg_core/posting_mutex.py:206-310 | Nothing is pending if and only if no thread owns a hash, so that every exit gives its hash back |
| PostingMutex.OneHolderPerInode | hg_core/posting_mutex.py:248-253 | Threads past the lock hold locks of different inodes |
| PostingMutex.OneHolderOnThePath | hg_core/posting_mutex.py:249-310 | At most one thread past the lock holds the inode that the path names |
| PostingMutex.QuietRunsExclude | hg_core/posting_mutex.py:295-310 | At most one thread of all processes is past the lock in the runs in which unlocking never fails and the file is never removed while another thread has it open |
| PostingMutex.ExcludesIff | hg_core/posting_mutex.py:206-310 | At most one thread is past the lock, in every run and across all processes, if and only if there are no three callers of which two differ in process or content |
| PostingMutex.PathIsNotAMutex | hg_core/posting_mutex.py:295-310 | With any third caller, two processes can be inside at once with the same content |
| ContentLedger.ContentRegistry.CreateDocument | hg_gateway/content_cms.py:586-669 | A new path gets a document that shows its version 1; under the path's own class it is refused only for an unknown class or a path that has a document |
| ContentLedger.ContentRegistry.SaveDocument | hg_gateway/content_cms.py:502-583 | Saving succeeds if and only if the document exists, adds exactly its next version, and leaves every document with versions 1..n and showing version n |
| ContentLedger.ContentRegistry.ArchiveDocument | hg_gateway/content_cms.py:672-744 | Archiving succeeds if and only if the document exists with a text; its next version repeats the text, it is flagged, and every document stays whole |
| ContentLedger.ContentRegistry.RestoreDocument | hg_gateway/content_cms.py:747-819 | Restoring succeeds if and only if the document exists with a text; its next version repeats the text, the flag goes, and every document stays whole |
| ContentLedger.ContentRegistry.SyncInventory | hg_gateway/content_cms.py:267-413 | The sync loop does each item's upserts in order; created items are the new documents, created and updated ones the new versions, the rest unchanged; it never raises on classified and hashed items, and leaves both tables as they were when it does |
| ContentLedger.LatestIsCounted | hg_gateway/content_cms.py:253-264 | The highest version number equals the number of versions, so that both ways of choosing the next one agree |
| ContentLedger.NextIsFree | hg_gateway/content_cms.py:514-516 | The next number and the version id made of it are free, so that no insert raises and no upsert overwrites |
| ContentLedger.VersionIdsDiffer | hg_gateway/content_cms.py:514-516 | A version id determines document and number |
| ContentLedger.AppendKeeps | hg_gateway/content_cms.py:502-583 | Save, archive and restore cannot fail on a document that exists, and add exactly one version to it |
| ContentLedger.CreateKeeps | hg_gateway/content_cms.py:586-669 | Creating under the path's own class succeeds if and only if the class is known and the path is new |
| ContentLedger.SyncKeeps | hg_gateway/content_cms.py:267-413 | A sync of classified and hashed items never raises |
| ContentLedger.SyncItemSets | hg_gateway/content_cms.py:296-400 | A synced item sets its own document row, with its hash and not archived, and no other |
| ContentLedger.RunKeeps | hg_gateway/content_cms.py:267-413 | Over any run every document has versions 1..n without a gap, points at version n and shows its hash, and no version row ever changes or goes |
| ContentLedger.ArchiveAndRestoreKeepText | hg_gateway/content_cms.py:672-819 | Archiving and then restoring a document with text succeeds and gives the text back |
| ContentLedger.SyncAddsNothingIff | hg_gateway/content_cms.py:287-332 | A sync of classified and hashed items adds no version if and only if the last version of every item's path has its hash already |
| ContentLedger.SecondSyncAddsNothingIff | hg_gateway/content_cms.py:287-332 | Syncing the same items again adds no version if and only if items of one path have one hash |
| ContentLedger.FlagsAgreeWithoutSync | hg_gateway/content_cms.py:672-819 | Over any run without a sync a document is flagged archived if and only if its last version is |
| ContentLedger.SyncedClassMatters | hg_gateway/content_cms.py:287-413 | In any valid registry a synced item of an existing path leaves its document pointing at the document's own last version if and only if it has the class that the document was created under |
| ContentLedger.RunClassMatters | hg_gateway/content_cms.py:287-413 | The same after any run of creations, saves, archives, restores and syncs in which every path is created and synced under one class |
| ContentLedger.CreatedClassMatters | hg_gateway/content_cms.py:586-669 | A document that is created in any valid registry and then synced still points at its own last version if and only if it was created under the class that the inventory gives its path |
| EnvFile.ReadEnvFile | hg_core/setup_data.py:145-162 | The reading loop computes the key and value of every line, the last line of a key winning |
| EnvFile.LastLineWins | hg_core/setup_data.py:150-161 | A key has the value of the last line that gives it, and no key is there without a line |
| EnvFile.SkippedIff | hg_core/setup_data.py:151-156 | A line is skipped if and only if it is blank, a comment, begins with an equals sign or has none |
| EnvFile.PaddedLineReads | hg_core/setup_data.py:151-160 | Whitespace around line, key and value is no part of them |
| EnvFile.WriteEnvFile | hg_core/setup_data.py:165-196 | The writing loop prints the merged safe values under the header; read back, a safe key has its new value stripped, or else what the old file had if that is merged, and no other key is there, if and only if every value that is to be there reads back |
| EnvFile.WrittenIsCurrentIff | hg_core/setup_data.py:165-196 | The same about any file, new values and choice to merge |
| EnvFile.PrintedPlainIff | hg_core/setup_data.py:136-142 | A value is printed as it is if and only if it is not empty and has no line break, quote, hash, blank or equals sign |
| EnvFile.KeyLinesInOrder | hg_core/setup_data.py:188-196 | The keys are printed in their fixed order, one line each |
| EnvFile.UnescapedIsTurned | hg_core/setup_data.py:136-161 | The parser's four replacements after the printer's four change exactly each `n` and `r` directly after a backslash, into a line break |
| EnvFile.LineReads | hg_core/setup_data.py:150-161 | The printed line of a key reads back as the key and the decoded value, quotes and stripping included |
| EnvFile.NoExoticValueIsRead | hg_core/setup_data.py:145-162 | No file gives a value that holds a vertical tab, form feed, separator or other exotic line break |
| EnvFile.WrittenReadsIff | hg_core/setup_data.py:165-196 | Whatever the file held and whatever is merged into it, the written values read back unchanged if and only if each has no exotic break and, quoted, no backslash before `n` or `r`, or, unquoted, no outer whitespace |
| EnvFile.SafeKeysReadIff | hg_core/setup_data.py:129-133 | The same for the three keys that are ever written |
| EnvFile.RewriteIsStable | hg_core/setup_data.py:165-196 | A second write with nothing new leaves such a file as it is |
| EventChain.EventStream.EmitEvent | hg_gateway/events_ledger.py:90-125 | Emitting appends one row with the digest of previous hash, id, timestamp and payload digest, and keeps every row linked to a newest row of its run or chat, and ids distinct; a taken event id raises |
| EventChain.RunIsLinearIff | hg_gateway/events_ledger.py:62-73 | In any interleaving of whole emissions the events of a run are sure to form one chain without a fork, however ties are broken, if and only if their timestamps, but for the last, rise in text order; up to a collision |
| EventChain.ChatIsLinearIff | hg_gateway/events_ledger.py:62-73 | With rising timestamps the events of any chat form one chain without a fork if and only if, before each of them that belongs to a run, the last event of the run is the last of the chat; up to a collision |
| EventChain.RunlessChatIsLinearIff | hg_gateway/events_ledger.py:62-73 | The events of a chat without events of runs are sure to form one chain, however ties are broken, under the exact condition of a run; up to a collision |
| EventChain.OverlapForksIff | hg_gateway/events_ledger.py:110-124 | With query and INSERT as two statements, the events of a run with rising timestamps form one chain if and only if no event of the run is inserted between the query and the INSERT of another; up to a collision |
| EventChain.DistinctOrCollide | hg_gateway/events_ledger.py:108-113 | Rows of distinct events have distinct hashes, unless two of the hashed texts collide |
| EventChain.ChatOfRunForks | hg_gateway/events_ledger.py:62-73 | A chat with events of a run and events without one can fork even so |
| EventChain.WholeSecondSortsLast | hg_gateway/events_ledger.py:108 | A timestamp without a fraction sorts after every fraction of its second |
| EventChain.LinksAreWellFounded | hg_gateway/events_ledger.py:62-125 | Every link names the hash of an earlier row of the same tenant and run, or without a run of the same tenant and chat |
| EventChain.FirstIffUnlinked | hg_gateway/events_ledger.py:62-73 | A row names no other if and only if there is none of its tenant and run, or chat, before it |
| EventChain.SelectPlaces | hg_gateway/events_ledger.py:62-73 | The rows of a run or chat are exactly those of its tenant and id, in the order of the table |
| EventChain.InputIsInjective | hg_gateway/events_ledger.py:112 | The hashed text determines previous hash, event id, timestamp and payload digest although timestamps hold colons |
| EventChain.LastHashFixesEvents | hg_gateway/events_ledger.py:108-113 | Two chains with the same last hash have the same events in the same order, unless two of the hashed texts collide |
| Bundle.FrameReadsIff | hg_gateway/bundle.py:70-87 | A file of records gives the records back if and only if none is empty or holds a line break and the first and last have no outer whitespace |
| Bundle.ReadIsFramed | hg_gateway/bundle.py:122-131 | Whatever a file holds, what is read from it could have been written record by record |
| Bundle.CheckChain | hg_gateway/bundle.py:133-143 | The loop that stops at the first mismatch and the test of the length find no error if and only if the stored chain is the recomputed one; otherwise they name the first record that does not match, and the length if it is wrong |
| Bundle.ValidateBundle | hg_gateway/bundle.py:106-144 | A bundle is accepted if and only if its five files are there and the stored chain is that of its records; otherwise those errors are reported |
| Bundle.BuiltIsAccepted | hg_gateway/bundle.py:31-103 | Every built bundle is accepted, and replays its messages and then its approvals |
| Bundle.AcceptedWithOneChain | hg_gateway/bundle.py:91-98 | Two accepted bundles with one chain hold the same records in the same order, unless two of the hashed texts collide |
| Bundle.MovedRecordIsAccepted | hg_gateway/bundle.py:122-143 | A record moved from the transcript to the approvals leaves chain and acceptance as they were, and changes the replay |
| Bundle.ReplayAlikeIff | hg_gateway/bundle.py:106-166 | Two accepted bundles with one chain replay alike if and only if they have as many messages and as many approvals, unless two of the hashed texts collide |
| Bundle.DiffRecords | hg_gateway/bundle.py:184-192 | A file's reported differences are exactly the positions that differ and the two lengths if they do, and none if and only if both lists say the same |
| Bundle.DiffBundles | hg_gateway/bundle.py:169-208 | The message differences are those of the transcripts and the approval differences those of the approvals; nothing is reported if and only if both say the same |
| ResearchRun.PayloadBindsIff | hg_gateway/multimodel_research.py:43-49 | Two records have one payload if and only if they differ in digest, receipts and update time at most |
| ResearchRun.CreateRunIff | hg_gateway/multimodel_research.py:126-191 | A run is created if and only if there is a query, at least two analysts without a repetition, and a synthesis model that is none of them, blanks apart |
| ResearchRun.TrimmedPlaces | hg_gateway/multimodel_research.py:127 | The analysts are the names that are not blank, stripped, in their order |
| ResearchRun.TraceInOrder | hg_gateway/multimodel_research.py:303-353 | The full trace is the start, each analyst's start and completion in turn with its model's answer, those of the synthesis, and the end |
| ResearchRun.Execution.RunAnalyst | hg_gateway/multimodel_research.py:304-331 | One analyst adds its start, its analysis and its completion, or stops the run at the event that stops it |
| ResearchRun.Execution.ExecuteRun | hg_gateway/multimodel_research.py:283-359 | A run completes if and only if every model answers and every callback returns, then with one analysis for each model in order, a synthesis and its own digest; otherwise its new events are the full trace up to the first event whose callback raises or whose model call fails, closed by a failure unless that is the first event; the exception escapes there or when the callback raises on the failure. The callback is shown every event once and in order, and an ended run only with the event that ends it |
| Community.RunKeeps | hg_gateway/community.py:90-105 | Over any sequential run with rising times the receipts in the store are one chain, append-only as long as the store can be read, tools ran only under an approved lease and were denied only without one, and a record that was created, started and loaded by its task shows as ended only with all its receipts, and as completed only with all its analyses and a matching digest |
| Community.ReceiptsExtend | hg_gateway/community.py:90-105 | Receipts made at rising times each name the one before them |
| Community.ReceiptsAreLostIff | hg_gateway/community.py:65-87 | An operation loses receipts if and only if it writes over a store with receipts that it could not read |
| Community.ReceiptsLinearIff | hg_gateway/community.py:90-105 | Receipts form one chain if and only if, each time one is made, the one before it sorts after all others, by time and then by the order of the request or the ids in the file; up to a collision |
| Community.SameTimeForksIff | hg_gateway/community.py:92-93 | Of three receipts, made by three requests and the first two at one time, the last two name the same one if and only if the second has the lesser id |
| Community.LeasesStep | hg_gateway/community.py:612-668 | Every operation keeps the stored leases equal to what the receipts alone show, and every tool receipt in agreement with them |
| Community.ActiveIff | hg_gateway/community.py:626-638 | A lease is active if and only if the last receipt of it is an approval |
| Community.LeaseIs | hg_gateway/community.py:612-638 | A lease has the capability of its last request, and is requested, active, revoked or expired as its last receipt says |
| Community.ApprovedIff | hg_gateway/community.py:656-662 | Some lease covers a tool if and only if its last request was for that tool or for all, and the last receipt of it is an approval |
| Community.EndedRunOk | hg_gateway/community.py:367-426 | However a task ends, its record gets a receipt for its start, each model call and its end; the digest of a completed one still matches after they are attached |
| Community.CreatedIsStarted | hg_gateway/multimodel_research.py:126-191 | A created record has at least two distinct analysts, none of them the synthesis model, and once started exactly one receipt |
| Community.CommunityStore.RunTool | hg_gateway/community.py:656-667 | A tool runs if and only if, by the receipts alone, some lease was last requested for it or for all tools and the last receipt of that lease approves it; it leaves one receipt either way |
| Community.CommunityStore.LeaseAction | hg_gateway/community.py:626-638 | An action changes an existing lease and leaves a receipt; a missing lease or unknown action changes nothing |
| Community.CommunityStore.PersistProgress | hg_gateway/community.py:352-364 | The callback stores the record with the receipts it had and never as ended, touches no other record, and keeps the invariant of the store |
| Community.CommunityStore.FinishResearch | hg_gateway/community.py:367-426 | The background task makes a receipt for each analysis in order, the synthesis and the end, attaches their ids in that order, and keeps the invariant of the store |
| SessionBudget.TrimTwice | hg_core/session_manager.py:217-228 | Trimming to n and then to m is trimming to the smaller, at any depth of dictionaries |
| SessionBudget.TrimIsTrimmedIff | hg_core/session_manager.py:217-228 | The trim is the one result with the same keys in order, the last entries of every list field at any depth of dictionaries, and all else as it was |
| SessionBudget.TrimIsMonotone | hg_core/session_manager.py:217-228 | A shorter trim never has a higher estimate |
| SessionBudget.TrimContextListFields | hg_core/session_manager.py:217-228 | The loop over the items, recursive in dictionaries, keeps the last entries of every list field, as many as allowed, and all else |
| SessionBudget.CapEndsIff | hg_core/session_manager.py:231-245 | The loop ends, within six passes, if and only if the context fits with one entry in every list; otherwise its guard holds after any number of passes |
| SessionBudget.EstimateDictCounts | hg_core/session_manager.py:61-86 | An estimate is what the texts and scalars at any depth count together, a fourth of their characters each and at least one for a text |
| SessionBudget.CompactedMemory.CapContextTokens | hg_core/session_manager.py:231-245 | A context within its share stays; of any other every list field keeps its newest 50, 40, 30, 20, 10 or 1 entries, the greatest of these numbers with which the whole fits |
| SessionBudget.CutFromFront | hg_core/session_manager.py:383-391 | The inner loop leaves the newest item of a section over its share, whatever the sizes |
| SessionBudget.CutFitsIff | hg_core/session_manager.py:380-391 | A section ends within its share if and only if its newest item is |
| SessionBudget.CutIsLongestIff | hg_core/session_manager.py:383-391 | What is left is the longest suffix that fits if and only if the two newest items together do not fit |
| SessionBudget.CompactedMemory.EnforceBudget | hg_core/session_manager.py:360-393 | Within the budget nothing changes; over it every section over its share is cut and the context capped |
| SessionBudget.EnforcedTotal | hg_core/session_manager.py:360-393 | If newest items and trimmed context fit, the total is at most max(400, max_tokens), and each section is whole or its newest item |
| SessionBudget.ShareIsAnEighth | hg_core/session_manager.py:371-373 | A section's share is an eighth of the budget, but at least 50 |
| SessionBudget.AddLeavesFirsts | hg_core/session_manager.py:177-188 | Rows by first appearance are the first row of each signature, in order, and none is missing |
| SessionBudget.MergeUniqueRows | hg_core/session_manager.py:177-188 | The loop with its set of signatures computes the merge |
| SessionBudget.MergedAreDistinct | hg_core/session_manager.py:177-188 | Rows merged from any sources have distinct signatures and never exceed the limit |
| SessionBudget.MergedInFirstSeenOrderIff | hg_core/session_manager.py:177-188 | They are all rows by first appearance if and only if there are no more of those than the limit |
| SessionBudget.OrderIsKeptIff | hg_core/session_manager.py:177-188 | After every source the merged rows are the newest rows, up to the limit, of all rows by first appearance, if and only if no source leaves a row that came before it and had been cut |
| SessionBudget.NoReturnKeepsOrder | hg_core/session_manager.py:177-188 | They are so whenever every row that comes again is still among the merged ones, whatever was cut |
| SessionBudget.CutRowsComeLast | hg_core/session_manager.py:186-187 | A row that was cut and comes again is put last: the order is lost with three rows and a limit of two |
| Rules.Monotone | hg_gateway/monitoring_rules.py:13-62 | Raising or adding features never falsifies a nesting of `and` and `or` over `>=` and `>` |
| Rules.DependsOnMentioned | hg_gateway/monitoring_rules.py:13-62 | The result depends on the mentioned keys only |
| Rules.AtThreshold | hg_gateway/monitoring_rules.py:49-60 | At the threshold exactly `>=`, `<=` and `==` hold |
| Rules.AwayFromThreshold | hg_gateway/monitoring_rules.py:49-60 | Away from it by the tolerance or more, exactly `!=` and the comparisons of the feature's side hold |
| Rules.WithinTolerance | hg_gateway/monitoring_rules.py:57-60 | Closer than that, `==` holds with the comparisons of the feature's side |
| Rules.EvaluatesTheKnown | hg_gateway/monitoring_rules.py:13-62 | A condition of any nesting holds if and only if three-valued logic, with malformed comparisons and missing features left open, makes it true, and its dual if and only if it makes it false |
| Rules.DualIsNegationIff | hg_gateway/monitoring_rules.py:13-62 | Swapping `and` and `or` and complementing every operator negates the result if and only if three-valued logic does not leave it open |
| Rules.DualIsNegation | hg_gateway/monitoring_rules.py:13-62 | It does so when every comparison is well-formed and has its feature |
| Rules.FiringsAreSpaced | hg_gateway/monitoring_rules_store.py:108-169 | Over any run of evaluations two firings in a row of a rule for a tenant and chat are at least the current cooldown apart |
| Rules.FiringsInWindow | hg_gateway/monitoring_rules_store.py:108-169 | With a fixed cooldown of c seconds at most floor(w / c) + 1 firings fall in any window of w seconds |
| Rules.FiresIff | hg_gateway/monitoring_rules_store.py:108-169 | An attempt fires if and only if its action is known, its condition holds, and its cooldown is not positive, or its key has not fired, or the cooldown has passed between the record of its last firing and this check |
| Rules.RuleStore.EvaluateRules | hg_gateway/monitoring_rules_store.py:140-169 | The loop looks at every rule in order, for the tenant and chat and with its condition evaluated on the features, and reports exactly those that fire, in order |
| MemoryGc.ArchiveAndPrune | hg_core/memory_gc.py:281-346 | The pass moves the oldest items to the archive in two writes, and reports the items archived and pruned and the errors for every combination of failures |
| MemoryGc.PassLeavesNewest | hg_core/memory_gc.py:311-346 | A pass whose reads and writes succeed splits a list over the cap: its newest items, as many as the cap, stay and those before them are archived in order; else the live list stays |
| MemoryGc.KeepsArchiveIff | hg_core/memory_gc.py:317-331 | A pass keeps what was archived if and only if it does not write over an archive it could not read, or writes the same items there |
| MemoryGc.ConservesIff | hg_core/memory_gc.py:281-346 | A pass keeps archive and live list as one list if and only if it neither writes over an unread archive nor fails to prune what it archived, but for an archive equal to what is written over it |
| MemoryGc.LosesNothing | hg_core/memory_gc.py:281-346 | Over any run without the former, the live list is the end of the history and everything before it is archived, whatever writes fail |
| MemoryGc.ConservedIff | hg_core/memory_gc.py:281-346 | Archive and live list are then the history in order if and only if no pass archived what it could not prune |
| MemoryGc.WithinCap | hg_core/memory_gc.py:312-346 | After a pass the live list is within the cap if and only if it was before or every read of it and every write succeeded |
| MemoryGc.TtlPrune | hg_core/memory_gc.py:189-278 | The loops compute the prune, for every combination of failures, and report how many posts are gone |
| MemoryGc.TtlKeepsRecent | hg_core/memory_gc.py:217-278 | Exactly the posts with a date before the cutoff are dropped, the others stay, both in order, and each dropped post has its summary after those of before |
| MemoryGc.TtlLosesNothing | hg_core/memory_gc.py:248-277 | Posts go only once read and written, and summaries only with a file of them that could not be read and is written over |

## Left out

- SqlInsert.ReplaceKeepsSlots: one direction; SqlInsert.ReplaceKeepsSlotsIff has the exact condition
- SqlInsert.ReplaceKeepsSlotsIff: not for a table name with an unmatched quote, which no database accepts
- SqlInsert.ReplaceKeepsSlotsIffNames: for statements and names that close their quotes
- UpsertText.UpsertReads: for table, target and column names without quote, comma, parenthesis, dot, equals sign or whitespace
- PostingMutex.StepInv: an asynchronous exception between a change of the pending set and the flag beside it is no step
- PostingMutex.QuietRunsExclude: one direction, about single runs; PostingMutex.ExcludesIff is exact about the callers
- Rules.DualIsNegation: one direction; Rules.DualIsNegationIff has the exact condition
- SessionBudget.NoReturnKeepsOrder: one direction; SessionBudget.OrderIsKeptIff is exact
- The driver is modelled as reading `%s`, `%b`, `%t`, `%(name)s` and `%%`; its other percent formats count as unreadable, and so does a percent sign at the very end of the text or before a line break, which it may take for a literal
- `PRAGMA` and `sqlite_master` rewrites, `datetime('now')` and the schema renderer: fixed texts
- Upsert.UpsertIsReplaceIff: requires key columns without NULL, which SQL holds different from itself; other constraints, triggers and defaults that are not constants are not modelled
- Other sessions on the same table; the savepoint's name is reused, so that only the newest is rolled back to
- SQL comments that nest, escape strings and dollar quotes in the comparison of the scanners with SQL
- Clock readings are integers in the order the code compares them; only the event chain compares timestamp texts. In the community store that order is the text order too, so that there as well a whole second comes after its fractions
- EventChain.RunIsLinearIff: of whole emissions; EventChain.OverlapForksIff has the query and the INSERT as two statements
- A file or database write happens whole or fails; a write that stops half-way is not part of the model
- Hash functions are uninterpreted; where collisions matter the result is stated up to a collision among the texts hashed
- JSON encoding and decoding, apart from the lines of a bundle; a memory archive whose JSON is no dictionary, and a list where a dictionary is expected in a dedupe file
- `posting_lock` without content: the same steps without the pending set
- Removing the posting lock file on Windows, where an open file cannot be removed
- Titles, owners, metadata and timestamps of content documents and versions; a path that changes its class between two syncs
- Version ledgers of `hg_gateway/artifact_registry.py` and the evidence ledger of `hg_gateway/events_ledger.py`: second instances of the modelled shapes
- Actor, type and reference columns of an event, which its hash does not cover
- Receipts and leases with ids that were used before; a lease's `expires_at`, which `run_tool` does not read
- Lost updates between two concurrent loads and saves of the community store
- The wording of prompts, provider errors and redaction of a research run; clock readings inside its timeline
- Lists inside lists and shared objects in a token estimate; floating point in token and rule arithmetic, where reals stand for floats and NaN is absent
- How features are chosen for a chat, and rules that are listed by their database order
- The promotion and daily-log archive of the garbage collection
- HTTP routes, authentication, Telegram, telemetry, setup screens and configuration files
