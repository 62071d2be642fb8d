# Translation importer and database-dump translator

This project models two parts of a PrestaShop translation toolkit in Dafny.

**The `translationimporter` module** (`translationimporter.php`). An administrator
uploads a ZIP archive of translation files and chooses a target:

- `theme` sends every file to the active theme's translation folder for one language;
- `core` sends every file to the shop's core translation folder;
- any other value auto-detects the target per file.

The module extracts the archive into `modules/translationimporter/tmp/<timestamp>`.
It walks that directory, and each file whose extension is exactly `xlf`, `php` or `tpl`
is flattened to its bare file name and copied into its destination folder. A file the
copy would replace is first copied to `modules/translationimporter/backups/<timestamp>/`.
Copy failures are logged, a summary counts the imports and backups, and the temporary
directory is removed.

**The dump translator** (`scripts/universal_translator.py`). It reads a JSON dump
`{table: {"rows": [row, ...]}}`. It collects every text column worth translating under
the key `<table>::<row>::<column>`. It sends the texts to a translation service in
batches of 15, allowing up to 3 attempts per batch. Every usable answer is written back
into the dump.

Modules:

- `Wrappers`: the `Option` type.
- `Paths`: `basename`, `pathinfo` extension and `strpos` over plain path strings.
- `Store`: the file store, a map from file path to content. Directories are implicit:
  a path is a directory when some file lies beneath it. The class `Store.FileSystem`
  holds that map and a fixed set of locked paths. `copy`, `unlink` and `mkdir` fail on a
  locked path. Extraction does not check `locked` and writes such paths anyway.
  - `copy`, `unlink` and `ZipArchive::extractTo` are methods that update the map.
    `copy` and `unlink` report failure and change nothing when they are refused.
  - `mkdir`, `is_dir`, `file_exists` and `scandir` are query methods. Each returns
    the store predicate of the same name (`MkdirAllowed`, `IsDir`, `FileExists`,
    `Children`) and changes nothing.
- `TranslationImporter`: the specification functions and the imperative model.
  - The functions are `Destination`, `Target`, `BackupPath`, `Step`, `Run` and `Summary`.
  - The methods are `ProcessUpload`, `DistributeFiles`, `GetDirContents` and
    `RecursiveRemoveDir`.
  - `DistributeFiles` and its loop body are proved equal to `Run`, `Step` and `Summary`.
  - `GetDirContents` is proved to return a listing (`IsListing`): every file beneath the
    directory, each exactly once.
  - `RecursiveRemoveDir` is proved to leave `Cleared`: the old store without the
    unlocked files beneath the directory.
  - `ProcessUpload` is proved to combine these: extraction, then the run, then `Cleared`.
- `ImporterProofs`: properties of the distribution run.
- `Translator`: the dump, the column filter, the keys, batching and the retrying
  service call as functions. `process_translation` and `translate_batch` are loops
  proved against them.
- `TranslatorProofs`: properties of collection, keys, batching, the service outcomes
  and the write-back.

Two facts about destinations:

- The `core` destination is `<root>/app/Resources/translations/<iso>/`
  (translationimporter.php:106-111).
- Auto-detection tests the full staged path (translationimporter.php:112-122). That path
  includes the shop's installation directory, so a root containing `Theme` routes every
  file to the theme, as `ImporterProofs.AutoRoutingSeesInstallPath` states.

## Model

| member | source | states |
|---|---|---|
| TranslationImporter.ProcessUpload | translationimporter.php:56-84 | An archive that cannot be opened yields only the open-failure error. A temporary directory that cannot be created yields only its error. In both cases the store is unchanged. Otherwise the archive is extracted under `tmp/<timestamp>`, the staged files are listed completely, the output is the run's summary, and the final store is the run's store with every unlocked file under the temporary directory removed. |
| ImporterProofs.UploadFrame | translationimporter.php:56-84 | After a successful upload, no file that existed before is lost, apart from the cache files cleared at translationimporter.php:75-78, which the model leaves out. The only files left under the temporary directory are locked extracted files, with their extracted content. Every other file that differs from before is the target or the backup of some staged file. |
| TranslationImporter.DistributeFiles | translationimporter.php:86-155 | The walk lists every file beneath the source directory exactly once. The new store is the store of `Run` over that list. The returned messages are the copy errors in order, then the summary. |
| TranslationImporter.DistributeFile | translationimporter.php:95-146 | One loop iteration updates the store, both counters and the log exactly as `Step` does. |
| ImporterProofs.StepSkips | translationimporter.php:96-101 | A file whose extension is not accepted changes nothing. |
| ImporterProofs.AcceptedIffSuffix | translationimporter.php:96-101 | A file name is accepted exactly when it ends in `.xlf`, `.php` or `.tpl`. |
| ImporterProofs.AcceptedOnlyMembers | translationimporter.php:95-101 | The files that take part in a run are exactly the staged files with an accepted extension. |
| ImporterProofs.RejectedFilesIgnored | translationimporter.php:95-101 | A run over all staged files equals a run over only the accepted ones. |
| TranslationImporter.ThemeDirIsNotCoreDir | translationimporter.php:106-111 | The theme folder and the core folder of a language are different paths. |
| TranslationImporter.DestinationChoice | translationimporter.php:103-122 | Every file goes to the theme folder or the core folder. `theme` forces the theme folder and `core` forces the core folder. In auto mode a file goes to the core folder if and only if it has a core marker (`prestashop` in its path, or a name starting `Admin`) and no theme marker (`Theme` in its path, or a name starting `Shop`). |
| ImporterProofs.AutoRoutingSeesInstallPath | translationimporter.php:112-122 | In auto mode, a shop root containing `Theme` sends every staged file to the theme folder. A root containing `prestashop` sends every file without a theme marker to the core folder. |
| ImporterProofs.DifferentNamesDifferentPaths | translationimporter.php:124-136 | Files with different base names get different targets and different backup paths. |
| ImporterProofs.TargetIsNotBackup | translationimporter.php:129-136 | No target path is ever a backup path. |
| ImporterProofs.WritesOutsideStaging | translationimporter.php:58-136 | No target and no backup lies inside the temporary directory. |
| ImporterProofs.StepBackup | translationimporter.php:131-139 | The backup count rises by one exactly when the file is accepted, its target exists and the copy to the backup is allowed; otherwise it is unchanged. After a backup, the backup holds the target's previous content. |
| TranslationImporter.BackUpExisting | translationimporter.php:131-139 | Checking the target and copying it to the backup folder changes the store and the backup count exactly as `BackUp` does. |
| ImporterProofs.StepDelivery | translationimporter.php:141-145 | The import count rises by one exactly when the copy onto the target is allowed. The target then holds the staged file's content and the log is unchanged. Otherwise the count is unchanged and the log gains one copy failure naming the file. |
| TranslationImporter.CopyInto | translationimporter.php:141-145 | Copying the staged file onto its target changes the store, the count and the log exactly as `Deliver` does. |
| ImporterProofs.StepFrame | translationimporter.php:95-146 | One step loses no file. It changes only the target and the backup path of the file it handles, and only when that file is accepted. |
| ImporterProofs.StepCounts | translationimporter.php:95-146 | One step adds one to imports plus logged failures exactly when the file is accepted. The backup count rises by at most that much. The log only grows, and only by copy failures. |
| ImporterProofs.RunFrame | translationimporter.php:95-147 | A run loses no file, and every changed path is the target or the backup of an accepted staged file. |
| ImporterProofs.NotWrittenKept | translationimporter.php:95-147 | A path that is no staged file's target or backup is present after the run exactly when it was present before, with the same content. |
| ImporterProofs.StagingUntouched | translationimporter.php:58-147 | Files under the temporary directory keep their content throughout the run. |
| ImporterProofs.RunAccounting | translationimporter.php:92-147 | Imports plus logged failures equal the number of accepted staged files. Backups are at most that number, and the log holds only copy failures. |
| ImporterProofs.ReportAccounting | translationimporter.php:149-154 | The output ends with one summary: imports plus the messages before it equal the accepted files, and it carries the chosen mode. A backup line is present exactly when backups were made, and it states their number. Every earlier message is a copy failure. |
| ImporterProofs.BackupsHoldPreRunContent | translationimporter.php:129-141 | When no other accepted staged file shares a file's name and its backup path is new, a backup present after the run holds the content that file's target had before the run. |
| ImporterProofs.LastBackupHoldsPreRunContent | translationimporter.php:129-141 | The same property for the last staged file, when no earlier accepted staged file shares its name. |
| ImporterProofs.SameNameBacksUpEarlierImport | translationimporter.php:129-141 | When two staged files share a base name and a destination, the second one's backup holds the first one's imported content, not the content from before the run. |
| ImporterProofs.SameNameOtherFolderLosesBackup | translationimporter.php:103-141 | When two staged files share a base name but go to different destinations, both back up to the same backup path, so the second backup replaces the first. |
| ImporterProofs.RunDelivers | translationimporter.php:95-147 | An accepted staged file whose copy succeeded, and whose target no later accepted staged file shares, is found at its target after the whole run, with its extracted content. Earlier files with the same target do not matter, because this file's copy overwrites them. A later file of the same name routed to the other folder does not matter either. |
| ImporterProofs.PreExistingTargetBackedUp | translationimporter.php:129-147 | When no other accepted staged file shares a file's name and that file's step makes a backup, its target existed before the run, and after the whole run its backup is still present and holds the target's pre-run content. |
| TranslationImporter.RunKeepsWellFormed | translationimporter.php:95-147 | A run keeps the store a proper tree: no file lies beneath another file. |
| TranslationImporter.StepKeepsWellFormed | translationimporter.php:131-145 | One file's backup and delivery keep the store a proper tree. |
| TranslationImporter.GetDirContents | translationimporter.php:227-238 | The result lists every file beneath the directory, each exactly once, and nothing else. |
| TranslationImporter.RecursiveRemoveDir | translationimporter.php:240-253 | The store afterwards is the old store without every file beneath the directory that `unlink` may remove. Locked files stay, because their failed `unlink` is ignored. A path with nothing beneath it leaves the store unchanged. |
| Store.FileSystem.Copy | translationimporter.php:136-141 | `copy` succeeds exactly when the source is a file and the destination is an unlocked path that is neither a directory nor beneath a file. On success only the destination changes, and it takes the source's content. On failure nothing changes. |
| Store.FileSystem.Unlink | translationimporter.php:248 | `unlink` succeeds exactly when the path is a file and is not locked. On success it removes exactly that file. On failure nothing changes. |
| Store.FileSystem.ScanDir | translationimporter.php:228-242 | A name is returned exactly when it has no slash and `dir/name` is a file or a directory. |
| Store.ChildrenIff | translationimporter.php:228-242 | The entry names of a directory are exactly the slash-free names `n` such that `dir/n` is a file or a directory. |
| Store.FileSystem.ExtractTo | translationimporter.php:65 | Extraction adds every archive entry beneath the directory and keeps the store a proper tree. |
| Store.PlacedKeepsWellFormed | translationimporter.php:60-65 | Extracting a well-formed archive into a directory that could be created keeps the store well formed. |
| Store.CopyKeepsWellFormed | translationimporter.php:136-141 | An allowed copy keeps the store well formed. |
| Store.RemovalKeepsWellFormed | translationimporter.php:248 | Removing files keeps the store well formed. |
| Paths.AfterLastIsTail | translationimporter.php:96-97 | The text after the last separator is a separator-free suffix. It is either the whole string or preceded by a separator, and it is shorter when a separator occurs. |
| Paths.ExtensionSplits | translationimporter.php:97 | The extension contains no dot and is empty for a name without a dot. A name with a dot is its stem, a dot and its extension. |
| Paths.AfterLastOfTail | translationimporter.php:96-129 | The base name of `dir + "/" + name` is `name` when `name` has no slash. |
| Paths.ContainsExtended | translationimporter.php:114-116 | A substring occurrence survives text added on either side. |
| Translator.ProcessTranslation | scripts/universal_translator.py:90-159 | The translated dump is `Translated(data, client)`: the collected texts, cut into batches and sent in order, with each answer written back before the next batch is sent. |
| Translator.CollectItems | scripts/universal_translator.py:101-125 | The collected items are the dump's collectable texts, in table, row and column order. The key map is built from exactly those items. |
| Translator.CollectRows | scripts/universal_translator.py:108-125 | Scanning a table's rows appends that table's collectable texts in row order and keeps the key map in step with the items. |
| Translator.CollectFields | scripts/universal_translator.py:110-125 | Scanning a row appends its collectable texts in column order and keeps the key map in step with the items. |
| TranslatorProofs.FieldItemsIff | scripts/universal_translator.py:110-125 | An item is collected from a row if and only if it names that table and row and the row has that column holding that text, and the column passes the filter. |
| TranslatorProofs.RowItemsIff | scripts/universal_translator.py:109-125 | An item is collected from a table's rows if and only if its row index is in range and it is collected from that row. |
| TranslatorProofs.DocItemsIff | scripts/universal_translator.py:107-108 | An item is collected from the dump if and only if some table with a `rows` entry and the item's table name yields it. |
| TranslatorProofs.CollectedColumnPlain | scripts/universal_translator.py:112-119 | Every collected item's column is one of the translated columns and contains no colon. |
| TranslatorProofs.StripSpec | scripts/universal_translator.py:114 | `strip()` returns the middle of the string with only whitespace removed on both sides, and what remains neither starts nor ends with whitespace. |
| TranslatorProofs.RemoveDotsMembers | scripts/universal_translator.py:116 | Removing dots keeps exactly the non-dot characters. |
| TranslatorProofs.NumberTest | scripts/universal_translator.py:116 | A text counts as a number if and only if it has some non-dot character and all its non-dot characters are digits. |
| TranslatorProofs.CollectedExamples | scripts/universal_translator.py:111-117 | `title` holding `Door` and `name` holding `...` are collected. |
| TranslatorProofs.SkippedTexts | scripts/universal_translator.py:111-117 | `1.5`, `http://shop.example` and ` a ` are skipped. |
| TranslatorProofs.SkippedColumns | scripts/universal_translator.py:111-113 | A column outside the list is skipped, and so is a non-string value. |
| TranslatorProofs.NatToStringDigits | scripts/universal_translator.py:119 | The row number in a key is a non-empty run of digits without a colon. |
| TranslatorProofs.NatToStringRoundTrip | scripts/universal_translator.py:119 | Reading the row number's digits back gives the row index. |
| TranslatorProofs.TranslateFieldsPlain | scripts/universal_translator.py:18-30 | No translated column name contains a colon. |
| TranslatorProofs.KeyInjective | scripts/universal_translator.py:119 | For colon-free columns, equal keys mean the same table, row and column. |
| TranslatorProofs.FieldItemsDistinct | scripts/universal_translator.py:110-125 | A row with distinct column names yields items for distinct cells. |
| TranslatorProofs.RowItemsDistinct | scripts/universal_translator.py:109-125 | A table's rows yield items for distinct cells. |
| TranslatorProofs.DocItemsDistinct | scripts/universal_translator.py:107-125 | A dump with unique table and column names yields items for distinct cells. |
| TranslatorProofs.KeysDistinct | scripts/universal_translator.py:119-125 | In such a dump the collected keys are pairwise distinct, so the ordered buffer never overwrites an entry. |
| TranslatorProofs.MappingSpec | scripts/universal_translator.py:125 | A key is in the map if and only if some item has that key, and the map sends it to such an item's cell. |
| TranslatorProofs.MappingOfItem | scripts/universal_translator.py:125-151 | Every collected item's key maps back to its own cell. |
| Translator.ChunksAppend | scripts/universal_translator.py:138-154 | Appending a batch of 1 to 15 items after whole batches adds exactly that batch. |
| TranslatorProofs.ChunksFlatten | scripts/universal_translator.py:131-154 | Concatenating the batches in order gives back the key sequence, so each key is sent once and in order. |
| TranslatorProofs.ChunkSizes | scripts/universal_translator.py:141 | Every batch holds 1 to 15 items, and every batch but the last holds exactly 15. |
| TranslatorProofs.ChunkCount | scripts/universal_translator.py:132 | The number of batches is `(n + 14) // 15`. |
| Translator.SendAll | scripts/universal_translator.py:131-154 | Sending the keys through the batch loop gives the dump with every batch's answers written back in order. |
| Translator.Push | scripts/universal_translator.py:138-154 | One loop turn adds the key to the open batch. When the batch reaches 15 keys or the key is the last, the batch is flushed and its answers are written back. Afterwards the flushed keys and the open batch together are the keys seen so far, the open batch is shorter than 15 keys, and it is empty after the last key. |
| Translator.SendBatch | scripts/universal_translator.py:141-154 | Flushing the open batch after whole batches equals writing back the answers of one more batch. |
| Translator.TranslateBatch | scripts/universal_translator.py:43-87 | The result is `Translation(client, batch)`: `{}` for an empty batch, otherwise the first of three attempts that answers, and `{}` when all three fail. |
| TranslatorProofs.TranslationOutcomes | scripts/universal_translator.py:47-87 | An empty batch yields `{}`, and so does a batch whose three attempts all fail. |
| TranslatorProofs.FirstAnswerWins | scripts/universal_translator.py:64-81 | When attempt `a` is the first to answer, its answer is the result. |
| Translator.ApplyResults | scripts/universal_translator.py:149-152 | Writing back one answer in order equals `Apply`. |
| TranslatorProofs.SetCellAt | scripts/universal_translator.py:152 | Assigning one cell changes that cell and no other. |
| TranslatorProofs.ApplyAt | scripts/universal_translator.py:149-152 | After one answer is written back, each cell holds the last truthy answer for its key, or its old value. |
| TranslatorProofs.ApplyBatchesAt | scripts/universal_translator.py:138-154 | After a sequence of batches, each cell holds the last truthy answer given for it across all batches, or its old value. |
| TranslatorProofs.TranslatedAt | scripts/universal_translator.py:90-159 | In the translated dump, each cell holds the last usable answer for its key, or its original value. |
| TranslatorProofs.OnlyCollectedCellsChange | scripts/universal_translator.py:111-152 | A cell that was not collected keeps its value. |
| TranslatorProofs.FailingServiceChangesNothing | scripts/universal_translator.py:64-152 | If the service never answers, the dump is unchanged. |
| TranslatorProofs.TranslatedKeepsShape | scripts/universal_translator.py:149-152 | Translation keeps the tables, their order, the row count and every row's column names. Only values change. |

## Left out

- The upload check on `$_FILES` and its error (translationimporter.php:46-48) are left out. `ProcessUpload` starts once the upload has been accepted. The archive is a parameter, `None` when it cannot be opened.
- `date()` and the shop context's theme lookup are left out. The timestamp and the theme name are parameters (`Job`, `Site`).
- `_PS_MODULE_DIR_` is taken to be `<root>/modules/`, PrestaShop's own layout.
- The cache clearing after an import (translationimporter.php:75-78) is left out. It does not touch translation files.
- HTML rendering, `l()` translation of messages and the form (`renderForm`) are left out. Messages are a datatype.
- ZIP parsing is left out. The archive is a well-formed set of entries, and extraction ignores locked paths.
- `realpath` normalisation of `.` and `..` is left out. Paths are plain strings, and the temporary directory is written without its trailing slash, as `realpath` returns it.
- Directory permission modes are left out. The `mkdir` of the destination and backup folders (translationimporter.php:125-127, 133-135) is a no-op, because directories are implicit in the store.
- The order of `scandir` is left out. The walk order is unspecified, and the listing and distribution properties hold for every order.
- `scandir`'s `.` and `..` entries are left out. `ScanDir` does not produce them, so their skipping (translationimporter.php:233, 244) has nothing to act on.
- Symbolic links are left out.
- The final `rmdir` of an emptied directory (translationimporter.php:251) is left out. An empty directory does not exist in the store.
- The export and database-clone features of the toolkit are not part of this model.
- The translation service, prompt building, JSON encoding and decoding, `time.sleep`, printing, command-line parsing, the API key check, and reading and writing the dump files are left out. The service is a function from batch and attempt number to an answer or a failure.
- Floating-point numbers in the dump are modelled as integers. The filter only tests their type.
- Unicode in the column filter is left out. `strip()` removes ASCII whitespace only, and `isdigit()` accepts ASCII digits only.
- A table whose `rows` is not a list, or an answer that is valid JSON but not an object, would crash the script. They are not modelled.
- The service's answer is any sequence of key and value pairs, and it may repeat a key. This is a superset of the objects `json.loads` returns, so `TranslatorProofs.ApplyAt`'s "last truthy answer" covers every real reply.
- Python dictionaries are modelled as ordered sequences. In a dump with unique table and column names the keys are distinct (`TranslatorProofs.KeysDistinct`), so a sequence and an insertion-ordered dictionary agree.
- Duplicate base names in one archive are modelled as the code behaves, with two cases:
  - In the same destination, the later file overwrites the earlier one, and its backup holds the earlier import (`ImporterProofs.SameNameBacksUpEarlierImport`).
  - In different destinations, both files share one backup path, so the second backup replaces the first, and the first target's previous content is no longer backed up (`ImporterProofs.SameNameOtherFolderLosesBackup`).
