# Habisolute OS patch kit — a Dafny model

This project models the maintenance patch kit of the "Habisolute OS" Streamlit
application. It has two parts.

**The patch script** (`apply_patch.py`) picks the application file (`app.py`, else
`hab_os_app.py`). It copies that file to a `.bak` backup, then applies four text rewrites
in a fixed order, and writes the result to `app_patched.py`. The four rewrites are:

1. `patch_sidebar`: the first `st.set_page_config(...)` call gets
   `initial_sidebar_state="expanded"`.
2. `patch_flash`: the broken opening of `def flash` is repaired.
3. `patch_indexes`: the start-up `CREATE INDEX` block is replaced by a guarded one when
   the needle is found; otherwise the guarded block is inserted after every
   `Base.metadata.create_all(engine)` and the old block stays. As written, the needle is
   never found in a file without a backslash (see Findings).
4. `patch_inline_nav`: a horizontal navigation selector is added after the sidebar radio.

**The parts of the application the kit is about** (`app.py`):

- the local user store: the default administrator, the migration of the old list format,
  listing and deletion;
- the queue of flash messages;
- the service-order numbering `gerar_numero_os`;
- the start-up block that creates the database indexes through `_create_index_safe`.

## Structure

| file | module | what it models |
|---|---|---|
| `wrappers.dfy` | `Wrappers` | `Option` |
| `text.dfy` | `Text` | Python `str` operations: `in`, `replace` (first or all), `strip`, `isspace`; `Join` builds the multi-line literals and, with `Split`, specifies `replace` |
| `sidebar.dfy` | `Sidebar` | `patch_sidebar`, with its regular expression written as a matcher for its one shape |
| `flash.dfy` | `FlashPatch` | `patch_flash`: a matcher for `h\s*?\n\s*m\s*?\n\s*e`, `re.search` and `re.sub(count=1)` |
| `indexes.dfy` | `IndexesPatch` | `patch_indexes`, the needle it looks for and its replacement block |
| `inline_nav.dfy` | `InlineNavPatch` | `patch_inline_nav` |
| `apply_patch.dfy` | `ApplyPatch` | `main`: file choice, backup, the rewrite pipeline, output |
| `users.dfy` | `Users` | `_bootstrap_admin`, `_load_users`, `user_list`, `user_delete`; the class `UserStore` holds the user map |
| `flash_queue.dfy` | `FlashQueue` | `flash` and `flash_render`; the class `MessageQueue` holds `st.session_state["_flash"]` |
| `os_number.dfy` | `OsNumber` | `gerar_numero_os`, Python's `int()`, `str()`, `split("-")[-1]` and `f"{n:04d}"` |
| `index_guard.dfy` | `IndexGuard` | `_create_index_safe` and the start-up index block |

**Modelling choices.**

- Files are a map from name to contents.
- The clock, the password hash and the database are parameters:
  - `now` is the current time as the application formats it;
  - `hash` is the hash of the default password;
  - `fails` says which SQL statements raise;
  - `LastOrder` is the last order found for the year.
- Regular expressions are modelled only for the patterns the script uses. Each matcher is
  proved sound and complete against a declarative predicate of what the pattern matches
  (`Sidebar.CallAt`, `FlashPatch.IsSite`).

## Model

| member | source | states |
|---|---|---|
| Text.ReplaceFirst | apply_patch.py:78 | `replace(pat, rep, 1)`: without an occurrence the text is unchanged; otherwise the leftmost occurrence, and only it, becomes `rep` |
| Text.ReplaceAll | apply_patch.py:80 | `replace(pat, rep)`: without an occurrence the text is unchanged; the text before the first occurrence is kept; a replacement no shorter than the pattern never shortens the text |
| Text.SplitSpec | apply_patch.py:80 | the pieces of a text cut at the leftmost non-overlapping occurrences of a non-empty pattern join back to the text, none holds the pattern, the first ends at the leftmost occurrence, and the rest are the split of the text after it |
| Text.ReplaceAllSplit | apply_patch.py:80 | `replace(pat, rep)` with a non-empty pattern is those pieces joined by `rep`: every occurrence is replaced |
| Text.ReplaceAllGrows | apply_patch.py:80 | when the pattern occurs and the replacement is longer, the result is strictly longer |
| Text.ReplaceAllContainsRep | apply_patch.py:80 | when the pattern occurs, the result contains the replacement |
| Text.Find | apply_patch.py:77 | finds a position exactly when `pat in s`, and the position is the leftmost occurrence |
| Text.StripSpec | app.py:172 | `strip()` is the input with a blank prefix and a blank suffix removed; it leaves no whitespace at either end, and is empty exactly when the input is all whitespace |
| Text.Strip | app.py:172 | `str.strip()`; specified by `Text.StripSpec` |
| Sidebar.CallMatch | apply_patch.py:13 | the leftmost match of `st\.set_page_config\(([^)]*?)\)`: the call at the first occurrence, closed by the first `)` after it; none exactly when no match exists anywhere |
| Sidebar.FirstCallIsLeftmost | apply_patch.py:13 | the match taken is the leftmost of all matches (both directions) |
| Sidebar.PatchSidebarNoCall | apply_patch.py:12-24 | without a match the text is unchanged |
| Sidebar.PatchSidebarKeepsSetting | apply_patch.py:18-19 | a first call that already mentions `initial_sidebar_state` is left as it is |
| Sidebar.PatchSidebarRewritesFirstCall | apply_patch.py:14-17 | otherwise only that call is rewritten: its arguments, `, ` unless they are blank, then `initial_sidebar_state="expanded"`; the text around it is kept |
| Sidebar.RewrittenCallIsFirst | apply_patch.py:12-24 | after the rewrite, the rewritten call is still the leftmost match |
| Sidebar.PatchFirstCallIdempotent | apply_patch.py:10-25 | for any call prefix with no self-overlap and any setting containing the key, a second application changes nothing |
| Sidebar.PatchSidebarIdempotent | apply_patch.py:10-25 | `patch_sidebar(patch_sidebar(c)) == patch_sidebar(c)` for every text |
| Sidebar.PatchSidebar | apply_patch.py:10-25 | `patch_sidebar`; specified by `PatchSidebarNoCall`, `PatchSidebarKeepsSetting`, `PatchSidebarRewritesFirstCall` and `PatchSidebarIdempotent` |
| FlashPatch.SiteAtSound | apply_patch.py:29 | every match the position matcher reports is a real match of `h\s*?\n\s*m\s*?\n\s*e` |
| FlashPatch.SiteAtComplete | apply_patch.py:29 | every real match is found by the position matcher, with the same gap ends |
| FlashPatch.FindSite | apply_patch.py:30 | `re.search` finds the leftmost position with a match, and finds none exactly when there is none |
| FlashPatch.FindSiteLeftmost | apply_patch.py:30 | the scan stops at the leftmost match |
| FlashPatch.PatchSiteLeftmost | apply_patch.py:31-37 | `re.sub(count=1)` replaces the leftmost match and keeps the text on both sides |
| FlashPatch.SearchAndSubIsPatchSite | apply_patch.py:30-37 | the `re.search` test before `re.sub` does not change the result |
| FlashPatch.PatchSiteOnce | apply_patch.py:27-38 | for patterns and replacements of the flash shape, a text with at most one match is left alone by a second application |
| FlashPatch.PatchFlashNoMatch | apply_patch.py:30 | without the broken opening, `patch_flash` changes nothing |
| FlashPatch.PatchFlashFirst | apply_patch.py:30-37 | the first broken opening becomes the working one; the text before and after it is kept |
| FlashPatch.PatchFlashOnce | apply_patch.py:27-38 | on a text with at most one broken opening, `patch_flash` is idempotent |
| FlashPatch.FixedLacksBuggyCall | apply_patch.py:33 | the replacement no longer calls the missing `st.session_state_inject_css` |
| FlashPatch.PatchFlash | apply_patch.py:27-38 | `patch_flash`; specified by `PatchFlashNoMatch`, `PatchFlashFirst` and `PatchFlashOnce` |
| IndexesPatch.SafeBlockHasName | apply_patch.py:53 | the replacement block contains the helper's name |
| IndexesPatch.PatchWithNeedle | apply_patch.py:77-78 | with the needle present, its first occurrence is replaced by the block |
| IndexesPatch.PatchWithFallback | apply_patch.py:80 | otherwise, with the anchor present, the text grows, keeps the anchor, gains anchor + newline + block, and is unchanged before the first anchor |
| IndexesPatch.PatchWithEveryAnchor | apply_patch.py:80 | without the needle, the text is its anchor-free pieces joined by the anchor, and the result is the same pieces joined by anchor + newline + block: every anchor gets the block |
| IndexesPatch.PatchWithNotIdempotent | apply_patch.py:77-80 | a block starting differently from the needle makes the fallback not idempotent |
| IndexesPatch.PatchIndexesNeedle | apply_patch.py:77-78 | `patch_indexes` with its needle present replaces the first occurrence by the safe block |
| IndexesPatch.PatchIndexesNoAnchor | apply_patch.py:77-80 | with neither the needle nor `Base.metadata.create_all(engine)`, nothing changes |
| IndexesPatch.PatchIndexesFallback | apply_patch.py:80 | without the needle, the block is injected after `create_all(engine)` |
| IndexesPatch.PatchIndexesEveryAnchor | apply_patch.py:80 | without the needle, every `Base.metadata.create_all(engine)` of the text is followed by a newline and the safe block, and nothing else changes |
| IndexesPatch.PatchIndexes | apply_patch.py:40-80 | `patch_indexes`; specified by `PatchIndexesNeedle`, `PatchIndexesNoAnchor`, `PatchIndexesEveryAnchor` and `PatchIndexesFallback` |
| IndexesPatch.PatchIndexesNotIdempotent | apply_patch.py:77-80 | when the fallback fires, a second run changes the text again |
| IndexesPatch.NeedleBackslash | apply_patch.py:43 | the needle holds a backslash where the block it targets has a line break |
| IndexesPatch.NeedleMissesBlock | apply_patch.py:42-51 | the needle does not occur in the block it was written to find |
| IndexesPatch.NeedleNeedsBackslash | apply_patch.py:42-51 | a text without a backslash never contains the needle |
| IndexesPatch.FixedWithIdempotent | apply_patch.py:40-80 | a rewrite that skips texts already holding its marker is idempotent when its block holds the marker |
| IndexesPatch.PatchIndexesFixedBlock | apply_patch.py:40-80 | the corrected rewrite replaces the line-separated block by the safe block |
| IndexesPatch.PatchIndexesFixedIdempotent | apply_patch.py:40-80 | the corrected rewrite is idempotent on every text |
| InlineNavPatch.InjectWithRewrites | apply_patch.py:85-95 | anchor present and title absent: the first anchor is replaced by the injection |
| InlineNavPatch.InjectWithIdempotent | apply_patch.py:82-96 | an injection that contains the title makes the rewrite idempotent |
| InlineNavPatch.InjectKeepsAnchor | apply_patch.py:86 | the injected text keeps the sidebar radio line |
| InlineNavPatch.InjectHasTitle | apply_patch.py:89 | the injected text contains `Navegação rápida` |
| InlineNavPatch.PatchInlineNavSkips | apply_patch.py:85 | without the radio line, or with the title already there, nothing changes |
| InlineNavPatch.PatchInlineNavRewrites | apply_patch.py:85-95 | otherwise the first radio line gets the injected lines after it |
| InlineNavPatch.PatchInlineNavIdempotent | apply_patch.py:82-96 | `patch_inline_nav` is idempotent on every text |
| InlineNavPatch.PatchInlineNav | apply_patch.py:82-96 | `patch_inline_nav`; specified by `PatchInlineNavSkips`, `PatchInlineNavRewrites` and `PatchInlineNavIdempotent` |
| ApplyPatch.SourceFile | apply_patch.py:99-104 | the chosen source exists; `app.py` is chosen whenever it exists, `hab_os_app.py` only when `app.py` does not, and there is none exactly when neither exists |
| ApplyPatch.BackUpAndWriteSpec | apply_patch.py:106-117 | status 0; the backup holds the original, the output holds the patched text, every other file is unchanged, and only those two names are added |
| ApplyPatch.MainWithoutSource | apply_patch.py:100-104 | without a source the run exits with status 2 and writes nothing |
| ApplyPatch.MainWithSource | apply_patch.py:98-117 | with a source (`app.py` first): status 0, the backup is the original, `app_patched.py` is the four rewrites applied in order, and the rest is unchanged |
| ApplyPatch.ApplyAllUntouched | apply_patch.py:110-114 | a text in which none of the four rewrites finds its anchor passes through unchanged |
| ApplyPatch.ApplyAll | apply_patch.py:110-114 | the four rewrites in source order; specified by `ApplyAllUntouched` and, through `MainWithSource`, as the output's content |
| ApplyPatch.Main | apply_patch.py:98-121 | `main`; specified by `MainWithoutSource` and `MainWithSource` |
| Users.Bootstrap | app.py:146-154 | the result always has `admin`; an existing `admin` and every other user are kept; a missing `admin` gets the default record; no other name is added |
| Users.BootstrapIdempotent | app.py:146-154 | bootstrapping twice, at any two times, is bootstrapping once |
| Users.UserStore.BootstrapAdmin | app.py:146-154 | the store's map becomes the bootstrapped map |
| Users.AfterDelete | app.py:214-218 | `admin` is never removed; another name is removed; nothing else changes |
| Users.DeleteKeepsAdmin | app.py:214-218 | deletion keeps `admin` and its record; deleting an absent name changes nothing |
| Users.UserStore.Delete | app.py:214-218 | the store's map becomes the map after deletion |
| Users.StrLessTotal | app.py:211 | Python's string `<` orders any two distinct strings |
| Users.StrLessTransitive | app.py:211 | Python's string `<` is transitive |
| Users.StrLessIrreflexive | app.py:211 | no string is below itself |
| Users.BeforeTransitive | app.py:211 | the sort key `(not is_admin, username)` is transitive |
| Users.BeforeTotal | app.py:211 | the sort key orders any two distinct user names |
| Users.InsertSorted | app.py:211 | inserting a new name into a sorted list keeps it sorted and adds exactly that element |
| Users.UserStore.List | app.py:207-212 | the list is sorted (administrators first, then by name), lists every user exactly once, and each entry carries its stored record |
| Users.ItemName | app.py:171-182 | a bare name or a record's `username` that is missing, empty or all whitespace gives no entry; any other gives the name with surrounding whitespace stripped (so non-empty, with no whitespace at either end); other items give no entry |
| Users.ItemRecord | app.py:174-190 | every migrated record has the default password and a pending password change; a bare name is an administrator, with role `admin`, exactly when it is `admin`, and otherwise has role `usuario`; a record entry keeps its own `is_admin`, `active`, `role` and `created_at`, defaulting to `name == "admin"`, `True`, `usuario` and the load time |
| Users.MigrateLegacy | app.py:168-191 | the loop builds the map the entries define, entry by entry |
| Users.MigratedKeys | app.py:169-190 | the migrated users are exactly the entries with a usable name |
| Users.MigratedLastWins | app.py:174-190 | a user's record comes from the last entry with that name |
| Users.Migrated | app.py:169-190 | the map after the migration loop; specified by `MigratedKeys`, `MigratedLastWins` and `MigratedRecords` |
| Users.MigratedRecords | app.py:170-190 | every migrated record comes from an entry with its name |
| Users.LoadLegacy | app.py:168-191 | loading the list format gives `admin` plus exactly the named entries, all with a password change pending |
| Users.LoadUsers | app.py:156-196 | `_load_users` after parsing; specified by `LoadLegacy` and, for the other formats, by `Bootstrap` |
| FlashQueue.NewMessage | app.py:298 | the queued kind is never empty (an empty or missing kind becomes `info`), a missing text becomes empty, the button is kept |
| FlashQueue.MessageQueue.constructor | app.py:297 | a session starts with an empty queue |
| FlashQueue.MessageQueue.Flash | app.py:296-299 | the queue gains exactly the new message at its end |
| FlashQueue.MessageQueue.Render | app.py:301-306 | every queued message is shown, in order; the queue is emptied exactly when `clear` |
| OsNumber.Decimal | app.py:703 | `str(n)` is a non-empty string of digits whose first digit is `0` only for `n == 0` |
| OsNumber.DecimalLength | app.py:703 | `str(n)` has at most `k` digits below `10^k` and at least `k` from `10^(k-1)` on |
| OsNumber.DecimalValue | app.py:701-703 | reading back `str(n)` gives `n` |
| OsNumber.ZerosValue | app.py:703 | zero padding does not change the value |
| OsNumber.ZeroPad | app.py:703 | padding gives at least the width: zeros, then the input unchanged; a digit string stays a digit string with the same value |
| OsNumber.AfterLast | app.py:701 | `split("-")[-1]` is the suffix after the last `-` and contains no `-` |
| OsNumber.AfterLastSuffix | app.py:701 | after a prefix ending in `-`, the last part is the `-`-free suffix |
| OsNumber.DropUnderscores | app.py:701 | `int()`'s separator removal: the result is all digits and no longer than the input; a single `_` becomes empty and a single digit stays; a plain digit string is kept as it is |
| OsNumber.DropUnderscoresConcat | app.py:701 | removal distributes over concatenation; with the one-character case, every `_` is removed and every digit kept in order |
| OsNumber.ParseDigits | app.py:701 | `int()` of a digit string is its value |
| OsNumber.ParseNonNegative | app.py:701 | `int()` of a text without `-` is not negative |
| OsNumber.ParseInt | app.py:701 | `int()` on ASCII text; specified by `ParseDigits`, `ParseNonNegative` and `SuffixRoundTrip` |
| OsNumber.Format04 | app.py:703 | `f"{n:04d}"`; specified by `Format04Width`, `ZeroPad`, `NewOrderNumberShape` and `SuffixRoundTrip` |
| OsNumber.Format04Width | app.py:703 | below 10000 the field is exactly four digits whose value is `n`; from 10000 on it is `str(n)`, five digits or more |
| OsNumber.NextSeq | app.py:699-702 | the sequence number; specified by `NextSeqFromNumber`, `FirstOrderNumber` and `NextAfterIssued` |
| OsNumber.NewOrderNumber | app.py:695-703 | `gerar_numero_os`; specified by `NewOrderNumberShape`, `FirstOrderNumber` and `NextAfterIssued` |
| OsNumber.NextSeqFromNumber | app.py:700-701 | a sequence taken from the previous number is at least 1 |
| OsNumber.NewOrderNumberShape | app.py:695-703 | the number is `HAB-<year>-` followed by at least four digits |
| OsNumber.FirstOrderNumber | app.py:699-703 | the year's first order is `HAB-<year>-0001` |
| OsNumber.SuffixRoundTrip | app.py:697-703 | the suffix of an issued number parses back to its sequence |
| OsNumber.NextAfterIssued | app.py:695-703 | after a number this function issued, the next one is one more, whatever the order's id |
| IndexGuard.RunGuardedSpec | app.py:548-562 | each guarded statement runs or is skipped: it runs exactly when it does not raise, and the earlier log is kept |
| IndexGuard.RunGuardedInOrder | app.py:548-562 | the log after the guarded statements is the earlier log plus, in source order, the statements that did not raise (run) and those that did (skipped) |
| IndexGuard.CreateIndexSafe | app.py:548-553 | `_create_index_safe`; specified through `RunGuardedSpec` and `RunGuardedInOrder` |
| IndexGuard.RunGuarded | app.py:556-562 | the guarded calls; specified by `RunGuardedSpec` and `RunGuardedInOrder` |
| IndexGuard.StartupBlock | app.py:555-564 | the block as written; specified by `StartupBlockAborts`, `GuardBypassed` and `GuardBypassedExample` |
| IndexGuard.StartupBlockAborts | app.py:555-564 | the block aborts exactly when one of the two unguarded statements raises |
| IndexGuard.GuardBypassed | app.py:561-564 | a failure of the guarded item or measurement index aborts the block anyway |
| IndexGuard.GuardBypassedExample | app.py:555-564 | with only the item index failing, the guard skips it and then the block aborts on it |
| IndexGuard.StartupBlockGuardedCommits | app.py:555-562 | with every statement guarded, the block always commits, and each statement runs exactly when it does not raise |

## Left out

- Reading and writing real files, `sys.exit` and the console messages of `main` are not
  modelled. The model uses a files map and a status instead.
- Streamlit rendering is not modelled. `banner`, which `flash_render` calls, is not part
  of this model: `Render` returns the messages it would show.
- Password hashing, `datetime.now()` and the SQLAlchemy session are parameters. A load
  uses one `now` for every record it creates. Python calls `datetime.now()` once per
  migrated entry and again for the default administrator (app.py:150, 178, 189), so
  `created_at` values can differ within one load.
- JSON parsing and file I/O in `_load_users` are out of scope. `LoadUsers` starts from the
  parsed content. Its `Unusable` case covers a missing or empty file, a parse error and
  every other exception. `_save_users` is not modelled.
- ApplyPatch.MainWithSource: the backup (`shutil.copy2`) copies bytes, while `read` and
  `write` decode and encode UTF-8 and translate line endings. The model gives both the same
  text, so it does not capture that a CRLF source yields an output that is not the rewrite
  of the backup's exact bytes. Nor does it capture that a source that is not valid UTF-8
  ends the run with an uncaught exception after the backup is written, where the model
  reports status 0.
- Users.ItemName: a non-string `username` in a legacy record is not modelled. Python
  converts it with `str()`; the model takes the name as text.
- Users.ItemRecord: JSON values are taken as already typed. For `is_admin` and `active`
  Python applies `bool()` to whatever is stored, so `null` gives `False` and any other
  non-boolean value is coerced (`"false"` gives `True`, `0` gives `False`). For `role` and
  `created_at` it keeps the stored value as it is, `null` and non-strings included. The
  model uses the default whenever a value is `null`.
- OsNumber.ParseInt: only ASCII digits are accepted. Python's `int()` also reads other
  Unicode decimal digits.
- IndexGuard: `fails` gives one answer per statement text. A statement run twice raises
  both times or neither time; no other database behaviour is modelled.
- The general regular-expression engine is not modelled. Only the two patterns the script
  uses are, each through a matcher proved equal to a declarative description of its
  matches.

Where the code and the kit's documented intent disagree, the model follows the code:

- The backup is copied over any existing `.bak` on every run; it is not written only once.
- The output is always named `app_patched.py`, whatever the input.
- The rewrites run in the code's order: `patch_indexes` before `patch_inline_nav`
  (apply_patch.py:113-114), although the documented order puts the navigation insertion
  before the index guard. `ApplyAll` follows the code.
- The sidebar rewrite leaves a call alone as soon as it mentions `initial_sidebar_state`,
  even when the value is `"collapsed"`.
- Whole-pipeline idempotence is not proved. Its `patch_indexes` step is proved not idempotent
  once its fallback fires (`IndexesPatch.PatchIndexesNotIdempotent`, see below); `patch_sidebar`
  and `patch_inline_nav` are proved idempotent on every text, `patch_flash` on texts with at
  most one broken opening.

## Findings

| source | as written | input that shows it | evidently intended | confidence | as-written member | corrected member |
|---|---|---|---|---|---|---|
| apply_patch.py:42-51 | the needle's lines are joined with a literal backslash and `n` (`'\\n'`), so the needle never matches the line-separated block it describes | a file holding the unguarded seven-statement block the needle spells out, with its lines separated by line breaks: the file contains no backslash, so the needle is not found and the fallback runs | the lines joined by real line breaks, so the block itself is replaced | not executed | IndexesPatch.NeedleMissesBlock | IndexesPatch.PatchIndexesFixedBlock |
| apply_patch.py:77-80 | the fallback injects the safe block after every `create_all(engine)` (`PatchIndexesEveryAnchor`), with no check that it is already there | any text holding `Base.metadata.create_all(engine)` and not the needle: a second run does not leave the first run's output as it is | a run on already-patched text leaves it unchanged | not executed | IndexesPatch.PatchIndexesNotIdempotent | IndexesPatch.PatchIndexesFixedIdempotent |
| app.py:555-564 | after the seven guarded statements, the item and measurement indexes are created again without the guard | a database file from an older version whose existing `os_itens` table has no `os_id` column: `create_all` (app.py:545) does not alter an existing table, so the statement at line 561 raises and is skipped, and its unguarded repeat at line 563 raises and start-up fails | every index statement goes through `_create_index_safe`, so start-up always continues | not executed | IndexGuard.GuardBypassedExample | IndexGuard.StartupBlockGuardedCommits |
