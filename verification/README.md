# Ticket bot store and router, modelled in Dafny

This project models the core of a Discord ticket bot:

- **The SQLite store in `db.js`.** The five tables `guild_config`, `tickets`, `ticket_members`, `ticket_notes` and `panels` become one immutable `Schema.Store`. Every exported query or write becomes a pure function from the store before to the store after, or to the rows it reads. The wall clock is a `now` parameter, in epoch seconds.
- **The process-level logic of `bot.js`.** This covers the environment check that decides whether the bot logs in, and the `InteractionCreate` router. The router sends slash commands to registered commands and dispatches buttons and modal submits on a colon-separated custom id. It returns the response it would make instead of calling the platform.

The store invariant `Schema.Valid` is the AUTOINCREMENT discipline: every row sits under its own id, ids start at 1, and the next id is above every id in use. Every write keeps it (`StoreLaws.Apply`, `StoreLaws.Run`).

Modules, in dependency order:

| file | module | contents |
|---|---|---|
| nullable.dfy | `Nullable` | SQL NULL / JS `undefined` as `Option`; `??` is `OrElse`; JS truthiness of strings |
| text.dfy | `Text` | `trim` (ECMAScript whitespace set), ASCII `toLowerCase`, `startsWith`, `split` on one character, `join` |
| schema.dfy | `Schema` | rows of the five tables, column defaults, the store and its invariant |
| tag_codec.dfy | `TagCodec` | the tag sanitiser of `setTicketTags` and the parser of `getTicketTags` |
| priority.dfy | `Priority` | the priority normaliser of `setTicketPriority` |
| tickets.dfy | `Tickets` | writes and point reads of tickets, members and notes |
| queries.dfy | `Queries` | the WHERE-clause queries: counts, newest row, archival candidates, statistics |
| config_store.dfy | `ConfigStore` | guild configuration and panels |
| startup.dfy | `Startup` | `validateEnv` and `startBot` |
| routing.dfy | `Routing` | the interaction router |
| store_laws.dfy | `StoreLaws` | laws that relate several operations, and the invariant over any run of writes |

All ticket queries share one first-order description of their WHERE clause, `Queries.Where`, and its meaning `Queries.Holds`. `panel_id = ?` follows SQL NULL semantics (`Queries.SqlEq`): a NULL parameter matches no row.

The code does not enforce an archived ticket being closed, or any order between statuses. `updateTicketStatus` writes any status, and `markTicketArchived` stamps any ticket, open or closed. The model does the same, and `StoreLaws.ReopenKeepsCloseHistory` states what a close followed by a reopen leaves behind.

## Model

| member | source | states |
|---|---|---|
| Tickets.EnsureTicket | db.js:96-101 | inserts exactly one row under an id above every existing id, keeps the store valid and changes no other row or table; the row carries the given guild, channel, opener, panel and reason and the column defaults (status open, no claim, priority normal, empty tags, no close/archive data, created now) |
| Tickets.GetTicketById | db.js:210-212 | a row is returned exactly when the id is stored, and it is the stored row, whose id is the one asked for |
| Tickets.UpdateTicketStatus | db.js:107-114 | writes any status to an existing row only; closed additionally stamps the close time, any other status leaves close time and close reason as they were; an unknown id changes nothing |
| Tickets.ClaimTicket | db.js:116-118 | overwrites the claim of that ticket only |
| Tickets.UnclaimTicket | db.js:120-122 | clears the claim of that ticket only, whether or not there was one |
| Tickets.SetTicketCloseReason | db.js:228-230 | overwrites the close reason (possibly with null) of that ticket only |
| Tickets.MarkTicketArchived | db.js:175-178 | stamps the archive time of that ticket only and leaves its status alone |
| Tickets.SetTicketPriority | db.js:198-202 | the stored priority is always one of low/normal/high/urgent: the lower-cased input if allowed, else normal |
| Tickets.SetTicketTags | db.js:204-208 | stores the sanitised tag list joined with commas, on that ticket only |
| Tickets.GetTicketTags | db.js:214-218 | every returned tag is non-empty and trimmed; an unknown ticket has no tags |
| Tickets.AddUserToTicket | db.js:124-126 | INSERT OR IGNORE under UNIQUE(ticket_id, user_id): the pair is present afterwards and no other pair changes |
| Tickets.RemoveUserFromTicket | db.js:128-130 | the pair is absent afterwards and no other pair changes |
| Tickets.AddTicketNote | db.js:220-222 | appends exactly one note, stamped now, after the existing ones, which stay as they were |
| Tickets.NotesOf | db.js:224-226 | the listing holds exactly the views of that ticket's notes, no more than the log holds |
| Tickets.ListTicketNotes | db.js:224-226 | every listed note belongs to the ticket and every note of the ticket is listed |
| Queries.CountBelow | db.js:132-135 | the recursive scan counts exactly the matching rows (cardinality of the matching id set) |
| Queries.Count | db.js:242-246 | `SELECT COUNT(*)` equals the number of rows satisfying the WHERE clause |
| Queries.CountOpenTicketsForUser | db.js:132-135 | the number of open tickets of that user in that guild |
| Queries.CountOpenTicketsForUserInPanel | db.js:137-140 | the number of open tickets of that user in that guild opened from that panel; a null panel matches nothing under SQL equality, so it counts 0 |
| Queries.NewestBelow | db.js:142-145 | the scan finds a matching row exactly when one exists, and it is the highest-id one |
| Queries.Newest | db.js:142-145 | `ORDER BY id DESC LIMIT 1`: the highest-id matching row, or none when nothing matches |
| Queries.SelectBelow | db.js:168-173 | the scan lists exactly the matching ids, ascending |
| Queries.CreatedAtOrNull | db.js:144 | `row?.created_at || null`: a value is returned only for an existing row with a non-zero creation time, and it is that time; null otherwise |
| Queries.GetLastTicketCreatedAt | db.js:142-145 | the creation time of the user's newest ticket in the guild, with 0 and a missing row both read as null by `||` |
| Queries.GetLastTicketCreatedAtInPanel | db.js:147-150 | the same, restricted to one panel |
| Queries.NewestUnique | db.js:142-145 | at most one row is the newest match for a WHERE clause |
| Queries.GetTicketByChannelId | db.js:103-105 | the highest-id ticket bound to the channel, or none when no ticket is |
| Queries.GetClosedTicketsOlderThan | db.js:168-173 | exactly the closed, unarchived tickets of the guild whose close time is before the cutoff, each once, with their channel ids |
| Queries.GetTicketStats | db.js:242-246 | the number of the guild's open tickets and of its closed ones; other statuses count in neither |
| ConfigStore.GetGuildConfig | db.js:92-94 | a row is returned exactly when the guild has one, and it is the stored row |
| ConfigStore.UpsertGuildConfig | db.js:85-90 | writes the staff role and category of that guild only; an existing row keeps its quota, cooldown and archive settings, and a new row starts with none |
| ConfigStore.UpsertAdvancedConfig | db.js:152-166 | each advanced field takes the supplied value (0 included), else keeps the stored one; staff role and category are carried over, except that a stored empty string becomes null; no other guild changes |
| ConfigStore.AdvancedConfigIdempotent | db.js:152-166 | applying the same partial twice is applying it once |
| ConfigStore.CreatePanel | db.js:180-184 | inserts exactly one panel under an id above every existing id, with no overrides and style Success when none is given, and keeps the store valid |
| ConfigStore.GetPanelById | db.js:190-192 | a panel is returned exactly when the id is stored, and it is the stored panel, whose id is the one asked for |
| ConfigStore.PanelIdsBelow | db.js:186-188 | the scan lists exactly the guild's panel ids, ascending |
| ConfigStore.ListPanels | db.js:186-188 | every panel of the guild, each a stored row of that guild, in ascending id order |
| ConfigStore.DeletePanel | db.js:194-196 | deletes the panel only when it belongs to the given guild, reporting 1 change, and otherwise changes nothing and reports 0 |
| ConfigStore.UpdatePanelAdvanced | db.js:232-240 | a no-op for an unknown panel; otherwise each override takes the supplied value or keeps the stored one, and nothing else changes |
| ConfigStore.PanelAdvancedIdempotent | db.js:232-240 | applying the same overrides twice is applying them once |
| Priority.Normalize | db.js:198-202 | the result is always allowed: the lower-cased input when that is allowed, else normal (also for a null or empty input) |
| Priority.NormalizeIdempotent | db.js:198-202 | normalising a stored priority again leaves it as it is |
| Priority.NormalizeIgnoresCase | db.js:198-202 | the normaliser ignores ASCII case |
| TagCodec.DropEmpty | db.js:205 | `.filter(Boolean)` keeps exactly the non-empty entries and never lengthens the list |
| TagCodec.DropEmptyAppend | db.js:205 | filtering distributes over concatenation, so the kept entries stay in order and keep their multiplicity |
| TagCodec.DropEmptyOrder | db.js:205 | filtering keeps the relative order of the first occurrences of non-empty entries |
| TagCodec.FirstIndex | db.js:205 | the position of an entry's first occurrence: it holds the entry and no earlier position does |
| TagCodec.FirstIndexPrefix | db.js:205 | appending to a list does not move the first occurrence of an entry already in it |
| TagCodec.Dedup | db.js:205 | `Array.from(new Set(...))` keeps each distinct entry once, loses none, and lists them in the order of their first occurrence |
| TagCodec.DedupSnoc | db.js:205 | appending an entry adds it to the deduplicated list exactly when it is new |
| TagCodec.DedupRepeatedHead | db.js:205 | a repeated first entry is kept once, ahead of the next distinct entry |
| TagCodec.DedupExample | db.js:205 | `['a', 'a', 'b', 'c']` deduplicates to `['a', 'b', 'c']` |
| TagCodec.TrimPaddedLetter | db.js:205 | trimming `' c '` gives `'c'` |
| TagCodec.Sanitize | db.js:204-208 | the sanitised list is trimmed, free of empties and duplicates, holds exactly the non-empty trimmed inputs in the order of their first occurrence; a null array gives an empty list |
| TagCodec.SanitizeExample | db.js:205 | `['a', 'a', 'b', ' c ']` sanitises to `['a', 'b', 'c']` |
| TagCodec.Serialize | db.js:205-206 | the payload is empty for no tags; for comma-free tags it splits back into exactly the sanitised list |
| TagCodec.Parse | db.js:214-218 | every parsed tag is non-empty and trimmed |
| TagCodec.ParseEmpty | db.js:36 | the column default, the empty string, reads back as no tags |
| TagCodec.TagsRoundTrip | db.js:204-218 | for tags without commas, parsing the stored payload gives back exactly the sanitised list |
| Text.LeadingSpace | db.js:205 | the count of leading whitespace code points: all of them are whitespace and the next one is not |
| Text.Trim | db.js:205 | `trim` returns the slice after the leading whitespace, cuts only whitespace from the end, and neither end of the result is whitespace |
| Text.TrimKeepsOut | db.js:205 | trimming adds no character, so a tag without a comma stays without one |
| Text.TrimTrimmed | db.js:216 | trimming an already-trimmed tag changes nothing |
| Text.Split | db.js:216 | `split` gives one more part than there are separators, and no part contains the separator |
| Text.JoinSplit | db.js:206-216 | joining the parts of a split gives back the string, for every string |
| Text.SplitJoin | db.js:206-216 | splitting a joined list gives back the parts, for a list of at least one part none of which contains the separator |
| Text.Join | db.js:206 | an empty list joins to the empty string; otherwise the result starts with the first part, followed by the separator when more parts come |
| Text.Lower | db.js:200 | ASCII `toLowerCase`: same length, no upper-case ASCII letter left, upper-case letters moved by 32, every other character unchanged |
| Text.SplitHead | bot.js:125 | a string with a separator splits into its head and the split of the rest |
| Text.SplitWithoutSep | bot.js:125 | a string without the separator splits into itself alone |
| Startup.Token | bot.js:21 | `DISCORD_TOKEN || ''`: empty exactly when the variable is unset or empty, otherwise its value |
| Startup.AppId | bot.js:22 | the first of DISCORD_CLIENT_ID and CLIENT_ID that is set and non-empty; empty exactly when neither is |
| Startup.CheckEnv | bot.js:20-41 | the checks in order: missing token, then token shape (exactly two dots and no "Bot " prefix), then missing application id, each outcome stated as an if-and-only-if |
| Startup.ValidateEnv | bot.js:20-41 | true exactly when the token is set, has three dot-separated parts, lacks the "Bot " prefix, and an application id is set under either name |
| Startup.StartBot | bot.js:90-98 | logs in, with the configured token, exactly when validation passes; otherwise stays offline |
| Routing.FailureResponse | bot.js:155-165 | no answer when the interaction cannot be answered; otherwise the generic message, ephemeral, as a follow-up when already answered or deferred |
| Routing.HandleButton | bot.js:124-142 | a button does something exactly when its id has scope ticket and action open, and then it shows the ticket modal |
| Routing.HandleModal | bot.js:144-154 | a modal submit does something exactly when its id has scope ticket and action open; it echoes the reason ephemerally, and a missing reason field ends in the generic failure reply |
| Routing.HandleInteraction | bot.js:115-154 | a slash command runs exactly when it is registered; buttons and modal submits go to their branches; anything else gets nothing |
| Routing.ParseCustomId | bot.js:125 | the scope is the text before the first colon (or all of it); the action is the next colon-free segment, absent exactly when there is no colon; the third segment is the colon-free text after the second colon, present exactly when there are at least two colons |
| Routing.SplitParts | bot.js:125 | a join of two or more parts starts with the first two (and three, when there are three) around the separator, followed by another separator when more parts come |
| Routing.CustomIdRoundTrip | bot.js:125 | `scope:action` parses back into its two parts when neither contains a colon |
| Routing.OpenModalReachesSubmitBranch | bot.js:129-150 | the modal shown by the open button carries the id the modal branch acts on, so submitting it with a reason gets the acknowledgement |
| Routing.ForeignScopeIgnored | bot.js:126-146 | an id outside the ticket scope gets no response, from a button or a modal |
| StoreLaws.InsertCount | db.js:132-140 | inserting one row under a fresh id raises any WHERE-clause count by one exactly when the row matches |
| StoreLaws.EnsureTicketCountsOnce | db.js:96-135 | creating a ticket raises its opener's open count in that guild by exactly one and no other count |
| StoreLaws.EnsureTicketCountsOnceInPanel | db.js:96-140 | creating a ticket raises the per-panel count only for the panel it was opened from (none for a ticket without a panel) |
| StoreLaws.PanelCountWithinGuildCount | db.js:132-140 | the per-panel open count never exceeds the guild-wide open count |
| StoreLaws.EnsureTicketIsLastCreated | db.js:96-150 | after creating a ticket, the cooldown queries report its creation time (null when that time is 0) |
| StoreLaws.EnsureTicketReadBack | db.js:96-105 | the ticket just created reads back by its id and by its channel, and every earlier ticket reads back unchanged |
| StoreLaws.CloseMovesStats | db.js:107-114 | closing an open ticket lowers its guild's open count by one and raises the closed count by one; other guilds' statistics do not move |
| StoreLaws.StatusUpdateKeepsValid | db.js:107-114 | a status write keeps the store invariant |
| StoreLaws.InStatusUpdate | db.js:242-246 | rewriting one row moves only that row's id in or out of a guild's per-status set |
| StoreLaws.ClaimLastWriterWins | db.js:116-122 | the last claim wins, and unclaiming undoes any claim |
| StoreLaws.ReopenKeepsCloseHistory | db.js:107-114 | close then reopen: open again, same channel, the close time of that close and the close reason kept |
| StoreLaws.ArchiveKeepsValid | db.js:175-178 | archiving keeps the store invariant |
| StoreLaws.ArchivedNeverReselected | db.js:168-178 | archiving removes exactly that ticket from the next archival selection and changes no other candidate |
| StoreLaws.ArchiveKeepsStats | db.js:175-178 | archiving does not move the open/closed statistics |
| StoreLaws.AddUserIdempotent | db.js:124-126 | adding a member twice is adding once |
| StoreLaws.RemoveUndoesAdd | db.js:124-130 | removing a member undoes adding it |
| StoreLaws.AddNoteAppends | db.js:220-226 | a new note appears last in its own ticket's listing and no other listing changes |
| StoreLaws.StoredTagsRoundTrip | db.js:204-218 | writing comma-free tags to a ticket and reading them back gives the sanitised list |
| StoreLaws.PanelIdsAgree | db.js:186-188 | two panel tables that agree below an id list the same panel ids below it |
| StoreLaws.CreatePanelListsLast | db.js:180-188 | a new panel appears last in its guild's listing and no other guild's listing changes |
| StoreLaws.DeletePanelScoped | db.js:194-196 | another guild cannot delete a panel; its own guild's delete removes it |
| StoreLaws.DeleteUndoesCreatePanel | db.js:180-196 | deleting a panel right after creating it, from its own guild, restores the panel table and reports one change; only the id counter has moved |
| StoreLaws.BasicUpsertKeepsAdvanced | db.js:85-166 | after an advanced merge, the basic upsert rewrites the staff role and category and keeps the quota, cooldown and archival values |
| StoreLaws.Apply | db.js:85-240 | every write keeps the store invariant |
| StoreLaws.Run | db.js:85-240 | any sequence of writes keeps the store invariant |
| StoreLaws.ApplyKeepsPriorities | db.js:198-202 | every write keeps every stored priority allowed |
| StoreLaws.RunKeepsPriorities | db.js:198-202 | any sequence of writes keeps every stored priority allowed |
| StoreLaws.ApplyKeepsArchived | db.js:175-178 | no write clears `archived_at` or removes a ticket |
| StoreLaws.RunKeepsArchived | db.js:175-178 | an archived ticket stays stored and archived through any sequence of writes |
| StoreLaws.ArchivedNeverAgain | db.js:168-178 | once a stored ticket is archived, no sweep after any later writes selects it, even after a reopen and a fresh close |
| StoreLaws.ReachableStoresAreSound | db.js:26-41 | every store reachable from the empty database is valid and holds only allowed priorities |

## Left out

- Opening the SQLite file, WAL mode and the schema migration (`ensureDatabase`, `migrate`, including the ALTER TABLE upgrades of older databases): file I/O. The model starts from the migrated, empty schema.
- The HTTP liveness server, the discord.js client, command loading from the `commands` directory, the brand embed helper and the presence update: network and file I/O.
- What a registered slash command's `execute` does (quota and cooldown decisions, channel provisioning, staff authorisation, archival sweeps): those modules are not part of this model. The router stops at choosing the command.
- `deploy-commands.js` is not part of this model.
- Concurrency between interactions and between statements: each operation is modelled as atomic.
- The clock: `Date.now()` and SQLite's `strftime('%s','now')` are the `now` parameter.
- The NOT NULL errors SQLite raises when a required column receives null (for example an explicit null style in `createPanel`): callers pass strings, and such arguments cannot be written in the model's types.
- AUTOINCREMENT exhaustion at 2^63 - 1: ids are unbounded integers.
- Text.Lower: maps ASCII letters only, not full Unicode `toLowerCase`. For the priority test this is equivalent, because among non-ASCII code points only the Kelvin sign lowercases to an ASCII letter ('k'), and no allowed priority contains 'k'.
- The thrown TypeError of `upsertAdvancedConfig(guildId, undefined)` and `updatePanelAdvanced(panelId, undefined)`, which read a field of the missing argument: `AdvancedPartial` and `PanelPartial` are records whose fields may each be absent, but the record itself is always present, so the model cannot express a missing argument.
- Non-string values reaching `String(t)` or `toLowerCase` (numbers, objects): the model types these arguments as strings.
- Queries.GetClosedTicketsOlderThan: the query has no ORDER BY, so its row order is unspecified. The model lists rows by ascending id, and its contract states only membership and distinctness.
- TagCodec.TagsRoundTrip: holds only for tags without commas. A tag containing a comma is stored as given and splits into several tags on read, which the lemma's precondition excludes.
- Exceptions thrown inside a slash command's `execute`: they reach the same catch block as `Routing.FailureResponse`, but whether the command had already replied is a parameter of that function, not derived.
- Log messages written with `console.log` and `console.error`: output only. Each outcome of `Startup.CheckEnv` stands for the message it logs.
