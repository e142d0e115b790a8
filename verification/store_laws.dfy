/** Properties that relate several store operations: what a query reports
    after a write, what a sequence of writes amounts to, and the invariant
    every reachable store satisfies. */
module StoreLaws {
  import opened Nullable
  import opened Schema
  import opened Tickets
  import opened Queries
  import opened ConfigStore
  import Priority
  import TagCodec

  /* ---------- ticket creation and the quota queries ---------- */

  /** The ids of the rows of `t` that satisfy `w`. */
  ghost function Matching(t: map<int, Ticket>, w: Where): set<int> {
    set id | id in t && Holds(w, t[id])
  }

  /** Inserting one row under a fresh id adds that id to the matching set
      exactly when the row satisfies `w`. */
  lemma MatchingInsert(t: map<int, Ticket>, k: int, row: Ticket, w: Where)
    requires k !in t
    ensures Matching(t[k := row], w) == Matching(t, w) + (if Holds(w, row) then {k} else {})
  {
    var after := t[k := row];
    forall id | id in after
      ensures id in Matching(after, w) <==> id in Matching(t, w) + (if Holds(w, row) then {k} else {})
    {
      if id != k {
        assert after[id] == t[id];
      }
    }
  }

  /** Inserting one row under a fresh id raises the count of any WHERE
      clause by one exactly when the new row satisfies it. */
  lemma InsertCount(s: Store, after: Store, row: Ticket, w: Where)
    requires Valid(s) && Valid(after)
    requires row.id !in s.tickets && after.tickets == s.tickets[row.id := row]
    ensures Count(after, w) == Count(s, w) + (if Holds(w, row) then 1 else 0)
  {
    MatchingInsert(s.tickets, row.id, row, w);
    assert Count(s, w) == |Matching(s.tickets, w)|;
    assert Count(after, w) == |Matching(after.tickets, w)|;
  }

  /** Creating a ticket raises the opener's open count in that guild by
      exactly one and leaves every other (guild, user) count alone. */
  lemma EnsureTicketCountsOnce(s: Store, guildId: string, channelId: string, userId: string,
                               reason: Option<string>, panelId: Option<int>, now: int,
                               g: string, u: string)
    requires Valid(s)
    ensures var after := EnsureTicket(s, guildId, channelId, userId, reason, panelId, now).0;
            CountOpenTicketsForUser(after, g, u)
              == CountOpenTicketsForUser(s, g, u) + (if g == guildId && u == userId then 1 else 0)
  {
    var r := EnsureTicket(s, guildId, channelId, userId, reason, panelId, now);
    InsertCount(s, r.0, r.1, OpenForUser(g, u));
  }

  /** Creating a ticket raises the per-panel open count by one exactly for
      the panel it was opened from; a ticket without a panel raises none. */
  lemma EnsureTicketCountsOnceInPanel(s: Store, guildId: string, channelId: string, userId: string,
                                      reason: Option<string>, panelId: Option<int>, now: int,
                                      g: string, u: string, p: Option<int>)
    requires Valid(s)
    ensures var after := EnsureTicket(s, guildId, channelId, userId, reason, panelId, now).0;
            CountOpenTicketsForUserInPanel(after, g, u, p)
              == CountOpenTicketsForUserInPanel(s, g, u, p)
                 + (if g == guildId && u == userId && SqlEq(panelId, p) then 1 else 0)
  {
    var r := EnsureTicket(s, guildId, channelId, userId, reason, panelId, now);
    InsertCount(s, r.0, r.1, OpenForUser(g, u).(panelId := Some(p)));
  }

  /** The panel-scoped count never exceeds the guild-wide count. */
  lemma PanelCountWithinGuildCount(s: Store, g: string, u: string, p: Option<int>)
    requires Valid(s)
    ensures CountOpenTicketsForUserInPanel(s, g, u, p) <= CountOpenTicketsForUser(s, g, u)
  {
    if p.Some? {
      var inPanel := set id | id in s.tickets && s.tickets[id].guildId == g
                              && s.tickets[id].userId == u && s.tickets[id].status == StatusOpen
                              && s.tickets[id].panelId == p;
      var all := set id | id in s.tickets && s.tickets[id].guildId == g
                          && s.tickets[id].userId == u && s.tickets[id].status == StatusOpen;
      assert inPanel <= all;
      SubsetCard(inPanel, all);
    }
  }

  lemma SubsetCard(a: set<int>, b: set<int>)
    requires a <= b
    ensures |a| <= |b|
  {
    assert b == a + (b - a);
  }

  /** The ticket just created is the newest of its opener, so the cooldown
      query reports its creation time (or null when that time is 0). */
  lemma EnsureTicketIsLastCreated(s: Store, guildId: string, channelId: string, userId: string,
                                  reason: Option<string>, panelId: Option<int>, now: int)
    requires Valid(s)
    ensures var after := EnsureTicket(s, guildId, channelId, userId, reason, panelId, now).0;
            && GetLastTicketCreatedAt(after, guildId, userId) == (if now == 0 then None else Some(now))
            && (panelId.Some? ==>
                  GetLastTicketCreatedAtInPanel(after, guildId, userId, panelId)
                    == (if now == 0 then None else Some(now)))
  {
    var r := EnsureTicket(s, guildId, channelId, userId, reason, panelId, now);
    var after := r.0;
    var w := ForUser(guildId, userId);
    assert IsNewest(after, w, r.1.id);
    NewestUnique(after, w);
    if panelId.Some? {
      var wp := w.(panelId := Some(panelId));
      assert IsNewest(after, wp, r.1.id);
      NewestUnique(after, wp);
    }
  }

  /* ---------- status, close and reopen ---------- */

  /** The ticket just created reads back by its id and by its channel, and
      every earlier ticket still reads back as it was. */
  lemma EnsureTicketReadBack(s: Store, guildId: string, channelId: string, userId: string,
                             reason: Option<string>, panelId: Option<int>, now: int)
    requires Valid(s)
    ensures var r := EnsureTicket(s, guildId, channelId, userId, reason, panelId, now);
            && GetTicketById(r.0, r.1.id) == Some(r.1)
            && GetTicketByChannelId(r.0, channelId) == Some(r.1)
            && forall id :: id in s.tickets ==> GetTicketById(r.0, id) == GetTicketById(s, id)
  {
    var r := EnsureTicket(s, guildId, channelId, userId, reason, panelId, now);
    assert IsNewest(r.0, AnyRow.(channelId := Some(channelId)), r.1.id);
    NewestUnique(r.0, AnyRow.(channelId := Some(channelId)));
  }

  /** The ids of the guild's tickets in one status. */
  ghost function InStatus(t: map<int, Ticket>, g: string, status: string): set<int> {
    set k | k in t && t[k].guildId == g && t[k].status == status
  }

  /** Rewriting one row moves its id in or out of a status set according to
      the new row, and touches no other id. */
  lemma InStatusUpdate(t: map<int, Ticket>, k: int, row: Ticket, g: string, status: string)
    requires k in t
    ensures InStatus(t[k := row], g, status)
         == (InStatus(t, g, status) - {k}) + (if row.guildId == g && row.status == status then {k} else {})
  {
    var u := t[k := row];
    forall j | j in u
      ensures j in InStatus(u, g, status) <==>
              j in (InStatus(t, g, status) - {k}) + (if row.guildId == g && row.status == status then {k} else {})
    {
      if j != k {
        assert u[j] == t[j];
      }
    }
  }

  /** Closing an open ticket moves it from the open count to the closed count
      of its guild and leaves every other guild's statistics alone. */
  lemma CloseMovesStats(s: Store, id: int, now: int, g: string)
    requires Valid(s) && id in s.tickets && s.tickets[id].status == StatusOpen
    ensures Valid(UpdateTicketStatus(s, id, StatusClosed, now))
    ensures var before := GetTicketStats(s, g);
            var after := GetTicketStats(UpdateTicketStatus(s, id, StatusClosed, now), g);
            if g == s.tickets[id].guildId
            then after.open + 1 == before.open && after.closed == before.closed + 1
            else after == before
  {
    var a := UpdateTicketStatus(s, id, StatusClosed, now);
    var row := a.tickets[id];
    StatusUpdateKeepsValid(s, id, StatusClosed, now);
    InStatusUpdate(s.tickets, id, row, g, StatusOpen);
    InStatusUpdate(s.tickets, id, row, g, StatusClosed);
    StatsAreStatusSets(s, g);
    StatsAreStatusSets(a, g);
    if g == s.tickets[id].guildId {
      assert id in InStatus(s.tickets, g, StatusOpen);
    }
  }

  /** A status write keeps the store invariant. */
  lemma StatusUpdateKeepsValid(s: Store, id: int, status: string, now: int)
    requires Valid(s)
    ensures Valid(UpdateTicketStatus(s, id, status, now))
  {
    var a := UpdateTicketStatus(s, id, status, now);
    assert forall k :: k in a.tickets ==> a.tickets[k].id == s.tickets[k].id;
  }

  lemma StatsAreStatusSets(s: Store, g: string)
    requires Valid(s)
    ensures GetTicketStats(s, g) == Stats(|InStatus(s.tickets, g, StatusOpen)|, |InStatus(s.tickets, g, StatusClosed)|)
  {
  }

  /** Close then reopen: the ticket is open again, still bound to the same
      channel, and keeps the close time and close reason of the last close. */
  lemma ReopenKeepsCloseHistory(s: Store, id: int, closedAt: int, reopenedAt: int)
    requires id in s.tickets
    ensures var closed := UpdateTicketStatus(s, id, StatusClosed, closedAt);
            var reopened := UpdateTicketStatus(closed, id, StatusOpen, reopenedAt);
            && reopened.tickets[id].status == StatusOpen
            && reopened.tickets[id].closedAt == Some(closedAt)
            && reopened.tickets[id].closeReason == s.tickets[id].closeReason
            && reopened.tickets[id].channelId == s.tickets[id].channelId
            && reopened.tickets.Keys == s.tickets.Keys
  {
  }

  /** The last claim wins, and unclaiming undoes any claim. */
  lemma ClaimLastWriterWins(s: Store, id: int, first: string, second: string)
    ensures ClaimTicket(ClaimTicket(s, id, first), id, second) == ClaimTicket(s, id, second)
    ensures UnclaimTicket(ClaimTicket(s, id, first), id) == UnclaimTicket(s, id)
  {
    if id in s.tickets {
      assert ClaimTicket(ClaimTicket(s, id, first), id, second).tickets == ClaimTicket(s, id, second).tickets;
      assert UnclaimTicket(ClaimTicket(s, id, first), id).tickets == UnclaimTicket(s, id).tickets;
    }
  }

  /* ---------- archival ---------- */

  /** Marking a ticket archived keeps the store sound. */
  lemma ArchiveKeepsValid(s: Store, id: int, now: int)
    requires Valid(s)
    ensures Valid(MarkTicketArchived(s, id, now))
  {
    var after := MarkTicketArchived(s, id, now);
    assert forall k :: k in after.tickets ==> after.tickets[k].id == s.tickets[k].id;
  }

  /** Marking a ticket archived removes exactly that ticket from the next
      archival selection and changes no other candidate. That no later
      selection picks it either is `ArchivedNeverAgain`. */
  lemma ArchivedNeverReselected(s: Store, id: int, now: int, g: string, cutoff: int, x: ArchiveCandidate)
    requires Valid(s)
    ensures Valid(MarkTicketArchived(s, id, now))
    ensures x in GetClosedTicketsOlderThan(MarkTicketArchived(s, id, now), g, cutoff)
            <==> x in GetClosedTicketsOlderThan(s, g, cutoff) && x.id != id
  {
    ArchiveKeepsValid(s, id, now);
    var after := MarkTicketArchived(s, id, now);
    var before := GetClosedTicketsOlderThan(s, g, cutoff);
    var later := GetClosedTicketsOlderThan(after, g, cutoff);
    if x in later {
      assert x.id in after.tickets && DueForArchive(after.tickets[x.id], g, cutoff)
             && x.channelId == after.tickets[x.id].channelId;
      assert x.id != id;
      assert x in before;
    }
    if x in before && x.id != id {
      assert x.id in s.tickets && DueForArchive(s.tickets[x.id], g, cutoff)
             && x.channelId == s.tickets[x.id].channelId;
      assert after.tickets[x.id] == s.tickets[x.id];
      assert x in later;
    }
  }

  /** Archival leaves the status alone, so the statistics do not move: an
      archived closed ticket still counts as closed. */
  lemma ArchiveKeepsStats(s: Store, id: int, now: int, g: string)
    requires Valid(s)
    ensures Valid(MarkTicketArchived(s, id, now))
    ensures GetTicketStats(MarkTicketArchived(s, id, now), g) == GetTicketStats(s, g)
  {
    ArchiveKeepsValid(s, id, now);
    var after := MarkTicketArchived(s, id, now);
    StatusSetUnchanged(s, after, id, g, StatusOpen);
    StatusSetUnchanged(s, after, id, g, StatusClosed);
  }

  /** A write that keeps every row's guild and status keeps the set of the
      guild's tickets in any one status. */
  lemma StatusSetUnchanged(s: Store, after: Store, id: int, g: string, status: string)
    requires RowFrame(s, after, id)
    requires id in s.tickets ==> after.tickets[id].guildId == s.tickets[id].guildId
                                 && after.tickets[id].status == s.tickets[id].status
    ensures (set k | k in after.tickets && after.tickets[k].guildId == g && after.tickets[k].status == status)
         == (set k | k in s.tickets && s.tickets[k].guildId == g && s.tickets[k].status == status)
  {
    forall k | k in s.tickets
      ensures after.tickets[k].guildId == s.tickets[k].guildId && after.tickets[k].status == s.tickets[k].status
    {
    }
  }

  /* ---------- membership ---------- */

  /** Adding a member twice is adding once. */
  lemma AddUserIdempotent(s: Store, ticketId: int, userId: string)
    ensures AddUserToTicket(AddUserToTicket(s, ticketId, userId), ticketId, userId)
         == AddUserToTicket(s, ticketId, userId)
  {
  }

  /** Removing a member undoes adding it, whatever the table held before. */
  lemma RemoveUndoesAdd(s: Store, ticketId: int, userId: string)
    ensures RemoveUserFromTicket(AddUserToTicket(s, ticketId, userId), ticketId, userId)
         == RemoveUserFromTicket(s, ticketId, userId)
  {
  }

  /* ---------- notes ---------- */

  /** Adding a note appends it to the listing of its own ticket, last, and
      leaves every other ticket's listing as it was. */
  lemma AddNoteAppends(s: Store, ticketId: int, userId: string, note: string, now: int, t: int)
    ensures ListTicketNotes(AddTicketNote(s, ticketId, userId, note, now), t)
         == ListTicketNotes(s, t) + (if t == ticketId then [NoteView(userId, note, now)] else [])
  {
    var after := AddTicketNote(s, ticketId, userId, note, now);
    assert after.notes[..|after.notes| - 1] == s.notes;
  }

  /* ---------- tags and priority through the store ---------- */

  /** Writing tags without commas and reading them back gives the sanitised
      list: trimmed, no empties, no duplicates, first-occurrence order. */
  lemma StoredTagsRoundTrip(s: Store, id: int, tags: seq<string>)
    requires id in s.tickets
    requires forall t :: t in tags ==> TagCodec.TagSeparator !in t
    ensures GetTicketTags(SetTicketTags(s, id, Some(tags)), id) == TagCodec.Sanitize(Some(tags))
  {
    TagCodec.TagsRoundTrip(tags);
  }

  /* ---------- panels ---------- */

  /** Two panel tables that agree on every id below `hi` list the same ids
      below `hi`. */
  lemma {:induction false} PanelIdsAgree(a: map<int, Panel>, b: map<int, Panel>, guildId: string, hi: int)
    requires forall id :: 1 <= id < hi ==> (id in a <==> id in b)
    requires forall id :: 1 <= id < hi && id in a ==> a[id] == b[id]
    ensures PanelIdsBelow(a, guildId, hi) == PanelIdsBelow(b, guildId, hi)
    decreases hi
  {
    if hi > 1 {
      PanelIdsAgree(a, b, guildId, hi - 1);
    }
  }

  /** A new panel appears last in its guild's listing; other guilds'
      listings do not change. */
  lemma CreatePanelListsLast(s: Store, guildId: string, labelText: string, categoryId: string,
                             emoji: Option<string>, style: Option<string>, g: string)
    requires Valid(s)
    ensures var r := CreatePanel(s, guildId, labelText, categoryId, emoji, style);
            ListPanels(r.0, g) == ListPanels(s, g) + (if g == guildId then [r.1] else [])
  {
    var r := CreatePanel(s, guildId, labelText, categoryId, emoji, style);
    var after := r.0;
    var n := s.nextPanelId;
    PanelIdsAgree(after.panels, s.panels, g, n);
    var ids := PanelIdsBelow(s.panels, g, n);
    RowsOfAgree(after.panels, s.panels, ids);
    if g == guildId {
      RowsOfAppend(after.panels, ids, n);
    }
  }

  /** Deleting is scoped to the guild: another guild cannot delete the
      panel, and after its own guild deletes it the panel is gone. */
  lemma DeletePanelScoped(s: Store, id: int, g: string)
    requires id in s.panels
    ensures s.panels[id].guildId != g ==> GetPanelById(DeletePanel(s, g, id).0, id) == Some(s.panels[id])
    ensures GetPanelById(DeletePanel(s, s.panels[id].guildId, id).0, id) == None
  {
  }

  /** Deleting a panel right after creating it, from its own guild, removes
      it again: the panel table is back to what it was, and one row changed.
      Only the id counter has moved on. */
  lemma DeleteUndoesCreatePanel(s: Store, guildId: string, labelText: string, categoryId: string,
                                emoji: Option<string>, style: Option<string>)
    requires Valid(s)
    ensures var c := CreatePanel(s, guildId, labelText, categoryId, emoji, style);
            var d := DeletePanel(c.0, guildId, c.1.id);
            d.0.panels == s.panels && d.1 == 1 && d.0 == s.(nextPanelId := s.nextPanelId + 1)
  {
    var c := CreatePanel(s, guildId, labelText, categoryId, emoji, style);
    assert c.0.panels - {c.1.id} == s.panels;
  }

  /* ---------- guild configuration ---------- */

  /** The basic upsert never clobbers the advanced settings: after an
      advanced merge, rewriting the staff role and category keeps the
      quota, cooldown and archival values the merge stored. */
  lemma BasicUpsertKeepsAdvanced(s: Store, g: string, partial: AdvancedPartial,
                                 staffRoleId: Option<string>, ticketsCategoryId: Option<string>)
    ensures var merged := UpsertAdvancedConfig(s, g, partial);
            var after := UpsertGuildConfig(merged, g, staffRoleId, ticketsCategoryId);
            && GetGuildConfig(after, g)
               == Some(merged.configs[g].(staffRoleId := staffRoleId, ticketsCategoryId := ticketsCategoryId))
  {
  }

  /* ---------- the store invariant over any run of operations ---------- */

  /** One call of a db.js export that writes. */
  datatype Command =
    | EnsureTicketCmd(guildId: string, channelId: string, userId: string,
                      reason: Option<string>, panelId: Option<int>, now: int)
    | UpdateTicketStatusCmd(ticketId: int, status: string, now: int)
    | ClaimTicketCmd(ticketId: int, staffId: string)
    | UnclaimTicketCmd(ticketId: int)
    | SetTicketCloseReasonCmd(ticketId: int, reason: Option<string>)
    | MarkTicketArchivedCmd(ticketId: int, now: int)
    | SetTicketPriorityCmd(ticketId: int, priority: Option<string>)
    | SetTicketTagsCmd(ticketId: int, tags: Option<seq<string>>)
    | AddUserToTicketCmd(ticketId: int, userId: string)
    | RemoveUserFromTicketCmd(ticketId: int, userId: string)
    | AddTicketNoteCmd(ticketId: int, userId: string, note: string, now: int)
    | UpsertGuildConfigCmd(guildId: string, staffRoleId: Option<string>, ticketsCategoryId: Option<string>)
    | UpsertAdvancedConfigCmd(guildId: string, partial: AdvancedPartial)
    | CreatePanelCmd(guildId: string, labelText: string, categoryId: string,
                     emoji: Option<string>, style: Option<string>)
    | DeletePanelCmd(guildId: string, panel: int)
    | UpdatePanelAdvancedCmd(panel: int, fields: PanelPartial)

  /** Runs one write against the store. */
  function Apply(s: Store, c: Command): (r: Store)
    requires Valid(s)
    ensures Valid(r)
  {
    match c
    case EnsureTicketCmd(g, ch, u, reason, p, now) => EnsureTicket(s, g, ch, u, reason, p, now).0
    case UpdateTicketStatusCmd(id, status, now) => UpdateTicketStatus(s, id, status, now)
    case ClaimTicketCmd(id, staff) => ClaimTicket(s, id, staff)
    case UnclaimTicketCmd(id) => UnclaimTicket(s, id)
    case SetTicketCloseReasonCmd(id, reason) => SetTicketCloseReason(s, id, reason)
    case MarkTicketArchivedCmd(id, now) => MarkTicketArchived(s, id, now)
    case SetTicketPriorityCmd(id, p) => SetTicketPriority(s, id, p)
    case SetTicketTagsCmd(id, tags) => SetTicketTags(s, id, tags)
    case AddUserToTicketCmd(id, u) => AddUserToTicket(s, id, u)
    case RemoveUserFromTicketCmd(id, u) => RemoveUserFromTicket(s, id, u)
    case AddTicketNoteCmd(id, u, note, now) => AddTicketNote(s, id, u, note, now)
    case UpsertGuildConfigCmd(g, staff, cat) => UpsertGuildConfig(s, g, staff, cat)
    case UpsertAdvancedConfigCmd(g, partial) => UpsertAdvancedConfig(s, g, partial)
    case CreatePanelCmd(g, labelText, cat, emoji, style) => CreatePanel(s, g, labelText, cat, emoji, style).0
    case DeletePanelCmd(g, id) => DeletePanel(s, g, id).0
    case UpdatePanelAdvancedCmd(id, fields) => UpdatePanelAdvanced(s, id, fields)
  }

  /** Runs a sequence of writes in order. */
  function Run(s: Store, cmds: seq<Command>): (r: Store)
    requires Valid(s)
    ensures Valid(r)
    decreases |cmds|
  {
    if |cmds| == 0 then s else Run(Apply(s, cmds[0]), cmds[1..])
  }

  /** Every stored priority is one of the four allowed values. */
  predicate PrioritiesAllowed(s: Store) {
    forall id :: id in s.tickets ==> s.tickets[id].priority in Priority.Allowed
  }

  lemma ApplyKeepsPriorities(s: Store, c: Command)
    requires Valid(s) && PrioritiesAllowed(s)
    ensures PrioritiesAllowed(Apply(s, c))
  {
    assert DefaultPriority in Priority.Allowed;
  }

  /** Whatever sequence of writes runs from an empty database, the key
      discipline holds and every ticket's priority is allowed. */
  lemma {:induction false} RunKeepsPriorities(s: Store, cmds: seq<Command>)
    requires Valid(s) && PrioritiesAllowed(s)
    ensures PrioritiesAllowed(Run(s, cmds))
    decreases |cmds|
  {
    if |cmds| > 0 {
      ApplyKeepsPriorities(s, cmds[0]);
      RunKeepsPriorities(Apply(s, cmds[0]), cmds[1..]);
    }
  }

  /** No write clears `archived_at` or removes a ticket, so an archived
      ticket stays archived. */
  lemma ApplyKeepsArchived(s: Store, c: Command, id: int)
    requires Valid(s) && id in s.tickets && s.tickets[id].archivedAt.Some?
    ensures id in Apply(s, c).tickets && Apply(s, c).tickets[id].archivedAt.Some?
  {
  }

  lemma {:induction false} RunKeepsArchived(s: Store, cmds: seq<Command>, id: int)
    requires Valid(s) && id in s.tickets && s.tickets[id].archivedAt.Some?
    ensures id in Run(s, cmds).tickets && Run(s, cmds).tickets[id].archivedAt.Some?
    decreases |cmds|
  {
    if |cmds| > 0 {
      ApplyKeepsArchived(s, cmds[0], id);
      RunKeepsArchived(Apply(s, cmds[0]), cmds[1..], id);
    }
  }

  /** Once a stored ticket is marked archived, no archival sweep after any
      sequence of writes selects it again, even if it is reopened and closed
      afresh in between: only the kept `archived_at` keeps it out. */
  lemma ArchivedNeverAgain(s: Store, id: int, now: int, cmds: seq<Command>,
                           g: string, cutoff: int, x: ArchiveCandidate)
    requires Valid(s) && id in s.tickets
    ensures Valid(MarkTicketArchived(s, id, now))
    ensures x in GetClosedTicketsOlderThan(Run(MarkTicketArchived(s, id, now), cmds), g, cutoff)
            ==> x.id != id
  {
    ArchiveKeepsValid(s, id, now);
    RunKeepsArchived(MarkTicketArchived(s, id, now), cmds, id);
  }

  lemma ReachableStoresAreSound(cmds: seq<Command>)
    ensures Valid(EmptyStore)
    ensures Valid(Run(EmptyStore, cmds)) && PrioritiesAllowed(Run(EmptyStore, cmds))
  {
    RunKeepsPriorities(EmptyStore, cmds);
  }
}
