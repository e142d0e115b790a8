/** The ticket database as an immutable value: one field per table, plus the
    two AUTOINCREMENT counters. Every row keeps its own primary key, as
    `SELECT *` returns it. */
module Schema {
  import opened Nullable

  const StatusOpen := "open"
  const StatusClosed := "closed"
  const DefaultPriority := "normal"
  const DefaultPanelStyle := "Success"

  /** A `guild_config` row, keyed by guild id. */
  datatype GuildConfig = GuildConfig(
    staffRoleId: Option<string>,
    ticketsCategoryId: Option<string>,
    maxOpenTickets: Option<int>,
    openCooldownSec: Option<int>,
    autoArchiveHours: Option<int>)

  /** What the advanced merge reads when the guild has no row yet. */
  const NoConfig := GuildConfig(None, None, None, None, None)

  /** A `tickets` row. `status` is free text: the store writes whatever
      status it is handed. */
  datatype Ticket = Ticket(
    id: int,
    guildId: string,
    channelId: string,
    userId: string,
    panelId: Option<int>,
    reason: Option<string>,
    status: string,
    claimedBy: Option<string>,
    priority: string,
    tags: string,
    createdAt: int,
    closedAt: Option<int>,
    archivedAt: Option<int>,
    closeReason: Option<string>)

  /** A `panels` row. */
  datatype Panel = Panel(
    id: int,
    guildId: string,
    labelText: string,
    categoryId: string,
    emoji: Option<string>,
    style: string,
    staffRoleId: Option<string>,
    maxOpenTickets: Option<int>,
    openCooldownSec: Option<int>)

  /** A `ticket_members` row; the table is unique on the pair. */
  datatype Member = Member(ticketId: int, userId: string)

  /** A `ticket_notes` row. Its AUTOINCREMENT id is its position in the log
      plus one, so the log order is the id order. */
  datatype Note = Note(ticketId: int, userId: string, text: string, createdAt: int)

  datatype Store = Store(
    configs: map<string, GuildConfig>,
    tickets: map<int, Ticket>,
    nextTicketId: int,
    members: set<Member>,
    notes: seq<Note>,
    panels: map<int, Panel>,
    nextPanelId: int)

  /** A freshly created database. */
  const EmptyStore := Store(map[], map[], 1, {}, [], map[], 1)

  /** The AUTOINCREMENT discipline of `tickets` and `panels`: every row sits
      under its own id, ids start at 1, and the next id to hand out is above
      every id in use. */
  predicate Valid(s: Store) {
    && 1 <= s.nextTicketId
    && 1 <= s.nextPanelId
    && (forall id :: id in s.tickets ==> s.tickets[id].id == id && 1 <= id < s.nextTicketId)
    && (forall id :: id in s.panels ==> s.panels[id].id == id && 1 <= id < s.nextPanelId)
  }
}
