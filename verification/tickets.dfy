/** The writes and point reads of the `tickets`, `ticket_members` and
    `ticket_notes` tables. Every operation is a pure function from the store
    before to the store after; the clock is the `now` parameter, in epoch
    seconds. */
module Tickets {
  import opened Nullable
  import opened Schema
  import Priority
  import TagCodec

  /** `r` is `s` with at most row `id` of `tickets` rewritten: no row appears
      or disappears, no other row or table changes, and an unknown id changes
      nothing at all. */
  predicate RowFrame(s: Store, r: Store, id: int) {
    && r == s.(tickets := r.tickets)
    && r.tickets.Keys == s.tickets.Keys
    && (forall k :: k in s.tickets && k != id ==> r.tickets[k] == s.tickets[k])
    && (id !in s.tickets ==> r == s)
  }

  /** `ensureTicket`: inserts one row under the next AUTOINCREMENT id, with the
      schema defaults for every column the insert leaves out, and returns it. */
  function EnsureTicket(s: Store, guildId: string, channelId: string, userId: string,
                        reason: Option<string>, panelId: Option<int>, now: int): (r: (Store, Ticket))
    requires Valid(s)
    ensures Valid(r.0)
    ensures forall k :: k in s.tickets ==> k < r.1.id
    ensures r.0.tickets == s.tickets[r.1.id := r.1]
    ensures r.0 == s.(tickets := r.0.tickets, nextTicketId := r.0.nextTicketId)
    ensures && r.1.guildId == guildId && r.1.channelId == channelId && r.1.userId == userId
            && r.1.panelId == panelId && r.1.reason == reason
    ensures && r.1.status == StatusOpen && r.1.claimedBy == None
            && r.1.priority == DefaultPriority && r.1.tags == ""
            && r.1.createdAt == now
            && r.1.closedAt == None && r.1.archivedAt == None && r.1.closeReason == None
  {
    var row := Ticket(s.nextTicketId, guildId, channelId, userId, panelId, reason,
                      StatusOpen, None, DefaultPriority, "", now, None, None, None);
    (s.(tickets := s.tickets[row.id := row], nextTicketId := s.nextTicketId + 1), row)
  }

  /** `getTicketById`: the row stored under `id`, if any. */
  function GetTicketById(s: Store, id: int): (r: Option<Ticket>)
    ensures r.Some? <==> id in s.tickets
    ensures r.Some? ==> r.value == s.tickets[id]
    ensures Valid(s) && r.Some? ==> r.value.id == id
  {
    if id in s.tickets then Some(s.tickets[id]) else None
  }

  /** `updateTicketStatus`: writes any status it is given, with no transition
      check; only the status "closed" also stamps `closedAt`, so any other
      status (a reopen, say) keeps the last close time and close reason. */
  function UpdateTicketStatus(s: Store, id: int, status: string, now: int): (r: Store)
    ensures RowFrame(s, r, id)
    ensures id in s.tickets ==> r.tickets[id].status == status
    ensures id in s.tickets && status == StatusClosed ==>
              r.tickets[id] == s.tickets[id].(status := status, closedAt := Some(now))
    ensures id in s.tickets && status != StatusClosed ==>
              r.tickets[id] == s.tickets[id].(status := status)
  {
    if id !in s.tickets then s
    else
      var t := s.tickets[id];
      var t' := if status == StatusClosed then t.(status := status, closedAt := Some(now))
                else t.(status := status);
      s.(tickets := s.tickets[id := t'])
  }

  /** `claimTicket`: overwrites whoever held the claim. */
  function ClaimTicket(s: Store, id: int, staffId: string): (r: Store)
    ensures RowFrame(s, r, id)
    ensures id in s.tickets ==> r.tickets[id] == s.tickets[id].(claimedBy := Some(staffId))
  {
    if id !in s.tickets then s
    else s.(tickets := s.tickets[id := s.tickets[id].(claimedBy := Some(staffId))])
  }

  /** `unclaimTicket`: clears the claim, whether or not there was one. */
  function UnclaimTicket(s: Store, id: int): (r: Store)
    ensures RowFrame(s, r, id)
    ensures id in s.tickets ==> r.tickets[id] == s.tickets[id].(claimedBy := None)
  {
    if id !in s.tickets then s
    else s.(tickets := s.tickets[id := s.tickets[id].(claimedBy := None)])
  }

  /** `setTicketCloseReason`: overwrites the close reason, possibly with null. */
  function SetTicketCloseReason(s: Store, id: int, reason: Option<string>): (r: Store)
    ensures RowFrame(s, r, id)
    ensures id in s.tickets ==> r.tickets[id] == s.tickets[id].(closeReason := reason)
  {
    if id !in s.tickets then s
    else s.(tickets := s.tickets[id := s.tickets[id].(closeReason := reason)])
  }

  /** `markTicketArchived`: stamps `archivedAt` and nothing else; the status
      stays what it was, and the ticket need not be closed. */
  function MarkTicketArchived(s: Store, id: int, now: int): (r: Store)
    ensures RowFrame(s, r, id)
    ensures id in s.tickets ==> r.tickets[id] == s.tickets[id].(archivedAt := Some(now))
  {
    if id !in s.tickets then s
    else s.(tickets := s.tickets[id := s.tickets[id].(archivedAt := Some(now))])
  }

  /** `setTicketPriority`: the stored priority is always one of the four
      allowed values, whatever was passed. */
  function SetTicketPriority(s: Store, id: int, priority: Option<string>): (r: Store)
    ensures RowFrame(s, r, id)
    ensures id in s.tickets ==> r.tickets[id].priority in Priority.Allowed
    ensures id in s.tickets ==>
              r.tickets[id] == s.tickets[id].(priority := Priority.Normalize(priority))
  {
    if id !in s.tickets then s
    else s.(tickets := s.tickets[id := s.tickets[id].(priority := Priority.Normalize(priority))])
  }

  /** `setTicketTags`: stores the sanitised tags joined with commas. */
  function SetTicketTags(s: Store, id: int, tags: Option<seq<string>>): (r: Store)
    ensures RowFrame(s, r, id)
    ensures id in s.tickets ==> r.tickets[id] == s.tickets[id].(tags := TagCodec.Serialize(tags))
  {
    if id !in s.tickets then s
    else s.(tickets := s.tickets[id := s.tickets[id].(tags := TagCodec.Serialize(tags))])
  }

  /** `getTicketTags`: the parsed tags of the row, or none for an unknown id;
      every entry is trimmed and non-empty. */
  function GetTicketTags(s: Store, id: int): (r: seq<string>)
    ensures TagCodec.Clean(r)
    ensures id !in s.tickets ==> r == []
  {
    var stored := if id in s.tickets then s.tickets[id].tags else "";
    TagCodec.ParseEmpty();
    TagCodec.Parse(stored)
  }

  /** `addUserToTicket` (INSERT OR IGNORE): the pair is present afterwards and
      no other pair changes. */
  function AddUserToTicket(s: Store, ticketId: int, userId: string): (r: Store)
    ensures r == s.(members := r.members)
    ensures Member(ticketId, userId) in r.members
    ensures forall m :: m != Member(ticketId, userId) ==> (m in r.members <==> m in s.members)
  {
    s.(members := s.members + {Member(ticketId, userId)})
  }

  /** `removeUserFromTicket`: the pair is absent afterwards and no other pair
      changes. */
  function RemoveUserFromTicket(s: Store, ticketId: int, userId: string): (r: Store)
    ensures r == s.(members := r.members)
    ensures Member(ticketId, userId) !in r.members
    ensures forall m :: m != Member(ticketId, userId) ==> (m in r.members <==> m in s.members)
  {
    s.(members := s.members - {Member(ticketId, userId)})
  }

  /** One row of `listTicketNotes`. */
  datatype NoteView = NoteView(userId: string, note: string, createdAt: int)

  function ViewOf(n: Note): NoteView {
    NoteView(n.userId, n.text, n.createdAt)
  }

  /** The notes of one ticket, in log order: every entry shows a note of
      that ticket, and every note of that ticket is shown. */
  function NotesOf(notes: seq<Note>, ticketId: int): (r: seq<NoteView>)
    ensures |r| <= |notes|
    ensures forall v :: v in r ==> exists n :: n in notes && n.ticketId == ticketId && ViewOf(n) == v
    ensures forall n :: n in notes && n.ticketId == ticketId ==> ViewOf(n) in r
    decreases |notes|
  {
    if |notes| == 0 then []
    else
      var init := notes[..|notes| - 1];
      var n := notes[|notes| - 1];
      assert notes == init + [n];
      NotesOf(init, ticketId) + (if n.ticketId == ticketId then [ViewOf(n)] else [])
  }

  /** `addTicketNote`: appends one note to the log, stamped `now`. */
  function AddTicketNote(s: Store, ticketId: int, userId: string, note: string, now: int): (r: Store)
    ensures r == s.(notes := r.notes)
    ensures |r.notes| == |s.notes| + 1 && r.notes[..|s.notes|] == s.notes
    ensures r.notes[|s.notes|] == Note(ticketId, userId, note, now)
  {
    s.(notes := s.notes + [Note(ticketId, userId, note, now)])
  }

  /** `listTicketNotes`: the ticket's notes in id order, and only those. */
  function ListTicketNotes(s: Store, ticketId: int): (r: seq<NoteView>)
    ensures forall v :: v in r ==> exists n :: n in s.notes && n.ticketId == ticketId && ViewOf(n) == v
    ensures forall n :: n in s.notes && n.ticketId == ticketId ==> ViewOf(n) in r
  {
    NotesOf(s.notes, ticketId)
  }
}
