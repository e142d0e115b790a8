/** The read-only queries over `tickets`: the quota building blocks (open
    counts and last creation time, guild-wide and per panel), the channel
    lookup, the archival selection and the per-guild statistics. Each query
    is a conjunction of WHERE clauses over the rows, described by one `Where`
    value and evaluated by a scan of the ids in use. */
module Queries {
  import opened Nullable
  import opened Schema

  /** A conjunction of the WHERE clauses the ticket queries use; an absent
      field is a clause the query leaves out. `panelId` holds the bound
      parameter, which may itself be SQL NULL. `closedBefore` is the archival
      clause `archived_at IS NULL AND closed_at IS NOT NULL AND closed_at < ?`. */
  datatype Where = Where(
    guildId: Option<string>,
    channelId: Option<string>,
    userId: Option<string>,
    status: Option<string>,
    panelId: Option<Option<int>>,
    closedBefore: Option<int>)

  /** SQL `=` on a nullable column: a NULL on either side makes the
      comparison unknown, which WHERE treats as false. */
  predicate SqlEq(column: Option<int>, param: Option<int>) {
    column.Some? && param.Some? && column.value == param.value
  }

  predicate Holds(w: Where, t: Ticket) {
    && (w.guildId.Some? ==> t.guildId == w.guildId.value)
    && (w.channelId.Some? ==> t.channelId == w.channelId.value)
    && (w.userId.Some? ==> t.userId == w.userId.value)
    && (w.status.Some? ==> t.status == w.status.value)
    && (w.panelId.Some? ==> SqlEq(t.panelId, w.panelId.value))
    && (w.closedBefore.Some? ==>
          t.archivedAt.None? && t.closedAt.Some? && t.closedAt.value < w.closedBefore.value)
  }

  const AnyRow := Where(None, None, None, None, None, None)

  /** The matching ids among the first `hi - 1` ids. */
  ghost function MatchBelow(t: map<int, Ticket>, w: Where, hi: int): set<int> {
    set id | id in t && 1 <= id < hi && Holds(w, t[id])
  }

  /** `SELECT COUNT(*)` restricted to ids below `hi`. */
  function CountBelow(t: map<int, Ticket>, w: Where, hi: int): (c: nat)
    ensures c == |MatchBelow(t, w, hi)|
    decreases hi
  {
    if hi <= 1 then
      assert MatchBelow(t, w, hi) == {};
      0
    else
      var c := CountBelow(t, w, hi - 1);
      if hi - 1 in t && Holds(w, t[hi - 1]) then
        assert MatchBelow(t, w, hi) == MatchBelow(t, w, hi - 1) + {hi - 1};
        c + 1
      else
        assert MatchBelow(t, w, hi) == MatchBelow(t, w, hi - 1);
        c
  }

  /** `SELECT COUNT(*) FROM tickets WHERE w`: the number of matching rows. */
  function Count(s: Store, w: Where): (c: nat)
    requires Valid(s)
    ensures c == |set id | id in s.tickets && Holds(w, s.tickets[id])|
  {
    assert MatchBelow(s.tickets, w, s.nextTicketId)
        == set id | id in s.tickets && Holds(w, s.tickets[id]);
    CountBelow(s.tickets, w, s.nextTicketId)
  }

  /** `id` is the highest-id row satisfying `w`: what `ORDER BY id DESC LIMIT 1` returns. */
  predicate IsNewest(s: Store, w: Where, id: int) {
    && id in s.tickets
    && Holds(w, s.tickets[id])
    && (forall j :: j in s.tickets && id < j ==> !Holds(w, s.tickets[j]))
  }

  /** The highest matching id below `hi`, scanning downwards. */
  function NewestBelow(t: map<int, Ticket>, w: Where, hi: int): (r: Option<int>)
    ensures r.Some? ==> && r.value in t && 1 <= r.value < hi && Holds(w, t[r.value])
                        && (forall j :: j in t && r.value < j < hi ==> !Holds(w, t[j]))
    ensures r.None? ==> forall j :: j in t && 1 <= j < hi ==> !Holds(w, t[j])
    decreases hi
  {
    if hi <= 1 then None
    else if hi - 1 in t && Holds(w, t[hi - 1]) then Some(hi - 1)
    else NewestBelow(t, w, hi - 1)
  }

  /** The id `ORDER BY id DESC LIMIT 1` picks, or none when nothing matches. */
  function Newest(s: Store, w: Where): (r: Option<int>)
    requires Valid(s)
    ensures r.Some? ==> IsNewest(s, w, r.value)
    ensures r.None? ==> forall id :: id in s.tickets ==> !Holds(w, s.tickets[id])
  {
    NewestBelow(s.tickets, w, s.nextTicketId)
  }

  /** The matching ids below `hi`, in ascending order. */
  function SelectBelow(t: map<int, Ticket>, w: Where, hi: int): (r: seq<int>)
    ensures forall i :: 0 <= i < |r| ==> r[i] in t && 1 <= r[i] < hi && Holds(w, t[r[i]])
    ensures forall i, j :: 0 <= i < j < |r| ==> r[i] < r[j]
    ensures forall id :: id in t && 1 <= id < hi && Holds(w, t[id]) ==> id in r
    decreases hi
  {
    if hi <= 1 then []
    else
      var init := SelectBelow(t, w, hi - 1);
      if hi - 1 in t && Holds(w, t[hi - 1]) then init + [hi - 1] else init
  }

  function OpenForUser(guildId: string, userId: string): Where {
    AnyRow.(guildId := Some(guildId), userId := Some(userId), status := Some(StatusOpen))
  }

  function ForUser(guildId: string, userId: string): Where {
    AnyRow.(guildId := Some(guildId), userId := Some(userId))
  }

  /** `countOpenTicketsForUser`: how many of the user's tickets in the guild
      have status "open". */
  function CountOpenTicketsForUser(s: Store, guildId: string, userId: string): (c: nat)
    requires Valid(s)
    ensures c == |set id | id in s.tickets && s.tickets[id].guildId == guildId
                          && s.tickets[id].userId == userId && s.tickets[id].status == StatusOpen|
  {
    var w := OpenForUser(guildId, userId);
    assert (set id | id in s.tickets && Holds(w, s.tickets[id]))
        == (set id | id in s.tickets && s.tickets[id].guildId == guildId
                     && s.tickets[id].userId == userId && s.tickets[id].status == StatusOpen);
    Count(s, w)
  }

  /** `countOpenTicketsForUserInPanel`: the same count restricted to tickets
      opened from the panel; a ticket without a panel never counts, and a NULL
      panel parameter counts nothing. */
  function CountOpenTicketsForUserInPanel(s: Store, guildId: string, userId: string,
                                          panelId: Option<int>): (c: nat)
    requires Valid(s)
    ensures panelId.None? ==> c == 0
    ensures panelId.Some? ==>
              c == |set id | id in s.tickets && s.tickets[id].guildId == guildId
                             && s.tickets[id].userId == userId && s.tickets[id].status == StatusOpen
                             && s.tickets[id].panelId == panelId|
  {
    var w := OpenForUser(guildId, userId).(panelId := Some(panelId));
    assert panelId.None? ==> (set id | id in s.tickets && Holds(w, s.tickets[id])) == {};
    assert panelId.Some? ==>
      (set id | id in s.tickets && Holds(w, s.tickets[id]))
        == (set id | id in s.tickets && s.tickets[id].guildId == guildId
                     && s.tickets[id].userId == userId && s.tickets[id].status == StatusOpen
                     && s.tickets[id].panelId == panelId);
    Count(s, w)
  }

  /** `row?.created_at || null`: an epoch value of 0 is falsy and comes back
      as null, just like a missing row. */
  function CreatedAtOrNull(s: Store, id: Option<int>): (r: Option<int>)
    requires id.Some? ==> id.value in s.tickets
    ensures r.Some? ==> r.value != 0 && id.Some? && s.tickets[id.value].createdAt == r.value
    ensures r.None? <==> id.None? || s.tickets[id.value].createdAt == 0
  {
    if id.None? || s.tickets[id.value].createdAt == 0 then None
    else Some(s.tickets[id.value].createdAt)
  }

  /** `getLastTicketCreatedAt`: the creation time of the user's newest ticket
      in the guild, whatever its status; null when there is none or when that
      time is 0. */
  function GetLastTicketCreatedAt(s: Store, guildId: string, userId: string): (r: Option<int>)
    requires Valid(s)
    ensures r.Some? ==> r.value != 0
    ensures r.Some? ==> exists id :: IsNewest(s, ForUser(guildId, userId), id)
                                     && s.tickets[id].createdAt == r.value
    ensures r.None? ==> forall id :: IsNewest(s, ForUser(guildId, userId), id)
                                     ==> s.tickets[id].createdAt == 0
  {
    var n := Newest(s, ForUser(guildId, userId));
    NewestUnique(s, ForUser(guildId, userId));
    CreatedAtOrNull(s, n)
  }

  /** `getLastTicketCreatedAtInPanel`: the same, among the user's tickets of
      that panel; a NULL panel parameter matches nothing. */
  function GetLastTicketCreatedAtInPanel(s: Store, guildId: string, userId: string,
                                         panelId: Option<int>): (r: Option<int>)
    requires Valid(s)
    ensures panelId.None? ==> r.None?
    ensures r.Some? ==> r.value != 0
    ensures r.Some? ==> exists id :: IsNewest(s, ForUser(guildId, userId).(panelId := Some(panelId)), id)
                                     && s.tickets[id].createdAt == r.value
    ensures r.None? ==> forall id :: IsNewest(s, ForUser(guildId, userId).(panelId := Some(panelId)), id)
                                     ==> s.tickets[id].createdAt == 0
  {
    var w := ForUser(guildId, userId).(panelId := Some(panelId));
    var n := Newest(s, w);
    NewestUnique(s, w);
    CreatedAtOrNull(s, n)
  }

  /** At most one row is the newest match. */
  lemma NewestUnique(s: Store, w: Where)
    ensures forall a, b :: IsNewest(s, w, a) && IsNewest(s, w, b) ==> a == b
  {
  }

  /** `getTicketByChannelId`: the newest ticket bound to the channel. */
  function GetTicketByChannelId(s: Store, channelId: string): (r: Option<Ticket>)
    requires Valid(s)
    ensures r.None? <==> forall id :: id in s.tickets ==> s.tickets[id].channelId != channelId
    ensures r.Some? ==> IsNewest(s, AnyRow.(channelId := Some(channelId)), r.value.id)
                        && s.tickets[r.value.id] == r.value
  {
    var n := Newest(s, AnyRow.(channelId := Some(channelId)));
    if n.None? then None else Some(s.tickets[n.value])
  }

  /** One row of `getClosedTicketsOlderThan`. */
  datatype ArchiveCandidate = ArchiveCandidate(id: int, channelId: string)

  /** The archival condition on one row: a closed, not yet archived ticket
      of the guild whose close time is strictly before the cutoff. */
  predicate DueForArchive(t: Ticket, guildId: string, cutoff: int) {
    && t.guildId == guildId
    && t.status == StatusClosed
    && t.archivedAt.None?
    && t.closedAt.Some?
    && t.closedAt.value < cutoff
  }

  function DueWhere(guildId: string, cutoff: int): Where {
    AnyRow.(guildId := Some(guildId), status := Some(StatusClosed), closedBefore := Some(cutoff))
  }

  /** The candidates for the rows stored under `ids`, in the same order. */
  function CandidatesOf(t: map<int, Ticket>, ids: seq<int>): (r: seq<ArchiveCandidate>)
    requires forall i :: 0 <= i < |ids| ==> ids[i] in t
    ensures |r| == |ids|
    ensures forall i :: 0 <= i < |ids| ==> r[i] == ArchiveCandidate(ids[i], t[ids[i]].channelId)
  {
    seq(|ids|, i requires 0 <= i < |ids| => ArchiveCandidate(ids[i], t[ids[i]].channelId))
  }

  /** Every listed id's candidate appears among the candidates. */
  lemma CandidatesCover(t: map<int, Ticket>, ids: seq<int>)
    requires forall i :: 0 <= i < |ids| ==> ids[i] in t
    ensures forall id :: id in ids ==> ArchiveCandidate(id, t[id].channelId) in CandidatesOf(t, ids)
  {
    var r := CandidatesOf(t, ids);
    forall id | id in ids
      ensures ArchiveCandidate(id, t[id].channelId) in r
    {
      var i :| 0 <= i < |ids| && ids[i] == id;
      assert r[i] == ArchiveCandidate(id, t[id].channelId);
    }
  }

  /** `getClosedTicketsOlderThan`: exactly the rows due for archival, each
      once. The query has no ORDER BY; this model lists them by ascending id,
      and nothing below depends on that order. */
  function GetClosedTicketsOlderThan(s: Store, guildId: string, cutoff: int): (r: seq<ArchiveCandidate>)
    requires Valid(s)
    ensures forall i :: 0 <= i < |r| ==>
              r[i].id in s.tickets && DueForArchive(s.tickets[r[i].id], guildId, cutoff)
              && r[i].channelId == s.tickets[r[i].id].channelId
    ensures forall id :: id in s.tickets && DueForArchive(s.tickets[id], guildId, cutoff) ==>
              ArchiveCandidate(id, s.tickets[id].channelId) in r
    ensures forall i, j :: 0 <= i < j < |r| ==> r[i].id != r[j].id
  {
    var ids := SelectBelow(s.tickets, DueWhere(guildId, cutoff), s.nextTicketId);
    CandidatesCover(s.tickets, ids);
    CandidatesOf(s.tickets, ids)
  }

  datatype Stats = Stats(open: nat, closed: nat)

  /** `getTicketStats`: how many of the guild's tickets are open and how many
      closed; other statuses count in neither. */
  function GetTicketStats(s: Store, guildId: string): (r: Stats)
    requires Valid(s)
    ensures r.open == |set id | id in s.tickets && s.tickets[id].guildId == guildId
                                && s.tickets[id].status == StatusOpen|
    ensures r.closed == |set id | id in s.tickets && s.tickets[id].guildId == guildId
                                  && s.tickets[id].status == StatusClosed|
  {
    var wOpen := AnyRow.(guildId := Some(guildId), status := Some(StatusOpen));
    var wClosed := AnyRow.(guildId := Some(guildId), status := Some(StatusClosed));
    assert (set id | id in s.tickets && Holds(wOpen, s.tickets[id]))
        == (set id | id in s.tickets && s.tickets[id].guildId == guildId
                     && s.tickets[id].status == StatusOpen);
    assert (set id | id in s.tickets && Holds(wClosed, s.tickets[id]))
        == (set id | id in s.tickets && s.tickets[id].guildId == guildId
                     && s.tickets[id].status == StatusClosed);
    Stats(Count(s, wOpen), Count(s, wClosed))
  }
}
