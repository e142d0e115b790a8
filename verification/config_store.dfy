/** The writes and reads of the `guild_config` and `panels` tables: the
    basic and advanced guild settings and the intake panels. */
module ConfigStore {
  import opened Nullable
  import opened Schema

  /** `r` is `s` with at most the config row of `guildId` written: the row
      exists afterwards and no other guild's row or other table changes. */
  predicate ConfigFrame(s: Store, r: Store, guildId: string) {
    && r == s.(configs := r.configs)
    && r.configs.Keys == s.configs.Keys + {guildId}
    && (forall g :: g in s.configs && g != guildId ==> r.configs[g] == s.configs[g])
  }

  /** `getGuildConfig`: the guild's row, if any. */
  function GetGuildConfig(s: Store, guildId: string): (r: Option<GuildConfig>)
    ensures r.Some? <==> guildId in s.configs
    ensures r.Some? ==> r.value == s.configs[guildId]
  {
    if guildId in s.configs then Some(s.configs[guildId]) else None
  }

  /** The row the advanced merge starts from: the stored one, else all null. */
  function StoredConfig(s: Store, guildId: string): GuildConfig {
    if guildId in s.configs then s.configs[guildId] else NoConfig
  }

  /** `upsertGuildConfig`: writes the staff role and ticket category, which
      may be null. A new row starts with no quota, cooldown or archival
      setting; an existing row keeps the ones it has. */
  function UpsertGuildConfig(s: Store, guildId: string, staffRoleId: Option<string>,
                             ticketsCategoryId: Option<string>): (r: Store)
    ensures ConfigFrame(s, r, guildId)
    ensures r.configs[guildId].staffRoleId == staffRoleId
    ensures r.configs[guildId].ticketsCategoryId == ticketsCategoryId
    ensures && r.configs[guildId].maxOpenTickets == StoredConfig(s, guildId).maxOpenTickets
            && r.configs[guildId].openCooldownSec == StoredConfig(s, guildId).openCooldownSec
            && r.configs[guildId].autoArchiveHours == StoredConfig(s, guildId).autoArchiveHours
  {
    var row := if guildId in s.configs
               then s.configs[guildId].(staffRoleId := staffRoleId, ticketsCategoryId := ticketsCategoryId)
               else GuildConfig(staffRoleId, ticketsCategoryId, None, None, None);
    s.(configs := s.configs[guildId := row])
  }

  /** The optional fields of `upsertAdvancedConfig`; absent means "keep". */
  datatype AdvancedPartial = AdvancedPartial(
    maxOpenTickets: Option<int>,
    openCooldownSec: Option<int>,
    autoArchiveHours: Option<int>)

  /** `upsertAdvancedConfig`: each advanced field takes the supplied value
      (0 included), else the stored one, so a stored value can be replaced but
      never cleared. The staff role and category are carried over from the
      stored row through `||`, which turns a stored empty string into null. */
  function UpsertAdvancedConfig(s: Store, guildId: string, partial: AdvancedPartial): (r: Store)
    ensures ConfigFrame(s, r, guildId)
    ensures partial.maxOpenTickets.Some? ==> r.configs[guildId].maxOpenTickets == partial.maxOpenTickets
    ensures partial.maxOpenTickets.None? ==>
              r.configs[guildId].maxOpenTickets == StoredConfig(s, guildId).maxOpenTickets
    ensures partial.openCooldownSec.Some? ==> r.configs[guildId].openCooldownSec == partial.openCooldownSec
    ensures partial.openCooldownSec.None? ==>
              r.configs[guildId].openCooldownSec == StoredConfig(s, guildId).openCooldownSec
    ensures partial.autoArchiveHours.Some? ==> r.configs[guildId].autoArchiveHours == partial.autoArchiveHours
    ensures partial.autoArchiveHours.None? ==>
              r.configs[guildId].autoArchiveHours == StoredConfig(s, guildId).autoArchiveHours
    ensures Truthy(StoredConfig(s, guildId).staffRoleId) ==>
              r.configs[guildId].staffRoleId == StoredConfig(s, guildId).staffRoleId
    ensures !Truthy(StoredConfig(s, guildId).staffRoleId) ==> r.configs[guildId].staffRoleId == None
    ensures Truthy(StoredConfig(s, guildId).ticketsCategoryId) ==>
              r.configs[guildId].ticketsCategoryId == StoredConfig(s, guildId).ticketsCategoryId
    ensures !Truthy(StoredConfig(s, guildId).ticketsCategoryId) ==> r.configs[guildId].ticketsCategoryId == None
  {
    var current := StoredConfig(s, guildId);
    var merged := GuildConfig(
      if Truthy(current.staffRoleId) then current.staffRoleId else None,
      if Truthy(current.ticketsCategoryId) then current.ticketsCategoryId else None,
      partial.maxOpenTickets.OrElse(current.maxOpenTickets),
      partial.openCooldownSec.OrElse(current.openCooldownSec),
      partial.autoArchiveHours.OrElse(current.autoArchiveHours));
    s.(configs := s.configs[guildId := merged])
  }

  /** Applying the same partial twice is applying it once. */
  lemma AdvancedConfigIdempotent(s: Store, guildId: string, partial: AdvancedPartial)
    ensures UpsertAdvancedConfig(UpsertAdvancedConfig(s, guildId, partial), guildId, partial)
         == UpsertAdvancedConfig(s, guildId, partial)
  {
    var once := UpsertAdvancedConfig(s, guildId, partial);
    var twice := UpsertAdvancedConfig(once, guildId, partial);
    assert twice.configs[guildId] == once.configs[guildId];
    assert twice.configs == once.configs;
  }

  /** `createPanel`: inserts one panel under the next AUTOINCREMENT id, with
      no overrides, and returns it. An omitted style is "Success". */
  function CreatePanel(s: Store, guildId: string, labelText: string, categoryId: string,
                       emoji: Option<string>, style: Option<string>): (r: (Store, Panel))
    requires Valid(s)
    ensures Valid(r.0)
    ensures forall k :: k in s.panels ==> k < r.1.id
    ensures r.0.panels == s.panels[r.1.id := r.1]
    ensures r.0 == s.(panels := r.0.panels, nextPanelId := r.0.nextPanelId)
    ensures && r.1.guildId == guildId && r.1.labelText == labelText
            && r.1.categoryId == categoryId && r.1.emoji == emoji
    ensures r.1.style == style.GetOr(DefaultPanelStyle)
    ensures r.1.staffRoleId == None && r.1.maxOpenTickets == None && r.1.openCooldownSec == None
  {
    var row := Panel(s.nextPanelId, guildId, labelText, categoryId, emoji,
                     style.GetOr(DefaultPanelStyle), None, None, None);
    (s.(panels := s.panels[row.id := row], nextPanelId := s.nextPanelId + 1), row)
  }

  /** `getPanelById`: the panel stored under `id`, if any. */
  function GetPanelById(s: Store, id: int): (r: Option<Panel>)
    ensures r.Some? <==> id in s.panels
    ensures r.Some? ==> r.value == s.panels[id]
    ensures Valid(s) && r.Some? ==> r.value.id == id
  {
    if id in s.panels then Some(s.panels[id]) else None
  }

  /** The ids below `hi` of the guild's panels, ascending. */
  function PanelIdsBelow(panels: map<int, Panel>, guildId: string, hi: int): (r: seq<int>)
    ensures forall i :: 0 <= i < |r| ==> r[i] in panels && 1 <= r[i] < hi && panels[r[i]].guildId == guildId
    ensures forall i, j :: 0 <= i < j < |r| ==> r[i] < r[j]
    ensures forall id :: id in panels && 1 <= id < hi && panels[id].guildId == guildId ==> id in r
    decreases hi
  {
    if hi <= 1 then []
    else
      var init := PanelIdsBelow(panels, guildId, hi - 1);
      if hi - 1 in panels && panels[hi - 1].guildId == guildId then init + [hi - 1] else init
  }

  /** The rows stored under `ids`, in the same order. */
  function RowsOf(panels: map<int, Panel>, ids: seq<int>): (r: seq<Panel>)
    requires forall i :: 0 <= i < |ids| ==> ids[i] in panels
    ensures |r| == |ids| && forall i :: 0 <= i < |ids| ==> r[i] == panels[ids[i]]
  {
    seq(|ids|, i requires 0 <= i < |ids| => panels[ids[i]])
  }

  lemma RowsOfAppend(panels: map<int, Panel>, ids: seq<int>, id: int)
    requires forall i :: 0 <= i < |ids| ==> ids[i] in panels
    requires id in panels
    ensures RowsOf(panels, ids + [id]) == RowsOf(panels, ids) + [panels[id]]
  {
  }

  /** Every listed id's row appears in the rows. */
  lemma RowsOfCovers(panels: map<int, Panel>, ids: seq<int>)
    requires forall i :: 0 <= i < |ids| ==> ids[i] in panels
    ensures forall id :: id in ids ==> panels[id] in RowsOf(panels, ids)
  {
    var r := RowsOf(panels, ids);
    forall id | id in ids
      ensures panels[id] in r
    {
      var i :| 0 <= i < |ids| && ids[i] == id;
      assert r[i] == panels[id];
    }
  }

  lemma RowsOfAgree(a: map<int, Panel>, b: map<int, Panel>, ids: seq<int>)
    requires forall i :: 0 <= i < |ids| ==> ids[i] in a && ids[i] in b && a[ids[i]] == b[ids[i]]
    ensures RowsOf(a, ids) == RowsOf(b, ids)
  {
  }

  /** `listPanels`: all of the guild's panels, each once, by ascending id. */
  function ListPanels(s: Store, guildId: string): (r: seq<Panel>)
    requires Valid(s)
    ensures forall i :: 0 <= i < |r| ==> r[i].id in s.panels && s.panels[r[i].id] == r[i] && r[i].guildId == guildId
    ensures forall i, j :: 0 <= i < j < |r| ==> r[i].id < r[j].id
    ensures forall id :: id in s.panels && s.panels[id].guildId == guildId ==> s.panels[id] in r
  {
    var ids := PanelIdsBelow(s.panels, guildId, s.nextPanelId);
    RowsOfCovers(s.panels, ids);
    RowsOf(s.panels, ids)
  }

  /** `deletePanel`: removes the panel only when it belongs to the guild and
      reports how many rows went (0 or 1). Tickets that name the panel keep
      their `panelId`. */
  function DeletePanel(s: Store, guildId: string, id: int): (r: (Store, nat))
    ensures r.0 == s.(panels := r.0.panels)
    ensures id in s.panels && s.panels[id].guildId == guildId ==>
              r.0.panels == s.panels - {id} && r.1 == 1
    ensures !(id in s.panels && s.panels[id].guildId == guildId) ==> r.0 == s && r.1 == 0
  {
    if id in s.panels && s.panels[id].guildId == guildId then
      (s.(panels := s.panels - {id}), 1)
    else
      (s, 0)
  }

  /** The optional fields of `updatePanelAdvanced`; absent means "keep". */
  datatype PanelPartial = PanelPartial(
    staffRoleId: Option<string>,
    maxOpenTickets: Option<int>,
    openCooldownSec: Option<int>)

  /** `updatePanelAdvanced`: a no-op for an unknown panel; otherwise each
      override takes the supplied value, else keeps the stored one, and no
      other column, panel or table changes. */
  function UpdatePanelAdvanced(s: Store, id: int, fields: PanelPartial): (r: Store)
    ensures r == s.(panels := r.panels)
    ensures r.panels.Keys == s.panels.Keys
    ensures forall k :: k in s.panels && k != id ==> r.panels[k] == s.panels[k]
    ensures id !in s.panels ==> r == s
    ensures id in s.panels ==>
              && r.panels[id].staffRoleId == fields.staffRoleId.OrElse(s.panels[id].staffRoleId)
              && r.panels[id].maxOpenTickets == fields.maxOpenTickets.OrElse(s.panels[id].maxOpenTickets)
              && r.panels[id].openCooldownSec == fields.openCooldownSec.OrElse(s.panels[id].openCooldownSec)
              && r.panels[id] == s.panels[id].(staffRoleId := r.panels[id].staffRoleId,
                                               maxOpenTickets := r.panels[id].maxOpenTickets,
                                               openCooldownSec := r.panels[id].openCooldownSec)
  {
    if id !in s.panels then s
    else
      var p := s.panels[id];
      var p' := p.(staffRoleId := fields.staffRoleId.OrElse(p.staffRoleId),
                   maxOpenTickets := fields.maxOpenTickets.OrElse(p.maxOpenTickets),
                   openCooldownSec := fields.openCooldownSec.OrElse(p.openCooldownSec));
      s.(panels := s.panels[id := p'])
  }

  /** Applying the same panel partial twice is applying it once. */
  lemma PanelAdvancedIdempotent(s: Store, id: int, fields: PanelPartial)
    ensures UpdatePanelAdvanced(UpdatePanelAdvanced(s, id, fields), id, fields)
         == UpdatePanelAdvanced(s, id, fields)
  {
    var once := UpdatePanelAdvanced(s, id, fields);
    var twice := UpdatePanelAdvanced(once, id, fields);
    if id in s.panels {
      assert twice.panels[id] == once.panels[id];
      assert twice.panels == once.panels;
    }
  }
}
