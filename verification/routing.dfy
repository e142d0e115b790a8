/** The interaction router of the bot: slash commands go to the registered
    command of that name, and buttons and modal submits are dispatched on a
    colon-separated custom id `scope:action:arg`. The router returns the
    response it would make instead of calling the platform. */
module Routing {
  import opened Nullable
  import opened Text

  /** `const [scope, action, arg] = customId.split(':')`; missing parts are
      `undefined`, extra parts are ignored. */
  datatype CustomId = CustomId(scope: string, action: Option<string>, arg: Option<string>)

  function ParseCustomId(id: string): (r: CustomId)
    ensures ':' !in r.scope && StartsWith(id, r.scope)
    ensures |r.scope| < |id| ==> id[|r.scope|] == ':'
    ensures r.action.None? <==> Occurrences(id, ':') == 0
    ensures r.action.Some? ==>
              var prefix := r.scope + [':'] + r.action.value;
              && ':' !in r.action.value && StartsWith(id, prefix)
              && (|prefix| < |id| ==> id[|prefix|] == ':')
    ensures r.arg.Some? <==> Occurrences(id, ':') >= 2
    ensures r.arg.Some? ==>
              && r.action.Some? && ':' !in r.arg.value
              && var prefix := r.scope + [':'] + r.action.value + [':'] + r.arg.value;
                 && StartsWith(id, prefix)
                 && (|prefix| < |id| ==> id[|prefix|] == ':')
  {
    var parts := Split(id, ':');
    JoinSplit(id, ':');
    if |parts| >= 2 then
      SplitParts(parts, ':');
      CustomId(parts[0], Some(parts[1]), if |parts| > 2 then Some(parts[2]) else None)
    else
      CustomId(parts[0], None, None)
  }

  /** The join of two or more parts starts with the first two and the
      separator between them, followed by another separator when a third
      part comes; likewise the first three parts, when there are three. */
  lemma {:induction false} SplitParts(parts: seq<string>, sep: char)
    requires |parts| >= 2
    ensures var prefix := parts[0] + [sep] + parts[1];
            var joined := Join(parts, sep);
            && StartsWith(joined, prefix)
            && (|parts| >= 3 ==> |prefix| < |joined| && joined[|prefix|] == sep)
            && (|parts| == 2 ==> joined == prefix)
    ensures |parts| >= 3 ==>
              var prefix := parts[0] + [sep] + parts[1] + [sep] + parts[2];
              var joined := Join(parts, sep);
              && StartsWith(joined, prefix)
              && (|prefix| < |joined| ==> joined[|prefix|] == sep)
    decreases |parts|
  {
    var rest := Join(parts[1..], sep);
    assert Join(parts, sep) == parts[0] + [sep] + rest;
    assert parts[1..][0] == parts[1];
    if |parts| >= 3 {
      assert parts[1..][1..] == parts[2..];
      SplitParts(parts[1..], sep);
      assert parts[1..][1] == parts[2];
      var tail := parts[1] + [sep] + parts[2];
      assert StartsWith(rest, tail);
      assert parts[0] + [sep] + parts[1] + [sep] + parts[2] == parts[0] + [sep] + tail;
      assert Join(parts, sep)[..|parts[0]| + 1 + |tail|] == parts[0] + [sep] + rest[..|tail|];
    }
  }

  /** The modal the "open" button shows. */
  datatype Modal = Modal(customId: string, title: string, inputId: string, inputLabel: string,
                         inputMaxLength: nat, inputRequired: bool)

  const TicketScope := "ticket"
  const OpenAction := "open"
  const OpenTicketModal := Modal("ticket:open", "Open a Ticket", "reason",
                                 "Briefly describe your issue", 1000, true)
  const GenericFailure := "Something went wrong. Please try again or contact staff."
  const ReceivedPrefix := "Ticket request received: "

  datatype Interaction =
    | ChatCommand(commandName: string)
    | ButtonPress(customId: string)
    | ModalSubmit(customId: string, reasonField: Option<string>)
    | OtherInteraction

  datatype Response =
    | NoResponse
    | RunCommand(name: string)
    | ShowModal(modal: Modal)
    | Reply(content: string, ephemeral: bool)
    | FollowUp(content: string, ephemeral: bool)

  /** The catch block: a generic ephemeral message, as a follow-up when the
      interaction was already answered or deferred, and nothing at all when
      it cannot be answered. */
  function FailureResponse(repliable: bool, answered: bool): (r: Response)
    ensures !repliable <==> r == NoResponse
    ensures repliable && answered ==> r == FollowUp(GenericFailure, true)
    ensures repliable && !answered ==> r == Reply(GenericFailure, true)
  {
    if !repliable then NoResponse
    else if answered then FollowUp(GenericFailure, true)
    else Reply(GenericFailure, true)
  }

  /** Button branch: only `ticket:open` does anything, and it shows the
      ticket modal; every other id, in or out of the ticket scope, is
      ignored here. */
  function HandleButton(customId: string): (r: Response)
    ensures r != NoResponse <==> ParseCustomId(customId).scope == TicketScope
                                 && ParseCustomId(customId).action == Some(OpenAction)
    ensures r != NoResponse ==> r == ShowModal(OpenTicketModal)
  {
    var id := ParseCustomId(customId);
    if id.scope != TicketScope then NoResponse
    else if id.action == Some(OpenAction) then ShowModal(OpenTicketModal)
    else NoResponse
  }

  /** Modal branch: only `ticket:open` does anything; it echoes the reason
      field ephemerally, and a missing field throws into the catch block,
      which answers with the generic failure. */
  function HandleModal(customId: string, reasonField: Option<string>): (r: Response)
    ensures r != NoResponse <==> ParseCustomId(customId).scope == TicketScope
                                 && ParseCustomId(customId).action == Some(OpenAction)
    ensures r != NoResponse && reasonField.Some? ==> r == Reply(ReceivedPrefix + reasonField.value, true)
    ensures r != NoResponse && reasonField.None? ==> r == Reply(GenericFailure, true)
  {
    var id := ParseCustomId(customId);
    if id.scope != TicketScope then NoResponse
    else if id.action == Some(OpenAction) then
      (if reasonField.Some? then Reply(ReceivedPrefix + reasonField.value, true)
       else FailureResponse(true, false))
    else NoResponse
  }

  /** The `InteractionCreate` handler: a slash command runs only when a
      command of that name is registered. */
  function HandleInteraction(i: Interaction, registered: set<string>): (r: Response)
    ensures i.ChatCommand? ==> (r == RunCommand(i.commandName) <==> i.commandName in registered)
    ensures i.ChatCommand? && i.commandName !in registered ==> r == NoResponse
    ensures i.ButtonPress? ==> r == HandleButton(i.customId)
    ensures i.ModalSubmit? ==> r == HandleModal(i.customId, i.reasonField)
    ensures i.OtherInteraction? ==> r == NoResponse
  {
    match i
    case ChatCommand(name) => if name in registered then RunCommand(name) else NoResponse
    case ButtonPress(customId) => HandleButton(customId)
    case ModalSubmit(customId, reasonField) => HandleModal(customId, reasonField)
    case OtherInteraction => NoResponse
  }

  /** Custom ids round-trip: `scope:action` parses back into its two parts
      when neither contains a colon. */
  lemma CustomIdRoundTrip(scope: string, action: string)
    requires ':' !in scope && ':' !in action
    ensures ParseCustomId(scope + [':'] + action) == CustomId(scope, Some(action), None)
  {
    SplitHead(scope, action, ':');
    SplitWithoutSep(action, ':');
  }

  /** The modal the open button shows carries the id the modal branch acts
      on, so submitting it with a reason gets the acknowledgement. */
  lemma OpenModalReachesSubmitBranch(reason: string)
    ensures HandleButton("ticket:open") == ShowModal(OpenTicketModal)
    ensures HandleModal(OpenTicketModal.customId, Some(reason)) == Reply(ReceivedPrefix + reason, true)
  {
    assert "ticket:open" == TicketScope + [':'] + OpenAction;
    CustomIdRoundTrip(TicketScope, OpenAction);
  }

  /** A custom id outside the ticket scope gets no response, from a button
      or from a modal. */
  lemma ForeignScopeIgnored(customId: string, reasonField: Option<string>)
    requires Split(customId, ':')[0] != TicketScope
    ensures HandleButton(customId) == NoResponse
    ensures HandleModal(customId, reasonField) == NoResponse
  {
  }
}
