/** The grey-text command handler as one deterministic run: the availability flag, the
    parsed command, the resolved client, and the answers the remote endpoint gives to
    the calls issued, in order, decide the calls made and the single reply sent back. */
module Dispatch {
  import opened Wrappers
  import opened Text
  import opened Command
  import opened Packet
  import opened Connection

  /** The answer to one remote call: it returned, or it raised an error whose text is `msg`. */
  datatype Outcome = Ok | Err(msg: string)

  /** One element of a chat message: a text segment. */
  datatype Segment = TextSegment(text: string)

  /** The parameters of a remote action: a raw packet for a group, or a chat message for a group. */
  datatype Params =
    | PacketParams(groupId: nat, packet: Node)
    | GroupMsgParams(groupId: nat, message: seq<Segment>)

  datatype Action = Action(name: string, params: Params)

  /** One observable step of the handler: a remote call through a client together with the
      answer it got, or the reply sent back to the chat. */
  datatype Step = Call(bot: Handle, action: Action, outcome: Outcome) | Reply(text: string)

  /** Everything one invocation depends on besides the remote answers: whether the adapter
      module could be loaded, the message text, where the event came from, and the
      registered platforms. */
  datatype Invocation = Invocation(available: bool, message: string, source: Source, platforms: seq<Platform>)

  /** The primary call and at most two fallbacks. */
  const MaxCalls: nat := 3

  const UnavailableReply := "错误：aiocqhttp 模块不可用，无法发送灰字消息"
  const FormatErrorReply := "命令格式错误，请使用: #hz <内容> <群号>"
  const NoConnectionReply := "错误：无法获取 QQ 协议端连接"

  /** The visible tag put in front of the content when it is sent as a plain message. */
  const GreyTag := "[灰字] "

  function SentReply(g: nat): string {
    "灰字消息已发送到群 " + NatToDecimal(g)
  }

  function PlainSentReply(g: nat): string {
    "注意：send_packet API 不可用，已发送普通消息到群 " + NatToDecimal(g)
  }

  function ExhaustedReply(e: string): string {
    "发送失败：你的 QQ 协议端不支持 send_packet API。\n灰字功能需要 NapCat 或支持原始数据包发送的协议端。\n错误详情: " + e
  }

  function FailedReply(e: string): string {
    "发送灰字消息失败: " + e
  }

  /** The error of the primary call says the action is not supported by the endpoint. */
  predicate IsUnsupported(e: string) {
    Contains(Lower(e), "not found") || Contains(e, "不支持")
  }

  /** The fallback actions in the order they are tried. */
  const Alternatives: seq<string> := ["_send_packet", "send_forward_msg"]

  /** The call made for a fallback: the plain-message entry sends the content as a normal
      group message; any other entry is the raw-packet action under that name. */
  function AlternativeAction(name: string, g: nat, content: string, packet: Node): Action {
    if name == "send_forward_msg" then
      Action("send_group_msg", GroupMsgParams(g, [TextSegment(GreyTag + content)]))
    else
      Action(name, PacketParams(g, packet))
  }

  function AlternativeReply(name: string, g: nat): string {
    if name == "send_forward_msg" then PlainSentReply(g) else SentReply(g)
  }

  /** What every run of the handler looks like: exactly one reply, as the last step; at most
      `maxCalls` calls before it, all through `bot` (so none without a client); the i-th call
      got the i-th answer; and every call but the last failed, so each call is made only
      after the one before it failed. */
  predicate IsRun(trace: seq<Step>, bot: Option<Handle>, outcomes: seq<Outcome>, maxCalls: nat) {
    && |trace| >= 1
    && (forall i :: 0 <= i < |trace| ==> (trace[i].Reply? <==> i == |trace| - 1))
    && |trace| - 1 <= maxCalls
    && |trace| - 1 <= |outcomes|
    && (forall i :: 0 <= i < |trace| - 1 ==> Some(trace[i].bot) == bot && trace[i].outcome == outcomes[i])
    && (forall i :: 0 <= i < |trace| - 2 ==> trace[i].outcome.Err?)
  }

  /** How the fallback loop shapes a run over `alts`: the i-th call is the i-th alternative's
      action; when the last call succeeded, the reply is that alternative's; and the loop
      gives up only after trying every alternative, replying with the primary error. */
  predicate FollowsAlternatives(trace: seq<Step>, alts: seq<string>, g: nat, content: string, packet: Node,
                                primaryError: string) {
    && |trace| >= 1 && trace[|trace| - 1].Reply? && |trace| - 1 <= |alts|
    && (forall i :: 0 <= i < |trace| - 1 ==>
          trace[i].Call? && trace[i].action == AlternativeAction(alts[i], g, content, packet))
    && (|trace| >= 2 && trace[|trace| - 2].outcome.Ok? ==>
          trace[|trace| - 1].text == AlternativeReply(alts[|trace| - 2], g))
    && (|trace| == 1 || trace[|trace| - 2].outcome.Err? ==>
          |trace| == |alts| + 1 && trace[|trace| - 1].text == ExhaustedReply(primaryError))
  }

  /** The fallback loop: try each remaining alternative until one succeeds; when none is
      left, report the error of the primary call. */
  function TryAlternatives(bot: Handle, alts: seq<string>, g: nat, content: string, packet: Node,
                           primaryError: string, outcomes: seq<Outcome>): (trace: seq<Step>)
    requires |outcomes| >= |alts|
    ensures IsRun(trace, Some(bot), outcomes, |alts|)
    ensures FollowsAlternatives(trace, alts, g, content, packet, primaryError)
    decreases |alts|
  {
    if |alts| == 0 then
      [Reply(ExhaustedReply(primaryError))]
    else
      var call := Call(bot, AlternativeAction(alts[0], g, content, packet), outcomes[0]);
      if outcomes[0].Ok? then
        [call, Reply(AlternativeReply(alts[0], g))]
      else
        var rest := TryAlternatives(bot, alts[1..], g, content, packet, primaryError, outcomes[1..]);
        PrependFailedCall(call, rest, Some(bot), outcomes, |alts| - 1);
        PrependAlternative(call, rest, alts, g, content, packet, primaryError);
        [call] + rest
  }

  /** A failed call of the first alternative in front of a run over the others is a run
      over all of them. */
  lemma PrependAlternative(call: Step, rest: seq<Step>, alts: seq<string>, g: nat, content: string,
                           packet: Node, primaryError: string)
    requires |alts| > 0 && FollowsAlternatives(rest, alts[1..], g, content, packet, primaryError)
    requires call.Call? && call.action == AlternativeAction(alts[0], g, content, packet) && call.outcome.Err?
    ensures FollowsAlternatives([call] + rest, alts, g, content, packet, primaryError)
  {
    var t := [call] + rest;
    assert t[|t| - 1] == rest[|rest| - 1];
    forall i | 0 <= i < |t| - 1
      ensures t[i].Call? && t[i].action == AlternativeAction(alts[i], g, content, packet)
    {
      if i > 0 {
        assert t[i] == rest[i - 1] && alts[1..][i - 1] == alts[i];
      }
    }
    if |rest| >= 2 {
      assert t[|t| - 2] == rest[|rest| - 2];
      assert alts[1..][|rest| - 2] == alts[|t| - 2];
    }
  }

  /** A failed call, answered by the first outcome, in front of a run over the remaining outcomes. */
  lemma PrependFailedCall(call: Step, rest: seq<Step>, bot: Option<Handle>, outcomes: seq<Outcome>, n: nat)
    requires |outcomes| > 0 && IsRun(rest, bot, outcomes[1..], n)
    requires call.Call? && Some(call.bot) == bot && call.outcome == outcomes[0] && call.outcome.Err?
    ensures IsRun([call] + rest, bot, outcomes, n + 1)
  {
    var t := [call] + rest;
    assert forall i :: 1 <= i < |t| ==> t[i] == rest[i - 1];
  }

  /** The message matches, but its group number has more digits than `int` converts: the
      conversion raises before any client is looked for, and the error leaves the handler. */
  predicate GroupTooLong(inv: Invocation) {
    inv.available && Parse(inv.message).Some? && |Parse(inv.message).value.digits| > IntMaxStrDigits
  }

  /** The module is present, the message matches and its group number converts: what is
      left is to find a client. */
  predicate GroupConverts(inv: Invocation) {
    inv.available && Parse(inv.message).Some? && |Parse(inv.message).value.digits| <= IntMaxStrDigits
  }

  /** The handler gets as far as calling the endpoint: the module is present, the message
      matches, its group number converts, and a client is found. */
  predicate CallsEndpoint(inv: Invocation) {
    GroupConverts(inv) && ResolveBot(inv.source, inv.platforms).Some?
  }

  /** The handler: check the adapter module, parse the command, convert the group number,
      find a client, then send the packet with `send_packet` and, when the endpoint does not
      know that action, fall back. A group number `int` refuses ends the handler with an
      exception: no call and no reply, the empty trace. */
  function SendGrey(inv: Invocation, outcomes: seq<Outcome>): (trace: seq<Step>)
    requires |outcomes| >= MaxCalls
    ensures |trace| == 0 <==> GroupTooLong(inv)
    ensures |trace| > 0 ==> IsRun(trace, ResolveBot(inv.source, inv.platforms), outcomes, MaxCalls)
  {
    if !inv.available then
      [Reply(UnavailableReply)]
    else
      match Parse(inv.message)
      case None => [Reply(FormatErrorReply)]
      case Some(cmd) =>
        if |cmd.digits| > IntMaxStrDigits then
          []
        else
          var g := GroupId(cmd);
          match ResolveBot(inv.source, inv.platforms)
          case None => [Reply(NoConnectionReply)]
          case Some(bot) =>
            var packet := GreyPacket(cmd.content);
            var primary := Call(bot, Action("send_packet", PacketParams(g, packet)), outcomes[0]);
            match outcomes[0]
            case Ok => [primary, Reply(SentReply(g))]
            case Err(e) =>
              if IsUnsupported(e) then
                var rest := TryAlternatives(bot, Alternatives, g, cmd.content, packet, e, outcomes[1..]);
                PrependFailedCall(primary, rest, Some(bot), outcomes, |Alternatives|);
                [primary] + rest
              else
                [primary, Reply(FailedReply(e))]
  }

  /** The reply of a run: the text of its last step. */
  function ReplyOf(trace: seq<Step>): string
    requires |trace| > 0 && trace[|trace| - 1].Reply?
  {
    trace[|trace| - 1].text
  }

  /** A remote call is made exactly when the adapter module is present, the message matches,
      its group number converts and a client is found. Otherwise the checks are made in that
      order: the first that fails gives the one reply, except an unconvertible group number,
      which gives no reply at all. */
  lemma LocalErrors(inv: Invocation, outcomes: seq<Outcome>)
    requires |outcomes| >= MaxCalls
    ensures var trace := SendGrey(inv, outcomes);
      && (|trace| > 1 <==> CallsEndpoint(inv))
      && (!inv.available ==> trace == [Reply(UnavailableReply)])
      && (inv.available && Parse(inv.message).None? ==> trace == [Reply(FormatErrorReply)])
      && (GroupTooLong(inv) ==> trace == [])
      && (GroupConverts(inv) && ResolveBot(inv.source, inv.platforms).None? ==>
            trace == [Reply(NoConnectionReply)])
  {
  }

  /** The first call is always `send_packet` through the resolved client, carrying the
      parsed group id and the packet built from the parsed content. */
  lemma PrimaryCall(inv: Invocation, outcomes: seq<Outcome>)
    requires |outcomes| >= MaxCalls
    requires CallsEndpoint(inv)
    ensures var cmd := Parse(inv.message).value;
      SendGrey(inv, outcomes)[0]
        == Call(ResolveBot(inv.source, inv.platforms).value,
                Action("send_packet", PacketParams(GroupId(cmd), GreyPacket(cmd.content))),
                outcomes[0])
  {
    LocalErrors(inv, outcomes);
  }

  /** When `send_packet` succeeds, it is the only call and the reply confirms the group. */
  lemma PrimarySuccess(inv: Invocation, outcomes: seq<Outcome>)
    requires |outcomes| >= MaxCalls && outcomes[0].Ok?
    requires CallsEndpoint(inv)
    ensures var trace := SendGrey(inv, outcomes);
      |trace| == 2 && ReplyOf(trace) == SentReply(GroupId(Parse(inv.message).value))
  {
    LocalErrors(inv, outcomes);
  }

  /** The fallback chain runs exactly when `send_packet` failed with an error classified as
      an unsupported action; any other error is reported at once, with no further call. */
  lemma FallbackIffUnsupported(inv: Invocation, outcomes: seq<Outcome>)
    requires |outcomes| >= MaxCalls
    requires CallsEndpoint(inv)
    ensures var trace := SendGrey(inv, outcomes);
      |trace| > 2 <==> outcomes[0].Err? && IsUnsupported(outcomes[0].msg)
    ensures var trace := SendGrey(inv, outcomes);
      outcomes[0].Err? && !IsUnsupported(outcomes[0].msg) ==>
        |trace| == 2 && ReplyOf(trace) == FailedReply(outcomes[0].msg)
  {
    LocalErrors(inv, outcomes);
  }

  /** The fallbacks, in order: `_send_packet` with the very parameters of the primary call,
      then `send_group_msg` with the tagged content as plain text; the chain stops at the
      first success, and when both fail the reply quotes the error of the primary call. */
  lemma FallbackChain(inv: Invocation, outcomes: seq<Outcome>)
    requires |outcomes| >= MaxCalls && outcomes[0].Err? && IsUnsupported(outcomes[0].msg)
    requires CallsEndpoint(inv)
    ensures var trace := SendGrey(inv, outcomes);
      var cmd := Parse(inv.message).value;
      var g := GroupId(cmd);
      && |trace| > 2
      && trace[1].action == Action("_send_packet", trace[0].action.params)
      && (outcomes[1].Ok? ==> |trace| == 3 && ReplyOf(trace) == SentReply(g))
      && (outcomes[1].Err? ==>
            && |trace| == 4
            && trace[2].action == Action("send_group_msg", GroupMsgParams(g, [TextSegment(GreyTag + cmd.content)]))
            && ReplyOf(trace) == (if outcomes[2].Ok? then PlainSentReply(g) else ExhaustedReply(outcomes[0].msg)))
  {
    LocalErrors(inv, outcomes);
    FallbackIffUnsupported(inv, outcomes);
    PrimaryCall(inv, outcomes);
  }

  /** The whole run when both raw-packet actions are refused as unsupported and the plain
      message goes through. */
  lemma DegradedPath(inv: Invocation, outcomes: seq<Outcome>)
    requires |outcomes| >= MaxCalls && outcomes[0].Err? && IsUnsupported(outcomes[0].msg)
    requires outcomes[1].Err? && outcomes[2].Ok?
    requires CallsEndpoint(inv)
    ensures var bot := ResolveBot(inv.source, inv.platforms).value;
      var cmd := Parse(inv.message).value;
      var g := GroupId(cmd);
      SendGrey(inv, outcomes)
        == [Call(bot, Action("send_packet", PacketParams(g, GreyPacket(cmd.content))), outcomes[0]),
            Call(bot, Action("_send_packet", PacketParams(g, GreyPacket(cmd.content))), outcomes[1]),
            Call(bot, Action("send_group_msg", GroupMsgParams(g, [TextSegment(GreyTag + cmd.content)])), outcomes[2]),
            Reply(PlainSentReply(g))]
  {
    var t := SendGrey(inv, outcomes);
    PrimaryCall(inv, outcomes);
    FallbackChain(inv, outcomes);
    assert t == [t[0], t[1], t[2], t[3]];
  }

  /** When everything fails, the reply depends on the error of the primary call only, not on
      what the fallbacks answered. */
  lemma ExhaustedReplyIgnoresFallbackErrors(inv: Invocation, o1: seq<Outcome>, o2: seq<Outcome>)
    requires |o1| >= MaxCalls && |o2| >= MaxCalls
    requires o1[0] == o2[0] && o1[1].Err? && o1[2].Err? && o2[1].Err? && o2[2].Err?
    ensures var t1, t2 := SendGrey(inv, o1), SendGrey(inv, o2);
      (|t1| == 0 <==> |t2| == 0) && (|t1| > 0 ==> ReplyOf(t1) == ReplyOf(t2))
  {
    var t1, t2 := SendGrey(inv, o1), SendGrey(inv, o2);
    LocalErrors(inv, o1);
    LocalErrors(inv, o2);
    if |t1| > 1 {
      FallbackIffUnsupported(inv, o1);
      FallbackIffUnsupported(inv, o2);
      if |t1| > 2 {
        FallbackChain(inv, o1);
        FallbackChain(inv, o2);
      }
    }
  }

  /** The target group never reaches the packet: whatever answers the endpoint gives each of
      two invocations, their raw-packet calls carry the same packet exactly when the two
      commands have the same content, whatever groups they name. */
  lemma PacketIgnoresGroup(inv1: Invocation, inv2: Invocation, o1: seq<Outcome>, o2: seq<Outcome>)
    requires |o1| >= MaxCalls && |o2| >= MaxCalls
    ensures var t1, t2 := SendGrey(inv1, o1), SendGrey(inv2, o2);
      forall i, j :: 0 <= i < |t1| - 1 && 0 <= j < |t2| - 1
                     && t1[i].action.params.PacketParams? && t2[j].action.params.PacketParams? ==>
                       && Parse(inv1.message).Some? && Parse(inv2.message).Some?
                       && (t1[i].action.params.packet == t2[j].action.params.packet
                           <==> Parse(inv1.message).value.content == Parse(inv2.message).value.content)
  {
    PacketCallsCarryContent(inv1, o1);
    PacketCallsCarryContent(inv2, o2);
    if Parse(inv1.message).Some? && Parse(inv2.message).Some? {
      var c1, c2 := Parse(inv1.message).value.content, Parse(inv2.message).value.content;
      if GreyPacket(c1) == GreyPacket(c2) {
        PacketDeterminesContent(c1, c2);
      }
    }
  }

  /** Every raw-packet call carries the packet built from the parsed content. */
  lemma PacketCallsCarryContent(inv: Invocation, outcomes: seq<Outcome>)
    requires |outcomes| >= MaxCalls
    ensures var t := SendGrey(inv, outcomes);
      forall i :: 0 <= i < |t| - 1 && t[i].action.params.PacketParams? ==>
        Parse(inv.message).Some? && t[i].action.params.packet == GreyPacket(Parse(inv.message).value.content)
  {
    var t := SendGrey(inv, outcomes);
    LocalErrors(inv, outcomes);
    if |t| > 1 {
      PrimaryCall(inv, outcomes);
      FallbackIffUnsupported(inv, outcomes);
      if |t| > 2 {
        FallbackChain(inv, outcomes);
      }
    }
  }
}
