/** How the handler finds a protocol client: the client bound to the triggering event
    when the event came from the target adapter, otherwise the client of the first
    registered platform that is the target adapter. */
module Connection {
  import opened Wrappers

  /** An opaque protocol client, known only by its identity. */
  type Handle = nat

  /** Where the triggering event came from: the target adapter, carrying its client
      (`None` when that client is falsy), or any other platform. */
  datatype Source = AdapterEvent(bot: Option<Handle>) | OtherEvent

  /** One registered platform instance: whether it is the target adapter, and what
      asking it for its client yields (`None` for a falsy client or a raised exception). */
  datatype Platform = Platform(isAdapter: bool, client: Option<Handle>)

  /** `i` is the platform the scan stops at: the first target adapter in list order. */
  predicate IsFirstAdapter(ps: seq<Platform>, i: int) {
    0 <= i < |ps| && ps[i].isAdapter && forall j :: 0 <= j < i ==> !ps[j].isAdapter
  }

  /** The scan over the registered platforms, stopping at the first target adapter. */
  function FirstAdapter(ps: seq<Platform>): (r: Option<nat>)
    ensures r.Some? ==> IsFirstAdapter(ps, r.value)
    ensures r.None? ==> forall j :: 0 <= j < |ps| ==> !ps[j].isAdapter
  {
    if |ps| == 0 then None
    else if ps[0].isAdapter then Some(0)
    else
      match FirstAdapter(ps[1..])
      case Some(i) => Some(i + 1)
      case None => None
  }

  /** The client the handler ends up with; `None` means it has none and must give up.
      A failing platform registry is modelled as an empty platform list. */
  function ResolveBot(source: Source, ps: seq<Platform>): (bot: Option<Handle>)
    ensures source.AdapterEvent? ==> bot == source.bot
    ensures source.OtherEvent? ==>
              (bot.Some? <==> exists i :: IsFirstAdapter(ps, i) && ps[i].client.Some?)
    ensures source.OtherEvent? ==>
              forall i :: IsFirstAdapter(ps, i) ==> bot == ps[i].client
  {
    match source
    case AdapterEvent(b) => b
    case OtherEvent =>
      match FirstAdapter(ps)
      case Some(i) => ps[i].client
      case None => None
  }
}
