/** The event numbering of schiebung-server/src/types.rs. */
module PubSubEvents {

  /** Discriminants PublisherConnected = 0 through ProcessDied = 8; Unknown implicitly follows with 9. */
  datatype PubSubEvent =
    | PublisherConnected
    | PublisherDisconnected
    | SubscriberConnected
    | SubscriberDisconnected
    | SentSample
    | Error
    | ReceivedSample
    | SentHistory
    | ProcessDied
    | Unknown

  /** `From<PubSubEvent> for EventId`: the discriminant of the variant. */
  function ToEventId(e: PubSubEvent): (id: nat)
    ensures id <= 9
    ensures id == 9 <==> e == Unknown
  {
    match e
    case PublisherConnected => 0
    case PublisherDisconnected => 1
    case SubscriberConnected => 2
    case SubscriberDisconnected => 3
    case SentSample => 4
    case Error => 5
    case ReceivedSample => 6
    case SentHistory => 7
    case ProcessDied => 8
    case Unknown => 9
  }

  /** `From<EventId> for PubSubEvent`: 0 to 8 name their variant, everything else is Unknown. */
  function FromEventId(id: nat): (e: PubSubEvent)
    ensures e == Unknown <==> id >= 9
    ensures id < 9 ==> ToEventId(e) == id
  {
    match id
    case 0 => PublisherConnected
    case 1 => PublisherDisconnected
    case 2 => SubscriberConnected
    case 3 => SubscriberDisconnected
    case 4 => SentSample
    case 5 => Error
    case 6 => ReceivedSample
    case 7 => SentHistory
    case 8 => ProcessDied
    case _ => Unknown
  }

  /** Every event, Unknown included, survives the trip through its id. */
  lemma EventIdRoundTrip(e: PubSubEvent)
    ensures FromEventId(ToEventId(e)) == e
  {
  }

  /** No two ids below 9 decode to the same event. */
  lemma FromEventIdInjective(a: nat, b: nat)
    requires a < 9 && b < 9
    requires FromEventId(a) == FromEventId(b)
    ensures a == b
  {
  }
}
