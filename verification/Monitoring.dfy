/** The monitoring client a wrapper reports to: a log of events. */
module Monitoring {
  import opened Base

  datatype Event = Used(keyId: Uint32, numBytes: nat) | Failure

  class MonitoringClient {
    var events: seq<Event>

    constructor ()
      ensures events == []
    {
      events := [];
    }

    method Log(keyId: Uint32, numBytes: nat)
      modifies this
      ensures events == old(events) + [Used(keyId, numBytes)]
    {
      events := events + [Used(keyId, numBytes)];
    }

    method LogFailure()
      modifies this
      ensures events == old(events) + [Failure]
    {
      events := events + [Failure];
    }
  }

  /** The monitoring factory, if any, and what it answers when asked for the keyset's info and the two clients. */
  datatype Factory =
    | NoFactory
    | Factory(info: Result<()>, encryption: Result<MonitoringClient>, decryption: Result<MonitoringClient>)

  /** The objects a call through an optional client may change. */
  function Footprint(client: MonitoringClient?): set<object> {
    if client == null then {} else {client}
  }
}
