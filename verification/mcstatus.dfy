/**
 * The status handle of one Minecraft server: the last known availability,
 * player counts and player-name sample, refreshed by `Update`. The query
 * itself (socket exchange and JSON decoding) is an input to `Update`: it
 * either fails or yields the `players.online` and `players.max` numbers.
 */
module McStatus {
  import Framing

  /** What one query produced: a caught failure, or the two player counts. */
  datatype QueryOutcome = QueryFailed | QuerySucceeded(online: int, max: int)

  /** The handle: the target address and the four cached fields, read through their names. */
  datatype McServer = McServer(
    host: string,
    port: int,
    available: bool,
    numPlayersOnline: int,
    maxPlayersOnline: int,
    playerNamesSample: set<string>)

  /** The state after a reset: unavailable, no players, empty sample. */
  predicate AtDefaults(s: McServer) {
    && !s.available
    && s.numPlayersOnline == 0
    && s.maxPlayersOnline == 0
    && s.playerNamesSample == {}
  }

  /** No stale data beside an unavailable status. */
  predicate Consistent(s: McServer) {
    !s.available ==> AtDefaults(s)
  }

  /** Puts the cached fields back to their defaults; the address is kept. */
  function Reinit(s: McServer): (r: McServer)
    ensures AtDefaults(r)
    ensures r.host == s.host && r.port == s.port
  {
    s.(available := false, numPlayersOnline := 0, maxPlayersOnline := 0, playerNamesSample := {})
  }

  /** A new handle for `host:port` (port 25565 unless given), in the default state. */
  function New(host: string, port: int := Framing.DefaultPort): (r: McServer)
    ensures AtDefaults(r)
    ensures r.host == host && r.port == port
  {
    Reinit(McServer(host, port, false, 0, 0, {}))
  }

  /**
   * Refreshes the handle from a query outcome and returns the refreshed
   * handle. A failure resets every cached field; a success marks the server
   * available and copies the two counts, leaving the sample as it was.
   */
  function Update(s: McServer, outcome: QueryOutcome): (r: McServer)
    ensures r.host == s.host && r.port == s.port
    ensures outcome.QueryFailed? ==> AtDefaults(r)
    ensures outcome.QuerySucceeded? ==>
      && r.available
      && r.numPlayersOnline == outcome.online
      && r.maxPlayersOnline == outcome.max
      && r.playerNamesSample == s.playerNamesSample
    ensures Consistent(r)
  {
    match outcome
    case QueryFailed => Reinit(s)
    case QuerySucceeded(online, max) =>
      s.(numPlayersOnline := online, maxPlayersOnline := max, available := true)
  }

  /** The handle after a series of updates, applied in order. */
  function Run(s: McServer, outcomes: seq<QueryOutcome>): McServer
    decreases |outcomes|
  {
    if outcomes == [] then s else Run(Update(s, outcomes[0]), outcomes[1..])
  }

  /**
   * Whatever the series of updates, a handle that starts consistent with an
   * empty sample stays so: the sample is never filled in, and an unavailable
   * handle shows only defaults.
   */
  lemma {:induction false} RunKeepsInvariant(s: McServer, outcomes: seq<QueryOutcome>)
    requires Consistent(s) && s.playerNamesSample == {}
    ensures Consistent(Run(s, outcomes))
    ensures Run(s, outcomes).playerNamesSample == {}
    ensures Run(s, outcomes).host == s.host && Run(s, outcomes).port == s.port
    decreases |outcomes|
  {
    if outcomes != [] {
      RunKeepsInvariant(Update(s, outcomes[0]), outcomes[1..]);
    }
  }

  /** From a fresh handle, every reachable state is consistent with an empty sample. */
  lemma NewHandleInvariant(host: string, port: int, outcomes: seq<QueryOutcome>)
    ensures Consistent(Run(New(host, port), outcomes))
    ensures Run(New(host, port), outcomes).playerNamesSample == {}
  {
    RunKeepsInvariant(New(host, port), outcomes);
  }

  /** After a non-empty series, the handle reflects the last outcome alone. */
  lemma {:induction false} RunReflectsLast(s: McServer, outcomes: seq<QueryOutcome>)
    requires |outcomes| > 0
    ensures var r := Run(s, outcomes); var last := outcomes[|outcomes| - 1];
      && (r.available <==> last.QuerySucceeded?)
      && (last.QuerySucceeded? ==> r.numPlayersOnline == last.online && r.maxPlayersOnline == last.max)
      && (last.QueryFailed? ==> AtDefaults(r))
    decreases |outcomes|
  {
    if |outcomes| > 1 {
      RunReflectsLast(Update(s, outcomes[0]), outcomes[1..]);
    }
  }

  /** Repeating an update with the same outcome changes nothing further. */
  lemma UpdateIdempotent(s: McServer, outcome: QueryOutcome)
    ensures Update(Update(s, outcome), outcome) == Update(s, outcome)
  {
  }

  /**
   * An update does not depend on the state it starts from: two handles for
   * the same address with empty samples end up equal.
   */
  lemma UpdateForgetsHistory(s1: McServer, s2: McServer, outcome: QueryOutcome)
    requires s1.host == s2.host && s1.port == s2.port
    requires s1.playerNamesSample == {} && s2.playerNamesSample == {}
    ensures Update(s1, outcome) == Update(s2, outcome)
  {
  }

  /** A failed refresh after a successful one removes every trace of it. */
  lemma FailureAfterSuccessResets(s: McServer, online: int, max: int)
    ensures AtDefaults(Update(Update(s, QuerySucceeded(online, max)), QueryFailed))
  {
  }

  /**
   * A fresh handle refreshed by a query reporting 3 of 5 players is available
   * with those counts, and its sample stays empty.
   */
  lemma ThreeOfFive(host: string)
    ensures var r := Update(New(host), QuerySucceeded(3, 5));
      && r.available && r.numPlayersOnline == 3 && r.maxPlayersOnline == 5
      && r.playerNamesSample == {}
  {
  }
}
