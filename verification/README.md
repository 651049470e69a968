# Minecraft status ping and DNS rotation, modelled in Dafny

This project models the core of a small tool. The tool asks Minecraft servers whether they are up, using the Server List Ping exchange. It then keeps the DNS `A` records of one name pointing at the servers that answered. The model has two parts.

- **Server List Ping client** (`mcstatus.py`).
  - The base-128 varint codec (`Varint`).
  - The packet framing (`Framing`): length-prefixed data, the big-endian port, the handshake and status-request packets, and the reading of the framed response.
  - The `McServer` status handle (`McStatus`).
- **DNS reconciliation** (`updaterecords.py`, module `UpdateRecords`).
  - The probe-result map.
  - The per-name record filter.
  - The add/delete planner. The DNS provider's API calls become emitted `Action` values.

Bytes are the subset type `Varint.byte` (0..255). Sequences stand for Python 2 byte strings. In the packets the host is an already-encoded byte sequence; the status handle keeps it as text (`string`), because the UTF-8 encoding at mcstatus.py:95 is not modelled. The parts that touch the network are inputs to the model:
- the response is a byte sequence;
- how many bytes each `recv(1024)` delivers is a sequence `grants`;
- each server query is an abstract `QueryOutcome`: `QueryFailed`, or `QuerySucceeded(online, max)`.

The handle's accessors (`available`, `num_players_online`, `max_players_online`, `player_names_sample`) are the fields of the `McStatus.McServer` datatype. `Update` returns the refreshed handle as a new value. The source mutates the handle and returns `self`.

Some behaviours of the code are easy to miss, and the model keeps them as written:
- **Five continuation bytes.** After five bytes that all carry 0x80, the varint reader stops and returns the accumulated value. It raises no error (`Varint.UnpackStopsAfterFive`). A number of 2^35 or more reads back as its low 35 bits (`Varint.UnpackTruncatesLongVarint`).
- **Player sample.** The module docstring (mcstatus.py:6, 10-11) shows a filled `player_names_sample`. `Update` (mcstatus.py:42-53) never writes that field, so it stays the empty set from `_Reinit`. A query reporting 3 of 5 players gives an empty sample (`McStatus.ThreeOfFive`).
- **Payload length.** The declared payload length is not capped.
- **Over-long reads.** The read loop can run past the declared length by up to one receive. The whole buffer is kept (`Framing.ReadResponse`).
- **Record name.** Records are listed under the configured `entry` name (updaterecords.py:11, 28, 48). They are created under the fixed name `'sub'` (updaterecords.py:37). The planner's result depends on whether the provider lists a `'sub'` record under `entry` (`UpdateRecords.Sync`).

## Model

| member | source | states |
|---|---|---|
| `Varint.Value` | mcstatus.py:114-120 | the number accumulated from k groups is below 2^(7k), so OR-ing in the next shifted group equals adding it |
| `Varint.ValueSnoc` | mcstatus.py:117 | reading one more byte adds its low 7 bits at weight 2^(7i) |
| `Varint.Pack` | mcstatus.py:123-132 | the encoding is non-empty; every byte but the last has 0x80 set and the last has it clear; its groups denote n; it is the shortest such encoding |
| `Varint.PackZero` | mcstatus.py:123-132 | 0 encodes as the single byte 0x00 |
| `Varint.PackSmall` | mcstatus.py:123-132 | a number below 128 encodes as itself in one byte |
| `Varint.PackLength` | mcstatus.py:123-132 | the encoding has at most k bytes exactly when n < 2^(7k); in particular at most 5 bytes exactly when n < 2^35 |
| `Varint.PackPrefixValue` | mcstatus.py:123-132 | the first k bytes of an encoding denote n mod 2^(7k) |
| `Varint.UnpackFrom` | mcstatus.py:115-120 | from group i on, the loop stops at the first byte without 0x80 or after the fifth byte, returning the groups read; it fails only when the input ends first |
| `Varint.Unpack` | mcstatus.py:113-120 | consumes 1 to 5 bytes, up to the first byte without 0x80 or the fifth byte; returns the value of the bytes consumed; no result exactly when the input ends before such a point |
| `Varint.PackUnpack` | mcstatus.py:113-132 | for n < 2^35, reading the encoding of n (followed by anything) returns n and consumes exactly the encoding's length |
| `Varint.UnpackStopsAfterFive` | mcstatus.py:115-120 | after five bytes that all carry 0x80 the reader stops, with no error, and returns their accumulated value |
| `Varint.UnpackTruncatesLongVarint` | mcstatus.py:113-132 | for n >= 2^35 the reader consumes five bytes of the encoding and returns n mod 2^35 |
| `Framing.PackData` | mcstatus.py:135-136 | the result is a well-formed varint denoting the data's length, followed by exactly the data |
| `Framing.PackDataRoundTrip` | mcstatus.py:135-136 | reading the prefix of length-prefixed data yields the length, and the bytes after it are the data |
| `Framing.UnframePackData` | mcstatus.py:135-136 | stripping the length prefix from a packet gives back its payload |
| `Framing.PackPort` | mcstatus.py:139-140 | defined exactly for 0 <= p < 65536; then two bytes whose big-endian value is p |
| `Framing.PackDefaultPort` | mcstatus.py:139-140 | port 25565 packs as 0x63 0xDD |
| `Framing.Handshake` | mcstatus.py:95-96 | the handshake packet exists exactly when the port fits 16 bits |
| `Framing.HandshakeRoundTrip` | mcstatus.py:95-96 | a server reading the handshake (length prefix, id 0, version 0, length-prefixed host, port, next state 1) recovers exactly the host and port sent |
| `Framing.HandshakePayloadRoundTrip` | mcstatus.py:95-96 | the handshake payload's fields read back as the host and the big-endian port bytes |
| `Framing.ShortHandshake` | mcstatus.py:95-96 | a handshake whose payload is under 128 bytes is the one-byte payload length, 0, 0, the one-byte host length, the host, the two port bytes and 1 |
| `Framing.LocalhostHandshake` | mcstatus.py:95-96 | the handshake for `localhost:25565` is the 16 bytes `15 0 0 9 "localhost" 0x63 0xDD 1`: a one-byte length and a 15-byte payload |
| `Framing.StatusRequest` | mcstatus.py:97 | the status request is exactly the two bytes 0x01 0x00 |
| `Framing.ReadHeader` | mcstatus.py:100-102 | the three leading varints take between 3 and 15 bytes of the input |
| `Framing.ReadHeaderRoundTrip` | mcstatus.py:100-102 | three encoded numbers below 2^35 are read back in order, with the header size being the sum of their encodings |
| `Framing.StatusResponseHeader` | mcstatus.py:100-102 | for a framed status response, the header declares packet id 0 and the JSON length, and the JSON text follows it |
| `Framing.ReadStatusResponse` | mcstatus.py:100-106 | reading a framed status response returns exactly its JSON text, provided each receive delivers at least one byte and there are as many receives as JSON bytes |
| `Framing.ReadResponse` | mcstatus.py:100-106 | the data returned is the bytes right after the header; it holds at least the declared length and less than declared length + 1024; it is always returned when the header parses, enough bytes follow, every receive delivers something and there are at least as many receives as declared bytes |
| `Framing.ReadFramed` | mcstatus.py:100-106 | when the header declares exactly the bytes that follow it, reading with enough non-empty receives returns exactly those bytes |
| `McStatus.Reinit` | mcstatus.py:36-40 | the handle is unavailable with 0/0 players and an empty sample, at the same address |
| `McStatus.New` | mcstatus.py:31-34 | a new handle, for the given host and port 25565 unless another port is given, is in the default state |
| `McStatus.Update` | mcstatus.py:42-53 | a failure resets all cached fields; a success sets available and copies online/max, leaving the sample unchanged; either way an unavailable handle shows only defaults |
| `McStatus.RunKeepsInvariant` | mcstatus.py:36-53 | over any series of updates, "not available implies all fields at defaults" and the empty sample are preserved |
| `McStatus.NewHandleInvariant` | mcstatus.py:31-53 | every handle reachable from construction is consistent and has an empty sample |
| `McStatus.RunReflectsLast` | mcstatus.py:42-53 | after a series of updates the handle is available exactly when the last query succeeded, with that query's counts |
| `McStatus.UpdateIdempotent` | mcstatus.py:42-53 | two consecutive updates with the same outcome leave the same fields as one |
| `McStatus.UpdateForgetsHistory` | mcstatus.py:42-53 | an update's result does not depend on the handle's earlier cached values |
| `McStatus.FailureAfterSuccessResets` | mcstatus.py:44-53 | a failed update after a successful one returns every field to its default |
| `McStatus.ThreeOfFive` | mcstatus.py:50-53 | a query reporting 3 of 5 players gives available, 3, 5 and an empty sample |
| `UpdateRecords.SlpResults` | updaterecords.py:15-21 | the result's keys are exactly the pool addresses; each maps to whether its last probe succeeded |
| `UpdateRecords.AvailableFromProbes` | updaterecords.py:15-21 | the addresses marked available are exactly those whose last probe succeeded |
| `UpdateRecords.RecordsForName` | updaterecords.py:23-30 | the keys are exactly the contents of entries with the requested name; each maps to the record id of the last such entry |
| `UpdateRecords.Decide` | updaterecords.py:32-45 | an address gets a new `A`/`sub` record exactly when available and unrecorded; it gets a deletion of its record id exactly when recorded and not available |
| `UpdateRecords.PlanUpdates` | updaterecords.py:32-45 | at most one step per address; each step is the decision for its address; steps cover exactly the probed or recorded addresses that need one; all stale-record deletions come after the probed addresses |
| `UpdateRecords.PlanProbed` | updaterecords.py:33-41 | the first pass gives one step per probed address that needs one, each the decision for its address |
| `UpdateRecords.PlanStale` | updaterecords.py:42-45 | the second pass deletes the record id of exactly the recorded addresses that were not probed, one step each |
| `UpdateRecords.ApplyMembership` | updaterecords.py:32-45 | with one step per address, an address with a step ends up recorded exactly when the step is a creation and either creations show under the name or it was already recorded; an address with no step stays recorded exactly when it was before |
| `UpdateRecords.PlanReconciles` | updaterecords.py:32-45 | when created records show under the listed name, applying a plan leaves exactly the addresses reported available; when they do not, the name keeps only its recorded addresses that are available |
| `UpdateRecords.Sync` | updaterecords.py:47-53 | taking a deletion to remove its address from the name: if records created as `sub` are listed under the entry name, the name's addresses afterwards are exactly the pool addresses whose last probe succeeded; otherwise they are its earlier addresses among those |
| `UpdateRecords.DeleteById` | updaterecords.py:41-45 | deleting by record id leaves exactly the listed entries with another id |
| `UpdateRecords.DeleteRemovesAddress` | updaterecords.py:23-45 | when the name has at most one record per address, deleting the id listed for an address removes that address from the name's records |
| `UpdateRecords.DuplicateContentSurvives` | updaterecords.py:23-41 | with two records for one address under the name, a failed probe deletes only the id listed last, and the address stays listed |

## Left out

- Socket creation, the 5-second timeout, connect and close (mcstatus.py:26, 90-92, 108), the sends (mcstatus.py:95-97) and the receives (mcstatus.py:106, 116) are I/O. The response is a byte sequence, and the receive sizes are the input `grants`.
- JSON and UTF-8 decoding (mcstatus.py:95, 110) are library calls. The host is an opaque byte sequence, and a query's decoded result is the abstract `QueryOutcome`.
- Exception classification (mcstatus.py:46) is not modelled. Every caught error is `QueryFailed`. A `KeyError` for a missing `players` field escapes in the source and has no counterpart here.
- The command-line entry point and logging (mcstatus.py:143-169) are presentation only.
- The YAML configuration, the DNS client construction, the provider calls and the `print` messages (updaterecords.py:1-13, 36-53) are I/O. The provider calls are the emitted `Action` values; the provider's record listing is the input `response`.
- `Varint.Unpack`: an input that ends before a stopping byte gives no result. In the source, `ord('')` raises an uncaught error there, or `recv` blocks.
- `Framing.ReadResponse`: a receive that delivers nothing, or data that stops arriving, gives no result. There the source loops forever or blocks until the timeout.
- `Framing.PackPort`: an out-of-range port gives no result where `struct.pack` raises. In the source, `connect` rejects such a port before the handshake is built.
- `McStatus.Update`: models the refreshed handle as a new value rather than mutation of `self`. Its consistency guarantee covers only the two modelled outcomes. The partial write before a `KeyError` is left out (see `McStatus.RunKeepsInvariant` below).
- `UpdateRecords.PlanUpdates`: Python 2 dictionary iteration order is unspecified. The planner picks keys in an arbitrary order, and its contract holds for every order.
- `UpdateRecords.SlpResults`: the text port `'25565'` is the integer 25565, which `int(port)` produces.
- `UpdateRecords.RecordsForName`: the `str()` conversions of record contents and ids (updaterecords.py:29) are identities on strings.
- `McStatus.RunKeepsInvariant`: the invariant is proved only for the two modelled outcomes. A reply that has `players.online` but no `players.max` takes another path. Line 50 of mcstatus.py writes the online count, then line 51 raises a `KeyError` that escapes `Update`. The handle can then be unavailable with a nonzero online count. Or it is available with the new online count and the old maximum. This partial write is not modelled.
- `McStatus.New`: the port is an integer. The `int(port)` conversion of a text port (mcstatus.py:33) is not modelled.
- `UpdateRecords.Sync`: a deletion is taken to remove its address from the name. That holds when the name has at most one record per address (`UpdateRecords.DeleteRemovesAddress`). With two records for one address, the source deletes only the id listed last (updaterecords.py:29, 41, 45), and the address stays listed (`UpdateRecords.DuplicateContentSurvives`). The guarantee therefore assumes the provider keeps one record per address and name. The provider's naming rule is an input. The input `createdName` is the name under which the provider lists a record created as `sub`. When it differs from the entry name, the model does not track the records created under it.
