/**
 * DNS reconciliation: probe a pool of server addresses, load the DNS records
 * of one name, and plan the record additions and deletions that make the
 * record set match the available servers. The DNS provider's API calls are
 * represented by the actions the planner emits.
 */
module UpdateRecords {
  import opened Wrappers
  import McStatus

  type Ip = string
  type RecId = string

  /** Port every pool address is probed on. */
  const ProbePort := 25565

  /** Type and name of the records the planner creates. */
  const RecordType := "A"
  const RecordName := "sub"

  /**
   * `ips[i]` is the last occurrence of that address in `ips`: a later probe
   * of the same address overwrites an earlier result.
   */
  predicate LastOccurrence(ips: seq<Ip>, i: nat)
    requires i < |ips|
  {
    forall j :: i < j < |ips| ==> ips[j] != ips[i]
  }

  /**
   * Probe results for an address pool: each address is queried through a
   * fresh handle, `outcomes[i]` being what the i-th query produced, and the
   * handle's availability is recorded under the address.
   */
  function SlpResults(ips: seq<Ip>, outcomes: seq<McStatus.QueryOutcome>): (r: map<Ip, bool>)
    requires |ips| == |outcomes|
    ensures r.Keys == set i | 0 <= i < |ips| :: ips[i]
    ensures forall i :: 0 <= i < |ips| && LastOccurrence(ips, i) ==>
      r[ips[i]] == outcomes[i].QuerySucceeded?
    decreases |ips|
  {
    if ips == [] then map[]
    else
      var n := |ips| - 1;
      var handle := McStatus.Update(McStatus.New(ips[n], ProbePort), outcomes[n]);
      var earlier := SlpResults(ips[..n], outcomes[..n]);
      SlpResultsStep(ips, outcomes, earlier, handle.available);
      earlier[ips[n] := handle.available]
  }

  /** Recording the last probe extends what holds of the earlier probes to all of them. */
  lemma SlpResultsStep(ips: seq<Ip>, outcomes: seq<McStatus.QueryOutcome>, earlier: map<Ip, bool>, last: bool)
    requires |ips| == |outcomes| > 0
    requires var n := |ips| - 1;
      earlier.Keys == set i | 0 <= i < |ips[..n]| :: ips[..n][i]
    requires var n := |ips| - 1;
      forall i :: 0 <= i < |ips[..n]| && LastOccurrence(ips[..n], i) ==>
        earlier[ips[..n][i]] == outcomes[..n][i].QuerySucceeded?
    requires last == outcomes[|ips| - 1].QuerySucceeded?
    ensures var r := earlier[ips[|ips| - 1] := last];
      && r.Keys == (set i | 0 <= i < |ips| :: ips[i])
      && forall i :: 0 <= i < |ips| && LastOccurrence(ips, i) ==> r[ips[i]] == outcomes[i].QuerySucceeded?
  {
    var n := |ips| - 1;
    var r := earlier[ips[n] := last];
    assert (set i | 0 <= i < |ips| :: ips[i]) == earlier.Keys + {ips[n]} by {
      forall i | 0 <= i < n
        ensures ips[..n][i] == ips[i]
      {
      }
    }
    forall i | 0 <= i < |ips| && LastOccurrence(ips, i)
      ensures r[ips[i]] == outcomes[i].QuerySucceeded?
    {
      if i < n {
        assert ips[..n][i] == ips[i] && outcomes[..n][i] == outcomes[i];
        assert LastOccurrence(ips[..n], i);
      }
    }
  }

  /** One DNS record as the provider lists it. */
  datatype Entry = Entry(name: string, displayContent: string, recId: RecId)

  /** `response[i]` is the last entry for `name` with its content. */
  predicate LastForContent(response: seq<Entry>, name: string, i: nat)
    requires i < |response|
  {
    forall j :: i < j < |response| && response[j].name == name ==>
      response[j].displayContent != response[i].displayContent
  }

  /**
   * The records of one name, keyed by their content (the address) and
   * mapping to their record id; a later entry with the same content wins.
   */
  function RecordsForName(response: seq<Entry>, name: string): (r: map<Ip, RecId>)
    ensures r.Keys == set i | 0 <= i < |response| && response[i].name == name :: response[i].displayContent
    ensures forall i :: 0 <= i < |response| && response[i].name == name && LastForContent(response, name, i) ==>
      r[response[i].displayContent] == response[i].recId
    decreases |response|
  {
    if response == [] then map[]
    else
      var n := |response| - 1;
      var earlier := RecordsForName(response[..n], name);
      var e := response[n];
      RecordsForNameStep(response, name, earlier);
      if e.name == name then earlier[e.displayContent := e.recId] else earlier
  }

  /** Taking in the last entry extends what holds of the earlier entries to all of them. */
  lemma RecordsForNameStep(response: seq<Entry>, name: string, earlier: map<Ip, RecId>)
    requires |response| > 0
    requires var n := |response| - 1;
      earlier.Keys == set i | 0 <= i < |response[..n]| && response[..n][i].name == name :: response[..n][i].displayContent
    requires var n := |response| - 1;
      forall i :: 0 <= i < |response[..n]| && response[..n][i].name == name && LastForContent(response[..n], name, i) ==>
        earlier[response[..n][i].displayContent] == response[..n][i].recId
    ensures var e := response[|response| - 1];
      var r := if e.name == name then earlier[e.displayContent := e.recId] else earlier;
      && r.Keys == (set i | 0 <= i < |response| && response[i].name == name :: response[i].displayContent)
      && forall i :: 0 <= i < |response| && response[i].name == name && LastForContent(response, name, i) ==>
        r[response[i].displayContent] == response[i].recId
  {
    var n := |response| - 1;
    var e := response[n];
    var r := if e.name == name then earlier[e.displayContent := e.recId] else earlier;
    forall i | 0 <= i < n
      ensures response[..n][i] == response[i]
    {
    }
    assert r.Keys == (set i | 0 <= i < |response| && response[i].name == name :: response[i].displayContent);
    forall i | 0 <= i < |response| && response[i].name == name && LastForContent(response, name, i)
      ensures r[response[i].displayContent] == response[i].recId
    {
      if i < n {
        assert LastForContent(response[..n], name, i);
      }
    }
  }

  /** A provider call: create a record, or delete one by id. */
  datatype Action =
    | NewRecord(recordType: string, name: string, content: Ip)
    | DeleteRecord(recId: RecId)

  /** A planned action together with the address it is about. */
  datatype Step = Step(ip: Ip, action: Action)

  /**
   * What the planner does about one address: create a record for an
   * available address that has none; delete the record of an address that
   * has one and is not available (reported down, or not probed at all).
   */
  function Decide(records: map<Ip, RecId>, results: map<Ip, bool>, ip: Ip): (r: Option<Action>)
    ensures r.Some? && r.value.NewRecord? <==> ip in results && results[ip] && ip !in records
    ensures r.Some? && r.value.NewRecord? ==> r.value == NewRecord(RecordType, RecordName, ip)
    ensures r.Some? && r.value.DeleteRecord? <==> ip in records && !(ip in results && results[ip])
    ensures r.Some? && r.value.DeleteRecord? ==> r.value.recId == records[ip]
  {
    if ip in results then
      if results[ip] then
        if ip !in records then Some(NewRecord(RecordType, RecordName, ip)) else None
      else
        if ip in records then Some(DeleteRecord(records[ip])) else None
    else if ip in records then Some(DeleteRecord(records[ip]))
    else None
  }

  /** The addresses a list of steps is about. */
  function Ips(steps: seq<Step>): set<Ip>
  {
    set i | 0 <= i < |steps| :: steps[i].ip
  }

  lemma IpsSnoc(steps: seq<Step>, step: Step)
    ensures Ips(steps + [step]) == Ips(steps) + {step.ip}
  {
    var t := steps + [step];
    assert forall i :: 0 <= i < |steps| ==> t[i] == steps[i];
    assert t[|steps|] == step;
  }

  predicate DistinctIps(steps: seq<Step>) {
    forall i, j :: 0 <= i < j < |steps| ==> steps[i].ip != steps[j].ip
  }

  /** The addresses whose probe reported the server available. */
  function Available(results: map<Ip, bool>): set<Ip>
  {
    set ip | ip in results && results[ip]
  }

  /**
   * `steps` is a plan for `records` and `results`: at most one step per
   * address, each step doing what `Decide` says, and a step for exactly the
   * addresses that need one, all of them probed or recorded.
   */
  predicate IsPlan(records: map<Ip, RecId>, results: map<Ip, bool>, steps: seq<Step>) {
    && DistinctIps(steps)
    && (forall i :: 0 <= i < |steps| ==> Decide(records, results, steps[i].ip) == Some(steps[i].action))
    && Ips(steps) == set ip | ip in records.Keys + results.Keys && Decide(records, results, ip).Some?
  }

  /**
   * The planner: first every probed address (in the maps' unspecified
   * order), then every recorded address that was not probed.
   */
  method PlanUpdates(records: map<Ip, RecId>, results: map<Ip, bool>) returns (steps: seq<Step>)
    ensures IsPlan(records, results, steps)
    ensures forall i, j :: 0 <= i < j < |steps| && steps[i].ip !in results ==> steps[j].ip !in results
  {
    var probed := PlanProbed(records, results);
    var stale := PlanStale(records, results);
    steps := probed + stale;
    IpsAppend(probed, stale);
    forall i | 0 <= i < |steps|
      ensures steps[i].ip in results <==> i < |probed|
      ensures Decide(records, results, steps[i].ip) == Some(steps[i].action)
    {
      if i >= |probed| {
        assert steps[i] == stale[i - |probed|];
      }
    }
    assert Ips(steps) == set ip | ip in records.Keys + results.Keys && Decide(records, results, ip).Some?;
  }

  /** The first pass: a step for each probed address that needs one. */
  method PlanProbed(records: map<Ip, RecId>, results: map<Ip, bool>) returns (steps: seq<Step>)
    ensures DistinctIps(steps)
    ensures forall i :: 0 <= i < |steps| ==> steps[i].ip in results
    ensures forall i :: 0 <= i < |steps| ==> Decide(records, results, steps[i].ip) == Some(steps[i].action)
    ensures Ips(steps) == set ip | ip in results.Keys && Decide(records, results, ip).Some?
  {
    steps := [];
    var pending := results.Keys;
    while pending != {}
      invariant pending <= results.Keys
      invariant DistinctIps(steps)
      invariant forall i :: 0 <= i < |steps| ==> steps[i].ip in results.Keys - pending
      invariant forall i :: 0 <= i < |steps| ==> Decide(records, results, steps[i].ip) == Some(steps[i].action)
      invariant Ips(steps) == set ip | ip in results.Keys - pending && Decide(records, results, ip).Some?
      decreases pending
    {
      var ip :| ip in pending;
      if results[ip] {
        if ip !in records {
          IpsSnoc(steps, Step(ip, NewRecord(RecordType, RecordName, ip)));
          steps := steps + [Step(ip, NewRecord(RecordType, RecordName, ip))];
        }
      } else {
        if ip in records {
          IpsSnoc(steps, Step(ip, DeleteRecord(records[ip])));
          steps := steps + [Step(ip, DeleteRecord(records[ip]))];
        }
      }
      pending := pending - {ip};
    }
  }

  /** The second pass: a deletion for each recorded address that was not probed. */
  method PlanStale(records: map<Ip, RecId>, results: map<Ip, bool>) returns (steps: seq<Step>)
    ensures DistinctIps(steps)
    ensures forall i :: 0 <= i < |steps| ==>
      steps[i].ip in records && steps[i].ip !in results && steps[i].action == DeleteRecord(records[steps[i].ip])
    ensures Ips(steps) == records.Keys - results.Keys
  {
    steps := [];
    var pending := records.Keys;
    while pending != {}
      invariant pending <= records.Keys
      invariant DistinctIps(steps)
      invariant forall i :: 0 <= i < |steps| ==> steps[i].ip in records.Keys - pending
      invariant forall i :: 0 <= i < |steps| ==>
        steps[i].ip !in results && steps[i].action == DeleteRecord(records[steps[i].ip])
      invariant Ips(steps) == (records.Keys - pending) - results.Keys
      decreases pending
    {
      var ip :| ip in pending;
      if ip !in results {
        IpsSnoc(steps, Step(ip, DeleteRecord(records[ip])));
        steps := steps + [Step(ip, DeleteRecord(records[ip]))];
      }
      pending := pending - {ip};
    }
  }

  lemma IpsAppend(a: seq<Step>, b: seq<Step>)
    ensures Ips(a + b) == Ips(a) + Ips(b)
  {
    var t := a + b;
    assert forall i :: 0 <= i < |a| ==> t[i] == a[i];
    assert forall i :: 0 <= i < |b| ==> t[|a| + i] == b[i];
  }

  /**
   * The effect of one step on the recorded addresses of the listed name.
   * `listsCreated` tells whether a record created as `RecordName` appears
   * under that name in the provider's listing; a deletion by record id
   * removes the address either way.
   */
  function ApplyStep(keys: set<Ip>, step: Step, listsCreated: bool): set<Ip>
  {
    match step.action
    case NewRecord(_, _, _) => if listsCreated then keys + {step.ip} else keys
    case DeleteRecord(_) => keys - {step.ip}
  }

  /** The effect of a list of steps, applied in order. */
  function Apply(keys: set<Ip>, steps: seq<Step>, listsCreated: bool): set<Ip>
    decreases |steps|
  {
    if steps == [] then keys
    else ApplyStep(Apply(keys, steps[..|steps| - 1], listsCreated), steps[|steps| - 1], listsCreated)
  }

  /**
   * With one step per address, an address ends up recorded exactly when its
   * step creates a record that the listing shows, or, having no step, when
   * it was recorded before.
   */
  lemma {:induction false} ApplyMembership(keys: set<Ip>, steps: seq<Step>, listsCreated: bool, x: Ip)
    requires DistinctIps(steps)
    ensures forall i :: 0 <= i < |steps| && steps[i].ip == x ==>
      (x in Apply(keys, steps, listsCreated) <==>
         steps[i].action.NewRecord? && (listsCreated || x in keys))
    ensures x !in Ips(steps) ==> (x in Apply(keys, steps, listsCreated) <==> x in keys)
    decreases |steps|
  {
    if steps != [] {
      var n := |steps| - 1;
      var prefix := steps[..n];
      assert DistinctIps(prefix);
      ApplyMembership(keys, prefix, listsCreated, x);
      if x != steps[n].ip {
        assert Ips(steps) == Ips(prefix) + {steps[n].ip};
        forall i | 0 <= i < |steps| && steps[i].ip == x
          ensures x in Apply(keys, steps, listsCreated) <==>
            steps[i].action.NewRecord? && (listsCreated || x in keys)
        {
          assert i < n;
          assert prefix[i] == steps[i];
        }
      } else {
        forall i | 0 <= i < |steps| && steps[i].ip == x
          ensures i == n
        {
        }
      }
    }
  }

  /**
   * Carrying out a plan leaves recorded exactly the addresses reported
   * available, when the created records are listed under the same name.
   * When they are not, the listed name keeps only its recorded addresses that
   * are available: the additions never show up under it.
   */
  lemma PlanReconciles(records: map<Ip, RecId>, results: map<Ip, bool>, steps: seq<Step>)
    requires IsPlan(records, results, steps)
    ensures Apply(records.Keys, steps, true) == Available(results)
    ensures Apply(records.Keys, steps, false) == records.Keys * Available(results)
  {
    forall x, listsCreated: bool
      ensures x in Apply(records.Keys, steps, listsCreated) <==>
        x in Available(results) && (listsCreated || x in records.Keys)
    {
      ApplyMembership(records.Keys, steps, listsCreated, x);
      if x in Ips(steps) {
        var i :| 0 <= i < |steps| && steps[i].ip == x;
        assert Decide(records, results, x) == Some(steps[i].action);
      } else {
        assert Decide(records, results, x).None?;
      }
    }
  }

  /**
   * The whole run: probe the pool, load the records listed under
   * `entryName`, plan the changes. `createdName` is the name under which the
   * provider lists a record created as `RecordName`. When it is `entryName`,
   * the name's records afterwards are exactly the pool addresses whose last
   * probe succeeded; otherwise they are the previously listed addresses among
   * those, and the created records land under another name.
   */
  method Sync(ipPool: seq<Ip>, outcomes: seq<McStatus.QueryOutcome>, entryName: string,
              createdName: string, response: seq<Entry>)
    returns (steps: seq<Step>)
    requires |ipPool| == |outcomes|
    ensures createdName == entryName ==>
      Apply(RecordsForName(response, entryName).Keys, steps, true)
        == set i | 0 <= i < |ipPool| && LastOccurrence(ipPool, i) && outcomes[i].QuerySucceeded? :: ipPool[i]
    ensures createdName != entryName ==>
      Apply(RecordsForName(response, entryName).Keys, steps, false)
        == RecordsForName(response, entryName).Keys
           * set i | 0 <= i < |ipPool| && LastOccurrence(ipPool, i) && outcomes[i].QuerySucceeded? :: ipPool[i]
  {
    var results := SlpResults(ipPool, outcomes);
    var records := RecordsForName(response, entryName);
    steps := PlanUpdates(records, results);
    PlanReconciles(records, results, steps);
    AvailableFromProbes(ipPool, outcomes);
  }

  /** An address is available in the probe results exactly when its last probe succeeded. */
  lemma AvailableFromProbes(ips: seq<Ip>, outcomes: seq<McStatus.QueryOutcome>)
    requires |ips| == |outcomes|
    ensures Available(SlpResults(ips, outcomes))
         == set i | 0 <= i < |ips| && LastOccurrence(ips, i) && outcomes[i].QuerySucceeded? :: ips[i]
  {
    var results := SlpResults(ips, outcomes);
    forall x
      ensures x in Available(results) <==>
        exists i :: 0 <= i < |ips| && LastOccurrence(ips, i) && outcomes[i].QuerySucceeded? && ips[i] == x
    {
      if x in results {
        var k :| 0 <= k < |ips| && ips[k] == x;
        var last := LastIndex(ips, k);
      }
    }
  }

  /** Every address of the pool has a last occurrence, at or after any given one. */
  lemma {:induction false} LastIndex(ips: seq<Ip>, k: nat) returns (r: nat)
    requires k < |ips|
    ensures k <= r < |ips| && ips[r] == ips[k] && LastOccurrence(ips, r)
    decreases |ips| - k
  {
    if j :| k < j < |ips| && ips[j] == ips[k] {
      r := LastIndex(ips, j);
    } else {
      r := k;
    }
  }

  /** The provider's listing after deleting the record with id `recId`: every entry with that id goes. */
  function DeleteById(response: seq<Entry>, recId: RecId): (r: seq<Entry>)
    ensures forall e :: e in r <==> e in response && e.recId != recId
    decreases |response|
  {
    if response == [] then []
    else
      var rest := DeleteById(response[1..], recId);
      assert forall e :: e in response <==> e == response[0] || e in response[1..];
      if response[0].recId == recId then rest else [response[0]] + rest
  }

  /** No two entries of `name` share a content: the provider holds one record per address. */
  predicate UniqueContents(response: seq<Entry>, name: string) {
    forall i, j :: 0 <= i < j < |response| && response[i].name == name && response[j].name == name ==>
      response[i].displayContent != response[j].displayContent
  }

  /**
   * With one record per address, deleting the record id listed for an
   * address removes the address from the name's records.
   */
  lemma DeleteRemovesAddress(response: seq<Entry>, name: string, ip: Ip)
    requires UniqueContents(response, name)
    requires ip in RecordsForName(response, name)
    ensures ip !in RecordsForName(DeleteById(response, RecordsForName(response, name)[ip]), name)
  {
    var k :| 0 <= k < |response| && response[k].name == name && response[k].displayContent == ip;
    assert LastForContent(response, name, k);
    var recId := RecordsForName(response, name)[ip];
    assert recId == response[k].recId;
    var after := DeleteById(response, recId);
    forall m | 0 <= m < |after| && after[m].name == name
      ensures after[m].displayContent != ip
    {
      assert after[m] in after;
      var j :| 0 <= j < |response| && response[j] == after[m];
      assert response[j].recId != recId;
      assert j != k;
    }
  }

  /**
   * With two records for one address, the planner deletes only the id
   * listed last, and the address stays listed under the name.
   */
  lemma DuplicateContentSurvives()
    ensures var listing := [Entry("e", "10.0.0.1", "a"), Entry("e", "10.0.0.1", "b")];
      && Decide(RecordsForName(listing, "e"), map["10.0.0.1" := false], "10.0.0.1") == Some(DeleteRecord("b"))
      && "10.0.0.1" in RecordsForName(DeleteById(listing, "b"), "e")
  {
    var listing := [Entry("e", "10.0.0.1", "a"), Entry("e", "10.0.0.1", "b")];
    assert LastForContent(listing, "e", 1);
    assert RecordsForName(listing, "e")["10.0.0.1"] == "b";
    var after := DeleteById(listing, "b");
    assert listing[0] in after;
  }
}
