/**
 Building reports from a ledger that other threads keep committing to. Built
 reports verify.
 */
module ReportBuild {
  import opened Prelude
  import opened Merkle
  import opened Json
  import opened PyValue
  import opened Crosswalk
  import opened Evaluate
  import opened Signing
  import opened Witness
  import opened Ledger
  import opened Report

  /** The dictionary of an event, as the crosswalk engine sees it. */
  function Dict(e: Event): Value {
    if !e.body.Obj? || e.ledger.None? then e.body
    else
      var f := e.ledger.value;
      Obj(e.body.members["ledger" := Obj(map["leaf_hash" := Str("sha256:" + Hex(f.leafHash)),
                                            "leaf_index" := Int(f.leafIndex),
                                            "committed_at" := Str(f.committedAt)])])
  }

  function Dicts(es: seq<Event>): (ds: seq<Value>)
    ensures |ds| == |es|
    ensures forall i :: 0 <= i < |es| ==> ds[i] == Dict(es[i])
  {
    seq(|es|, i requires 0 <= i < |es| => Dict(es[i]))
  }

  function Lines(rs: seq<ControlResult>): (ls: seq<Line>)
    ensures |ls| == |rs|
    ensures forall i :: 0 <= i < |rs| ==> ls[i] == Line(rs[i].controlId, rs[i].status, rs[i].evidenceEventIds)
  {
    seq(|rs|, i requires 0 <= i < |rs| => Line(rs[i].controlId, rs[i].status, rs[i].evidenceEventIds))
  }

  /** The evidence cited by a control is the identifier of one of the evaluated events. */
  predicate CitesOnly(lines: seq<Line>, records: seq<Event>) {
    forall i, j :: 0 <= i < |lines| && 0 <= j < |lines[i].evidence| ==> IsIdOf(lines[i].evidence[j], records)
  }

  predicate IsIdOf(id: Value, records: seq<Event>) {
    exists k :: 0 <= k < |records| && EventId(records[k]) == id
  }

  lemma {:induction false} DictKeepsId(e: Event)
    ensures GetPath(Dict(e), ["event_id"]) == EventId(e)
  {
    assert ["event_id"][1..] == [];
  }

  /** The engine sees every record of a ledger as committed, and otherwise as it is. */
  lemma {:induction false} RecordsAreCommitted(records: seq<Event>, i: nat)
    requires i < |records| && records[i].body.Obj? && records[i].ledger.Some?
    ensures Holds(Dicts(records), i, Condition.Committed) == Is(true)
    ensures forall k :: k != "ledger" ==> GetPath(Dict(records[i]), [k]) == GetPath(records[i].body, [k])
  {
    var d := Dict(records[i]);
    assert ["ledger", "leaf_hash"][1..] == ["leaf_hash"] && ["leaf_hash"][1..] == [];
    assert GetPath(d, ["ledger", "leaf_hash"]) == GetPath(d.members["ledger"], ["leaf_hash"]);
    forall k | k != "ledger" ensures GetPath(d, [k]) == GetPath(records[i].body, [k]) {
      assert [k][1..] == [];
    }
  }

  lemma {:induction false} ResultsCiteEvents(controls: seq<Control>, records: seq<Event>, rs: seq<ControlResult>)
    requires Results(controls, Dicts(records), |controls|) == Some(rs)
    ensures CitesOnly(Lines(rs), records)
  {
    var ds := Dicts(records);
    forall i, j | 0 <= i < |rs| && 0 <= j < |rs[i].evidenceEventIds|
      ensures IsIdOf(rs[i].evidenceEventIds[j], records)
    {
      JudgeCites(controls[i], records, j);
    }
  }

  lemma {:induction false} JudgeCites(ctrl: Control, records: seq<Event>, j: nat)
    requires Judge(Dicts(records), ctrl).Some?
    requires j < |Judge(Dicts(records), ctrl).value.evidenceEventIds|
    ensures IsIdOf(Judge(Dicts(records), ctrl).value.evidenceEventIds[j], records)
  {
    var ds := Dicts(records);
    var scoped := Scoped(ds, ctrl.scope, 0);
    var passing := Pick(scoped, Verdicts(ds, scoped, ctrl.condition), true, 0);
    assert Within(passing, |ds|);
    var k := passing[j];
    assert Judge(ds, ctrl).value.evidenceEventIds[j] == GetPath(ds[k], ["event_id"]);
    DictKeepsId(records[k]);
  }

  // ---- building ------------------------------------------------------------

  /** Other threads commit some events. */
  method Grow(ledger: EvidenceLedger, bodies: seq<Value>, now: string)
    requires ledger.Valid()
    modifies ledger, ledger.backend, ledger.tree
    ensures ledger.Valid()
    ensures old(ledger.leaves) <= ledger.leaves && old(ledger.Records()) <= ledger.Records()
    ensures bodies == [] ==> ledger.Records() == old(ledger.Records())
  {
    for i := 0 to |bodies|
      invariant ledger.Valid()
      invariant i == 0 ==> ledger.Records() == old(ledger.Records())
      invariant old(ledger.leaves) <= ledger.leaves && old(ledger.Records()) <= ledger.Records()
    {
      var e := ledger.Commit(bodies[i], now);
    }
  }

  /** Item `i` is record `i`, with its leaf and a proof that leads to the head. */
  ghost predicate GoodItem(env: Env, item: Item, i: nat, cp: Checkpoint, records: seq<Event>, leaves: seq<Digest>) {
    && i < |records| && i < |leaves|
    && item.event == records[i] && item.leafIndex == i
    && env.leafOf(item.event.body) == item.leafHash == Some(leaves[i])
    && ItemOk(env, item, cp)
  }

  ghost predicate GoodItems(env: Env, items: seq<Item>, cp: Checkpoint, records: seq<Event>, leaves: seq<Digest>) {
    forall i :: 0 <= i < |items| ==> GoodItem(env, items[i], i, cp, records, leaves)
  }

  lemma {:induction false} GoodItemsGrow(env: Env, items: seq<Item>, cp: Checkpoint,
                                         records: seq<Event>, leaves: seq<Digest>,
                                         records': seq<Event>, leaves': seq<Digest>)
    requires GoodItems(env, items, cp, records, leaves) && records <= records' && leaves <= leaves'
    ensures GoodItems(env, items, cp, records', leaves')
  {
    forall i | 0 <= i < |items| ensures GoodItem(env, items[i], i, cp, records', leaves') {
      assert GoodItem(env, items[i], i, cp, records, leaves);
    }
  }

  lemma ItemIsGood(env: Env, cp: Checkpoint, records: seq<Event>, leaves: seq<Digest>, i: nat, proof: seq<Digest>)
    requires Coherent(env) && AllCommitted(env.hs, records) && leaves == StoredLeaves(records)
    requires HeadOf(env.hs, cp, leaves) && i < cp.treeSize
    requires InclusionProof(env.hs, FirstLeaves(leaves, cp.treeSize), i) == Some(proof)
    ensures records[i].ledger.Some?
    ensures GoodItem(env, Item(records[i], i, Some(records[i].ledger.value.leafHash), proof), i, cp, records, leaves)
  {
    assert Ledger.Committed(env.hs, records[i], i);
    assert env.leafOf(records[i].body) == LeafOf(env.hs, records[i].body);
    PinnedProofAccepted(env.hs, leaves, cp, i);
  }

  lemma {:induction false} GoodItemsMore(env: Env, items: seq<Item>, item: Item, cp: Checkpoint, records: seq<Event>,
                                         leaves: seq<Digest>)
    requires GoodItems(env, items, cp, records, leaves) && GoodItem(env, item, |items|, cp, records, leaves)
    ensures GoodItems(env, items + [item], cp, records, leaves)
  {
  }

  /** The loop over indices; `growth(k)` is what others commit just before the `k`-th read of the ledger. */
  method CollectItems(env: Env, ledger: EvidenceLedger, cp: Checkpoint, growth: nat -> seq<Value>, now: string)
    returns (items: seq<Item>)
    requires ledger.Valid() && Coherent(env) && env.hs == ledger.hs && HeadOf(env.hs, cp, ledger.leaves)
    modifies ledger, ledger.backend, ledger.tree
    ensures ledger.Valid()
    ensures old(ledger.leaves) <= ledger.leaves && old(ledger.Records()) <= ledger.Records()
    ensures HeadOf(env.hs, cp, ledger.leaves)
    ensures |items| == cp.treeSize && GoodItems(env, items, cp, ledger.Records(), ledger.leaves)
  {
    items := [];
    for i := 0 to cp.treeSize
      invariant ledger.Valid() && |items| == i
      invariant old(ledger.leaves) <= ledger.leaves && old(ledger.Records()) <= ledger.Records()
      invariant HeadOf(env.hs, cp, ledger.leaves)
      invariant GoodItems(env, items, cp, ledger.Records(), ledger.leaves)
    {
      var item := CollectItem(env, ledger, cp, i, growth(2 * i), growth(2 * i + 1), now, items);
      GoodItemsMore(env, items, item, cp, ledger.Records(), ledger.leaves);
      items := items + [item];
    }
  }

  method CollectItem(env: Env, ledger: EvidenceLedger, cp: Checkpoint, i: nat, before: seq<Value>,
                     between: seq<Value>, now: string, ghost items: seq<Item>)
    returns (item: Item)
    requires ledger.Valid() && Coherent(env) && env.hs == ledger.hs && HeadOf(env.hs, cp, ledger.leaves)
    requires i < cp.treeSize && GoodItems(env, items, cp, ledger.Records(), ledger.leaves)
    modifies ledger, ledger.backend, ledger.tree
    ensures ledger.Valid()
    ensures old(ledger.leaves) <= ledger.leaves && old(ledger.Records()) <= ledger.Records()
    ensures HeadOf(env.hs, cp, ledger.leaves)
    ensures GoodItems(env, items, cp, ledger.Records(), ledger.leaves)
    ensures GoodItem(env, item, i, cp, ledger.Records(), ledger.leaves)
  {
    ghost var leaves0, records0 := ledger.leaves, ledger.Records();
    Grow(ledger, before, now);
    var ev := ledger.GetEvent(i);
    Grow(ledger, between, now);
    HeadsSurviveGrowth(env.hs, cp, leaves0, ledger.leaves);
    GoodItemsGrow(env, items, cp, records0, leaves0, ledger.Records(), ledger.leaves);
    assert ev == Some(ledger.Records()[i]);
    assert Ledger.Committed(env.hs, ledger.Records()[i], i);
    var proof := ledger.PinnedInclusionProof(i, cp.treeSize);
    ItemIsGood(env, cp, ledger.Records(), ledger.leaves, i, proof.value);
    item := Item(ev.value, i, Some(ev.value.ledger.value.leafHash), proof.value);
  }

  /**
   Build a report while others commit at any point. It discloses the records
   up to its head, and passes every shallow check exactly when those include
   the evidence that the results cite, with or without a trusted key. Evidence
   taken from the ledger before a head of its own is always included.
   */
  method BuildReport(env: Env, ledger: EvidenceLedger, key: Key, results: seq<ControlResult>, crosswalkHash: string,
                     given: Option<Checkpoint>, sinceEvaluation: seq<Value>, growth: nat -> seq<Value>, now: string)
    returns (r: SignedReport)
    requires ledger.Valid() && Coherent(env) && env.hs == ledger.hs && Correct(env.sc)
    requires given.Some? ==>
      HeadOf(env.hs, given.value, ledger.leaves) && Verified(env.sc, given.value, env.sc.publicKey(key))
    modifies ledger, ledger.backend, ledger.tree
    ensures ledger.Valid() && old(ledger.Records()) <= ledger.Records()
    ensures Discloses(r.content, ledger.Records())
    ensures given.Some? ==> r.content.checkpoint == given.value
    ensures given.None? ==> |old(ledger.Records())| <= r.content.checkpoint.treeSize
    ensures given.None? && sinceEvaluation == [] ==> r.content.checkpoint.treeSize == |old(ledger.Records())|
    ensures r.content.lines == Lines(results) && r.content.crosswalkHash == crosswalkHash
    ensures given.None? && CitesOnly(Lines(results), old(ledger.Records())) ==> EvidencePresent(r.content)
    ensures !Unserializable(env, r.content.items)
    ensures Valid(env, r, None) <==> EvidencePresent(r.content)
    ensures Valid(env, r, Some(env.sc.publicKey(key))) <==> EvidencePresent(r.content)
  {
    Grow(ledger, sinceEvaluation, now);
    var cp := ChooseHead(env, ledger, key, given, now, old(ledger.leaves));
    var items := CollectItems(env, ledger, cp, growth, now);
    r := SignReport(env, key, Unsigned(cp, items, Lines(results), crosswalkHash, Some(env.sc.publicKey(key))));
    BuiltIsValid(env, key, r.content, ledger.Records(), ledger.leaves);
    EvidenceDisclosed(r.content, old(ledger.Records()), ledger.Records());
  }

  /** The head that the caller supplied, or else a new one. */
  method ChooseHead(env: Env, ledger: EvidenceLedger, key: Key, given: Option<Checkpoint>, now: string,
                    ghost before: seq<Digest>)
    returns (cp: Checkpoint)
    requires ledger.Valid() && env.hs == ledger.hs && Correct(env.sc)
    requires before <= ledger.leaves
    requires given.Some? ==> HeadOf(env.hs, given.value, before) && Verified(env.sc, given.value, env.sc.publicKey(key))
    ensures HeadOf(env.hs, cp, ledger.leaves) && Verified(env.sc, cp, env.sc.publicKey(key))
    ensures if given.Some? then cp == given.value else cp.treeSize == |ledger.Records()|
  {
    if given.Some? {
      cp := given.value;
      HeadsSurviveGrowth(env.hs, cp, before, ledger.leaves);
    } else {
      cp := ledger.SignHead(env.sc, key, now);
    }
  }

  /** The items are the records up to the head. */
  ghost predicate Discloses(c: Unsigned, records: seq<Event>) {
    && c.checkpoint.treeSize == |c.items| <= |records|
    && forall i :: 0 <= i < |c.items| ==> c.items[i].event == records[i]
  }

  /** The report dictionary with its signature added. */
  function SignReport(env: Env, key: Key, c: Unsigned): SignedReport {
    SignedReport(c, env.sc.keyId(env.sc.publicKey(key)), env.sc.sign(key, env.payload(c)))
  }

  lemma {:induction false} BuiltIsValid(env: Env, key: Key, c: Unsigned, records: seq<Event>, leaves: seq<Digest>)
    requires Correct(env.sc) && Verified(env.sc, c.checkpoint, env.sc.publicKey(key))
    requires c.publicKey == Some(env.sc.publicKey(key))
    requires GoodItems(env, c.items, c.checkpoint, records, leaves) && HeadOf(env.hs, c.checkpoint, leaves)
    requires |c.items| == c.checkpoint.treeSize && |records| == |leaves|
    ensures Discloses(c, records) && !Unserializable(env, c.items)
    ensures Valid(env, SignReport(env, key, c), None) <==> EvidencePresent(c)
    ensures Valid(env, SignReport(env, key, c), Some(env.sc.publicKey(key))) <==> EvidencePresent(c)
  {
    forall i | 0 <= i < |c.items| ensures c.items[i].event == records[i] && ItemOk(env, c.items[i], c.checkpoint) {
      assert GoodItem(env, c.items[i], i, c.checkpoint, records, leaves);
    }
    GoodTree(env, c, records, leaves);
  }

  lemma {:induction false} GoodIndices(env: Env, items: seq<Item>, cp: Checkpoint, records: seq<Event>,
                                       leaves: seq<Digest>, n: nat)
    requires GoodItems(env, items, cp, records, leaves) && n <= |items| <= cp.treeSize <= |leaves|
    ensures AtTheirIndices(env, items, leaves[..cp.treeSize], n)
    decreases n
  {
    if n > 0 {
      GoodIndices(env, items, cp, records, leaves, n - 1);
      assert GoodItem(env, items[n - 1], n - 1, cp, records, leaves);
    }
  }

  lemma GoodTree(env: Env, c: Unsigned, records: seq<Event>, leaves: seq<Digest>)
    requires GoodItems(env, c.items, c.checkpoint, records, leaves) && HeadOf(env.hs, c.checkpoint, leaves)
    requires |c.items| == c.checkpoint.treeSize
    ensures !Unserializable(env, c.items) && TreeOk(env, c)
  {
    forall i | 0 <= i < |c.items| ensures env.leafOf(c.items[i].event.body).Some? {
      assert GoodItem(env, c.items[i], i, c.checkpoint, records, leaves);
    }
    GoodIndices(env, c.items, c.checkpoint, records, leaves, |c.items|);
    DisclosureIsTheLog(env, c, leaves[..c.checkpoint.treeSize]);
  }

  lemma {:induction false} EvidenceDisclosed(c: Unsigned, evaluated: seq<Event>, records: seq<Event>)
    requires Discloses(c, records) && evaluated <= records
    ensures |evaluated| <= c.checkpoint.treeSize && CitesOnly(c.lines, evaluated) ==> EvidencePresent(c)
  {
    if |evaluated| <= c.checkpoint.treeSize && CitesOnly(c.lines, evaluated) {
      forall i, j | 0 <= i < |c.lines| && 0 <= j < |c.lines[i].evidence|
        ensures Disclosed(c, c.lines[i].evidence[j])
      {
        assert IsIdOf(c.lines[i].evidence[j], evaluated);
        var k :| 0 <= k < |evaluated| && EventId(evaluated[k]) == c.lines[i].evidence[j];
        assert c.items[k].event == evaluated[k];
      }
    }
  }
}
