/** The device manager: the live connector-to-output map (`mDisplayLookup`),
    the CRTC pool (`mUnusedCrtcs`), the pool seeding in `create`, the CRTC
    search `find_crtc_for_connector`, and the hot-plug reconciliation pass
    `update_connections`.

    The pure functions below describe a pass on the abstract state (which
    CRTC each tracked connector's output holds, and the pool); the class
    methods are proved against them. */
module Devices {
  import opened DrmTypes
  import opened BestMode
  import opened CrtcSelection
  import opened Output

  /** The abstract state of the manager: for each tracked connector id the
      CRTC its output was created with, and the pool. */
  datatype Tracking = Tracking(crtcOf: map<uint32, uint32>, pool: set<uint32>)

  /** What the source needs of a snapshot to stay clear of undefined
      behaviour: at most 32 CRTCs (the shift in `has_crtc`), and mode areas
      that fit in an `int` (the product in `find_best_mode`). */
  predicate SnapshotFits(s: Snapshot) {
    && |s.crtcs| <= MAX_CRTCS
    && forall k :: 0 <= k < |s.connectors| && s.connectors[k].connector.Some? ==>
         AreasFitInt(s.connectors[k].connector.value.modes)
  }

  /** Reconciliation of one connector probe, as the loop body does it. */
  function ReconcileOne(t: Tracking, p: ConnectorProbe, crtcs: seq<uint32>): (r: Tracking)
    requires |crtcs| <= MAX_CRTCS
    requires p.connector.Some? ==> AreasFitInt(p.connector.value.modes)
    // An unresolvable connector is skipped.
    ensures p.connector.None? ==> r == t
    // A tracked connector now disconnected gives its CRTC back and is dropped.
    ensures p.connector.Some? && p.connector.value.id in t.crtcOf && !p.connector.value.connected ==>
              r == Tracking(t.crtcOf - {p.connector.value.id}, t.pool + {t.crtcOf[p.connector.value.id]})
    // A tracked connected connector, or an untracked disconnected one, changes nothing.
    ensures p.connector.Some? && (p.connector.value.id in t.crtcOf <==> p.connector.value.connected) ==> r == t
    // An untracked connected connector gets an output exactly when a mode, a
    // CRTC and the output's resources are all found; that CRTC is erased from the pool.
    ensures p.connector.Some? && p.connector.value.id !in t.crtcOf && p.connector.value.connected ==>
              var c := p.connector.value;
              var crtc := CrtcForEncoders(c.encoders, 0, crtcs, t.pool);
              if FindBestMode(c.modes).Some? && crtc.Some? && p.surfaceOk && p.contextOk
              then r == Tracking(t.crtcOf[c.id := crtc.value], t.pool - {crtc.value})
              else r == t
    // As written, the chosen CRTC is never in the pool, so the pool never shrinks.
    ensures t.pool <= r.pool
  {
    match p.connector
    case None => t
    case Some(c) =>
      if c.id in t.crtcOf then
        if !c.connected then Tracking(t.crtcOf - {c.id}, t.pool + {t.crtcOf[c.id]}) else t
      else if c.connected then
        if FindBestMode(c.modes).None? then t
        else
          match CrtcForEncoders(c.encoders, 0, crtcs, t.pool)
          case None => t
          case Some(crtc) =>
            if p.surfaceOk && p.contextOk then Tracking(t.crtcOf[c.id := crtc], t.pool - {crtc}) else t
      else t
  }

  /** The ids of the connectors among the probes `ps[k..]` that could be read. */
  function ProbedIds(ps: seq<ConnectorProbe>, k: nat): (r: set<uint32>)
    requires k <= |ps|
    ensures forall j :: k <= j < |ps| && ps[j].connector.Some? ==> ps[j].connector.value.id in r
    decreases |ps| - k
  {
    if k == |ps| then {}
    else (if ps[k].connector.Some? then {ps[k].connector.value.id} else {}) + ProbedIds(ps, k + 1)
  }

  /** The reconciliation loop over the probes `ps[k..]`. Only the connectors
      it reads are reconciled: a tracked connector that the snapshot no longer
      lists keeps its output and its CRTC, and only a listed connector can
      gain one. The pool only ever grows. */
  function ReconcileFrom(t: Tracking, ps: seq<ConnectorProbe>, k: nat, crtcs: seq<uint32>): (r: Tracking)
    requires k <= |ps|
    requires SnapshotFits(Snapshot(ps, crtcs))
    ensures t.pool <= r.pool
    ensures forall id :: id in t.crtcOf && id !in ProbedIds(ps, k) ==> id in r.crtcOf && r.crtcOf[id] == t.crtcOf[id]
    ensures forall id :: id in r.crtcOf && id !in t.crtcOf ==> id in ProbedIds(ps, k)
    decreases |ps| - k
  {
    if k == |ps| then t else ReconcileFrom(ReconcileOne(t, ps[k], crtcs), ps, k + 1, crtcs)
  }

  /** `update_connections` on the abstract state: a failed snapshot changes
      nothing; otherwise every probe is reconciled in order. */
  function Reconcile(t: Tracking, snapshot: Option<Snapshot>): (r: Tracking)
    requires snapshot.Some? ==> SnapshotFits(snapshot.value)
    ensures snapshot.None? ==> r == t
    ensures t.pool <= r.pool
    ensures snapshot.Some? ==>
              forall id :: id in t.crtcOf && id !in ProbedIds(snapshot.value.connectors, 0) ==>
                id in r.crtcOf && r.crtcOf[id] == t.crtcOf[id]
  {
    match snapshot
    case None => t
    case Some(s) => ReconcileFrom(t, s.connectors, 0, s.crtcs)
  }

  /** Every CRTC a pass hands to a connector (one it did not track before,
      or one whose CRTC changed) comes from the snapshot and was not in the
      pool when the pass began: the test at the CRTC loop lets only CRTCs
      outside the pool through. */
  lemma {:induction false} NewCrtcsComeFromOutsidePool(t: Tracking, ps: seq<ConnectorProbe>, k: nat, crtcs: seq<uint32>)
    requires k <= |ps|
    requires SnapshotFits(Snapshot(ps, crtcs))
    ensures var r := ReconcileFrom(t, ps, k, crtcs);
            forall id :: id in r.crtcOf ==>
              || (id in t.crtcOf && r.crtcOf[id] == t.crtcOf[id])
              || (r.crtcOf[id] in crtcs && r.crtcOf[id] !in t.pool)
    decreases |ps| - k
  {
    if k < |ps| {
      var t' := ReconcileOne(t, ps[k], crtcs);
      NewCrtcsComeFromOutsidePool(t', ps, k + 1, crtcs);
    }
  }

  /** With every CRTC of the snapshot already in the pool (as `create` seeds
      it), a pass creates no output: the set of tracked connectors can only
      shrink. */
  lemma {:induction false} FullPoolCreatesNoOutput(t: Tracking, ps: seq<ConnectorProbe>, k: nat, crtcs: seq<uint32>)
    requires k <= |ps|
    requires SnapshotFits(Snapshot(ps, crtcs))
    requires Elems(crtcs) <= t.pool
    ensures ReconcileFrom(t, ps, k, crtcs).crtcOf.Keys <= t.crtcOf.Keys
    decreases |ps| - k
  {
    if k < |ps| {
      var t' := ReconcileOne(t, ps[k], crtcs);
      if ps[k].connector.Some? {
        FullPoolYieldsNoCrtc(ps[k].connector.value.encoders, crtcs, t.pool);
      }
      FullPoolCreatesNoOutput(t', ps, k + 1, crtcs);
    }
  }

  /** End-to-end example, as the code behaves: a manager
      created against a snapshot with one CRTC seeds the pool with it, and a
      pass over one connected connector (one preferred 1024x768 mode, one
      encoder allowing that CRTC) creates no output, because the test at the
      CRTC loop rejects every CRTC the pool holds. */
  lemma SeededManagerIgnoresNewConnector(crtc: uint32, connectorId: uint32, encoderId: uint32)
    ensures var c := Connector(connectorId, true, [Mode(1024, 768, DRM_MODE_TYPE_PREFERRED)], [Some(Encoder(encoderId, 0, 0x1))]);
            var snapshot := Snapshot([ConnectorProbe(Some(c), true, true)], [crtc]);
            && SnapshotFits(snapshot)
            && Reconcile(Tracking(map[], Elems([crtc])), Some(snapshot)) == Tracking(map[], {crtc})
  {
    var c := Connector(connectorId, true, [Mode(1024, 768, DRM_MODE_TYPE_PREFERRED)], [Some(Encoder(encoderId, 0, 0x1))]);
    var snapshot := Snapshot([ConnectorProbe(Some(c), true, true)], [crtc]);
    var t := Tracking(map[], Elems([crtc]));
    assert Elems([crtc]) == {crtc};
    assert AreasFitInt(c.modes);
    FullPoolYieldsNoCrtc(c.encoders, [crtc], {crtc});
    assert ReconcileOne(t, snapshot.connectors[0], [crtc]) == t;
    assert ReconcileFrom(t, snapshot.connectors, 1, [crtc]) == t;
  }

  /** Every snapshot fits (see `SnapshotFits`). */
  predicate AllFit(snapshots: seq<Option<Snapshot>>) {
    forall n :: 0 <= n < |snapshots| && snapshots[n].Some? ==> SnapshotFits(snapshots[n].value)
  }

  /** Successive `update_connections` passes, one per snapshot read. */
  function ReconcileMany(t: Tracking, snapshots: seq<Option<Snapshot>>): (r: Tracking)
    requires AllFit(snapshots)
    ensures snapshots == [] ==> r == t
    ensures t.pool <= r.pool
    decreases |snapshots|
  {
    if snapshots == [] then t else ReconcileMany(Reconcile(t, snapshots[0]), snapshots[1..])
  }

  /** Over any number of passes, a CRTC that was in the pool at the start is
      never handed to a connector: only a connector that already held it
      can still hold it. In particular a CRTC released by an unplug is not
      reused by a later plug. */
  lemma {:induction false} PooledCrtcIsNeverHandedOut(t: Tracking, snapshots: seq<Option<Snapshot>>)
    requires AllFit(snapshots)
    ensures var r := ReconcileMany(t, snapshots);
            forall id :: id in r.crtcOf && r.crtcOf[id] in t.pool ==> id in t.crtcOf && r.crtcOf[id] == t.crtcOf[id]
    decreases |snapshots|
  {
    if snapshots != [] {
      var t' := Reconcile(t, snapshots[0]);
      if snapshots[0].Some? {
        var s := snapshots[0].value;
        NewCrtcsComeFromOutsidePool(t, s.connectors, 0, s.crtcs);
      }
      assert AllFit(snapshots[1..]);
      PooledCrtcIsNeverHandedOut(t', snapshots[1..]);
    }
  }

  /** A manager fresh from `create` (no outputs, the pool seeded with the
      snapshot's CRTCs) never creates an output in any number of passes whose
      snapshots list no CRTC beyond those. */
  lemma {:induction false} SeededManagerNeverCreatesOutputs(t: Tracking, snapshots: seq<Option<Snapshot>>)
    requires AllFit(snapshots)
    requires t.crtcOf == map[]
    requires forall n :: 0 <= n < |snapshots| && snapshots[n].Some? ==> Elems(snapshots[n].value.crtcs) <= t.pool
    ensures ReconcileMany(t, snapshots).crtcOf == map[]
    decreases |snapshots|
  {
    if snapshots != [] {
      var t' := Reconcile(t, snapshots[0]);
      if snapshots[0].Some? {
        var s := snapshots[0].value;
        FullPoolCreatesNoOutput(t, s.connectors, 0, s.crtcs);
      }
      assert t'.crtcOf == map[];
      assert AllFit(snapshots[1..]);
      SeededManagerNeverCreatesOutputs(t', snapshots[1..]);
    }
  }

  /** Some probe of `ps` reads connector `id` as disconnected. */
  ghost predicate SeenDisconnected(ps: seq<ConnectorProbe>, id: uint32) {
    exists j :: 0 <= j < |ps| && ps[j].connector.Some? && ps[j].connector.value.id == id && !ps[j].connector.value.connected
  }

  /** The CRTC of each tracked output. */
  ghost function CrtcMap(lookup: map<uint32, Display>): (r: map<uint32, uint32>) {
    map id | id in lookup :: lookup[id].crtcId
  }

  /** Dropping or adding a tracked output drops or adds its CRTC. */
  lemma CrtcMapUpdate(lookup: map<uint32, Display>, id: uint32, d: Display)
    ensures CrtcMap(lookup - {id}) == CrtcMap(lookup) - {id}
    ensures CrtcMap(lookup[id := d]) == CrtcMap(lookup)[id := d.crtcId]
  {
  }

  class DeviceManager {
    var displayLookup: map<uint32, Display>
    var unusedCrtcs: set<uint32>

    /** Only outputs that were created successfully are tracked. */
    ghost predicate Valid()
      reads this
    {
      forall id :: id in displayLookup ==> displayLookup[id].hasSurface
    }

    /** The abstract state: each tracked output's CRTC, and the pool. */
    ghost function Tracked(): Tracking
      reads this
    {
      Tracking(CrtcMap(displayLookup), unusedCrtcs)
    }

    constructor (unused: set<uint32>)
      ensures displayLookup == map[] && unusedCrtcs == unused
      ensures Valid()
    {
      displayLookup := map[];
      unusedCrtcs := unused;
    }

    /** `DeviceManager::create`: the device must open and become master, the
        resource snapshot must be read (`crtcs` is its CRTC list, None on
        failure), and the allocator device, the rendering display and the
        master context must be created; any failure yields no manager. The
        pool is seeded with every CRTC of the snapshot. */
    static method Create(deviceOk: bool, crtcs: Option<seq<uint32>>, gbmOk: bool, eglOk: bool, masterOk: bool)
      returns (m: DeviceManager?)
      ensures m == null <==> !(deviceOk && crtcs.Some? && gbmOk && eglOk && masterOk)
      ensures m != null ==> fresh(m) && m.Valid() && m.displayLookup == map[] && m.unusedCrtcs == Elems(crtcs.value)
    {
      if !deviceOk || crtcs.None? || !gbmOk || !eglOk || !masterOk {
        return null;
      }
      var ids := crtcs.value;
      var unused: set<uint32> := {};
      for k := 0 to |ids|
        invariant unused == Elems(ids[..k])
      {
        assert ids[..k + 1] == ids[..k] + [ids[k]];
        unused := unused + {ids[k]};
      }
      assert ids[..|ids|] == ids;
      m := new DeviceManager(unused);
    }

    /** `DeviceManager::find_crtc_for_connector`: the nested search, with an
        early return at the first qualifying pair. */
    method FindCrtcForConnector(crtcs: seq<uint32>, encoders: seq<Option<Encoder>>) returns (r: Option<uint32>)
      requires |crtcs| <= MAX_CRTCS
      ensures r == CrtcForEncoders(encoders, 0, crtcs, unusedCrtcs)
    {
      for e := 0 to |encoders|
        invariant CrtcForEncoders(encoders, 0, crtcs, unusedCrtcs) == CrtcForEncoders(encoders, e, crtcs, unusedCrtcs)
      {
        if encoders[e].None? {
          continue;
        }
        var encoder := encoders[e].value;
        for i := 0 to |crtcs|
          invariant CrtcFrom(encoder.possibleCrtcs, crtcs, 0, unusedCrtcs) == CrtcFrom(encoder.possibleCrtcs, crtcs, i, unusedCrtcs)
        {
          var unused := crtcs[i] !in unusedCrtcs;
          if HasCrtc(encoder.possibleCrtcs, i) && unused {
            return Some(crtcs[i]);
          }
        }
      }
      return None;
    }

    /** The body of the `update_connections` loop for one probe. */
    method ReconcileConnector(caller: ThreadId, probe: ConnectorProbe, crtcs: seq<uint32>)
      requires Valid()
      requires forall id :: id in displayLookup ==> displayLookup[id].threadId == caller
      requires |crtcs| <= MAX_CRTCS
      requires probe.connector.Some? ==> AreasFitInt(probe.connector.value.modes)
      modifies this
      ensures Valid()
      ensures Tracked() == ReconcileOne(old(Tracked()), probe, crtcs)
      ensures forall id :: id in displayLookup ==> displayLookup[id].threadId == caller
      ensures forall id :: id in old(displayLookup) && id in displayLookup ==> displayLookup[id] == old(displayLookup[id])
      ensures forall id :: id in old(displayLookup) && id !in displayLookup ==>
                probe.connector.Some? && probe.connector.value.id == id && !probe.connector.value.connected
      ensures forall id :: id in displayLookup && id !in old(displayLookup) ==>
                fresh(displayLookup[id]) && displayLookup[id].State() == OutputState(None, None, false, map[])
    {
      if probe.connector.None? {
        return;
      }
      var connector := probe.connector.value;
      if connector.id in displayLookup {
        if !connector.connected {
          // Someone unplugged it.
          var display := displayLookup[connector.id];
          var crtc := display.CrtcId(caller);
          CrtcMapUpdate(displayLookup, connector.id, display);
          unusedCrtcs := unusedCrtcs + {crtc};
          displayLookup := displayLookup - {connector.id};
        }
      } else if connector.connected {
        // Someone plugged it in.
        var mode := FindBestMode(connector.modes);
        if mode.None? {
          return;
        }
        var crtc := FindCrtcForConnector(crtcs, connector.encoders);
        if crtc.None? {
          return;
        }
        var display := new Display.Create(probe.surfaceOk, probe.contextOk, crtc.value, caller);
        if !display.Usable(caller) {
          return;
        }
        // `emplace` inserts: the id is not tracked on this branch.
        CrtcMapUpdate(displayLookup, connector.id, display);
        displayLookup := displayLookup[connector.id := display];
        unusedCrtcs := unusedCrtcs - {crtc.value};
      }
    }

    /** `DeviceManager::update_connections`, run on thread `caller`, which
        must be the thread the tracked outputs were created on (reading an
        output's CRTC asserts that). A failed snapshot ends the pass at once;
        otherwise each connector is reconciled on its own, and a failure on
        one never stops the others. */
    method UpdateConnections(caller: ThreadId, snapshot: Option<Snapshot>)
      requires Valid()
      requires forall id :: id in displayLookup ==> displayLookup[id].threadId == caller
      requires snapshot.Some? ==> SnapshotFits(snapshot.value)
      modifies this
      ensures Valid()
      ensures Tracked() == Reconcile(old(Tracked()), snapshot)
      ensures forall id :: id in displayLookup ==> displayLookup[id].threadId == caller
      ensures snapshot.None? ==> displayLookup == old(displayLookup)
      ensures snapshot.Some? ==>
                forall id :: id in old(displayLookup) && id in displayLookup && !SeenDisconnected(snapshot.value.connectors, id) ==>
                  displayLookup[id] == old(displayLookup[id])
      ensures forall id :: id in displayLookup ==>
                || (id in old(displayLookup) && displayLookup[id] == old(displayLookup[id]))
                || (fresh(displayLookup[id]) && displayLookup[id].State() == OutputState(None, None, false, map[]))
    {
      if snapshot.None? {
        return;
      }
      var ps := snapshot.value.connectors;
      var crtcs := snapshot.value.crtcs;
      for k := 0 to |ps|
        invariant Valid()
        invariant forall id :: id in displayLookup ==> displayLookup[id].threadId == caller
        invariant forall id :: id in old(displayLookup) && !SeenDisconnected(ps[..k], id) ==>
                    id in displayLookup && displayLookup[id] == old(displayLookup[id])
        invariant forall id :: id in displayLookup ==>
                    || (id in old(displayLookup) && displayLookup[id] == old(displayLookup[id]))
                    || (fresh(displayLookup[id]) && displayLookup[id].State() == OutputState(None, None, false, map[]))
        invariant ReconcileFrom(old(Tracked()), ps, 0, crtcs) == ReconcileFrom(Tracked(), ps, k, crtcs)
      {
        ReconcileConnector(caller, ps[k], crtcs);
        assert ps[..k + 1] == ps[..k] + [ps[k]];
        forall id | !SeenDisconnected(ps[..k + 1], id)
          ensures !SeenDisconnected(ps[..k], id)
          ensures !(ps[k].connector.Some? && ps[k].connector.value.id == id && !ps[k].connector.value.connected)
        {
        }
      }
      assert ps[..|ps|] == ps;
    }
  }
}
