/** CRTC selection for a connector: `Encoder::has_crtc` and the search that
    `DeviceManager::find_crtc_for_connector` performs, as functions over the
    connector's resolved encoders, the snapshot's CRTC list and the pool held
    in `mUnusedCrtcs`.

    The membership test is modelled as the source writes it: the flag named
    `unused` is true when the CRTC id is ABSENT from the pool, so a CRTC
    qualifies only while it is not in `mUnusedCrtcs`. */
module CrtcSelection {
  import opened DrmTypes

  /** The kernel reports at most 32 CRTCs, one per bit of `possible_crtcs`;
      `has_crtc` shifts `1` by the index, which is undefined from 32 on. */
  const MAX_CRTCS: nat := 32

  /** The mask `1 << index`, built by doubling (for index 31 the signed
      shift gives INT_MIN, whose conversion to unsigned is bit 31). */
  function Mask(index: nat): (r: bv32)
    requires index < MAX_CRTCS
  {
    if index == 0 then 1 else Mask(index - 1) << 1
  }

  /** Bit `index` of a CRTC mask, counted from the least significant bit:
      CRTC index `index` is possible for the encoder. */
  function BitOf(possibleCrtcs: bv32, index: nat): (r: bool)
    requires index < MAX_CRTCS
  {
    if index == 0 then possibleCrtcs & 1 == 1 else BitOf(possibleCrtcs >> 1, index - 1)
  }

  /** Testing against a mask shifted once is testing the value shifted the
      other way against the mask. */
  lemma MaskStep(m: bv32, x: bv32)
    ensures m & (x << 1) != 0 <==> (m >> 1) & x != 0
  {
  }

  /** Testing against `1 << index` reads bit `index` of the value. */
  lemma {:induction false} MaskTestIsBitOf(m: bv32, index: nat)
    requires index < MAX_CRTCS
    ensures m & Mask(index) != 0 <==> BitOf(m, index)
    decreases index
  {
    if index > 0 {
      MaskStep(m, Mask(index - 1));
      MaskTestIsBitOf(m >> 1, index - 1);
    }
  }

  /** `Encoder::has_crtc(index)`: `possible_crtcs & (1 << index)` is nonzero,
      that is, bit `index` of the mask is set. */
  function HasCrtc(possibleCrtcs: bv32, index: nat): (r: bool)
    requires index < MAX_CRTCS
    ensures r <==> BitOf(possibleCrtcs, index)
  {
    MaskTestIsBitOf(possibleCrtcs, index);
    possibleCrtcs & Mask(index) != 0
  }

  /** The test at the CRTC loop, as written: true when `crtc` is not in the pool. */
  predicate PassesUnusedTest(crtc: uint32, pool: set<uint32>) {
    crtc !in pool
  }

  /** Encoder `e` of the list resolved and, together with CRTC index `i`,
      passes both tests of the search. */
  ghost predicate Qualifies(encoders: seq<Option<Encoder>>, crtcs: seq<uint32>, pool: set<uint32>, e: nat, i: nat)
    requires |crtcs| <= MAX_CRTCS
  {
    && e < |encoders|
    && encoders[e].Some?
    && i < |crtcs|
    && HasCrtc(encoders[e].value.possibleCrtcs, i)
    && PassesUnusedTest(crtcs[i], pool)
  }

  /** (e, i) is the first qualifying pair in the search order: encoders in
      list order, and for each encoder the CRTCs in snapshot order. */
  ghost predicate FirstQualifying(encoders: seq<Option<Encoder>>, crtcs: seq<uint32>, pool: set<uint32>, e: nat, i: nat)
    requires |crtcs| <= MAX_CRTCS
  {
    && Qualifies(encoders, crtcs, pool, e, i)
    && (forall e': nat, i': nat :: e' < e ==> !Qualifies(encoders, crtcs, pool, e', i'))
    && (forall i': nat :: i' < i ==> !Qualifies(encoders, crtcs, pool, e, i'))
  }

  /** The inner loop: the first CRTC at index `i` or later that `possibleCrtcs`
      allows and that passes the unused test. */
  function CrtcFrom(possibleCrtcs: bv32, crtcs: seq<uint32>, i: nat, pool: set<uint32>): (r: Option<uint32>)
    requires i <= |crtcs| <= MAX_CRTCS
    ensures r.None? <==> forall k :: i <= k < |crtcs| ==> !(HasCrtc(possibleCrtcs, k) && PassesUnusedTest(crtcs[k], pool))
    ensures r.Some? ==> exists k :: i <= k < |crtcs| && HasCrtc(possibleCrtcs, k) && PassesUnusedTest(crtcs[k], pool) && r.value == crtcs[k]
                         && forall k' :: i <= k' < k ==> !(HasCrtc(possibleCrtcs, k') && PassesUnusedTest(crtcs[k'], pool))
    decreases |crtcs| - i
  {
    if i == |crtcs| then
      None
    else if HasCrtc(possibleCrtcs, i) && PassesUnusedTest(crtcs[i], pool) then
      Some(crtcs[i])
    else
      CrtcFrom(possibleCrtcs, crtcs, i + 1, pool)
  }

  /** The outer loop from encoder `e` on: unresolved encoders are skipped, and
      the first encoder whose inner search finds a CRTC decides. */
  function CrtcForEncoders(encoders: seq<Option<Encoder>>, e: nat, crtcs: seq<uint32>, pool: set<uint32>): (r: Option<uint32>)
    requires e <= |encoders|
    requires |crtcs| <= MAX_CRTCS
    ensures r.Some? ==> r.value in crtcs && PassesUnusedTest(r.value, pool)
    decreases |encoders| - e
  {
    if e == |encoders| then
      None
    else match encoders[e]
      case None => CrtcForEncoders(encoders, e + 1, crtcs, pool)
      case Some(encoder) =>
        var c := CrtcFrom(encoder.possibleCrtcs, crtcs, 0, pool);
        if c.Some? then c else CrtcForEncoders(encoders, e + 1, crtcs, pool)
  }

  /** The search finds a CRTC exactly when some (encoder, CRTC index) pair
      qualifies, and then it returns the CRTC of the first such pair. */
  lemma {:induction false} CrtcForEncodersIsFirstQualifying(encoders: seq<Option<Encoder>>, e: nat, crtcs: seq<uint32>, pool: set<uint32>)
    requires e <= |encoders|
    requires |crtcs| <= MAX_CRTCS
    requires forall e': nat, i': nat :: e' < e ==> !Qualifies(encoders, crtcs, pool, e', i')
    ensures var r := CrtcForEncoders(encoders, e, crtcs, pool);
            && (r.None? <==> forall e': nat, i': nat :: !Qualifies(encoders, crtcs, pool, e', i'))
            && (r.Some? ==> exists e': nat, i': nat :: FirstQualifying(encoders, crtcs, pool, e', i') && r.value == crtcs[i'])
    decreases |encoders| - e
  {
    var r := CrtcForEncoders(encoders, e, crtcs, pool);
    if e == |encoders| {
    } else {
      match encoders[e]
      case None =>
        assert forall i': nat :: !Qualifies(encoders, crtcs, pool, e, i');
        CrtcForEncodersIsFirstQualifying(encoders, e + 1, crtcs, pool);
      case Some(encoder) =>
        var c := CrtcFrom(encoder.possibleCrtcs, crtcs, 0, pool);
        if c.Some? {
          var k :| 0 <= k < |crtcs| && HasCrtc(encoder.possibleCrtcs, k) && PassesUnusedTest(crtcs[k], pool) && c.value == crtcs[k]
                   && forall k' :: 0 <= k' < k ==> !(HasCrtc(encoder.possibleCrtcs, k') && PassesUnusedTest(crtcs[k'], pool));
          assert FirstQualifying(encoders, crtcs, pool, e, k);
        } else {
          assert forall i': nat :: !Qualifies(encoders, crtcs, pool, e, i');
          CrtcForEncodersIsFirstQualifying(encoders, e + 1, crtcs, pool);
        }
    }
  }

  /** When every CRTC of the snapshot is in the pool, no connector is given a
      CRTC, whatever its encoders allow. */
  lemma FullPoolYieldsNoCrtc(encoders: seq<Option<Encoder>>, crtcs: seq<uint32>, pool: set<uint32>)
    requires |crtcs| <= MAX_CRTCS
    requires Elems(crtcs) <= pool
    ensures CrtcForEncoders(encoders, 0, crtcs, pool) == None
  {
  }

  /** Worked example: an encoder allowing only CRTC index 2
      (mask 0b100) and a snapshot of four CRTCs a, b, c, d. As written the
      search returns c exactly when c is NOT in the pool, so it returns c when
      a, b and d are in the pool and c is not, and nothing when c is in the
      pool. */
  lemma WorkedExampleAsWritten(id: uint32, bound: uint32, a: uint32, b: uint32, c: uint32, d: uint32, pool: set<uint32>)
    requires a != c && b != c && d != c
    ensures var r := CrtcForEncoders([Some(Encoder(id, bound, 0x4))], 0, [a, b, c, d], pool);
            r == if c in pool then None else Some(c)
  {
    var crtcs := [a, b, c, d];
    assert !HasCrtc(0x4, 0) && !HasCrtc(0x4, 1) && HasCrtc(0x4, 2) && !HasCrtc(0x4, 3);
    assert CrtcFrom(0x4, crtcs, 3, pool) == None;
  }
}
