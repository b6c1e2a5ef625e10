/** Best-mode selection for a connector (`Connector::find_best_mode`).
    The source walks the mode list once: the first mode flagged preferred is
    returned as soon as it is reached; otherwise the first mode whose area is
    strictly larger than every earlier one (starting from 0) is remembered.
    The result is the index of the chosen mode in the list. */
module BestMode {
  import opened DrmTypes

  /** `DRM_MODE_TYPE_PREFERRED` is bit 3 of a mode's type flags. */
  const DRM_MODE_TYPE_PREFERRED: bv32 := 0x8

  predicate IsPreferred(m: Mode) {
    m.modeType & DRM_MODE_TYPE_PREFERRED != 0
  }

  /** The product `hdisplay * vdisplay`, which the source computes in `int`. */
  function Area(m: Mode): (r: int) {
    m.hdisplay as int * m.vdisplay as int
  }

  /** Every product fits in a C `int`; otherwise the multiplication would
      overflow, which C++ leaves undefined. */
  predicate AreasFitInt(modes: seq<Mode>) {
    forall j :: 0 <= j < |modes| ==> Area(modes[j]) <= INT_MAX
  }

  predicate HasPreferred(modes: seq<Mode>) {
    exists j :: 0 <= j < |modes| && IsPreferred(modes[j])
  }

  /** Index k holds the first preferred mode. */
  predicate IsFirstPreferred(modes: seq<Mode>, k: nat) {
    && k < |modes|
    && IsPreferred(modes[k])
    && forall j :: 0 <= j < k ==> !IsPreferred(modes[j])
  }

  /** Index k holds a mode of positive, maximal area, and every earlier mode
      is strictly smaller (ties keep the first). */
  predicate IsFirstLargest(modes: seq<Mode>, k: nat) {
    && k < |modes|
    && Area(modes[k]) > 0
    && (forall j :: 0 <= j < |modes| ==> Area(modes[j]) <= Area(modes[k]))
    && (forall j :: 0 <= j < k ==> Area(modes[j]) < Area(modes[k]))
  }

  /** What the loop knows after visiting `modes[..i]` with running maximum
      `biggest` and remembered index `result`. */
  predicate ScanState(modes: seq<Mode>, i: nat, biggest: int, result: Option<nat>) {
    && i <= |modes|
    && (forall j :: 0 <= j < i ==> !IsPreferred(modes[j]))
    && (forall j :: 0 <= j < i ==> Area(modes[j]) <= biggest)
    && (result.None? ==> biggest == 0)
    && (result.Some? ==>
          && result.value < i
          && biggest > 0
          && Area(modes[result.value]) == biggest
          && forall j :: 0 <= j < result.value ==> Area(modes[j]) < biggest)
  }

  /** The loop of `find_best_mode` from position i on. */
  function Scan(modes: seq<Mode>, i: nat, biggest: int, result: Option<nat>): (r: Option<nat>)
    requires ScanState(modes, i, biggest, result)
    ensures HasPreferred(modes) ==> r.Some? && IsFirstPreferred(modes, r.value)
    ensures !HasPreferred(modes) ==> (r.None? <==> forall j :: 0 <= j < |modes| ==> Area(modes[j]) == 0)
    ensures !HasPreferred(modes) && r.Some? ==> IsFirstLargest(modes, r.value)
    decreases |modes| - i
  {
    if i == |modes| then
      result
    else if IsPreferred(modes[i]) then
      Some(i)
    else if Area(modes[i]) > biggest then
      Scan(modes, i + 1, Area(modes[i]), Some(i))
    else
      Scan(modes, i + 1, biggest, result)
  }

  /** `Connector::find_best_mode`: the index of the chosen mode, or None
      ("No mode found"). */
  function FindBestMode(modes: seq<Mode>): (r: Option<nat>)
    requires AreasFitInt(modes)
    ensures HasPreferred(modes) ==> r.Some? && IsFirstPreferred(modes, r.value)
    ensures !HasPreferred(modes) ==> (r.None? <==> forall j :: 0 <= j < |modes| ==> Area(modes[j]) == 0)
    ensures !HasPreferred(modes) && r.Some? ==> IsFirstLargest(modes, r.value)
  {
    Scan(modes, 0, 0, None)
  }

  /** A preferred mode wins as soon as the scan reaches it, whatever the areas
      of the modes before it. */
  lemma PreferredWinsOverLargerArea(modes: seq<Mode>, p: nat)
    requires AreasFitInt(modes)
    requires IsFirstPreferred(modes, p)
    ensures FindBestMode(modes) == Some(p)
  {
    assert HasPreferred(modes);
  }

  /** Without a preferred mode the answer is the first mode of largest
      positive area, and there is exactly one such index. */
  lemma LargestAreaWins(modes: seq<Mode>, k: nat)
    requires AreasFitInt(modes)
    requires !HasPreferred(modes)
    requires IsFirstLargest(modes, k)
    ensures FindBestMode(modes) == Some(k)
  {
    assert Area(modes[k]) != 0;
  }

  /** An empty list, or one whose every area is 0, yields no mode. */
  lemma NoModeFound(modes: seq<Mode>)
    requires AreasFitInt(modes)
    requires !HasPreferred(modes)
    requires forall j :: 0 <= j < |modes| ==> Area(modes[j]) == 0
    ensures FindBestMode(modes) == None
  {
  }

  /** Three worked examples: a preferred 1280x720 beats a
      larger 1920x1080; without a preferred mode 1920x1080 wins; an empty
      list yields nothing. */
  lemma WorkedExamples()
    ensures FindBestMode([Mode(800, 600, 0), Mode(1920, 1080, 0), Mode(1280, 720, DRM_MODE_TYPE_PREFERRED)]) == Some(2)
    ensures FindBestMode([Mode(800, 600, 0), Mode(1920, 1080, 0), Mode(640, 480, 0)]) == Some(1)
    ensures FindBestMode([]) == None
  {
    var a := [Mode(800, 600, 0), Mode(1920, 1080, 0), Mode(1280, 720, DRM_MODE_TYPE_PREFERRED)];
    assert IsPreferred(a[2]) && !IsPreferred(a[0]) && !IsPreferred(a[1]);
    PreferredWinsOverLargerArea(a, 2);
    var b := [Mode(800, 600, 0), Mode(1920, 1080, 0), Mode(640, 480, 0)];
    assert !IsPreferred(b[0]) && !IsPreferred(b[1]) && !IsPreferred(b[2]);
    LargestAreaWins(b, 1);
  }
}
