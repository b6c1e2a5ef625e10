/** Values shared by the display-management core: fixed-width integers, the
    kernel objects read from a resource snapshot, and the oracle inputs that
    stand for the native calls (kernel ioctls, allocator, rendering backend). */
module DrmTypes {

  newtype uint16 = x: int | 0 <= x < 0x1_0000
  newtype uint32 = x: int | 0 <= x < 0x1_0000_0000

  /** Largest value of a C `int` (32-bit two's complement). */
  const INT_MAX: int := 0x7FFF_FFFF

  datatype Option<+T> = None | Some(value: T)

  /** Identity of an OS thread, as `std::this_thread::get_id()` reports it. */
  type ThreadId = nat

  /** Identity of an allocator buffer object (a `gbm_bo *`). */
  type BufferObject = nat

  /** One display mode of a connector: its visible size and its type flags. */
  datatype Mode = Mode(hdisplay: uint16, vdisplay: uint16, modeType: bv32)

  /** An encoder as the kernel reports it: its own id, the CRTC it is bound
      to, and the bitmask of CRTC indices it can drive. */
  datatype Encoder = Encoder(id: uint32, crtcId: uint32, possibleCrtcs: bv32)

  /** A resolved connector. `encoders` holds, for each encoder id the
      connector lists, the result of resolving that id (None when the kernel
      query failed). */
  datatype Connector = Connector(
    id: uint32,
    connected: bool,
    modes: seq<Mode>,
    encoders: seq<Option<Encoder>>)

  /** What one connector id of a snapshot yields during a reconciliation
      pass: the resolved connector (None when the query failed), and whether
      the allocator surface and the child rendering context for a new Output
      would be created successfully. */
  datatype ConnectorProbe = ConnectorProbe(
    connector: Option<Connector>,
    surfaceOk: bool,
    contextOk: bool)

  /** A resource snapshot: the connector ids (already probed) and the CRTC
      ids, both in the kernel's order. */
  datatype Snapshot = Snapshot(connectors: seq<ConnectorProbe>, crtcs: seq<uint32>)

  /** The set of elements of a sequence. */
  function Elems(s: seq<uint32>): set<uint32> {
    set x | x in s
  }
}
