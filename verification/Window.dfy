/** Byte-window arithmetic shared by both ends of a stream (kernel/urp_window.h). */
module Window {
  import opened Base

  const BYTES_MIN: u64 := 0x1_0000
  const BYTES_MAX: u64 := 0x4000_0000
  const GRANT_DIVISOR := 4
  const TARGET_FRAMES := 8
  const REORDER_MIN_FRAME := 16
  const REORDER_MIN_ENTRIES := 256
  const REORDER_MAX_ENTRIES := 65536

  const TSTAMP_TRAILER_LEN := 8
  const BUFFER_SIZE_MIN := 68
  const BUFFER_SIZE_MAX := 0x10_0000

  function Clamp(v: int): u64 {
    if v < BYTES_MIN then BYTES_MIN else if v > BYTES_MAX then BYTES_MAX else v
  }

  /** The window a stream resolves; the bandwidth-delay product wraps as a u64 multiplication does. */
  function ForStream(sysctl: u64, bufSize: u32, numBufs: u32, linkMbps: u32, rttNs: u64): u64 {
    var bdp := linkMbps * rttNs % U64_MODULUS / 8000;
    Resolve(Max(sysctl, bdp), bufSize, numBufs / 2)
  }

  /** Raise a wish to the frame floor, clamp it, and cap it by the peer's receive pool. */
  function Resolve(wish: nat, bufSize: u32, recvBufs: u32): u64 {
    var w := Clamp(Max(wish, TARGET_FRAMES * bufSize));
    var pool := PoolBytes(recvBufs, bufSize);
    if w > pool then pool else w
  }

  function PoolBytes(bufs: nat, bufSize: nat): nat { bufs * bufSize }

  function HasRoom(sent: u64, acked: u64, window: u64, len: nat): bool {
    var inflight := (sent - acked) % U64_MODULUS;
    inflight == 0 || (inflight + len) % U64_MODULUS <= window
  }

  function GrantStep(window: u64): nat {
    if window / GRANT_DIVISOR == 0 then 1 else window / GRANT_DIVISOR
  }

  function ShouldGrant(delivered: u64, lastGranted: u64, window: u64): bool {
    (delivered - lastGranted) % U64_MODULUS >= GrantStep(window)
  }

  function ApplyGrant(acked: nat, granted: nat): nat { if granted > acked then granted else acked }

  function DepthForWindow(window: u64): nat {
    var d := window / REORDER_MIN_FRAME;
    if d < REORDER_MIN_ENTRIES then REORDER_MIN_ENTRIES
    else if d > REORDER_MAX_ENTRIES then REORDER_MAX_ENTRIES
    else d
  }

  /** The largest payload the sender reads for one frame. */
  function TxMaxPayload(bufSize: nat): nat
    requires bufSize >= BUFFER_SIZE_MIN
  {
    bufSize - FRAME_HDR - TSTAMP_TRAILER_LEN
  }

  /** The gate's condition once no counter is ahead of the other and nothing wraps. */
  lemma HasRoomExact(sent: u64, acked: u64, window: u64, len: nat)
    requires acked <= sent && sent - acked + len < U64_MODULUS
    ensures HasRoom(sent, acked, window, len) <==> sent == acked || sent - acked + len <= window
  {
  }

  /** At least a quarter of the window, rounded down, and at least one byte. */
  predicate Quarter(since: int, window: u64) { since >= 1 && 4 * (since + 1) > window }

  /** Without wrap, a grant is due once a quarter of the window has been delivered since the last one. */
  lemma ShouldGrantExact(delivered: u64, lastGranted: u64, window: u64)
    requires lastGranted <= delivered
    ensures ShouldGrant(delivered, lastGranted, window) <==> Quarter(delivered - lastGranted, window)
  {
    ModSmall(delivered - lastGranted);
  }

  /** The depth is one entry per 16 bytes of window, and at least 256 and at most 65536. */
  lemma DepthExact(window: u64)
    ensures var d := DepthForWindow(window);
            && 256 <= d <= 65536
            && (d < 65536 ==> 16 * (d + 1) > window) && (d > 256 ==> 16 * d <= window)
  {
  }

  /** A grant only ever raises the mark, and to no more than itself. */
  lemma ApplyGrantExact(acked: nat, granted: nat)
    ensures var a := ApplyGrant(acked, granted); a >= acked && a >= granted && (a == acked || a == granted)
  {
  }

  lemma ResolveExact(wish: nat, bufSize: u32, recvBufs: u32)
    ensures Resolve(wish, bufSize, recvBufs)
         == Min(PoolBytes(recvBufs, bufSize), Min(0x4000_0000, Max(0x1_0000, Max(wish, 8 * bufSize))))
  {
  }

  /**
   * What a stream's window is: the largest of the configured window, the
   * bandwidth-delay product, eight slots and 64 KiB, but never more than 1 GiB nor
   * than half the peer's buffers hold.
   */
  lemma ForStreamExact(sysctl: u64, bufSize: u32, numBufs: u32, linkMbps: u32, rttNs: u64)
    requires linkMbps * rttNs < U64_MODULUS
    ensures var bdp, pool := linkMbps * rttNs / 8000, numBufs / 2 * bufSize;
            ForStream(sysctl, bufSize, numBufs, linkMbps, rttNs)
            == Min(pool, Min(0x4000_0000, Max(0x1_0000, Max(sysctl, Max(bdp, 8 * bufSize)))))
  {
    ModSmall(linkMbps * rttNs);
    var bdp := linkMbps * rttNs / 8000;
    assert ForStream(sysctl, bufSize, numBufs, linkMbps, rttNs) == Resolve(Max(sysctl, bdp), bufSize, numBufs / 2);
    ResolveExact(Max(sysctl, bdp), bufSize, numBufs / 2);
  }

  /** A maximal payload, its 20-byte header and the 8-byte trailer fill the slot. */
  lemma TxMaxPayloadFills(bufSize: nat)
    requires bufSize >= 68
    ensures 20 + TxMaxPayload(bufSize) + 8 == bufSize
  {
  }

  // ---- consequences of the sizing rules ----------------------------------

  /**
   * Frames of at least m bytes that fill a window are at most as many as the
   * reorder depth exactly when this holds. See Transport for why it decides
   * whether a frame can be refused.
   */
  predicate DepthCovers(window: u64, m: nat) { (DepthForWindow(window) + 1) * m > window }

  /** The same when the frame the receiver waits for is in the window too. */
  predicate DepthCoversUnburned(window: u64, m: nat) { (DepthForWindow(window) + 2) * m > window }

  /** The coupling the header asks for: payloads of at least max(16, ceil(window / 65536)). */
  lemma CoupledDepthCovers(window: u64, m: nat)
    requires m >= REORDER_MIN_FRAME && m * REORDER_MAX_ENTRIES >= window
    ensures DepthCovers(window, m)
  {
  }

  /** After a full delivery the leftover below one grant step plus a maximal frame fits the window. */
  predicate StepLeavesRoom(window: u64, maxPayload: nat) {
    GrantStep(window) == 1 || GrantStep(window) - 1 + maxPayload <= window
  }

  lemma ResolveAdmitsTwoSlots(wish: nat, bufSize: u32, recvBufs: u32)
    requires BUFFER_SIZE_MIN <= bufSize <= BUFFER_SIZE_MAX
    requires recvBufs >= 2
    ensures Resolve(wish, bufSize, recvBufs) >= 2 * bufSize
  {
  }

  lemma ResolvedWindowLeavesRoom(sysctl: u64, bufSize: u32, numBufs: u32, linkMbps: u32, rttNs: u64)
    requires BUFFER_SIZE_MIN <= bufSize <= BUFFER_SIZE_MAX
    requires numBufs >= 4
    ensures StepLeavesRoom(ForStream(sysctl, bufSize, numBufs, linkMbps, rttNs), TxMaxPayload(bufSize))
  {
    var bdp := linkMbps * rttNs % U64_MODULUS / 8000;
    ResolveAdmitsTwoSlots(Max(sysctl, bdp), bufSize, numBufs / 2);
  }

  /**
   * The bound of four is needed: with three buffers, fewer than an endpoint ever
   * has, the pool is one slot and a large slot leaves no such room.
   */
  lemma TinyPoolLeavesNoRoom(sysctl: u64, linkMbps: u32, rttNs: u64)
    ensures !StepLeavesRoom(ForStream(sysctl, BUFFER_SIZE_MAX, 3, linkMbps, rttNs), TxMaxPayload(BUFFER_SIZE_MAX))
  {
  }
}
