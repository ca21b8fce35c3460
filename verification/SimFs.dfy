/** A simulated file: writes are buffered until sync; a crash drops the buffer, except for a
    prefix of any length that may already have reached the disk. */
module SimFs {

  type Byte = bv8

  /** The bytes of a file, durable and buffered. */
  datatype Disk = Disk(synced: seq<Byte>, buffered: seq<Byte>)

  function Prefix(bytes: seq<Byte>, n: nat): seq<Byte> {
    if n <= |bytes| then bytes[..n] else bytes
  }

  class SimFile {
    var synced: seq<Byte>
    var buffered: seq<Byte>
    var syncs: nat
    var crashes: nat

    function View(): Disk
      reads this
    {
      Disk(synced, buffered)
    }

    constructor ()
      ensures View() == Disk([], []) && syncs == 0 && crashes == 0
    {
      synced, buffered, syncs, crashes := [], [], 0, 0;
    }

    method Append(bytes: seq<Byte>)
      modifies this
      ensures View() == Disk(old(synced), old(buffered) + bytes)
      ensures syncs == old(syncs) && crashes == old(crashes)
    {
      buffered := buffered + bytes;
    }

    method Sync()
      modifies this
      ensures View() == Disk(old(synced) + old(buffered), [])
      ensures syncs == old(syncs) + 1 && crashes == old(crashes)
    {
      synced := synced + buffered;
      buffered := [];
      syncs := syncs + 1;
    }

    /** `torn` stands for the random draws: how many buffered bytes survive, zero if the coin
        came up tails. */
    method Crash(torn: nat)
      modifies this
      ensures View() == Disk(old(synced) + Prefix(old(buffered), torn), [])
      ensures crashes == old(crashes) + 1 && syncs == old(syncs)
    {
      crashes := crashes + 1;
      if buffered != [] && torn > 0 {
        synced := synced + Prefix(buffered, torn);
      }
      buffered := [];
    }

    method Truncate(len: nat)
      modifies this
      ensures View() == Disk(Prefix(old(synced), len), old(buffered))
      ensures syncs == old(syncs) && crashes == old(crashes)
    {
      if len < |synced| {
        synced := synced[..len];
      }
    }
  }
}
