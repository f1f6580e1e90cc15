/** A disk of 512-byte sectors addressed by logical block number. */
module BlockDevice {
  import opened Prelude

  function Zeros(n: nat): (s: seq<byte>)
    ensures |s| == n
    ensures forall i :: 0 <= i < n ==> s[i] == 0
  {
    seq(n, i => 0)
  }

  type Sector = s: seq<byte> | |s| == 512 witness Zeros(512)

  /** Sectors that cannot be read are absent. */
  type Disk = map<nat, Sector>

  /** `length` bytes from consecutive sectors. */
  function ReadFrom(disk: Disk, lba: nat, length: nat): Result<seq<byte>>
    decreases length
  {
    if length == 0 then Ok([])
    else if lba !in disk then Err
    else
      var take := Min(length, 512);
      var rest := ReadFrom(disk, lba + 1, length - take);
      if rest.Err? then Err else Ok(disk[lba][..take] + rest.value)
  }
}
