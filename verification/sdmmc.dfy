/** Abstract model of the sector interface of the SD/MMC driver (src/modules/sdmmc.h).

    The card is a flat sequence of 512-byte sectors together with the set of
    sector numbers on which I/O fails. Nothing below `sdmmc_writeSector` and
    `sdmmc_readSector` is modelled: the command framing, the handshake and the
    polling loops are replaced by the outcome they produce.
 */
module Sdmmc {

  /** A `char` of the firmware, as an unsigned byte. */
  newtype byte = x: int | 0 <= x < 0x100

  /** Every sector on the card holds exactly this many bytes. */
  const SectorSize: nat := 512

  /** Sector numbers are passed as `uint32_t`. */
  const SectorNumberLimit: nat := 0x1_0000_0000

  /** Byte counts are passed as `uint16_t`. */
  const ByteCountLimit: nat := 0x1_0000

  /** The `uint8_t` status codes, made explicit. */
  datatype Error = InitializationFailed | SectorIoFailed | PreconditionViolation

  datatype Result<+T> = Ok(value: T) | Err(error: Error)

  /** The medium: the contents of every sector and the sectors on which a
      read or a write does not complete. */
  datatype Card = Card(sectors: seq<seq<byte>>, faulty: set<nat>)

  /** Every sector is one sector long, and every sector number, including
      the one just past the last sector, fits in 32 bits. */
  predicate Valid(c: Card) {
    && |c.sectors| < SectorNumberLimit
    && forall i :: 0 <= i < |c.sectors| ==> |c.sectors[i]| == SectorSize
  }

  function Zeros(n: nat): (z: seq<byte>)
    ensures |z| == n
    ensures forall i :: 0 <= i < n ==> z[i] == 0
  {
    seq(n, _ => 0)
  }

  /** The sector image the card stores for `count` bytes of `input`: those
      bytes, then zero bytes up to the sector size. */
  function Pad(input: seq<byte>, count: nat): (sector: seq<byte>)
    requires count <= |input| && count <= SectorSize
    ensures |sector| == SectorSize
    ensures sector[..count] == input[..count]
    ensures forall i :: count <= i < SectorSize ==> sector[i] == 0
  {
    input[..count] + Zeros(SectorSize - count)
  }

  /** `sdmmc_writeSector(pSectorNum, pInput, pByteCount)`: replaces one whole
      sector by the first `count` bytes of `input`, zero-padded. The caller
      must supply `count` bytes, and `count` is a `uint16_t`. A sector number
      beyond the card or a byte count beyond one sector is refused; a faulty
      sector fails; in both cases the card is not altered (the write is
      atomic). */
  function WriteSector(c: Card, num: nat, input: seq<byte>, count: nat): (r: Result<Card>)
    requires Valid(c)
    requires count <= |input| && count < ByteCountLimit
    ensures r.Ok? <==> num < |c.sectors| && count <= SectorSize && num !in c.faulty
    ensures r.Err? ==> (r.error == SectorIoFailed <==> num < |c.sectors| && count <= SectorSize)
    ensures r.Err? ==> r.error != InitializationFailed
    ensures r.Ok? ==> Valid(r.value) && r.value.faulty == c.faulty
    ensures r.Ok? ==> |r.value.sectors| == |c.sectors|
    ensures r.Ok? ==> r.value.sectors[num][..count] == input[..count]
    ensures r.Ok? ==> forall i :: count <= i < SectorSize ==> r.value.sectors[num][i] == 0
    ensures r.Ok? ==> forall j :: 0 <= j < |c.sectors| && j != num ==> r.value.sectors[j] == c.sectors[j]
  {
    if num >= |c.sectors| || count > SectorSize then Err(PreconditionViolation)
    else if num in c.faulty then Err(SectorIoFailed)
    else Ok(c.(sectors := c.sectors[num := Pad(input, count)]))
  }

  /** `sdmmc_readSector(pSectorNum, pOutput, pByteCount)`: the first `count`
      bytes of one sector, under the same refusals and failures as a write. */
  function ReadSector(c: Card, num: nat, count: nat): (r: Result<seq<byte>>)
    requires Valid(c) && count < ByteCountLimit
    ensures r.Ok? <==> num < |c.sectors| && count <= SectorSize && num !in c.faulty
    ensures r.Err? ==> (r.error == SectorIoFailed <==> num < |c.sectors| && count <= SectorSize)
    ensures r.Ok? ==> |r.value| == count
    ensures r.Ok? ==> forall i :: 0 <= i < count ==> r.value[i] == c.sectors[num][i]
  {
    if num >= |c.sectors| || count > SectorSize then Err(PreconditionViolation)
    else if num in c.faulty then Err(SectorIoFailed)
    else Ok(c.sectors[num][..count])
  }

  /** Reading a sector back after a successful write yields exactly what was
      written, padded; every other sector reads as before. */
  lemma ReadAfterWrite(c: Card, num: nat, input: seq<byte>, count: nat, other: nat, n: nat)
    requires Valid(c)
    requires count <= |input| && count < ByteCountLimit && n < ByteCountLimit
    requires WriteSector(c, num, input, count).Ok?
    ensures ReadSector(WriteSector(c, num, input, count).value, num, SectorSize) == Ok(Pad(input, count))
    ensures other != num ==>
      ReadSector(WriteSector(c, num, input, count).value, other, n) == ReadSector(c, other, n)
  {
    var c' := WriteSector(c, num, input, count).value;
    assert c'.sectors[num][..SectorSize] == Pad(input, count);
  }
}
