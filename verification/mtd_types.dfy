/** What the MTD partition code keeps: ids, partitions, devices. */
module MtdTypes {
  const WORD: int := 0x1_0000_0000
  type u32 = x: int | 0 <= x < WORD

  /** u32 arithmetic, written out. */
  function Wrap(x: int): u32 { x % WORD }

  const SIZE_REMAINING: u32 := 0xFFFF_FFFF
  const OFFSET_NOT_SPECIFIED: u32 := 0xFFFF_FFFF
  const MIN_PART_SIZE: u32 := 4096

  /** A run of erase blocks of one size. */
  datatype Region = Region(offset: u32, eraseSize: u32, numBlocks: nat)

  /** What get_mtd_device_nm() answers for an id: no such device, one block
      size throughout, or a list of regions. */
  datatype Geometry = Absent | Uniform(eraseSize: u32) | Regions(regions: seq<Region>)

  datatype DevType = NOR | NAND | ONENAND

  datatype MtdId = MtdId(kind: DevType, num: nat, size: u32, name: string, geometry: Geometry)

  datatype Part = Part(size: u32, offset: u32, name: string, autoName: bool, readOnly: bool)

  datatype Device = Device(id: MtdId, parts: seq<Part>, numParts: nat)
}
