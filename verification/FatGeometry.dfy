/** The layout that fat32_format computes for a volume and that fat32_mount computes again (fat32.c), in 32 bits. */
module FatGeometry {
  import opened Common
  import opened Sectors
  import FatChains

  const RESERVED := 32
  const FATS := 2
  const MIN_SECTORS := 66600
  const MIN_CLUSTERS := 65525
  const ENTRIES_PER_SECTOR := 128
  const GIGABYTE := 1024 * 1024 * 1024

  type ClusterSize = x: int | 0 < x < 256 witness 1

  /** Sectors of one table, first data sector relative to the partition, number of clusters. */
  datatype Layout = Layout(fatSize: word, begin: word, clusters: word)

  function Add32(x: word, y: word): word {
    if x + y < WORD_LIMIT then x + y else x + y - WORD_LIMIT
  }

  function Sub32(x: word, y: word): word {
    if x >= y then x - y else x - y + WORD_LIMIT
  }

  function Mul32(x: word, y: word): word {
    x * y % WORD_LIMIT
  }

  /** Integer division, by counting. */
  function Div(x: nat, d: nat): (q: nat)
    requires d > 0
    ensures q * d <= x < q * d + d
  {
    if x < d then 0 else 1 + Div(x - d, d)
  }

  /** The quotient is the only number with this property. */
  lemma DivIs(x: nat, d: nat, q: nat)
    requires d > 0 && q * d <= x < q * d + d
    ensures Div(x, d) == q
  {
    var p := Div(x, d);
    Times(p + 1, if p < q then q else p + 1, d);
    Times(q + 1, if q < p then p else q + 1, d);
  }

  lemma Times(x: nat, y: nat, d: nat)
    requires x <= y
    ensures x * d <= y * d && (x + 1) * d == x * d + d
  {
  }

  lemma Scaled(q: nat, x: nat, y: nat)
    requires x <= y
    ensures q * x <= q * y
  {
  }

  /** Clusters get larger only where there would be more than two million of them. */
  function PickSize(total: word): (spc: ClusterSize)
    ensures spc == 8 || spc == 16 || spc == 32 || spc == 64
    ensures total <= 0x20_0000 * spc || spc == 64
    ensures spc > 8 ==> total > 0x10_0000 * spc
  {
    var bytes := total * SECTOR_SIZE;
    if bytes <= 8 * GIGABYTE then 8
    else if bytes <= 16 * GIGABYTE then 16
    else if bytes <= 32 * GIGABYTE then 32
    else 64
  }

  /** How many sectors of data one sector of each table serves. */
  function Divisor(spc: ClusterSize): (d: nat)
    ensures d == 128 * spc + 1
  {
    (256 * spc + FATS) / 2
  }

  function FatSize(total: word, spc: ClusterSize): (r: word)
    requires total >= MIN_SECTORS
    ensures r * 129 < WORD_LIMIT
  {
    var q := Div(Add32(total - RESERVED, Divisor(spc) - 1), Divisor(spc));
    Scaled(q, 129, Divisor(spc));
    q
  }

  function Clusters(sectors: word, spc: ClusterSize): (r: word)
    ensures r * spc <= sectors < r * spc + spc
  {
    var q := Div(sectors, spc);
    Scaled(q, 1, spc);
    q
  }

  /** The checks of fat32_format before its first write, with the layout if they pass. */
  function Format(total: word, spc: ClusterSize): Option<Layout> {
    if total < MIN_SECTORS then None
    else
      var fat := FatSize(total, spc);
      var begin := RESERVED + FATS * fat;
      if begin >= total then None
      else
        var clusters := Clusters(total - begin, spc);
        if clusters < MIN_CLUSTERS then None else Some(Layout(fat, begin, clusters))
  }

  /** The sum in the rounding division does not wrap around. */
  predicate NoWrap(total: word, spc: ClusterSize) {
    total - RESERVED + Divisor(spc) - 1 < WORD_LIMIT
  }

  /** Enough table sectors for the data sectors leave two entries to spare. */
  lemma RoomForTwo(fat: nat, spc: ClusterSize, clusters: nat)
    requires clusters * spc + 2 * fat <= fat * (128 * spc + 1) && clusters >= MIN_CLUSTERS
    ensures clusters + 2 <= 128 * fat
  {
    var n := 128 * fat;
    assert fat * (128 * spc + 1) == n * spc + fat;
    if clusters >= n {
      Times(n, clusters, spc);
    } else {
      Times(clusters, n - 1, spc);
      assert (n - 1) * spc == n * spc - spc;
    }
  }

  /**
   The table computed for a volume that passes the checks has an entry for every cluster, and for the two reserved
   numbers, exactly if the sum in the rounding division does not wrap around; when it wraps, the table has no sector.
   */
  lemma TableHoldsAll(total: word, spc: ClusterSize)
    requires Format(total, spc).Some?
    ensures
      var l := Format(total, spc).value;
      ENTRIES_PER_SECTOR * l.fatSize >= l.clusters + 2 <==> NoWrap(total, spc)
    ensures !NoWrap(total, spc) ==> Format(total, spc).value.fatSize == 0
  {
    var l := Format(total, spc).value;
    var x, d := total - RESERVED, Divisor(spc);
    if NoWrap(total, spc) {
      assert Add32(x, d - 1) == x + d - 1;
      RoomForTwo(l.fatSize, spc, l.clusters);
    } else {
      assert Add32(x, d - 1) == x + d - 1 - WORD_LIMIT < d;
      DivIs(Add32(x, d - 1), d, 0);
    }
  }

  /** With the cluster size left to the formatter, no volume has more clusters than 28-bit entries can name. */
  lemma PickedSizeIsAddressable(total: word)
    requires Format(total, PickSize(total)).Some?
    ensures Format(total, PickSize(total)).value.clusters + 2 <= FatChains.EOC
  {
    var l, spc := Format(total, PickSize(total)).value, PickSize(total);
    assert l.clusters * spc <= total;
  }

  // ---- where things lie, relative to the partition ----

  /** The sector of the entry of `cluster` in copy `f` of the table. */
  function EntrySector(l: Layout, f: nat, cluster: nat): nat {
    RESERVED + f * l.fatSize + 4 * cluster / SECTOR_SIZE
  }

  /** Sector `s` of a cluster. */
  function DataSector(l: Layout, spc: ClusterSize, cluster: nat, s: nat): int {
    l.begin + (cluster - 2) * spc + s
  }

  lemma EntryFits(l: Layout, f: nat, cluster: nat)
    requires f < FATS && cluster < ENTRIES_PER_SECTOR * l.fatSize && l.begin == RESERVED + FATS * l.fatSize
    ensures RESERVED + f * l.fatSize <= EntrySector(l, f, cluster) < RESERVED + (f + 1) * l.fatSize <= l.begin
  {
    assert 4 * cluster / SECTOR_SIZE < l.fatSize;
    assert f == 0 || f == 1;
  }

  lemma DataFits(l: Layout, spc: ClusterSize, cluster: nat, s: nat, total: nat)
    requires s < spc && 2 <= cluster < l.clusters + 2 && l.begin + l.clusters * spc <= total
    ensures l.begin <= DataSector(l, spc, cluster, s) < total
  {
    Times(cluster - 2, cluster - 2, spc);
    Times(cluster - 1, l.clusters, spc);
  }

  /** The reserved sectors, the two tables and the clusters follow each other and end within the volume. */
  lemma RegionsFit(total: word, spc: ClusterSize, cluster: nat, f: nat, s: nat)
    requires Format(total, spc).Some? && NoWrap(total, spc) && f < FATS && s < spc
    requires 2 <= cluster < Format(total, spc).value.clusters + 2
    ensures
      var l := Format(total, spc).value;
      && RESERVED + f * l.fatSize <= EntrySector(l, f, cluster) < RESERVED + (f + 1) * l.fatSize <= l.begin
      && l.begin <= DataSector(l, spc, cluster, s) < total
  {
    var l := Format(total, spc).value;
    TableHoldsAll(total, spc);
    EntryFits(l, f, cluster);
    DataFits(l, spc, cluster, s, total);
  }

  /** No two entries of the tables share a place. */
  lemma EntryPlacesDistinct(l: Layout, f: nat, c: nat, f': nat, c': nat)
    requires f < FATS && f' < FATS && c < ENTRIES_PER_SECTOR * l.fatSize && c' < ENTRIES_PER_SECTOR * l.fatSize
    requires l.begin == RESERVED + FATS * l.fatSize && EntrySector(l, f, c) == EntrySector(l, f', c')
    requires 4 * c % SECTOR_SIZE == 4 * c' % SECTOR_SIZE
    ensures f == f' && c == c'
  {
    EntryFits(l, f, c);
    EntryFits(l, f', c');
  }

  /** No two clusters share a sector. */
  lemma DataSectorsDistinct(l: Layout, spc: ClusterSize, c: nat, s: nat, c': nat, s': nat)
    requires 2 <= c && 2 <= c' && s < spc && s' < spc && DataSector(l, spc, c, s) == DataSector(l, spc, c', s')
    ensures c == c' && s == s'
  {
    if c < c' {
      Times(c - 1, c' - 2, spc);
    } else if c' < c {
      Times(c' - 1, c - 2, spc);
    }
  }

  // ---- fat32_mount ----

  /** What the mount reads in the boot sector. */
  datatype Boot = Boot(sectorSize: word, reserved: word, fats: word, fatSize: word, total: word, spc: ClusterSize,
                       signed: bool)

  /** First data sector and number of clusters, as the mount computes them; it refuses a table without sectors. */
  function Mount(partition: word, b: Boot): Option<(word, word)> {
    if b.sectorSize != SECTOR_SIZE || b.fatSize == 0 || !b.signed then None
    else
      var clusterBegin := Add32(Add32(partition, b.reserved), Mul32(b.fats, b.fatSize));
      var dataSectors := Sub32(b.total, Sub32(clusterBegin, partition));
      Some((clusterBegin, Clusters(dataSectors, b.spc)))
  }

  /** The boot sector that fat32_format writes. */
  function BootOf(l: Layout, total: word, spc: ClusterSize): Boot {
    Boot(SECTOR_SIZE, RESERVED, FATS, l.fatSize, total, spc, true)
  }

  /** A mount of a fresh volume computes the layout again, wherever on the disk it starts, or finds no table. */
  lemma MountAgrees(partition: word, total: word, spc: ClusterSize)
    requires Format(total, spc).Some?
    ensures
      var l := Format(total, spc).value;
      Mount(partition, BootOf(l, total, spc)) ==
        if NoWrap(total, spc) then Some((Add32(partition, l.begin), l.clusters)) else None
  {
    var l := Format(total, spc).value;
    TableHoldsAll(total, spc);
    var b := Add32(Add32(partition, RESERVED), FATS * l.fatSize);
    assert Mul32(FATS, l.fatSize) == FATS * l.fatSize;
    assert b == Add32(partition, l.begin) && Sub32(b, partition) == l.begin;
  }

  // ---- the whole of fat32_format ----

  /** The cluster size that is used; 0 leaves it to the formatter. */
  function Chosen(total: word, spc: byte): ClusterSize {
    if spc == 0 then PickSize(total) else spc
  }

  /** The sectors that are written, relative to the partition: boot and information sectors, tables, root cluster. */
  predicate Written(l: Layout, spc: ClusterSize, k: nat) {
    || k == 0 || k == 1 || k == 6 || k == 7
    || RESERVED <= k < RESERVED + FATS * l.fatSize || k == RESERVED || k == RESERVED + l.fatSize
    || l.begin <= k < l.begin + spc
  }

  /** A disk of 2^32 sectors. */
  type Disk = s: seq<Sector> | |s| == WORD_LIMIT witness seq<Sector>(WORD_LIMIT, _ => ZeroSector())

  /** Sector `k` of the partition, around the end of the disk. */
  function Rel(disk: Disk, partition: word, k: word): Sector
  {
    disk[Add32(partition, k)]
  }

  method WriteAt(disk: Disk, partition: word, k: word, s: Sector) returns (disk': Disk)
    ensures forall j: word :: Rel(disk', partition, j) == if j == k then s else Rel(disk, partition, j)
  {
    disk' := disk[Add32(partition, k) := s];
  }

  /** The first sector of a table: the media entry, the second one, and the end of the root directory. */
  function FirstEntries(): (s: Sector)
    ensures LoadPtrs(s)[..3] == [0x0FFF_FFF8, 0x0FFF_FFFF, 0x0FFF_FFFF]
    ensures forall i :: 3 <= i < 128 ==> LoadPtrs(s)[i] == 0
  {
    var ptrs := [0x0FFF_FFF8, 0x0FFF_FFFF, 0x0FFF_FFFF] + seq<word>(125, _ => 0);
    PtrsRoundTrip(ptrs);
    StorePtrs(ptrs)
  }

  /** What a sector of the partition holds after a format, when it held `was`. */
  ghost function Formatted(l: Layout, spc: ClusterSize, boot: Sector, info: Sector, k: word, was: Sector): Sector {
    if k == 0 || k == 6 then boot
    else if k == 1 || k == 7 then info
    else if l.begin <= k < l.begin + spc then ZeroSector()
    else if k == RESERVED || k == RESERVED + l.fatSize then FirstEntries()
    else if RESERVED <= k < l.begin then ZeroSector()
    else was
  }

  /** The writes of fat32_format in their order; `boot` and `info` are the sectors that it has made up. */
  method WriteVolume(disk0: Disk, partition: word, total: word, spc: ClusterSize, boot: Sector, info: Sector)
    returns (disk: Disk)
    requires Format(total, spc).Some?
    ensures
      var l := Format(total, spc).value;
      forall k: word :: Rel(disk, partition, k) == Formatted(l, spc, boot, info, k, Rel(disk0, partition, k))
  {
    var l := Format(total, spc).value;
    Times(1, l.clusters, spc);
    disk := WriteAt(disk0, partition, 0, boot);
    disk := WriteAt(disk, partition, 6, boot);
    disk := WriteAt(disk, partition, 1, info);
    disk := WriteAt(disk, partition, 7, info);
    disk := ZeroSectors(disk, partition, RESERVED, l.fatSize);
    disk := ZeroSectors(disk, partition, RESERVED + l.fatSize, l.fatSize);
    disk := WriteAt(disk, partition, RESERVED, FirstEntries());
    disk := WriteAt(disk, partition, RESERVED + l.fatSize, FirstEntries());
    disk := ZeroSectors(disk, partition, l.begin, spc);
  }

  method ZeroSectors(disk0: Disk, partition: word, from: word, n: word) returns (disk: Disk)
    requires from + n <= WORD_LIMIT
    ensures forall k: word ::
      Rel(disk, partition, k) == if from <= k < from + n then ZeroSector() else Rel(disk0, partition, k)
  {
    disk := disk0;
    for i := 0 to n
      invariant forall k: word ::
        Rel(disk, partition, k) == if from <= k < from + i then ZeroSector() else Rel(disk0, partition, k)
    {
      disk := WriteAt(disk, partition, from + i, ZeroSector());
    }
  }

  /** Only the sectors that are counted as written change, and the boot sector is still there at the end. */
  lemma OnlyWritten(total: word, spc: ClusterSize, boot: Sector, info: Sector, k: word, was: Sector)
    requires Format(total, spc).Some?
    ensures
      var l := Format(total, spc).value;
      && (!Written(l, spc, k) ==> Formatted(l, spc, boot, info, k, was) == was)
      && (k >= total ==> Formatted(l, spc, boot, info, k, was) == was)
      && Formatted(l, spc, boot, info, 0, was) == boot
  {
    var l := Format(total, spc).value;
    Times(1, l.clusters, spc);
  }

  /** What a call returns, 0 or -1, and whether it wrote anything. */
  datatype Outcome = Outcome(r: int, touched: bool)

  /** The checks, the writes, and the mount of what was written. */
  function FormatCall(partition: word, total: word, spc: byte): Outcome {
    var size := Chosen(total, spc);
    match Format(total, size)
    case None => Outcome(-1, false)
    case Some(l) => Outcome(if Mount(partition, BootOf(l, total, size)).Some? then 0 else -1, true)
  }

  /**
   The mount reads the boot sector that the format wrote: no later write reaches it, even around the end of the disk.
   */
  lemma BootSectorSurvives(partition: word, total: word, spc: ClusterSize, k: nat)
    requires Format(total, spc).Some? && Written(Format(total, spc).value, spc, k)
    ensures k < total && (Add32(partition, k) == partition <==> k == 0)
  {
    var l := Format(total, spc).value;
    Times(1, l.clusters, spc);
  }

  /**
   A volume is reported as formatted exactly if it passes the checks and the sum in the rounding division does not wrap
   around. A size that wraps is refused only after sectors have been overwritten.
   */
  lemma FormatReturns(partition: word, total: word, spc: byte)
    ensures
      var size := Chosen(total, spc);
      && (FormatCall(partition, total, spc).r == 0 <==> Format(total, size).Some? && NoWrap(total, size))
      && (FormatCall(partition, total, spc) == Outcome(-1, true) <==> Format(total, size).Some? && !NoWrap(total, size))
      && (FormatCall(partition, total, spc) == Outcome(-1, false) <==> Format(total, size).None?)
  {
    var size := Chosen(total, spc);
    if Format(total, size).Some? {
      MountAgrees(partition, total, size);
    }
  }

  const LEAST := 525258
  const FIRST_TO_WRAP := 0xFFFF_E020

  /** With the cluster size left to the formatter, exactly the sizes between these two are formatted. */
  lemma DefaultFormats(partition: word, total: word)
    ensures FormatCall(partition, total, 0).r == 0 <==> LEAST <= total < FIRST_TO_WRAP
  {
    FormatReturns(partition, total, 0);
    if total >= MIN_SECTORS {
      var spc := PickSize(total);
      var x, d, fat := total - RESERVED, Divisor(spc), FatSize(total, spc);
      assert NoWrap(total, spc) <==> total < FIRST_TO_WRAP;
      if NoWrap(total, spc) {
        assert fat * d <= x + d - 1 < fat * d + d;
        Divided(total, spc, fat);
      }
    }
  }

  /** With clusters of one sector, exactly the sizes from the least one to 96 below 2^32 are formatted. */
  lemma OneSectorFormats(partition: word, total: word)
    ensures FormatCall(partition, total, 1).r == 0 <==> MIN_SECTORS <= total < 0xFFFF_FFA0
  {
    FormatReturns(partition, total, 1);
    if total >= MIN_SECTORS && NoWrap(total, 1) {
      var fat := FatSize(total, 1);
      assert fat * 129 <= total - 32 + 128;
      var begin := RESERVED + FATS * fat;
      EnoughClusters(total - begin, 1, Clusters(total - begin, 1));
    }
  }

  /** When a volume is large enough for its tables and the least number of clusters. */
  lemma Divided(total: word, spc: ClusterSize, fat: nat)
    requires total >= MIN_SECTORS && spc == PickSize(total) && fat == FatSize(total, spc)
    requires fat * Divisor(spc) <= total - RESERVED + Divisor(spc) - 1 < fat * Divisor(spc) + Divisor(spc)
    ensures Format(total, spc).Some? <==> LEAST <= total
  {
    var begin := RESERVED + FATS * fat;
    if spc == 8 {
      assert fat * 1025 <= total - 32 + 1024 < fat * 1025 + 1025;
    } else {
      Scaled(fat, 2049, Divisor(spc));
      assert fat * 2049 <= total + 8192;
    }
    if begin < total {
      var clusters := Clusters(total - begin, spc);
      EnoughClusters(total - begin, spc, clusters);
    }
  }

  lemma EnoughClusters(sectors: nat, spc: ClusterSize, clusters: nat)
    requires clusters * spc <= sectors < clusters * spc + spc
    ensures clusters >= MIN_CLUSTERS <==> sectors >= MIN_CLUSTERS * spc
  {
    if clusters >= MIN_CLUSTERS {
      Times(MIN_CLUSTERS, clusters, spc);
    } else {
      Times(clusters + 1, MIN_CLUSTERS, spc);
      Times(clusters, clusters, spc);
    }
  }

  /** Every volume that is reported as formatted has a table entry for every cluster. */
  lemma FormattedTableHoldsAll(partition: word, total: word, spc: byte)
    requires FormatCall(partition, total, spc).r == 0
    ensures
      var l := Format(total, Chosen(total, spc)).value;
      l.clusters + 2 <= ENTRIES_PER_SECTOR * l.fatSize
  {
    FormatReturns(partition, total, spc);
    TableHoldsAll(total, Chosen(total, spc));
  }

  /** A size that passes all checks, overwrites the start of the partition and is refused in the end. */
  lemma LargestVolumeIsRefusedLate(partition: word)
    ensures FormatCall(partition, 0xFFFF_FFFF, 1) == Outcome(-1, true)
  {
    DivIs(Add32(0xFFFF_FFDF, 128), 129, 0);
    DivIs(0xFFFF_FFDF, 1, 0xFFFF_FFDF);
    FormatReturns(partition, 0xFFFF_FFFF, 1);
  }

  // ---- 28-bit cluster numbers ----

  /** Every cluster number is below the end mark of chains. */
  predicate Addressable(total: word, spc: ClusterSize) {
    Format(total, spc).Some? ==> Format(total, spc).value.clusters + 2 <= FatChains.EOC
  }

  /** Tables take so much of a volume that clusters of sixteen sectors are few enough. */
  lemma LargeClustersAreFew(total: word, spc: ClusterSize)
    requires 16 <= spc && NoWrap(total, spc)
    ensures Addressable(total, spc)
  {
    if Format(total, spc).Some? {
      var l := Format(total, spc).value;
      TableHoldsAll(total, spc);
      Scaled(l.clusters, 16, spc);
      assert 16 * l.clusters + 2 * l.fatSize < total;
    }
  }

  const NEARLY_ALL := 0xFFFF_0000

  /** A volume of nearly 2^32 sectors is formatted with smaller clusters and has too many of them. */
  lemma SmallClustersAreTooMany(partition: word, spc: ClusterSize)
    requires spc < 16
    ensures FormatCall(partition, NEARLY_ALL, spc).r == 0 && !Addressable(NEARLY_ALL, spc)
  {
    var fat := FatSize(NEARLY_ALL, spc);
    var sectors := NEARLY_ALL - RESERVED - FATS * fat;
    var clusters := Clusters(sectors, spc);
    Scaled(clusters + 1, spc, 15);
    assert clusters * spc + spc == (clusters + 1) * spc;
    FormatReturns(partition, NEARLY_ALL, spc);
  }

  /** All volumes formatted with a given cluster size are addressable exactly from sixteen sectors on. */
  lemma AddressableExactly(partition: word, spc: ClusterSize)
    ensures 16 <= spc <==> forall total: word :: FormatCall(partition, total, spc).r == 0 ==> Addressable(total, spc)
  {
    if 16 <= spc {
      forall total: word | FormatCall(partition, total, spc).r == 0
        ensures Addressable(total, spc)
      {
        FormatReturns(partition, total, spc);
        LargeClustersAreFew(total, spc);
      }
    } else {
      SmallClustersAreTooMany(partition, spc);
    }
  }
}
