/**
 The file allocation table (fs/fat/fat.c, FatAccess): 12, 16 or 28-bit entries packed into the
 bytes of the table's sectors, with backup copies of the whole table.
 */
module FatTable {
  import opened Bytes
  import opened Grid

  type Sector = seq<byte>
  type Disk = seq<Sector>

  datatype FatType = Fat12 | Fat16 | Fat32 {
    /** Entry values are stored modulo this number. */
    function Radix(): (r: nat) {
      match this case Fat12 => 0x1000 case Fat16 => 0x1_0000 case Fat32 => 0x1000_0000
    }

    /** The number of bytes an access touches. */
    function Width(): (w: nat) {
      if Fat32? then 4 else 2
    }

    /** Byte offset of entry `c` in the table. */
    function First(c: nat): (k: nat) {
      match this case Fat12 => c * 3 / 2 case Fat16 => c * 2 case Fat32 => c * 4
    }

    /** The value of entry `c`, put together from its bytes. */
    function Decode(c: nat, b: seq<byte>): (v: nat)
      requires |b| == Width()
      ensures v < Radix()
    {
      var p: int := b[0];
      var q: int := b[1];
      match this
      case Fat12 => if c % 2 == 1 then (p / 16 + q * 16) % 0x1000 else (p + q * 256) % 0x1000
      case Fat16 => p + q * 0x100
      case Fat32 => (p + q * 0x100 + b[2] as int * 0x1_0000 + b[3] as int * 0x100_0000) % 0x1000_0000
    }

    /** The bytes that replace `b` when entry `c` is set to `v`. A 12-bit entry keeps the half
        byte that belongs to its neighbour. */
    function Encode(c: nat, b: seq<byte>, v: nat): (r: seq<byte>)
      requires |b| == Width() && v < Radix()
      ensures |r| == Width()
    {
      var p: int := b[0];
      var q: int := b[1];
      match this
      case Fat12 => if c % 2 == 1 then [p % 16 + v % 16 * 16, v / 16] else [v % 256, q / 16 * 16 + v / 256]
      case Fat16 => [v % 0x100, v / 0x100]
      case Fat32 => [v % 0x100, v / 0x100 % 0x100, v / 0x1_0000 % 0x100, v / 0x100_0000]
    }
  }

  /** FatSbInfo, filled in at mount, with the sector size. */
  datatype Geometry = Geometry(
    fatType: FatType, bytesPerSec: nat, fatStart: nat, fatLength: nat, numFats: nat,
    rootDirStart: nat, rootDirLength: nat, firstDataSector: nat, totalDataSectors: nat, secsPerClus: nat)
  {
    function Radix(): (r: nat) { fatType.Radix() }
    function Width(): (w: nat) { fatType.Width() }
    function First(c: nat): (k: nat) { fatType.First(c) }

    /** Values from here on end a chain. */
    function InvalidCluster(): (r: nat) {
      match fatType case Fat12 => 0xFF8 case Fat16 => 0xFFF8 case Fat32 => 0x0FFF_FFF8
    }

    /** The table region as the mount code lays it out, with room for an entry for every
        cluster number that FatAccess lets through. */
    ghost predicate Valid() {
      && (bytesPerSec == 512 || bytesPerSec == 1024 || bytesPerSec == 2048 || bytesPerSec == 4096)
      && 0 < fatLength && 0 < numFats
      && CopyStart(numFats) <= firstDataSector
      && Row(bytesPerSec, First(totalDataSectors) + Width() - 1) < fatLength
    }

    /** The first sector of copy `i`: fatStart + fatLength * i. */
    function CopyStart(i: nat): (j: nat) {
      fatStart + At(fatLength, i, 0)
    }

    ghost predicate Fits(disk: Disk) {
      && firstDataSector + totalDataSectors <= |disk|
      && forall j :: 0 <= j < |disk| ==> |disk[j]| == bytesPerSec
    }

    /** Which copy of the table sector `j` is in, and which sector of that copy it is. */
    function CopyOf(j: nat): (i: nat)
      requires 0 < fatLength && fatStart <= j
    {
      Row(fatLength, j - fatStart)
    }

    function TableSector(j: nat): (s: nat)
      requires 0 < fatLength && fatStart <= j
      ensures s < fatLength
    {
      Col(fatLength, j - fatStart)
    }

    /** Is sector `j` part of some copy of the table? */
    predicate InTables(j: nat)
      requires 0 < fatLength
    {
      fatStart <= j && CopyOf(j) < numFats
    }
  }

  /** Sector `s` of copy `i` is on the device, and it is the only sector with these coordinates. */
  lemma CopySector(geo: Geometry, i: nat, s: nat, j: nat)
    requires geo.Valid() && s < geo.fatLength && geo.fatStart <= j
    ensures j == geo.CopyStart(i) + s <==> geo.CopyOf(j) == i && geo.TableSector(j) == s
    ensures i < geo.numFats ==> geo.CopyStart(i) + s < geo.firstDataSector
  {
    AtAdd(geo.fatLength, i, 0, s);
    RowColAt(geo.fatLength, i, s);
    AtRowCol(geo.fatLength, j - geo.fatStart);
    if i < geo.numFats { AtMono(geo.fatLength, i, geo.numFats, 0); }
  }

  /** Table sector `s` of the first copy. */
  lemma FirstCopy(geo: Geometry, s: nat)
    requires geo.Valid() && s < geo.fatLength
    ensures geo.InTables(geo.fatStart + s) && geo.TableSector(geo.fatStart + s) == s
    ensures geo.CopyOf(geo.fatStart + s) == 0
    ensures geo.fatStart + s < geo.firstDataSector
  {
    CopySector(geo, 0, s, geo.fatStart + s);
  }

  /** Byte `k` of the first table. */
  function TableByte(geo: Geometry, disk: Disk, k: nat): (b: byte)
    requires geo.Valid() && geo.Fits(disk) && Row(geo.bytesPerSec, k) < geo.fatLength
  {
    FirstCopy(geo, Row(geo.bytesPerSec, k));
    disk[geo.fatStart + Row(geo.bytesPerSec, k)][Col(geo.bytesPerSec, k)]
  }

  lemma EntryInTable(geo: Geometry, c: nat, i: nat)
    requires geo.Valid() && c <= geo.totalDataSectors && i < geo.Width()
    ensures Row(geo.bytesPerSec, geo.First(c) + i) < geo.fatLength
  {
    RowMono(geo.bytesPerSec, geo.First(c) + i, geo.First(geo.totalDataSectors) + geo.Width() - 1);
  }

  /** The bytes that entry `c` is read from. */
  function EntryBytes(geo: Geometry, disk: Disk, c: nat): (b: seq<byte>)
    requires geo.Valid() && geo.Fits(disk) && c <= geo.totalDataSectors
    ensures |b| == geo.Width()
  {
    seq<byte>(geo.Width(), i requires 0 <= i < geo.Width() =>
      EntryInTable(geo, c, i); TableByte(geo, disk, geo.First(c) + i))
  }

  /** The value of entry `c`. */
  function Entry(geo: Geometry, disk: Disk, c: nat): (v: nat)
    requires geo.Valid() && geo.Fits(disk) && c <= geo.totalDataSectors
    ensures v < geo.Radix()
  {
    geo.fatType.Decode(c, EntryBytes(geo, disk, c))
  }

  /** Bytes k .. k + n - 1 of the first table, which starts at sector fatStart. */
  function TableBytes(geo: Geometry, disk: Disk, k: nat, n: nat): (b: seq<byte>)
    requires geo.Valid() && geo.Fits(disk) && (n > 0 ==> Row(geo.bytesPerSec, k + n - 1) < geo.fatLength)
    ensures |b| == n
  {
    seq<byte>(n, i requires 0 <= i < n =>
      RowMono(geo.bytesPerSec, k + i, k + n - 1); TableByte(geo, disk, k + i))
  }

  /** A byte of the table by the kernel's arithmetic. */
  lemma TableByteIs(geo: Geometry, disk: Disk, k: nat)
    requires geo.Valid() && geo.Fits(disk) && Row(geo.bytesPerSec, k) < geo.fatLength
    ensures var s, o := geo.fatStart + k / geo.bytesPerSec, k % geo.bytesPerSec;
      0 <= o < geo.bytesPerSec && s < |disk| && TableByte(geo, disk, k) == disk[s][o]
  {
    GridIsDivMod(geo.bytesPerSec, k);
    FirstCopy(geo, Row(geo.bytesPerSec, k));
  }

  /** A 16-bit entry is the little-endian word at twice its number. */
  lemma Entry16(geo: Geometry, disk: Disk, c: nat)
    requires geo.Valid() && geo.Fits(disk) && c <= geo.totalDataSectors && geo.fatType.Fat16?
    ensures Row(geo.bytesPerSec, 2 * c + 1) < geo.fatLength
    ensures Entry(geo, disk, c) == LittleEndian(TableBytes(geo, disk, 2 * c, 2))
  {
    EntryInTable(geo, c, 1);
    var b := TableBytes(geo, disk, 2 * c, 2);
    assert EntryBytes(geo, disk, c) == b;
    assert b[0..2] == b;
    Le16IsNumber(b, 0);
  }

  /** A 28-bit entry is the low part of the little-endian DWORD at four times its number. */
  lemma Entry32(geo: Geometry, disk: Disk, c: nat)
    requires geo.Valid() && geo.Fits(disk) && c <= geo.totalDataSectors && geo.fatType.Fat32?
    ensures Row(geo.bytesPerSec, 4 * c + 3) < geo.fatLength
    ensures Entry(geo, disk, c) == LittleEndian(TableBytes(geo, disk, 4 * c, 4)) % 0x1000_0000
  {
    EntryInTable(geo, c, 3);
    var b := TableBytes(geo, disk, 4 * c, 4);
    assert EntryBytes(geo, disk, c) == b;
    assert b[0..4] == b;
    Le32IsNumber(b, 0);
  }

  /** Two 12-bit entries share three bytes: the even one is the low half of the 24-bit little-endian
      number there and the odd one the high half. */
  lemma Entry12(geo: Geometry, disk: Disk, c: nat)
    requires geo.Valid() && geo.Fits(disk) && geo.fatType.Fat12? && c % 2 == 0 && c + 1 <= geo.totalDataSectors
    ensures Row(geo.bytesPerSec, c / 2 * 3 + 2) < geo.fatLength
    ensures Entry(geo, disk, c) + 0x1000 * Entry(geo, disk, c + 1)
         == LittleEndian(TableBytes(geo, disk, c / 2 * 3, 3))
  {
    hide Row, Col, TableByte, LittleEndian;
    Bytes12(geo, disk, c);
    Decode12(c, TableBytes(geo, disk, c / 2 * 3, 3));
  }

  lemma Bytes12(geo: Geometry, disk: Disk, c: nat)
    requires geo.Valid() && geo.Fits(disk) && geo.fatType.Fat12? && c % 2 == 0 && c + 1 <= geo.totalDataSectors
    ensures Row(geo.bytesPerSec, c / 2 * 3 + 2) < geo.fatLength
    ensures var b := TableBytes(geo, disk, c / 2 * 3, 3);
      EntryBytes(geo, disk, c) == b[..2] && EntryBytes(geo, disk, c + 1) == b[1..]
  {
    hide Row, Col, TableByte;
    EntryInTable(geo, c + 1, 1);
    EntryInTable(geo, c, 0);
    EntryInTable(geo, c, 1);
    assert c * 3 / 2 == c / 2 * 3 && (c + 1) * 3 / 2 == c / 2 * 3 + 1;
  }

  lemma Decode12(c: nat, b: seq<byte>)
    requires |b| == 3 && c % 2 == 0
    ensures Fat12.Decode(c, b[..2]) + 0x1000 * Fat12.Decode(c + 1, b[1..]) == LittleEndian(b)
  {
    Halves(b[0], b[1], b[2]);
    assert b[0..3] == b;
    LittleEndianStep(b, 0, 3);
    LittleEndianStep(b, 1, 3);
    LittleEndianStep(b, 2, 3);
  }

  lemma Halves(p: byte, q: byte, r: byte)
    ensures (p as int + q as int * 256) % 0x1000 + 0x1000 * ((q as int / 16 + r as int * 16) % 0x1000)
         == p as int + 0x100 * (q as int + 0x100 * r as int)
  {
    var low, high: nat := q as int % 16, q as int / 16;
    assert q as int == 16 * high + low;
    LowHalf(p as int + low * 256, high);
    assert high + r as int * 16 < 0x1000;
  }

  lemma LowHalf(x: nat, high: nat)
    requires x < 0x1000
    ensures (x + 0x1000 * high) % 0x1000 == x
  {
  }

  /** Table sector `s` with the bytes `e` laid over it from table offset `k` on. */
  function Overlaid(n: nat, data: Sector, s: nat, k: nat, e: seq<byte>): (r: Sector)
    ensures |r| == |data|
  {
    seq(|data|, o requires 0 <= o < |data| => if k <= At(n, s, o) < k + |e| then e[At(n, s, o) - k] else data[o])
  }

  /** The device after FatAccess stored the bytes `e` at table offset `k`: the touched sectors of
      the first table are rewritten and copied over the same sectors of every backup. */
  function Written(geo: Geometry, disk: Disk, k: nat, e: seq<byte>): (r: Disk)
    requires geo.Valid() && geo.Fits(disk) && 0 < |e|
    ensures geo.Fits(r) && |r| == |disk|
  {
    seq(|disk|, j requires 0 <= j < |disk| => WrittenSector(geo, disk, k, e, j))
  }

  function WrittenSector(geo: Geometry, disk: Disk, k: nat, e: seq<byte>, j: nat): (r: Sector)
    requires geo.Valid() && geo.Fits(disk) && 0 < |e| && j < |disk|
    ensures |r| == geo.bytesPerSec
  {
    if geo.InTables(j) && Touches(geo.bytesPerSec, k, e, geo.TableSector(j)) then
      FirstCopy(geo, geo.TableSector(j));
      Overlaid(geo.bytesPerSec, disk[geo.fatStart + geo.TableSector(j)], geo.TableSector(j), k, e)
    else disk[j]
  }

  /** Do the bytes at table offset `k` reach into table sector `s`? */
  predicate Touches(n: nat, k: nat, e: seq<byte>, s: nat)
    requires 0 < n && 0 < |e|
  {
    Row(n, k) <= s <= Row(n, k + |e| - 1)
  }

  lemma WrittenFirstCopy(geo: Geometry, disk: Disk, k: nat, e: seq<byte>, s: nat)
    requires geo.Valid() && geo.Fits(disk) && 0 < |e| && s < geo.fatLength
    ensures geo.fatStart + s < |disk|
    ensures Written(geo, disk, k, e)[geo.fatStart + s] ==
      if Touches(geo.bytesPerSec, k, e, s) then Overlaid(geo.bytesPerSec, disk[geo.fatStart + s], s, k, e)
      else disk[geo.fatStart + s]
  {
    FirstCopy(geo, s);
    assert Written(geo, disk, k, e)[geo.fatStart + s] == WrittenSector(geo, disk, k, e, geo.fatStart + s);
  }

  lemma TouchesCell(n: nat, k: nat, e: seq<byte>, x: nat)
    requires 0 < n && k <= x < k + |e|
    ensures Touches(n, k, e, Row(n, x))
  {
    RowMono(n, k, x);
    RowMono(n, x, k + |e| - 1);
  }

  lemma OverlaidCell(n: nat, data: Sector, k: nat, e: seq<byte>, x: nat)
    requires 0 < n == |data|
    ensures Overlaid(n, data, Row(n, x), k, e)[Col(n, x)] == if k <= x < k + |e| then e[x - k] else data[Col(n, x)]
  {
    AtRowCol(n, x);
  }

  /** Storing bytes in the table changes those bytes and no others. */
  lemma WrittenByte(geo: Geometry, disk: Disk, k: nat, e: seq<byte>, x: nat)
    requires geo.Valid() && geo.Fits(disk) && 0 < |e|
    requires Row(geo.bytesPerSec, x) < geo.fatLength
    ensures TableByte(geo, Written(geo, disk, k, e), x)
         == if k <= x < k + |e| then e[x - k] else TableByte(geo, disk, x)
  {
    var n := geo.bytesPerSec;
    var s, o := Row(n, x), Col(n, x);
    WrittenFirstCopy(geo, disk, k, e, s);
    OverlaidCell(n, disk[geo.fatStart + s], k, e, x);
    if k <= x < k + |e| {
      TouchesCell(n, k, e, x);
    }
    var r := Written(geo, disk, k, e);
    assert TableByte(geo, r, x) == r[geo.fatStart + s][o];
  }

  /** The backups are equal to the first table. */
  ghost predicate Mirrored(geo: Geometry, disk: Disk)
    requires geo.Valid() && geo.Fits(disk)
  {
    forall j :: 0 <= j < |disk| && geo.InTables(j) ==>
      geo.fatStart + geo.TableSector(j) < |disk| && disk[j] == disk[geo.fatStart + geo.TableSector(j)]
  }

  /** An access keeps the backups equal to the first table and leaves the rest of the device alone. */
  lemma WrittenFrame(geo: Geometry, disk: Disk, k: nat, e: seq<byte>)
    requires geo.Valid() && geo.Fits(disk) && 0 < |e|
    ensures Mirrored(geo, disk) ==> Mirrored(geo, Written(geo, disk, k, e))
    ensures forall j :: 0 <= j < |disk| && !geo.InTables(j) ==> Written(geo, disk, k, e)[j] == disk[j]
  {
    var r := Written(geo, disk, k, e);
    forall j | 0 <= j < |disk| ensures r[j] == WrittenSector(geo, disk, k, e, j) {}
    if Mirrored(geo, disk) {
      forall j | 0 <= j < |r| && geo.InTables(j)
        ensures geo.fatStart + geo.TableSector(j) < |r| && r[j] == r[geo.fatStart + geo.TableSector(j)]
      {
        FirstCopy(geo, geo.TableSector(j));
      }
    }
  }

  /** The device after entry `c` was set to `v`. */
  function Stored(geo: Geometry, disk: Disk, c: nat, v: nat): (r: Disk)
    requires geo.Valid() && geo.Fits(disk) && c <= geo.totalDataSectors && v < geo.Radix()
    ensures geo.Fits(r) && |r| == |disk|
  {
    Written(geo, disk, geo.First(c), geo.fatType.Encode(c, EntryBytes(geo, disk, c), v))
  }

  /** A 28-bit entry is stored as a whole DWORD: its four reserved bits become zero. */
  lemma Stored32(geo: Geometry, disk: Disk, c: nat, v: nat)
    requires geo.Valid() && geo.Fits(disk) && c <= geo.totalDataSectors && geo.fatType.Fat32? && v < geo.Radix()
    ensures Row(geo.bytesPerSec, 4 * c + 3) < geo.fatLength
    ensures LittleEndian(TableBytes(geo, Stored(geo, disk, c, v), 4 * c, 4)) == v
  {
    hide Row, Col, Written, TableByte, FatType.Encode, LittleEndian;
    var e := geo.fatType.Encode(c, EntryBytes(geo, disk, c), v);
    EntryInTable(geo, c, 3);
    var b := TableBytes(geo, Stored(geo, disk, c, v), 4 * c, 4);
    forall i | 0 <= i < 4 ensures b[i] == e[i] {
      EntryInTable(geo, c, i);
      WrittenByte(geo, disk, geo.First(c), e, 4 * c + i);
    }
    assert b == e;
    Encode32(c, EntryBytes(geo, disk, c), v);
  }

  lemma Encode32(c: nat, b: seq<byte>, v: nat)
    requires |b| == 4 && v < 0x1000_0000
    ensures LittleEndian(Fat32.Encode(c, b, v)) == v
  {
    var e := Fat32.Encode(c, b, v);
    assert e == Le32Bytes(v);
    assert e[0..4] == e;
    Le32Stored(e, 0, v);
    Le32IsNumber(e, 0);
  }

  /** The end marks are the highest eight values of an entry. */
  lemma EndMarks(geo: Geometry)
    ensures geo.InvalidCluster() == geo.Radix() - 8
  {
  }

  /** Copy `i` of the table starts `i` table lengths behind the first one. */
  lemma CopyStartIs(geo: Geometry, i: nat)
    ensures geo.CopyStart(i) == geo.fatStart + geo.fatLength * i
  {
    AtIsMul(geo.fatLength, i, 0);
  }

  /** Which bytes two 12-bit entries share. */
  lemma Offsets12(c: nat, d: nat)
    ensures c % 2 == 0 ==> c * 3 / 2 == c / 2 * 3
    ensures c % 2 == 1 ==> c * 3 / 2 == c / 2 * 3 + 1
    ensures d * 3 / 2 == c * 3 / 2 ==> d == c
    ensures d * 3 / 2 == c * 3 / 2 + 1 ==> c % 2 == 0 && d == c + 1
    ensures d * 3 / 2 + 1 == c * 3 / 2 ==> d % 2 == 0 && c == d + 1
  {
  }

  lemma Pack12(p: int, q: int, v: nat)
    requires v < 0x1000 && 0 <= p < 256 && 0 <= q < 256
    ensures (p % 16 + v % 16 * 16) / 16 + v / 16 * 16 == v
    ensures (p % 16 + v % 16 * 16) % 16 == p % 16
    ensures v % 256 + (q / 16 * 16 + v / 256) * 256 == v + q / 16 * 4096
    ensures (q / 16 * 16 + v / 256) / 16 == q / 16
  {
  }

  /** The low half of a shared byte is all that an even entry reads of it. */
  lemma EvenReads(p: int, q: int, q': int)
    requires q % 16 == q' % 16 && 0 <= p < 256
    ensures (p + q * 256) % 0x1000 == (p + q' * 256) % 0x1000
  {
    assert (p + q * 256) % 0x1000 == p + q % 16 * 256;
    assert (p + q' * 256) % 0x1000 == p + q' % 16 * 256;
  }

  /** Byte `x` of the table after the entry at byte `k` with bytes `a` got the bytes `e`. */
  ghost predicate After(k: nat, a: seq<byte>, e: seq<byte>, x: nat, before: byte, after: byte)
    requires |a| == |e|
  {
    if k <= x < k + |a| then before == a[x - k] && after == e[x - k] else after == before
  }

  lemma EncodeLaw12(c: nat, d: nat, a: seq<byte>, b: seq<byte>, b': seq<byte>, v: nat)
    requires |a| == |b| == |b'| == 2 && v < 0x1000
    requires After(c * 3 / 2, a, Fat12.Encode(c, a, v), d * 3 / 2, b[0], b'[0])
    requires After(c * 3 / 2, a, Fat12.Encode(c, a, v), d * 3 / 2 + 1, b[1], b'[1])
    ensures Fat12.Decode(d, b') == if d == c then v else Fat12.Decode(d, b)
  {
    hide FatType.Encode, FatType.Decode;
    Offsets12(c, d);
    var e := Fat12.Encode(c, a, v);
    if c == d {
      Same12(c, a, v);
      assert b' == e;
    } else if d * 3 / 2 + 1 == c * 3 / 2 {
      Left12(c, d, a, b, b', v);
    } else if d * 3 / 2 == c * 3 / 2 + 1 {
      Right12(c, d, a, b, b', v);
    } else {
      assert b' == b;
    }
  }

  /** The even entry before an odd one. */
  lemma Left12(c: nat, d: nat, a: seq<byte>, b: seq<byte>, b': seq<byte>, v: nat)
    requires |a| == |b| == |b'| == 2 && v < 0x1000 && d % 2 == 0 && c % 2 == 1
    requires b'[0] == b[0] && b[1] == a[0] && b'[1] == Fat12.Encode(c, a, v)[0]
    ensures Fat12.Decode(d, b') == Fat12.Decode(d, b)
  {
    Pack12(a[0], a[1], v);
    EvenReads(b[0], b[1], b'[1]);
  }

  /** The odd entry after an even one. */
  lemma Right12(c: nat, d: nat, a: seq<byte>, b: seq<byte>, b': seq<byte>, v: nat)
    requires |a| == |b| == |b'| == 2 && v < 0x1000 && d % 2 == 1 && c % 2 == 0
    requires b'[1] == b[1] && b[0] == a[1] && b'[0] == Fat12.Encode(c, a, v)[1]
    ensures Fat12.Decode(d, b') == Fat12.Decode(d, b)
  {
    Pack12(a[0], a[1], v);
  }

  lemma Same12(c: nat, a: seq<byte>, v: nat)
    requires |a| == 2 && v < 0x1000
    ensures Fat12.Decode(c, Fat12.Encode(c, a, v)) == v
  {
    var q: int := a[1];
    Pack12(a[0], q, v);
    ModShift(v, q / 16);
  }

  lemma ModShift(v: nat, m: nat)
    requires v < 0x1000
    ensures (v + m * 4096) % 0x1000 == v
  {
  }

  lemma EncodeLaw16(c: nat, d: nat, a: seq<byte>, b: seq<byte>, b': seq<byte>, v: nat)
    requires |a| == |b| == |b'| == 2 && v < 0x1_0000
    requires After(c * 2, a, Fat16.Encode(c, a, v), d * 2, b[0], b'[0])
    requires After(c * 2, a, Fat16.Encode(c, a, v), d * 2 + 1, b[1], b'[1])
    ensures Fat16.Decode(d, b') == if d == c then v else Fat16.Decode(d, b)
  {
  }

  lemma EncodeLaw32(c: nat, d: nat, a: seq<byte>, b: seq<byte>, b': seq<byte>, v: nat)
    requires |a| == |b| == |b'| == 4 && v < 0x1000_0000
    requires forall i :: 0 <= i < 4 ==> After(c * 4, a, Fat32.Encode(c, a, v), d * 4 + i, b[i], b'[i])
    ensures Fat32.Decode(d, b') == if d == c then v else Fat32.Decode(d, b)
  {
    if c == d {
      assert b' == Fat32.Encode(c, a, v);
      Same32(c, a, v);
    } else {
      assert b' == b;
    }
  }

  lemma Same32(c: nat, a: seq<byte>, v: nat)
    requires |a| == 4 && v < 0x1000_0000
    ensures Fat32.Decode(c, Fat32.Encode(c, a, v)) == v
  {
    Digits32(v);
  }

  lemma Digits32(v: nat)
    ensures v % 0x100 + v / 0x100 % 0x100 * 0x100 + v / 0x1_0000 % 0x100 * 0x1_0000 + v / 0x100_0000 * 0x100_0000 == v
  {
    assert v / 0x100 / 0x100 == v / 0x1_0000;
    assert v / 0x1_0000 / 0x100 == v / 0x100_0000;
  }

  /** The laws of the three encodings under one name. */
  lemma EncodeLaw(t: FatType, c: nat, d: nat, a: seq<byte>, e: seq<byte>, b: seq<byte>, b': seq<byte>, v: nat)
    requires |a| == |b| == |b'| == t.Width() && v < t.Radix() && e == t.Encode(c, a, v)
    requires forall i :: 0 <= i < t.Width() ==> After(t.First(c), a, e, t.First(d) + i, b[i], b'[i])
    ensures t.Decode(d, b') == if d == c then v else t.Decode(d, b)
  {
    assert After(t.First(c), a, e, t.First(d) + 0, b[0], b'[0]);
    assert After(t.First(c), a, e, t.First(d) + 1, b[1], b'[1]);
    match t {
      case Fat12 => EncodeLaw12(c, d, a, b, b', v);
      case Fat16 => EncodeLaw16(c, d, a, b, b', v);
      case Fat32 => EncodeLaw32(c, d, a, b, b', v);
    }
  }

  lemma EntryBytesAfter(geo: Geometry, disk: Disk, c: nat, e: seq<byte>, d: nat, i: nat)
    requires geo.Valid() && geo.Fits(disk) && |e| == geo.Width()
    requires c <= geo.totalDataSectors && d <= geo.totalDataSectors && i < geo.Width()
    ensures After(geo.First(c), EntryBytes(geo, disk, c), e, geo.First(d) + i,
                  EntryBytes(geo, disk, d)[i], EntryBytes(geo, Written(geo, disk, geo.First(c), e), d)[i])
  {
    EntryInTable(geo, d, i);
    WrittenByte(geo, disk, geo.First(c), e, geo.First(d) + i);
  }

  /** The array law: entry `c` reads back as `v`, every other entry is as before, even where
      12-bit entries share a byte or cross a sector. */
  lemma StoredEntry(geo: Geometry, disk: Disk, c: nat, v: nat, d: nat)
    requires geo.Valid() && geo.Fits(disk) && v < geo.Radix()
    requires c <= geo.totalDataSectors && d <= geo.totalDataSectors
    ensures Entry(geo, Stored(geo, disk, c, v), d) == if d == c then v else Entry(geo, disk, d)
  {
    var a := EntryBytes(geo, disk, c);
    var e := geo.fatType.Encode(c, a, v);
    var b, b' := EntryBytes(geo, disk, d), EntryBytes(geo, Written(geo, disk, geo.First(c), e), d);
    forall i | 0 <= i < geo.Width() ensures After(geo.First(c), a, e, geo.First(d) + i, b[i], b'[i]) {
      EntryBytesAfter(geo, disk, c, e, d, i);
    }
    EncodeLaw(geo.fatType, c, d, a, e, b, b', v);
  }

  /** The device with the touched sectors replaced in the copies before `n`. */
  ghost predicate CopiedTo(geo: Geometry, before: Disk, disk: Disk, s0: nat, b0: Sector, s1: nat, b1: Sector, n: nat)
    requires geo.Valid()
  {
    && |disk| == |before|
    && forall j :: 0 <= j < |disk| ==>
         disk[j] == if geo.fatStart <= j && geo.CopyOf(j) < n && geo.TableSector(j) == s0 then b0
                    else if geo.fatStart <= j && geo.CopyOf(j) < n && geo.TableSector(j) == s1 then b1
                    else before[j]
  }

  lemma CopiedNone(geo: Geometry, disk: Disk, s0: nat, b0: Sector, s1: nat, b1: Sector)
    requires geo.Valid()
    ensures CopiedTo(geo, disk, disk, s0, b0, s1, b1, 0) && geo.CopyStart(0) == geo.fatStart
  {
  }

  lemma CopyOne(geo: Geometry, before: Disk, disk: Disk, s0: nat, b0: Sector, s1: nat, b1: Sector, n: nat)
    requires geo.Valid() && s0 < geo.fatLength && s1 < geo.fatLength && (s0 == s1 ==> b0 == b1)
    requires CopiedTo(geo, before, disk, s0, b0, s1, b1, n)
    requires geo.CopyStart(n) + s0 < |disk| && geo.CopyStart(n) + s1 < |disk|
    ensures CopiedTo(geo, before, disk[geo.CopyStart(n) + s1 := b1][geo.CopyStart(n) + s0 := b0], s0, b0, s1, b1, n + 1)
  {
    var r := disk[geo.CopyStart(n) + s1 := b1][geo.CopyStart(n) + s0 := b0];
    forall j | 0 <= j < |r| && geo.fatStart <= j
      ensures r[j] == if geo.CopyOf(j) < n + 1 && geo.TableSector(j) == s0 then b0
                      else if geo.CopyOf(j) < n + 1 && geo.TableSector(j) == s1 then b1
                      else before[j]
    {
      CopySector(geo, n, s0, j);
      CopySector(geo, n, s1, j);
    }
  }

  /** All copies done: this is the device that Written describes. */
  lemma CopiedIsWritten(geo: Geometry, before: Disk, disk: Disk, k: nat, e: seq<byte>, s0: nat, b0: Sector, s1: nat,
                        b1: Sector)
    requires geo.Valid() && geo.Fits(before) && 0 < |e|
    requires s0 == Row(geo.bytesPerSec, k) && s1 == Row(geo.bytesPerSec, k + |e| - 1) && s0 <= s1 <= s0 + 1
    requires s1 < geo.fatLength
    requires geo.fatStart + s1 < |before|
    requires b0 == Overlaid(geo.bytesPerSec, before[geo.fatStart + s0], s0, k, e)
    requires b1 == Overlaid(geo.bytesPerSec, before[geo.fatStart + s1], s1, k, e)
    requires CopiedTo(geo, before, disk, s0, b0, s1, b1, geo.numFats)
    ensures disk == Written(geo, before, k, e)
  {
    hide Row, Col, At, Overlaid, CopiedTo, WrittenSector;
    assert |disk| == |before| by { CopiedLength(geo, before, disk, s0, b0, s1, b1); }
    forall j | 0 <= j < |disk| ensures disk[j] == WrittenSector(geo, before, k, e, j) {
      CopiedSector(geo, before, disk, k, e, s0, b0, s1, b1, j);
    }
  }

  lemma CopiedLength(geo: Geometry, before: Disk, disk: Disk, s0: nat, b0: Sector, s1: nat, b1: Sector)
    requires geo.Valid() && CopiedTo(geo, before, disk, s0, b0, s1, b1, geo.numFats)
    ensures |disk| == |before|
  {
  }

  lemma CopiedSector(geo: Geometry, before: Disk, disk: Disk, k: nat, e: seq<byte>, s0: nat, b0: Sector, s1: nat,
                     b1: Sector, j: nat)
    requires geo.Valid() && geo.Fits(before) && 0 < |e| && |disk| == |before| && j < |disk|
    requires s0 == Row(geo.bytesPerSec, k) && s1 == Row(geo.bytesPerSec, k + |e| - 1) && s0 <= s1 <= s0 + 1
    requires geo.fatStart + s1 < |before|
    requires b0 == Overlaid(geo.bytesPerSec, before[geo.fatStart + s0], s0, k, e)
    requires b1 == Overlaid(geo.bytesPerSec, before[geo.fatStart + s1], s1, k, e)
    requires CopiedTo(geo, before, disk, s0, b0, s1, b1, geo.numFats)
    ensures disk[j] == WrittenSector(geo, before, k, e, j)
  {
    hide Row, Col, At, Overlaid;
  }

  /** Where the bytes of an entry sit: 16 and 32-bit entries never cross a sector, a 12-bit
      entry crosses one exactly when its first byte is the last of a sector. */
  lemma EntryPlace(geo: Geometry, c: nat, i: nat)
    requires geo.Valid() && c <= geo.totalDataSectors && i < geo.Width()
    ensures var n, k, w := geo.bytesPerSec, geo.First(c), geo.Width();
      if Col(n, k) + w <= n then
        Row(n, k + i) == Row(n, k) && Col(n, k + i) == Col(n, k) + i
      else
        geo.fatType.Fat12? && Col(n, k) == n - 1 && Row(n, k + 1) == Row(n, k) + 1 && Col(n, k + 1) == 0
  {
    hide Row, Col, At;
    var n, k, w := geo.bytesPerSec, geo.First(c), geo.Width();
    if Col(n, k) + w <= n {
      NextCell(n, k, i);
    } else {
      NextCell(n, k, 1);
      ColModFour(n, k);
    }
  }

  lemma StepMod(q: nat, k: nat)
    ensures (k + 4 * q) % 4 == k % 4
  {
  }

  lemma {:induction false} ColModFour(n: nat, k: nat)
    requires 0 < n && n % 4 == 0
    ensures Col(n, k) % 4 == k % 4
    decreases k
  {
    if k < n {
    } else {
      ColModFour(n, k - n);
      StepMod(n / 4, k - n);
    }
  }

  /** Replace bytes inside one buffer. */
  function Patch(data: Sector, o: nat, e: seq<byte>): (r: Sector)
    requires o + |e| <= |data|
    ensures |r| == |data|
  {
    data[..o] + e + data[o + |e|..]
  }

  lemma PatchInside(n: nat, data: Sector, k: nat, e: seq<byte>)
    requires 0 < n == |data| && Col(n, k) + |e| <= n
    ensures Patch(data, Col(n, k), e) == Overlaid(n, data, Row(n, k), k, e)
  {
    AtRowCol(n, k);
    var s, c, p := Row(n, k), Col(n, k), Patch(data, Col(n, k), e);
    forall o | 0 <= o < n ensures p[o] == Overlaid(n, data, s, k, e)[o] {
      AtAdd(n, s, 0, o);
      AtAdd(n, s, 0, c);
    }
  }

  lemma PatchAcross(n: nat, data: Sector, data2: Sector, k: nat, e: seq<byte>)
    requires 0 < n == |data| == |data2| && Col(n, k) == n - 1 && |e| == 2
    ensures Patch(data, n - 1, e[..1]) == Overlaid(n, data, Row(n, k), k, e)
    ensures Patch(data2, 0, e[1..]) == Overlaid(n, data2, Row(n, k) + 1, k, e)
  {
    AtRowCol(n, k);
    var s := Row(n, k);
    AtAdd(n, s, 0, n - 1);
    AtNext(n, s, 0);
    var p, p2 := Patch(data, n - 1, e[..1]), Patch(data2, 0, e[1..]);
    forall o | 0 <= o < n
      ensures p[o] == Overlaid(n, data, s, k, e)[o] && p2[o] == Overlaid(n, data2, s + 1, k, e)[o]
    {
      AtAdd(n, s, 0, o);
      AtAdd(n, s + 1, 0, o);
    }
  }

  /** The sectors that an access to entry `c` reads. */
  lemma EntrySectors(geo: Geometry, c: nat)
    requires geo.Valid() && c <= geo.totalDataSectors
    ensures var n, k := geo.bytesPerSec, geo.First(c);
      var last := if geo.fatType.Fat12? then k + 1 else k;
      && Row(n, last) == Row(n, k + geo.Width() - 1) && Row(n, k) <= Row(n, last) <= Row(n, k) + 1
      && Row(n, last) < geo.fatLength
      && (Row(n, last) == Row(n, k) <==> Col(n, k) + geo.Width() <= n)
      && (Row(n, last) != Row(n, k) ==> geo.fatType.Fat12? && Col(n, k) == n - 1 && Col(n, k + 1) == 0)
  {
    EntryPlace(geo, c, geo.Width() - 1);
    EntryInTable(geo, c, geo.Width() - 1);
  }

  lemma OneSectorBytes(geo: Geometry, disk: Disk, c: nat, b: seq<byte>)
    requires geo.Valid() && geo.Fits(disk) && c <= geo.totalDataSectors
    requires Col(geo.bytesPerSec, geo.First(c)) + geo.Width() <= geo.bytesPerSec
    requires Row(geo.bytesPerSec, geo.First(c)) < geo.fatLength
    requires geo.fatStart + Row(geo.bytesPerSec, geo.First(c)) < |disk|
    requires var o := Col(geo.bytesPerSec, geo.First(c));
      b == disk[geo.fatStart + Row(geo.bytesPerSec, geo.First(c))][o..o + geo.Width()]
    ensures b == EntryBytes(geo, disk, c)
  {
    forall i | 0 <= i < geo.Width() ensures b[i] == EntryBytes(geo, disk, c)[i] {
      EntryPlace(geo, c, i);
      EntryInTable(geo, c, i);
    }
  }

  lemma TwoSectorBytes(geo: Geometry, disk: Disk, c: nat, b: seq<byte>)
    requires geo.Valid() && geo.Fits(disk) && c <= geo.totalDataSectors && geo.fatType.Fat12?
    requires geo.fatStart + Row(geo.bytesPerSec, geo.First(c)) < |disk|
    requires geo.fatStart + Row(geo.bytesPerSec, geo.First(c) + 1) < |disk|
    requires b == [disk[geo.fatStart + Row(geo.bytesPerSec, geo.First(c))][Col(geo.bytesPerSec, geo.First(c))],
                   disk[geo.fatStart + Row(geo.bytesPerSec, geo.First(c) + 1)][Col(geo.bytesPerSec, geo.First(c) + 1)]]
    ensures b == EntryBytes(geo, disk, c)
  {
    EntryInTable(geo, c, 0);
    EntryInTable(geo, c, 1);
    assert EntryBytes(geo, disk, c)[0] == TableByte(geo, disk, geo.First(c));
  }

  /** The storage device under a FAT volume, seen through the buffer cache. */
  class FatDevice {
    const geo: Geometry
    var disk: Disk

    ghost predicate Valid()
      reads this
    {
      geo.Valid() && geo.Fits(disk)
    }

    constructor (geo: Geometry, disk: Disk)
      requires geo.Valid() && geo.Fits(disk)
      ensures this.geo == geo && this.disk == disk && Valid()
    {
      this.geo, this.disk := geo, disk;
    }

    /** The reading half of FatAccess: the entry's bytes, from one sector or from two. */
    method ReadBytes(c: nat) returns (b: seq<byte>)
      requires Valid() && c <= geo.totalDataSectors
      ensures b == EntryBytes(geo, disk, c)
    {
      var n, first := geo.bytesPerSec, geo.First(c);
      var last := if geo.fatType.Fat12? then first + 1 else first;
      EntrySectors(geo, c);
      var s0, s1, o := Row(n, first), Row(n, last), Col(n, first);
      FirstCopy(geo, s0);
      FirstCopy(geo, s1);
      var buff, buff2 := disk[geo.fatStart + s0], disk[geo.fatStart + s1];
      if s0 != s1 {
        b := [buff[o], buff2[Col(n, first + 1)]];
        TwoSectorBytes(geo, disk, c, b);
      } else {
        b := buff[o..o + geo.Width()];
        OneSectorBytes(geo, disk, c, b);
      }
    }

    /** The writing half of FatAccess: patch the one or two sectors, then all the backups. */
    method WriteBytes(c: nat, e: seq<byte>)
      requires Valid() && c <= geo.totalDataSectors && |e| == geo.Width()
      modifies this
      ensures Valid() && disk == Written(geo, old(disk), geo.First(c), e)
    {
      var n, first := geo.bytesPerSec, geo.First(c);
      var last := if geo.fatType.Fat12? then first + 1 else first;
      EntrySectors(geo, c);
      var s0, s1, o := Row(n, first), Row(n, last), Col(n, first);
      FirstCopy(geo, s0);
      FirstCopy(geo, s1);
      var buff, buff2 := disk[geo.fatStart + s0], disk[geo.fatStart + s1];
      if s0 != s1 {
        PatchAcross(n, buff, buff2, first, e);
        buff, buff2 := Patch(buff, o, e[..1]), Patch(buff2, Col(n, first + 1), e[1..]);
      } else {
        PatchInside(n, buff, first, e);
        buff := Patch(buff, o, e);
        buff2 := buff;
      }
      StoreBytes(first, e, s0, s1, buff, buff2);
    }

    /** FatAccess: read entry `c`, and store `newVal` in it unless that is -1. Numbers above the sector
        count make the kernel panic. */
    method FatAccess(c: nat, newVal: int) returns (retVal: nat, panicked: bool)
      requires Valid() && (newVal == -1 || 0 <= newVal < geo.Radix())
      modifies this
      ensures Valid()
      ensures panicked <==> c > geo.totalDataSectors
      ensures !panicked ==> retVal == Entry(geo, old(disk), c)
      ensures disk == if newVal == -1 || panicked then old(disk) else Stored(geo, old(disk), c, newVal)
    {
      if c > geo.totalDataSectors {
        return 0, true;
      }
      panicked := false;
      var b := ReadBytes(c);
      retVal := geo.fatType.Decode(c, b);
      if newVal != -1 {
        WriteBytes(c, geo.fatType.Encode(c, b, newVal));
      }
    }

    method StoreBytes(k: nat, e: seq<byte>, s0: nat, s1: nat, b0: Sector, b1: Sector)
      requires Valid() && 0 < |e| && s0 == Row(geo.bytesPerSec, k) && s1 == Row(geo.bytesPerSec, k + |e| - 1)
      requires s0 <= s1 <= s0 + 1 && s1 < geo.fatLength && geo.fatStart + s1 < |disk|
      requires b0 == Overlaid(geo.bytesPerSec, disk[geo.fatStart + s0], s0, k, e)
      requires b1 == Overlaid(geo.bytesPerSec, disk[geo.fatStart + s1], s1, k, e)
      modifies this
      ensures Valid() && disk == Written(geo, old(disk), k, e)
    {
      ghost var before := disk;
      WriteAll(s0, s1, b0, b1);
      CopiedIsWritten(geo, before, disk, k, e, s0, b0, s1, b1);
    }

    /** Write the changed buffers, then copy them over the same sectors of the backups. */
    method WriteAll(s0: nat, s1: nat, b0: Sector, b1: Sector)
      requires Valid() && s0 <= s1 <= s0 + 1 && s1 < geo.fatLength && (s0 == s1 ==> b0 == b1)
      requires |b0| == |b1| == geo.bytesPerSec
      modifies this
      ensures Valid()
      ensures CopiedTo(geo, old(disk), disk, s0, b0, s1, b1, geo.numFats)
    {
      hide CopiedTo, Row, Col, At;
      ghost var before := disk;
      CopiedNone(geo, disk, s0, b0, s1, b1);
      FirstCopy(geo, s0);
      FirstCopy(geo, s1);
      CopyOne(geo, before, disk, s0, b0, s1, b1, 0);
      disk := disk[geo.fatStart + s1 := b1][geo.fatStart + s0 := b0];
      var i := 1;
      while i < geo.numFats
        invariant 1 <= i <= geo.numFats
        invariant Valid() && CopiedTo(geo, before, disk, s0, b0, s1, b1, i)
      {
        var block := geo.CopyStart(i) + s0;
        CopySector(geo, i, s0, block);
        CopySector(geo, i, s1, block);
        CopyOne(geo, before, disk, s0, b0, s1, b1, i);
        if s0 == s1 { assert disk[block := b1][block := b0] == disk[block := b0]; }
        disk := if s0 != s1 then disk[block + 1 := b1][block := b0] else disk[block := b0];
        i := i + 1;
      }
    }
  }
}
