/**
 One-block ext3 directories (fs/ext3/inode.c): variable-length records that tile the block.
 FindEntry searches by name, AddEntry splits a record with room to spare, RemoveEntry joins a
 record to the one before it.
 */
module Ext3Dir {
  import opened Bytes
  import opened Errors
  import opened Options
  import opened Sequences

  // ---- Records ----

  type Name = n: seq<byte> | |n| < 256

  datatype Record = Record(inode: nat, recLen: nat, fileType: byte, name: Name) {
    predicate Live() {
      inode != 0
    }
  }

  /** EXT3_DIR_REC_LEN: eight bytes of header and the name, rounded up to four. */
  function MinLen(nameLen: nat): (l: nat)
    ensures nameLen + 8 <= l <= nameLen + 11 && l % 4 == 0
  {
    (nameLen + 8 + 3) / 4 * 4
  }

  /** Record r lies at offset o of the block. */
  ghost predicate Holds(b: seq<byte>, o: nat, r: Record) {
    && MinLen(|r.name|) <= r.recLen
    && o + r.recLen <= |b|
    && Le32(b, o) == r.inode
    && Le16(b, o + 4) == r.recLen
    && b[o + 6] == |r.name|
    && b[o + 7] == r.fileType
    && b[o + 8..o + 8 + |r.name|] == r.name
  }

  /** A record as struct Ext3DirEntry lays it out: inode number, record length, name length, file type,
      name. */
  function RecordBytes(r: Record): (b: seq<byte>)
    requires r.inode < 0x1_0000_0000 && r.recLen < 0x1_0000
  {
    Le32Bytes(r.inode) + [r.recLen % 0x100, r.recLen / 0x100] + [|r.name|, r.fileType] + r.name
  }

  /** A record lies at an offset if and only if its bytes do and its length fits. */
  lemma HoldsIsBytes(b: seq<byte>, o: nat, r: Record)
    requires r.inode < 0x1_0000_0000 && r.recLen < 0x1_0000
    ensures Holds(b, o, r) <==>
      && MinLen(|r.name|) <= r.recLen && o + r.recLen <= |b|
      && b[o..o + 8 + |r.name|] == RecordBytes(r)
  {
    hide MinLen;
    if MinLen(|r.name|) <= r.recLen && o + r.recLen <= |b| {
      var s, t := b[o..o + 8 + |r.name|], RecordBytes(r);
      Le32RoundTrip(b, o);
      if Holds(b, o, r) {
        assert b[o + 4] == r.recLen % 0x100 && b[o + 5] == r.recLen / 0x100;
        assert s == b[o..o + 4] + [b[o + 4], b[o + 5]] + [b[o + 6], b[o + 7]] + b[o + 8..o + 8 + |r.name|];
      }
      if s == t { BytesAreHeld(b, o, r); }
    }
  }

  lemma BytesAreHeld(b: seq<byte>, o: nat, r: Record)
    requires r.inode < 0x1_0000_0000 && r.recLen < 0x1_0000
    requires o + 8 + |r.name| <= |b| && b[o..o + 8 + |r.name|] == RecordBytes(r)
    ensures Le32(b, o) == r.inode && Le16(b, o + 4) == r.recLen
    ensures b[o + 6] == |r.name| && b[o + 7] == r.fileType && b[o + 8..o + 8 + |r.name|] == r.name
  {
    hide Le32, Le32Bytes;
    var t := RecordBytes(r);
    PartOfSlice(b, o, t, 0, 4);
    assert t[0..4] == Le32Bytes(r.inode);
    Le32Stored(b, o, r.inode);
    PartOfSlice(b, o, t, 4, 8);
    var s := b[o + 4..o + 8];
    assert s == t[4..8] == [r.recLen % 0x100, r.recLen / 0x100, |r.name|, r.fileType];
    assert b[o + 4] == s[0] && b[o + 5] == s[1] && b[o + 6] == s[2] && b[o + 7] == s[3];
    PartOfSlice(b, o, t, 8, |t|);
    assert t[8..] == r.name;
  }

  /** The records fill [o, e) of the block, one after the other. */
  ghost predicate Tiles(b: seq<byte>, o: nat, e: nat, rs: seq<Record>)
    decreases |rs|
  {
    if rs == [] then o == e <= |b|
    else Holds(b, o, rs[0]) && Tiles(b, o + rs[0].recLen, e, rs[1..])
  }

  ghost function Length(rs: seq<Record>): (l: nat)
    decreases |rs|
  {
    if rs == [] then 0 else rs[0].recLen + Length(rs[1..])
  }

  lemma {:induction false} LengthAppend(p: seq<Record>, q: seq<Record>)
    ensures Length(p + q) == Length(p) + Length(q)
    decreases |p|
  {
    if p == [] {
      assert p + q == q;
    } else {
      assert (p + q)[1..] == p[1..] + q;
      LengthAppend(p[1..], q);
    }
  }

  /** Records tile a block only if their lengths add up to it. */
  lemma {:induction false} TilesLength(b: seq<byte>, o: nat, e: nat, rs: seq<Record>)
    requires Tiles(b, o, e, rs)
    ensures o + Length(rs) == e <= |b|
    decreases |rs|
  {
    if rs == [] {
    } else {
      TilesLength(b, o + rs[0].recLen, e, rs[1..]);
    }
  }

  lemma {:induction false} TilesJoin(b: seq<byte>, o: nat, m: nat, e: nat, p: seq<Record>, q: seq<Record>)
    requires Tiles(b, o, m, p) && Tiles(b, m, e, q)
    ensures Tiles(b, o, e, p + q)
    decreases |p|
  {
    hide Holds;
    if p == [] {
      assert p + q == q;
    } else {
      assert (p + q)[0] == p[0] && (p + q)[1..] == p[1..] + q;
      TilesJoin(b, o + p[0].recLen, m, e, p[1..], q);
    }
  }

  lemma {:induction false} TilesCut(b: seq<byte>, o: nat, e: nat, rs: seq<Record>, k: nat)
    requires Tiles(b, o, e, rs) && k <= |rs|
    ensures Tiles(b, o, o + Length(rs[..k]), rs[..k])
    ensures Tiles(b, o + Length(rs[..k]), e, rs[k..])
    decreases k
  {
    hide Holds, Length, Tiles;
    if k == 0 {
      EmptyTiles(b, o, e, rs);
      assert rs[..0] == [] && rs[0..] == rs;
    } else {
      var r, t := rs[0], rs[1..];
      TilesHead(b, o, e, rs);
      TilesCut(b, o + r.recLen, e, t, k - 1);
      var p := t[..k - 1];
      SplitHead(rs, k);
      LengthCons(r, p);
      TilesCons(b, o, o + r.recLen + Length(p), r, p);
    }
  }

  lemma SplitHead(rs: seq<Record>, k: nat)
    requires 0 < k <= |rs|
    ensures rs[..k] == [rs[0]] + rs[1..][..k - 1] && rs[k..] == rs[1..][k - 1..]
  {
  }

  lemma EmptyTiles(b: seq<byte>, o: nat, e: nat, rs: seq<Record>)
    requires Tiles(b, o, e, rs)
    ensures Tiles(b, o, o, []) && Length([]) == 0
  {
    TilesLength(b, o, e, rs);
  }

  lemma TilesHead(b: seq<byte>, o: nat, e: nat, rs: seq<Record>)
    requires Tiles(b, o, e, rs) && rs != []
    ensures Holds(b, o, rs[0]) && Tiles(b, o + rs[0].recLen, e, rs[1..])
  {
    hide Holds;
  }

  lemma EmptyLength()
    ensures Length([]) == 0
  {
  }

  lemma LengthCons(r: Record, rs: seq<Record>)
    ensures Length([r] + rs) == r.recLen + Length(rs)
  {
    assert ([r] + rs)[1..] == rs;
  }

  lemma TilesCons(b: seq<byte>, o: nat, e: nat, r: Record, rs: seq<Record>)
    requires Holds(b, o, r) && Tiles(b, o + r.recLen, e, rs)
    ensures Tiles(b, o, e, [r] + rs)
  {
    hide Holds;
    assert ([r] + rs)[1..] == rs;
  }

  lemma {:induction false} TilesFrame(b: seq<byte>, b': seq<byte>, o: nat, e: nat, rs: seq<Record>)
    requires Tiles(b, o, e, rs) && |b| == |b'| && e <= |b|
    requires forall x :: o <= x < e ==> b'[x] == b[x]
    ensures Tiles(b', o, e, rs)
    decreases |rs|
  {
    if rs == [] {
    } else {
      TilesLength(b, o + rs[0].recLen, e, rs[1..]);
      assert b'[o + 8..o + 8 + |rs[0].name|] == b[o + 8..o + 8 + |rs[0].name|];
      TilesFrame(b, b', o + rs[0].recLen, e, rs[1..]);
    }
  }

  /** Where record k starts, and that it is there. */
  lemma RecordAt(b: seq<byte>, rs: seq<Record>, k: nat)
    requires Tiles(b, 0, |b|, rs) && k < |rs|
    ensures Holds(b, Length(rs[..k]), rs[k])
    ensures Length(rs[..k + 1]) == Length(rs[..k]) + rs[k].recLen
  {
    hide Length, Holds;
    LengthNext(rs, k);
    TilesCut(b, 0, |b|, rs, k);
    assert rs[k..][0] == rs[k];
  }

  lemma LengthNext(rs: seq<Record>, k: nat)
    requires k < |rs|
    ensures Length(rs[..k + 1]) == Length(rs[..k]) + rs[k].recLen
  {
    assert rs[..k + 1] == rs[..k] + [rs[k]];
    LengthAppend(rs[..k], [rs[k]]);
  }

  /** Records i..j replaced by others that tile the same bytes, the rest of the block untouched. */
  lemma TilesReplace(b: seq<byte>, b': seq<byte>, rs: seq<Record>, i: nat, j: nat, mid: seq<Record>)
    requires Tiles(b, 0, |b|, rs) && i <= j <= |rs| && |b| == |b'|
    requires forall x :: 0 <= x < |b| && !(Length(rs[..i]) <= x < Length(rs[..j])) ==> b'[x] == b[x]
    requires Tiles(b', Length(rs[..i]), Length(rs[..j]), mid)
    ensures Tiles(b', 0, |b'|, rs[..i] + mid + rs[j..])
  {
    hide Tiles, Length;
    TilesCut(b, 0, |b|, rs, i);
    TilesCut(b, 0, |b|, rs, j);
    TilesLength(b', Length(rs[..i]), Length(rs[..j]), mid);
    TilesFrame(b, b', 0, Length(rs[..i]), rs[..i]);
    TilesFrame(b, b', Length(rs[..j]), |b|, rs[j..]);
    TilesJoin(b', 0, Length(rs[..i]), Length(rs[..j]), rs[..i], mid);
    TilesJoin(b', 0, Length(rs[..j]), |b|, rs[..i] + mid, rs[j..]);
  }

  // ---- The directory as a map ----

  /** No two records carry the same name. */
  ghost predicate Distinct(rs: seq<Record>) {
    forall i, j :: 0 <= i < j < |rs| ==> rs[i].name != rs[j].name
  }

  ghost predicate Named(rs: seq<Record>, name: seq<byte>) {
    exists i :: 0 <= i < |rs| && rs[i].name == name
  }

  ghost predicate AllLive(rs: seq<Record>) {
    forall i :: 0 <= i < |rs| ==> rs[i].Live()
  }

  /** The first record with this name; |rs| when there is none. */
  ghost function Index(rs: seq<Record>, name: seq<byte>): (i: nat)
    ensures i <= |rs|
    ensures i < |rs| ==> rs[i].name == name
    ensures forall j :: 0 <= j < i ==> rs[j].name != name
    decreases |rs|
  {
    if rs == [] || rs[0].name == name then 0 else 1 + Index(rs[1..], name)
  }

  /** The inode of the first record with this name: what FindEntry leads Ext3Lookup to. */
  ghost function Lookup(rs: seq<Record>, name: seq<byte>): (r: Option<nat>) {
    var i := Index(rs, name);
    if i < |rs| then Some(rs[i].inode) else None
  }

  /** The names a directory should have, with their inodes. */
  ghost function Contents(rs: seq<Record>): (m: map<Name, nat>)
    decreases |rs|
  {
    if rs == [] then map[]
    else if rs[0].Live() then Contents(rs[1..])[rs[0].name := rs[0].inode]
    else Contents(rs[1..])
  }

  ghost function Get(m: map<Name, nat>, name: seq<byte>): (r: Option<nat>) {
    if |name| < 256 && name in m then Some(m[name]) else None
  }

  /** Contents holds exactly the live records. */
  lemma {:induction false} ContentsAt(rs: seq<Record>, name: Name)
    requires Distinct(rs)
    ensures name in Contents(rs) <==> exists i :: 0 <= i < |rs| && rs[i].name == name && rs[i].Live()
    ensures forall i :: 0 <= i < |rs| && rs[i].name == name && rs[i].Live() ==> Contents(rs)[name] == rs[i].inode
    decreases |rs|
  {
    if rs == [] {
    } else {
      var t := rs[1..];
      ContentsAt(t, name);
      assert forall i :: 0 < i < |rs| ==> rs[i] == t[i - 1];
      assert forall i :: 0 <= i < |t| ==> t[i] == rs[i + 1];
    }
  }

  /** FindEntry agrees with the map on every name exactly when no record is dead. */
  lemma AgreesIffAllLive(rs: seq<Record>)
    requires Distinct(rs)
    ensures AllLive(rs) <==> forall name: Name :: Lookup(rs, name) == Get(Contents(rs), name)
  {
    forall name: Name ensures AllLive(rs) ==> Lookup(rs, name) == Get(Contents(rs), name) {
      ContentsAt(rs, name);
    }
    if i :| 0 <= i < |rs| && !rs[i].Live() {
      ContentsAt(rs, rs[i].name);
      assert Lookup(rs, rs[i].name) != Get(Contents(rs), rs[i].name);
    }
  }

  // ---- Adding and removing ----

  /** Record r can take a new entry of `need` bytes: it is dead and long enough, or has that much to spare. */
  predicate HasRoom(r: Record, need: nat) {
    (!r.Live() && need <= r.recLen) || MinLen(|r.name|) + need <= r.recLen
  }

  /** The test for room is exact: a dead record must be long enough, and a live one must have a place to cut
      that leaves both entries their length. */
  lemma RoomIff(r: Record, name: Name)
    ensures HasRoom(r, MinLen(|name|)) <==>
      if r.Live() then exists cut: nat :: CutFits(r, cut, name) else MinLen(|name|) <= r.recLen
  {
    hide MinLen;
    if r.Live() && HasRoom(r, MinLen(|name|)) { assert CutFits(r, MinLen(|r.name|), name); }
  }

  ghost predicate CutFits(r: Record, cut: nat, name: Name) {
    MinLen(|r.name|) <= cut && cut + MinLen(|name|) <= r.recLen
  }

  /** The first record with room; |rs| when there is none. */
  ghost function FirstRoom(rs: seq<Record>, need: nat): (i: nat)
    ensures i <= |rs|
    ensures i < |rs| ==> HasRoom(rs[i], need)
    ensures forall j :: 0 <= j < i ==> !HasRoom(rs[j], need)
    decreases |rs|
  {
    if rs == [] || HasRoom(rs[0], need) then 0 else 1 + FirstRoom(rs[1..], need)
  }

  /** Record k taken over if it is dead, else cut to its minimum with the new record after it. */
  ghost function Added(rs: seq<Record>, k: nat, inode: nat, fileType: byte, name: Name): (r: seq<Record>)
    requires k < |rs| && HasRoom(rs[k], MinLen(|name|))
  {
    rs[..k] + Inserted(rs[k], inode, fileType, name) + rs[k + 1..]
  }

  ghost function Inserted(r: Record, inode: nat, fileType: byte, name: Name): (s: seq<Record>)
    requires HasRoom(r, MinLen(|name|))
  {
    if !r.Live() then
      [Record(inode, r.recLen, fileType, name)]
    else
      [r.(recLen := MinLen(|r.name|)), Record(inode, r.recLen - MinLen(|r.name|), fileType, name)]
  }

  /** Record k joined to the record before it; the first record only loses its inode. */
  ghost function Removed(rs: seq<Record>, k: nat): (r: seq<Record>)
    requires k < |rs|
  {
    if k == 0 then [rs[0].(inode := 0)] + rs[1..]
    else rs[..k - 1] + [rs[k - 1].(recLen := rs[k - 1].recLen + rs[k].recLen)] + rs[k + 1..]
  }

  /** A live record of this name and inode exists. */
  ghost predicate Has(rs: seq<Record>, name: Name, inode: nat) {
    inode != 0 && exists i :: 0 <= i < |rs| && rs[i].name == name && rs[i].inode == inode
  }

  lemma ContentsHas(rs: seq<Record>, name: Name, inode: nat)
    requires Distinct(rs)
    ensures Has(rs, name, inode) <==> name in Contents(rs) && Contents(rs)[name] == inode
  {
    ContentsAt(rs, name);
  }

  lemma SameContents(rs: seq<Record>, m: map<Name, nat>)
    requires Distinct(rs)
    requires forall name, inode :: Has(rs, name, inode) <==> name in m && m[name] == inode
    ensures Contents(rs) == m
  {
    var c := Contents(rs);
    forall name: Name | name in c ensures name in m && m[name] == c[name] {
      ContentsHas(rs, name, c[name]);
    }
    forall name: Name | name in m ensures name in c {
      assert Has(rs, name, m[name]);
      ContentsHas(rs, name, m[name]);
    }
  }

  /** Where record `j` of Added comes from: `x` is 1 when a record was split and 0 when it was dead. */
  lemma AddedAt(rs: seq<Record>, k: nat, inode: nat, fileType: byte, name: Name, j: nat)
    requires k < |rs| && HasRoom(rs[k], MinLen(|name|)) && j < |Added(rs, k, inode, fileType, name)|
    ensures var a := Added(rs, k, inode, fileType, name);
      var x := if rs[k].Live() then 1 else 0;
      && |a| == |rs| + x
      && if j == k + x then a[j].name == name && a[j].inode == inode && a[j].fileType == fileType
         else var i := if j <= k then j else j - x;
              a[j].name == rs[i].name && a[j].inode == rs[i].inode && a[j].fileType == rs[i].fileType
  {
    hide MinLen;
  }

  lemma AddedHas(rs: seq<Record>, k: nat, inode: nat, fileType: byte, name: Name, n: Name, v: nat)
    requires k < |rs| && HasRoom(rs[k], MinLen(|name|)) && inode != 0
    ensures Has(Added(rs, k, inode, fileType, name), n, v) <==> Has(rs, n, v) || (n == name && v == inode)
  {
    hide Added, MinLen, HasRoom;
    var a := Added(rs, k, inode, fileType, name);
    var x := if rs[k].Live() then 1 else 0;
    assert |a| == |rs| + x by { AddedLength(rs, k, inode, fileType, name); }
    AddedAt(rs, k, inode, fileType, name, k + x);
    if i :| 0 <= i < |rs| && rs[i].name == n && rs[i].inode == v != 0 {
      AddedAt(rs, k, inode, fileType, name, if i <= k then i else i + x);
    }
    if j :| 0 <= j < |a| && a[j].name == n && a[j].inode == v != 0 && j != k + x {
      AddedAt(rs, k, inode, fileType, name, j);
    }
  }

  /** There is a live entry with this name, inode and file type. */
  ghost predicate HasFile(rs: seq<Record>, name: Name, inode: nat, fileType: byte) {
    inode != 0 && exists i :: 0 <= i < |rs| && rs[i].name == name && rs[i].inode == inode && rs[i].fileType == fileType
  }

  /** An added entry has the file type it was given, and every live entry keeps its own. */
  lemma AddedFiles(rs: seq<Record>, k: nat, inode: nat, fileType: byte, name: Name, n: Name, v: nat, ft: byte)
    requires k < |rs| && HasRoom(rs[k], MinLen(|name|)) && inode != 0
    ensures HasFile(Added(rs, k, inode, fileType, name), n, v, ft)
       <==> HasFile(rs, n, v, ft) || (n == name && v == inode && ft == fileType)
  {
    hide Added, MinLen, HasRoom;
    var a := Added(rs, k, inode, fileType, name);
    var x := if rs[k].Live() then 1 else 0;
    assert |a| == |rs| + x by { AddedLength(rs, k, inode, fileType, name); }
    AddedAt(rs, k, inode, fileType, name, k + x);
    if i :| 0 <= i < |rs| && rs[i].name == n && rs[i].inode == v != 0 && rs[i].fileType == ft {
      AddedAt(rs, k, inode, fileType, name, if i <= k then i else i + x);
    }
    if j :| 0 <= j < |a| && a[j].name == n && a[j].inode == v != 0 && a[j].fileType == ft && j != k + x {
      AddedAt(rs, k, inode, fileType, name, j);
    }
  }

  /** A record that is split keeps no room: all of it goes to the new record behind it. */
  lemma SplitLeavesNoRoom(rs: seq<Record>, k: nat, inode: nat, fileType: byte, name: Name, need: nat)
    requires k < |rs| && HasRoom(rs[k], MinLen(|name|)) && rs[k].Live() && 0 < need
    ensures var a := Added(rs, k, inode, fileType, name);
      && !HasRoom(a[k], need) && a[k].name == rs[k].name
      && a[k + 1].name == name && a[k].recLen + a[k + 1].recLen == rs[k].recLen
  {
    hide MinLen;
  }

  lemma AddedLength(rs: seq<Record>, k: nat, inode: nat, fileType: byte, name: Name)
    requires k < |rs| && HasRoom(rs[k], MinLen(|name|))
    ensures |Added(rs, k, inode, fileType, name)| == |rs| + if rs[k].Live() then 1 else 0
  {
  }

  lemma AddedDistinct(rs: seq<Record>, k: nat, inode: nat, fileType: byte, name: Name)
    requires k < |rs| && HasRoom(rs[k], MinLen(|name|)) && Distinct(rs) && !Named(rs, name)
    ensures Distinct(Added(rs, k, inode, fileType, name))
  {
    hide Added, MinLen, HasRoom;
    var a := Added(rs, k, inode, fileType, name);
    forall i, j | 0 <= i < j < |a| ensures a[i].name != a[j].name {
      AddedAt(rs, k, inode, fileType, name, i);
      AddedAt(rs, k, inode, fileType, name, j);
    }
  }

  /** AddEntry adds one name to the map and changes no other. */
  lemma AddedContents(rs: seq<Record>, k: nat, inode: nat, fileType: byte, name: Name)
    requires k < |rs| && HasRoom(rs[k], MinLen(|name|)) && inode != 0 && Distinct(rs) && !Named(rs, name)
    ensures Distinct(Added(rs, k, inode, fileType, name))
    ensures Contents(Added(rs, k, inode, fileType, name)) == Contents(rs)[name := inode]
  {
    var a := Added(rs, k, inode, fileType, name);
    AddedDistinct(rs, k, inode, fileType, name);
    forall n: Name, v: nat
      ensures Has(a, n, v) <==> n in Contents(rs)[name := inode] && Contents(rs)[name := inode][n] == v
    {
      AddedHas(rs, k, inode, fileType, name, n, v);
      ContentsHas(rs, n, v);
    }
    SameContents(a, Contents(rs)[name := inode]);
  }

  lemma RemovedHas(rs: seq<Record>, k: nat, n: Name, v: nat)
    requires k < |rs| && Distinct(rs)
    ensures Has(Removed(rs, k), n, v) <==> Has(rs, n, v) && n != rs[k].name
  {
    var a := Removed(rs, k);
    if k == 0 {
      assert forall j :: 0 < j < |rs| ==> a[j] == rs[j];
    } else {
      if i :| 0 <= i < |rs| && rs[i].name == n && rs[i].inode == v != 0 && i != k {
        var j := if i < k then i else i - 1;
        assert a[j].name == n && a[j].inode == v;
      }
      if j :| 0 <= j < |a| && a[j].name == n && a[j].inode == v != 0 {
        var i := if j < k then j else j + 1;
        assert rs[i].name == n && rs[i].inode == v;
      }
    }
  }

  lemma RemovedDistinct(rs: seq<Record>, k: nat)
    requires k < |rs| && Distinct(rs)
    ensures Distinct(Removed(rs, k))
  {
    var a := Removed(rs, k);
    forall i, j | 0 <= i < j < |a| ensures a[i].name != a[j].name {
      var i' := if k == 0 || i < k then i else i + 1;
      var j' := if k == 0 || j < k then j else j + 1;
      assert a[i].name == rs[i'].name && a[j].name == rs[j'].name;
    }
  }

  /** RemoveEntry takes one name out of the map and changes no other. */
  lemma RemovedContents(rs: seq<Record>, k: nat)
    requires k < |rs| && Distinct(rs)
    ensures Distinct(Removed(rs, k))
    ensures Contents(Removed(rs, k)) == Contents(rs) - {rs[k].name}
  {
    RemovedDistinct(rs, k);
    forall n: Name, v: nat
      ensures Has(Removed(rs, k), n, v) <==> n in Contents(rs) - {rs[k].name} && (Contents(rs) - {rs[k].name})[n] == v
    {
      RemovedHas(rs, k, n, v);
      ContentsHas(rs, n, v);
    }
    SameContents(Removed(rs, k), Contents(rs) - {rs[k].name});
  }

  /** A removed entry is hidden from FindEntry exactly when it was not the first record. */
  lemma HiddenIffNotFirst(rs: seq<Record>, k: nat)
    requires k < |rs| && Distinct(rs)
    ensures Lookup(Removed(rs, k), rs[k].name) == None <==> k != 0
  {
    var a := Removed(rs, k);
    if k == 0 {
      assert a[0].name == rs[0].name;
    } else {
      forall j | 0 <= j < |a| ensures a[j].name != rs[k].name {
        assert a[j].name == rs[if j < k then j else j + 1].name;
      }
    }
  }

  // ---- Runs ----

  datatype Op = Add(name: Name, inode: nat, fileType: byte) | Remove(name: Name)

  /** A file is created under a name not found, where there is room, and removed under a name found. */
  ghost predicate Can(rs: seq<Record>, op: Op) {
    match op
    case Add(name, inode, _) => !Named(rs, name) && inode != 0 && FirstRoom(rs, MinLen(|name|)) < |rs|
    case Remove(name) => Index(rs, name) < |rs|
  }

  ghost function Step(rs: seq<Record>, op: Op): (r: seq<Record>)
    requires Can(rs, op)
  {
    match op
    case Add(name, inode, fileType) => Added(rs, FirstRoom(rs, MinLen(|name|)), inode, fileType, name)
    case Remove(name) => Removed(rs, Index(rs, name))
  }

  ghost predicate CanRun(rs: seq<Record>, ops: seq<Op>)
    decreases |ops|
  {
    ops == [] || (Can(rs, ops[0]) && CanRun(Step(rs, ops[0]), ops[1..]))
  }

  ghost function Run(rs: seq<Record>, ops: seq<Op>): (r: seq<Record>)
    requires CanRun(rs, ops)
    decreases |ops|
  {
    if ops == [] then rs else Run(Step(rs, ops[0]), ops[1..])
  }

  /** The same run on a finite map. */
  ghost function MapRun(m: map<Name, nat>, ops: seq<Op>): (r: map<Name, nat>)
    decreases |ops|
  {
    if ops == [] then m
    else MapRun(if ops[0].Add? then m[ops[0].name := ops[0].inode] else m - {ops[0].name}, ops[1..])
  }

  /** While the first record stays, every record stays live and first stays first. */
  lemma StepLive(rs: seq<Record>, op: Op)
    requires rs != [] && AllLive(rs) && Distinct(rs) && Can(rs, op)
    requires op.Remove? ==> op.name != rs[0].name
    ensures var r := Step(rs, op); r != [] && AllLive(r) && r[0].name == rs[0].name
  {
    var r := Step(rs, op);
    if op.Add? {
      var k := FirstRoom(rs, MinLen(|op.name|));
      assert rs[k].Live();
      forall i | 0 <= i < |r| ensures r[i].Live() {
        if i != k + 1 { assert r[i].inode == rs[if i <= k then i else i - 1].inode; }
      }
    } else {
      var k := Index(rs, op.name);
      forall i | 0 <= i < |r| ensures r[i].Live() {
        assert r[i].inode == rs[if i < k then i else i + 1].inode;
      }
    }
  }

  /** Over any run that keeps the first record, FindEntry is lookup in a finite map. */
  lemma {:induction false} RunIsMap(rs: seq<Record>, ops: seq<Op>)
    requires rs != [] && AllLive(rs) && Distinct(rs) && CanRun(rs, ops)
    requires forall i :: 0 <= i < |ops| && ops[i].Remove? ==> ops[i].name != rs[0].name
    ensures Distinct(Run(rs, ops)) && AllLive(Run(rs, ops))
    ensures Contents(Run(rs, ops)) == MapRun(Contents(rs), ops)
    ensures forall name: Name :: Lookup(Run(rs, ops), name) == Get(MapRun(Contents(rs), ops), name)
    decreases |ops|
  {
    if ops == [] {
      AgreesIffAllLive(rs);
    } else {
      var op := ops[0];
      StepLive(rs, op);
      match op {
        case Add(name, inode, fileType) =>
          AddedContents(rs, FirstRoom(rs, MinLen(|name|)), inode, fileType, name);
        case Remove(name) =>
          RemovedContents(rs, Index(rs, name));
      }
      RunIsMap(Step(rs, op), ops[1..]);
    }
  }

  // ---- The block ----

  /** strncmp finds no difference in the first n bytes. */
  predicate SameString(s: seq<byte>, t: seq<byte>, n: nat)
    requires n <= |s| && n <= |t|
    decreases n
  {
    n == 0 || (s[0] == t[0] && (s[0] == 0 || SameString(s[1..], t[1..], n - 1)))
  }

  lemma {:induction false} SameStringIsEqual(s: seq<byte>, t: seq<byte>)
    requires |s| == |t| && 0 !in t
    ensures SameString(s, t, |s|) <==> s == t
    decreases |s|
  {
    if s == [] {
    } else {
      SameStringIsEqual(s[1..], t[1..]);
      assert s == [s[0]] + s[1..] && t == [t[0]] + t[1..];
    }
  }

  /** Byte `i` is compared when no zero byte stands before it. */
  lemma {:induction false} SameStringIff(s: seq<byte>, t: seq<byte>, n: nat)
    requires n <= |s| && n <= |t|
    ensures SameString(s, t, n) <==> forall i :: 0 <= i < n && 0 !in t[..i] ==> s[i] == t[i]
    decreases n
  {
    if n == 0 {
    } else if s[0] != t[0] {
      assert t[..0] == [];
    } else if t[0] == 0 {
      forall i | 0 < i < n ensures 0 in t[..i] { assert t[..i][0] == 0; }
    } else {
      SameStringIff(s[1..], t[1..], n - 1);
      TailSame(s, t, n);
    }
  }

  lemma TailSame(s: seq<byte>, t: seq<byte>, n: nat)
    requires 0 < n <= |s| && n <= |t| && s[0] == t[0] != 0
    ensures (forall i :: 0 <= i < n && 0 !in t[..i] ==> s[i] == t[i])
       <==> (forall i :: 0 <= i < n - 1 && 0 !in t[1..][..i] ==> s[1..][i] == t[1..][i])
  {
    forall i | 0 <= i < n - 1 ensures 0 !in t[1..][..i] <==> 0 !in t[..i + 1] {
      assert t[..i + 1] == [t[0]] + t[1..][..i];
    }
    if forall i :: 0 <= i < n - 1 && 0 !in t[1..][..i] ==> s[1..][i] == t[1..][i] {
      forall i | 0 <= i < n && 0 !in t[..i] ensures s[i] == t[i] {
        if i > 0 { assert s[1..][i - 1] == t[1..][i - 1]; }
      }
    }
    if forall i :: 0 <= i < n && 0 !in t[..i] ==> s[i] == t[i] {
      forall i | 0 <= i < n - 1 && 0 !in t[1..][..i] ensures s[1..][i] == t[1..][i] {
        assert s[i + 1] == t[i + 1];
      }
    }
  }

  /** The test of Ext3FindEntry: the same length, and no difference before a zero byte. */
  predicate Matches(stored: seq<byte>, name: seq<byte>) {
    |stored| == |name| && SameString(stored, name, |name|)
  }

  /** The record that Ext3FindEntry finds; |rs| when there is none. */
  ghost function FirstMatch(rs: seq<Record>, name: seq<byte>): (i: nat)
    ensures i <= |rs|
    ensures i < |rs| ==> Matches(rs[i].name, name)
    ensures forall j :: 0 <= j < i ==> !Matches(rs[j].name, name)
    decreases |rs|
  {
    if rs == [] || Matches(rs[0].name, name) then 0 else 1 + FirstMatch(rs[1..], name)
  }

  /** For names without zero bytes the record found is the one with exactly that name. */
  lemma {:induction false} FirstMatchIsIndex(rs: seq<Record>, name: seq<byte>)
    requires 0 !in name
    ensures FirstMatch(rs, name) == Index(rs, name)
    decreases |rs|
  {
    if rs == [] {
    } else {
      if |rs[0].name| == |name| { SameStringIsEqual(rs[0].name, name); }
      FirstMatchIsIndex(rs[1..], name);
    }
  }

  lemma HoldsFrame(b: seq<byte>, b': seq<byte>, o: nat, r: Record)
    requires Holds(b, o, r) && |b| == |b'|
    requires forall x :: o <= x < o + r.recLen ==> b'[x] == b[x]
    ensures Holds(b', o, r)
  {
    assert b'[o + 8..o + 8 + |r.name|] == b[o + 8..o + 8 + |r.name|];
  }

  /** A record starts with its inode number. */
  lemma InodeAt(b: seq<byte>, rs: seq<Record>, k: nat)
    requires Tiles(b, 0, |b|, rs) && k < |rs|
    ensures Length(rs[..k]) + 4 <= |b| && Le32(b, Length(rs[..k])) == rs[k].inode
  {
    RecordAt(b, rs, k);
  }

  lemma HoldsBounds(b: seq<byte>, o: nat, r: Record)
    requires Holds(b, o, r)
    ensures 8 <= MinLen(|r.name|) <= r.recLen && o + r.recLen <= |b|
    ensures Le16(b, o + 4) == r.recLen
  {
  }

  class Directory {
    const data: array<byte>
    ghost var recs: seq<Record>

    ghost predicate Valid()
      reads this, data
    {
      data.Length < 0x1_0000 && Tiles(data[..], 0, data.Length, recs)
    }

    /** Ext3FindEntry: the offset of the first record that matches the name, or -ENOENT. */
    method FindEntry(name: seq<byte>) returns (err: int, offset: nat)
      requires Valid()
      ensures if FirstMatch(recs, name) < |recs| then err == 0 && offset == Length(recs[..FirstMatch(recs, name)])
              else err == -ENOENT
      ensures err == 0 ==>
                offset + 4 <= data.Length && Le32(data[..], offset) == recs[FirstMatch(recs, name)].inode
      ensures 0 !in name ==> FirstMatch(recs, name) == Index(recs, name)
    {
      hide Holds, Matches;
      if 0 !in name { FirstMatchIsIndex(recs, name); }
      offset := 0;
      ghost var k := 0;
      EndsAtLast(data[..], recs, 0);
      while offset < data.Length
        invariant k <= |recs| && offset == Length(recs[..k]) <= data.Length
        invariant offset == data.Length <==> k == |recs|
        invariant forall j :: 0 <= j < k ==> !Matches(recs[j].name, name)
        decreases |recs| - k
      {
        var recLen, found := Compare(offset, name, k);
        if found {
          InodeAt(data[..], recs, k);
          return 0, offset;
        }
        offset, k := offset + recLen, k + 1;
        EndsAtLast(data[..], recs, k);
      }
      return -ENOENT, offset;
    }

    /** Ext3AddEntry: the first record with room takes the entry. Without one the machine halts. */
    method AddEntry(name: Name, inode: nat, fileType: byte) returns (halted: bool)
      requires Valid() && 0 < inode < 0x1_0000_0000
      modifies this, data
      ensures Valid()
      ensures halted <==> FirstRoom(old(recs), MinLen(|name|)) == |old(recs)|
      ensures recs == if halted then old(recs)
                      else Added(old(recs), FirstRoom(old(recs), MinLen(|name|)), inode, fileType, name)
    {
      hide Holds;
      var need := MinLen(|name|);
      var offset := 0;
      ghost var k := 0;
      while true
        invariant Valid() && recs == old(recs) && data[..] == old(data[..])
        invariant k <= |recs| && offset == Length(recs[..k])
        invariant forall j :: 0 <= j < k ==> !HasRoom(recs[j], need)
        decreases |recs| - k
      {
        EndsAtLast(data[..], recs, k);
        if offset >= data.Length {
          return true;
        }
        var live, recLen, least := Header(offset, k);
        if (!live && need <= recLen) || least + need <= recLen {
          Insert(offset, live, recLen, least, name, inode, fileType, k);
          return false;
        }
        offset, k := offset + recLen, k + 1;
      }
    }

    method Header(offset: nat, ghost k: nat) returns (live: bool, recLen: nat, least: nat)
      requires Valid() && k < |recs| && offset == Length(recs[..k])
      ensures live == recs[k].Live() && recLen == recs[k].recLen && least == MinLen(|recs[k].name|)
      ensures Length(recs[..k + 1]) == offset + recLen
    {
      RecordAt(data[..], recs, k);
      live, recLen, least := Le32(data[..], offset) != 0, Le16(data[..], offset + 4), MinLen(data[offset + 6]);
    }

    method Insert(offset: nat, live: bool, recLen: nat, least: nat, name: Name, inode: nat, fileType: byte,
                  ghost k: nat)
      requires Valid() && 0 < inode < 0x1_0000_0000
      requires k < |recs| && offset == Length(recs[..k]) && HasRoom(recs[k], MinLen(|name|))
      requires live == recs[k].Live() && recLen == recs[k].recLen && least == MinLen(|recs[k].name|)
      modifies this, data
      ensures Valid() && recs == Added(old(recs), k, inode, fileType, name)
    {
      hide Length, Tiles, Holds, Added, MinLen, Inserted;
      ghost var b := data[..];
      RecordAt(b, recs, k);
      HoldsBounds(b, offset, recs[k]);
      PutInto(offset, live, recLen, least, name, inode, fileType, recs[k]);
      AddedTiles(b, data[..], recs, k, inode, fileType, name);
      recs := Added(recs, k, inode, fileType, name);
    }

    /** The bytes of one record taken over or split. */
    method PutInto(offset: nat, live: bool, recLen: nat, least: nat, name: Name, inode: nat, fileType: byte,
                   ghost r: Record)
      requires data.Length < 0x1_0000 && Holds(data[..], offset, r) && offset + recLen <= data.Length
      requires 0 < inode < 0x1_0000_0000 && HasRoom(r, MinLen(|name|))
      requires live == r.Live() && recLen == r.recLen && least == MinLen(|r.name|)
      modifies data
      ensures Tiles(data[..], offset, offset + recLen, Inserted(r, inode, fileType, name))
      ensures forall x :: 0 <= x < data.Length && !(offset <= x < offset + recLen) ==> data[x] == old(data[x])
    {
      hide Tiles, Holds, MinLen;
      HoldsBounds(data[..], offset, r);
      if live {
        ghost var first := r.(recLen := least);
        Cut(offset, recLen, least, r);
        ghost var b1 := data[..];
        Fill(offset + least, recLen - least, name, inode, fileType);
        HoldsFrame(b1, data[..], offset, first);
        Two(data[..], offset, first, Record(inode, recLen - least, fileType, name));
      } else {
        Fill(offset, recLen, name, inode, fileType);
        One(data[..], offset, Record(inode, recLen, fileType, name));
      }
    }

    /** The record cut to its minimum, a new record length after it. */
    method Cut(offset: nat, recLen: nat, least: nat, ghost r: Record)
      requires data.Length < 0x1_0000 && Holds(data[..], offset, r)
      requires recLen == r.recLen && least == MinLen(|r.name|) && least + 8 <= recLen
      modifies data
      ensures Holds(data[..], offset, r.(recLen := least)) && Le16(data[..], offset + least + 4) == recLen - least
      ensures forall x :: 0 <= x < data.Length && !(offset <= x < offset + recLen) ==> data[x] == old(data[x])
    {
      SetLength(offset, least, r);
      ghost var b := data[..];
      Store16(data, offset + least + 4, recLen - least);
      HoldsFrame(b, data[..], offset, r.(recLen := least));
    }

    /** Another record length, the rest of the header and the name kept. */
    method SetLength(offset: nat, recLen: nat, ghost r: Record)
      requires data.Length < 0x1_0000 && Holds(data[..], offset, r)
      requires MinLen(|r.name|) <= recLen && offset + recLen <= data.Length
      modifies data
      ensures Holds(data[..], offset, r.(recLen := recLen))
      ensures forall x :: 0 <= x < data.Length && !(offset + 4 <= x < offset + 6) ==> data[x] == old(data[x])
    {
      ghost var b := data[..];
      Store16(data, offset + 4, recLen);
      assert data[..][offset + 8..offset + 8 + |r.name|] == b[offset + 8..offset + 8 + |r.name|];
    }

    /** The fields of the new entry. */
    method Fill(offset: nat, ghost recLen: nat, name: Name, inode: nat, fileType: byte)
      requires inode < 0x1_0000_0000 && MinLen(|name|) <= recLen && offset + recLen <= data.Length
      requires Le16(data[..], offset + 4) == recLen
      modifies data
      ensures Holds(data[..], offset, Record(inode, recLen, fileType, name))
      ensures forall x :: 0 <= x < data.Length && !(offset <= x < offset + recLen) ==> data[x] == old(data[x])
    {
      Store32(data, offset, inode);
      data[offset + 7] := fileType;
      data[offset + 6] := |name|;
      for i := 0 to |name|
        invariant data[offset + 8..offset + 8 + i] == name[..i]
        invariant forall x :: 0 <= x < data.Length && !(offset <= x < offset + recLen) ==> data[x] == old(data[x])
        invariant Le32(data[..], offset) == inode && Le16(data[..], offset + 4) == recLen
        invariant data[offset + 6] == |name| && data[offset + 7] == fileType
      {
        data[offset + 8 + i] := name[i];
      }
    }

    /** Ext3RemoveEntry: the record at this offset leaves, or -ENOENT when none starts there. */
    method RemoveEntry(entry: nat, ghost k: nat) returns (err: int)
      requires Valid()
      requires k <= |recs| && (k < |recs| ==> entry == Length(recs[..k]))
      requires k == |recs| ==> forall j :: 0 <= j < |recs| ==> entry != Length(recs[..j])
      modifies this, data
      ensures Valid()
      ensures if k < |old(recs)| then err == 0 && recs == Removed(old(recs), k)
              else err == -ENOENT && recs == old(recs) && data[..] == old(data[..])
    {
      hide Holds, Length;
      var i, prev := 0, -1;
      ghost var c := 0;
      assert Length(recs[..0]) == 0 by { EmptyLength(); }
      while i < data.Length
        invariant Valid() && recs == old(recs) && data[..] == old(data[..])
        invariant c <= k && i == Length(recs[..c])
        invariant if c == 0 then prev == -1 else prev == Length(recs[..c - 1])
        decreases |recs| - c
      {
        EndsAtLast(data[..], recs, c);
        var _, recLen, _ := Header(i, c);
        if c < k { if k < |recs| { StartsDiffer(data[..], recs, c, k); } }
        if i == entry {
          if prev >= 0 {
            Join(prev, i, c);
          } else {
            Clear(i);
          }
          return 0;
        }
        i, prev, c := i + recLen, i, c + 1;
      }
      EndsAtLast(data[..], recs, c);
      return -ENOENT;
    }

    method Join(prev: nat, curr: nat, ghost k: nat)
      requires Valid() && 0 < k < |recs| && prev == Length(recs[..k - 1]) && curr == Length(recs[..k])
      modifies this, data
      ensures Valid() && recs == Removed(old(recs), k)
    {
      hide Length, Tiles, Holds, Removed;
      ghost var b, p := data[..], recs[k - 1];
      RecordAt(b, recs, k - 1);
      RecordAt(b, recs, k);
      HoldsBounds(b, prev, p);
      HoldsBounds(b, curr, recs[k]);
      SetLength(prev, Le16(data[..], prev + 4) + Le16(data[..], curr + 4), p);
      JoinedTiles(b, data[..], recs, k - 1, prev, p.(recLen := p.recLen + recs[k].recLen));
      recs := Removed(recs, k);
    }

    method Clear(curr: nat)
      requires Valid() && recs != [] && curr == 0
      modifies this, data
      ensures Valid() && recs == Removed(old(recs), 0)
    {
      hide Length;
      ghost var b, r := data[..], recs[0];
      EmptyLength();
      assert recs[..0] == [];
      RecordAt(b, recs, 0);
      Store32(data, curr, 0);
      assert data[..][8..8 + |r.name|] == b[8..8 + |r.name|];
      One(data[..], 0, r.(inode := 0));
      TilesReplace(b, data[..], recs, 0, 1, [r.(inode := 0)]);
      assert recs[..0] + [r.(inode := 0)] + recs[1..] == Removed(recs, 0);
      recs := Removed(recs, 0);
    }

    /** Ext3Remove: the entry with this name goes, or -ENOENT. */
    method Remove(name: seq<byte>) returns (err: int)
      requires Valid()
      modifies this, data
      ensures Valid()
      ensures if FirstMatch(old(recs), name) < |old(recs)|
              then err == 0 && recs == Removed(old(recs), FirstMatch(old(recs), name))
              else err == -ENOENT && recs == old(recs)
      ensures 0 !in name ==> FirstMatch(old(recs), name) == Index(old(recs), name)
    {
      var entry;
      err, entry := FindEntry(name);
      if err == 0 {
        err := RemoveEntry(entry, FirstMatch(recs, name));
      }
    }

    /** Ext3Lookup: the inode number of the record found. */
    method LookupName(name: seq<byte>) returns (r: Option<nat>)
      requires Valid()
      ensures r == if FirstMatch(recs, name) < |recs| then Some(recs[FirstMatch(recs, name)].inode) else None
      ensures 0 !in name ==> r == Lookup(recs, name)
    {
      hide Length, Le32;
      var err, offset := FindEntry(name);
      r := if err == 0 then Some(Le32(data[..], offset)) else None;
    }

    /** One operation of a run, on the block. */
    method Do(op: Op)
      requires Valid() && Can(recs, op) && 0 !in op.name && (op.Add? ==> op.inode < 0x1_0000_0000)
      modifies this, data
      ensures Valid() && recs == Step(old(recs), op)
    {
      match op {
        case Add(name, inode, fileType) =>
          var _ := AddEntry(name, inode, fileType);
        case Remove(name) =>
          var _ := Remove(name);
      }
    }

    /** A run of creations and removals on the bytes of a block, and then a lookup: the answer is that of
        a finite map, for every run that keeps the first record. */
    method RunThenLookup(ops: seq<Op>, name: Name) returns (r: Option<nat>)
      requires Valid() && recs != [] && AllLive(recs) && Distinct(recs) && CanRun(recs, ops) && 0 !in name
      requires forall i :: 0 <= i < |ops| ==> 0 !in ops[i].name && (ops[i].Add? ==> ops[i].inode < 0x1_0000_0000)
      requires forall i :: 0 <= i < |ops| && ops[i].Remove? ==> ops[i].name != recs[0].name
      modifies this, data
      ensures Valid() && r == Get(MapRun(Contents(old(recs)), ops), name)
    {
      hide Valid, Step, Can, MapRun, Contents, Lookup, Get, AllLive, Distinct;
      ghost var rs := recs;
      RunIsMap(rs, ops);
      assert ops[0..] == ops;
      for i := 0 to |ops|
        invariant Valid() && CanRun(recs, ops[i..]) && Run(recs, ops[i..]) == Run(rs, ops)
      {
        assert ops[i..][0] == ops[i] && ops[i..][1..] == ops[i + 1..];
        Do(ops[i]);
      }
      assert ops[|ops|..] == [];
      r := LookupName(name);
    }

    method Compare(offset: nat, name: seq<byte>, ghost k: nat) returns (recLen: nat, found: bool)
      requires Valid() && k < |recs| && offset == Length(recs[..k])
      ensures recLen == recs[k].recLen && Length(recs[..k + 1]) == offset + recLen
      ensures found <==> Matches(recs[k].name, name)
    {
      RecordAt(data[..], recs, k);
      recLen := Le16(data[..], offset + 4);
      found := false;
      if data[offset + 6] == |name| {
        assert data[offset + 8..offset + 8 + |name|] == recs[k].name;
        found := SameString(data[offset + 8..offset + 8 + |name|], name, |name|);
      }
    }
  }

  lemma AddedTiles(b: seq<byte>, b': seq<byte>, rs: seq<Record>, k: nat, inode: nat, fileType: byte, name: Name)
    requires Tiles(b, 0, |b|, rs) && k < |rs| && HasRoom(rs[k], MinLen(|name|)) && |b| == |b'|
    requires forall x :: 0 <= x < |b| && !(Length(rs[..k]) <= x < Length(rs[..k]) + rs[k].recLen) ==> b'[x] == b[x]
    requires Tiles(b', Length(rs[..k]), Length(rs[..k]) + rs[k].recLen, Inserted(rs[k], inode, fileType, name))
    ensures Tiles(b', 0, |b'|, Added(rs, k, inode, fileType, name))
  {
    hide Tiles, Length, Inserted, MinLen, HasRoom;
    LengthNext(rs, k);
    TilesReplace(b, b', rs, k, k + 1, Inserted(rs[k], inode, fileType, name));
  }

  lemma JoinedTiles(b: seq<byte>, b': seq<byte>, rs: seq<Record>, p: nat, o: nat, joined: Record)
    requires Tiles(b, 0, |b|, rs) && p + 1 < |rs| && |b| == |b'| && o == Length(rs[..p])
    requires joined == rs[p].(recLen := rs[p].recLen + rs[p + 1].recLen) && Holds(b', o, joined)
    requires forall x :: 0 <= x < |b| && !(o + 4 <= x < o + 6) ==> b'[x] == b[x]
    ensures Tiles(b', 0, |b'|, Removed(rs, p + 1))
  {
    hide Tiles, Length, Holds, MinLen;
    TwoLengths(rs, p);
    HoldsBounds(b', o, joined);
    One(b', o, joined);
    TilesReplace(b, b', rs, p, p + 2, [joined]);
    RemovedJoins(rs, p);
  }

  lemma TwoLengths(rs: seq<Record>, p: nat)
    requires p + 1 < |rs|
    ensures Length(rs[..p + 2]) == Length(rs[..p]) + rs[p].recLen + rs[p + 1].recLen
  {
    hide Length;
    LengthNext(rs, p);
    LengthNext(rs, p + 1);
  }

  lemma RemovedJoins(rs: seq<Record>, p: nat)
    requires p + 1 < |rs|
    ensures Removed(rs, p + 1) == rs[..p] + [rs[p].(recLen := rs[p].recLen + rs[p + 1].recLen)] + rs[p + 2..]
  {
  }

  lemma One(b: seq<byte>, o: nat, r: Record)
    requires Holds(b, o, r)
    ensures Tiles(b, o, o + r.recLen, [r])
  {
  }

  lemma Two(b: seq<byte>, o: nat, r: Record, r': Record)
    requires Holds(b, o, r) && Holds(b, o + r.recLen, r')
    ensures Tiles(b, o, o + r.recLen + r'.recLen, [r, r'])
  {
    One(b, o + r.recLen, r');
    assert [r, r'][1..] == [r'];
  }

  /** Record starts reach the end of the block only after the last record. */
  lemma EndsAtLast(b: seq<byte>, rs: seq<Record>, k: nat)
    requires Tiles(b, 0, |b|, rs) && k <= |rs|
    ensures Length(rs[..k]) == |b| <==> k == |rs|
    ensures Length(rs[..k]) <= |b|
  {
    TilesLength(b, 0, |b|, rs);
    if k < |rs| {
      RecordAt(b, rs, k);
    } else {
      assert rs[..k] == rs;
    }
  }

  /** Different records start at different offsets. */
  lemma {:induction false} StartsDiffer(b: seq<byte>, rs: seq<Record>, i: nat, j: nat)
    requires Tiles(b, 0, |b|, rs) && i < j <= |rs|
    ensures Length(rs[..i]) < Length(rs[..j])
    decreases j
  {
    RecordAt(b, rs, j - 1);
    if i < j - 1 { StartsDiffer(b, rs, i, j - 1); }
  }
}
