/**
 Long file names (fs/fat/vnode.c FatAddName, fs/fat/dir.c FatGetLongName): a name is cut into
 slots of 13 characters that are stored last part first, ahead of the short entry.
 */
module FatNames {
  import opened Bytes
  import opened Errors
  import opened Sequences

  const ATTR_EXT := 0x0F

  /** A directory entry or slot as stored. */
  type Entry = e: seq<byte> | |e| == 32 witness seq<byte>(32, _ => 0)

  /** Where character `i` of a slot is stored: five characters from byte 1, six from byte 14, two
      from byte 28, each followed by a zero. */
  function CharOffset(i: nat): (o: nat)
    requires i < 13
    ensures o < 32
  {
    if i < 5 then 1 + 2 * i else if i < 11 then 14 + 2 * (i - 5) else 28 + 2 * (i - 11)
  }

  /** The bytes of a slot that hold characters. */
  predicate IsCharOffset(o: int) {
    (1 <= o < 11 && o % 2 == 1) || (14 <= o < 26 && o % 2 == 0) || o == 28 || o == 30
  }

  function Chars(e: Entry): (c: seq<byte>)
    ensures |c| == 13
  {
    seq<byte>(13, i requires 0 <= i < 13 => e[CharOffset(i)])
  }

  /** The id byte: slot number, with bit 6 on the slot that comes first. */
  predicate IsLong(id: byte) {
    id / 64 % 2 == 1
  }

  function LongEntries(id: byte): (n: nat) {
    if IsLong(id) then id - 64 else id
  }

  /** FatCheckSum of an 11-byte short name: rotate right, add, keep eight bits. */
  function CheckSum(s: seq<byte>): (c: byte) {
    if s == [] then 0
    else
      var c: int := CheckSum(s[..|s| - 1]);
      (c % 2 * 128 + c / 2 + s[|s| - 1] as int) % 256
  }

  /** The checksum step is a rotation to the right: the value before it is twice the rotated one, with the
      bit that leaves at the top counted at the bottom. */
  lemma CheckSumRotates(s: seq<byte>, x: byte) returns (rotated: nat)
    ensures rotated < 256 && 2 * rotated == CheckSum(s) as int + 255 * (CheckSum(s) % 2)
    ensures CheckSum(s + [x]) == (rotated + x as int) % 256
  {
    assert (s + [x])[..|s|] == s;
    var c: int := CheckSum(s);
    rotated := c % 2 * 128 + c / 2;
  }

  method FatCheckSum(fatName: seq<byte>) returns (c: byte)
    requires |fatName| == 11
    ensures c == CheckSum(fatName)
  {
    c := 0;
    var i := 0;
    while i < 11
      invariant 0 <= i <= 11 && c == CheckSum(fatName[..i])
    {
      assert fatName[..i + 1][..i] == fatName[..i];
      c := ((c as int) % 2 * 128 + (c as int) / 2 + fatName[i] as int) % 256;
      i := i + 1;
    }
    assert fatName[..11] == fatName;
  }

  function NameChar(name: seq<byte>, i: nat): (b: byte) {
    if i < |name| then name[i] else 0
  }

  /** Slot number `n` of a name, as FatAddName stores it. */
  ghost predicate IsSlot(e: Entry, id: nat, cs: byte, name: seq<byte>, n: nat)
    requires 1 <= n
  {
    && e[0] == id && e[11] == ATTR_EXT && e[13] == cs
    && (forall i :: 0 <= i < 13 ==> e[CharOffset(i)] == NameChar(name, (n - 1) * 13 + i))
    && forall o :: 0 <= o < 32 && o != 0 && o != 11 && o != 13 && !IsCharOffset(o) ==> e[o] == 0
  }

  /** Characters in two bytes each. */
  function Wide(s: seq<byte>): (r: seq<byte>)
    ensures |r| == 2 * |s|
  {
    seq<byte>(2 * |s|, i requires 0 <= i < 2 * |s| => if i % 2 == 0 then s[i / 2] else 0)
  }

  /** struct FatDirSlot: id, five characters, attribute, type, checksum, six characters, start cluster, two
      characters. */
  function SlotBytes(id: byte, cs: byte, c: seq<byte>): (b: seq<byte>)
    requires |c| == 13
    ensures |b| == 32
  {
    [id] + Wide(c[..5]) + [0x0F, 0, cs] + Wide(c[5..11]) + [0, 0] + Wide(c[11..])
  }

  /** A slot as FatAddName stores it, byte for byte: slot number `n` has characters 13 (n - 1) and on. */
  lemma SlotIsBytes(e: Entry, id: byte, cs: byte, name: seq<byte>, n: nat)
    requires 1 <= n && IsSlot(e, id, cs, name, n)
    ensures e == SlotBytes(id, cs, Chars(e))
    ensures forall i :: 0 <= i < 13 ==> Chars(e)[i] == NameChar(name, (n - 1) * 13 + i)
  {
    hide NameChar;
    var b := SlotBytes(id, cs, Chars(e));
    forall o | 0 <= o < 32 ensures e[o] == b[o] {
      SlotByte(e, id, cs, o);
    }
  }

  lemma SlotByte(e: Entry, id: byte, cs: byte, o: nat)
    requires o < 32 && e[0] == id && e[11] == 0x0F && e[13] == cs
    requires o != 0 && o != 11 && o != 13 && !IsCharOffset(o) ==> e[o] == 0
    ensures SlotBytes(id, cs, Chars(e))[o] == e[o]
  {
    hide Chars, Wide;
    var c, b := Chars(e), SlotBytes(id, cs, Chars(e));
    if 1 <= o < 11 {
      assert b[o] == Wide(c[..5])[o - 1];
      WideAt(c[..5], o - 1);
      if o % 2 == 1 { CharAt(e, (o - 1) / 2); }
    } else if 14 <= o < 26 {
      assert b[o] == Wide(c[5..11])[o - 14];
      WideAt(c[5..11], o - 14);
      if o % 2 == 0 { CharAt(e, 5 + (o - 14) / 2); }
    } else if 28 <= o {
      assert b[o] == Wide(c[11..])[o - 28];
      WideAt(c[11..], o - 28);
      if o % 2 == 0 { CharAt(e, 11 + (o - 28) / 2); }
    }
  }

  lemma WideAt(s: seq<byte>, i: nat)
    requires i < 2 * |s|
    ensures Wide(s)[i] == if i % 2 == 0 then s[i / 2] else 0
  {
  }

  lemma CharAt(e: Entry, i: nat)
    requires i < 13
    ensures Chars(e)[i] == e[CharOffset(i)]
  {
  }

  /** A name takes the fewest slots of 13 characters. */
  lemma SlotsSuffice(length: nat)
    ensures length <= 13 * Slots(length) && (0 < length ==> 13 * (Slots(length) - 1) < length)
  {
  }

  /** The last part of a name comes first: a name of 14 characters has its last character in the first slot,
      which has the end mark in its id, then the other characters, then the short entry. */
  lemma TwoSlots(entries: seq<Entry>, off: nat, name: seq<byte>, fatName: seq<byte>)
    requires |name| == 14 && Laid(entries, off, name, fatName)
    ensures off + 2 < |entries| && entries[off][0] == 0x42 && Chars(entries[off])[0] == name[13]
    ensures entries[off + 1][0] == 1 && Chars(entries[off + 1]) == name[..13] && entries[off + 2][..11] == fatName
  {
    assert SlotLaid(entries, off, name, fatName, 1) && SlotLaid(entries, off, name, fatName, 2);
  }

  function Slots(length: nat): (n: nat) {
    (length + 12) / 13
  }

  function SlotId(n: nat, total: nat): (id: nat) {
    if n == total then n + 64 else n
  }

  /** Slot number `n` is where it belongs when the slots start at `off`. */
  ghost predicate SlotLaid(entries: seq<Entry>, off: nat, name: seq<byte>, fatName: seq<byte>, n: nat) {
    var total := Slots(|name|);
    1 <= n <= total && off + total <= |entries|
    && IsSlot(entries[off + total - n], SlotId(n, total), CheckSum(fatName), name, n)
  }

  /** The entries from `off` on hold the name's slots, last part first, and then the short name. */
  ghost predicate Laid(entries: seq<Entry>, off: nat, name: seq<byte>, fatName: seq<byte>) {
    var total := Slots(|name|);
    && off + total < |entries|
    && (forall n :: 1 <= n <= total ==> SlotLaid(entries, off, name, fatName, n))
    && entries[off + total][..11] == fatName
  }

  datatype Reading = Bad | Good(chars: seq<byte>, entry: Entry)

  /** What FatGetLongName reads when `slot` is slot number `n`: `pos` is the entry after it. */
  function Read(entries: seq<Entry>, pos: nat, slot: Entry, n: nat, cs: byte): (r: Reading)
    requires 1 <= n
    ensures r.Good? ==> |r.chars| == 13 * n
    decreases n
  {
    var next := if pos < |entries| then entries[pos] else slot;
    if n == 1 then
      if CheckSum(next[..11]) == cs then Good(Chars(slot), next) else Bad
    else if next[11] != ATTR_EXT || LongEntries(next[0]) != n - 1 || next[13] != cs then Bad
    else
      var rest := Read(entries, pos + 1, next, n - 1, cs);
      if rest.Bad? then Bad else rest.(chars := rest.chars + Ended(next, Chars(slot)))
  }

  /** What the reader accepts: the entries behind the first slot count down, are marked as slots and carry the
      checksum, and the short name behind them has that checksum. */
  lemma {:induction false} ReadGoodIff(entries: seq<Entry>, pos: nat, slot: Entry, n: nat, cs: byte)
    requires 1 <= n && pos + n <= |entries|
    ensures Read(entries, pos, slot, n, cs).Good? <==>
      && (forall q :: pos <= q < pos + n - 1 ==> SlotFollows(entries[q], pos + n - 1 - q, cs))
      && CheckSum(entries[pos + n - 1][..11]) == cs
    ensures Read(entries, pos, slot, n, cs).Good? ==> Read(entries, pos, slot, n, cs).entry == entries[pos + n - 1]
    decreases n
  {
    hide CheckSum, Ended, Chars, LongEntries, IsLong, CharOffset;
    if n == 1 {
    } else {
      ReadGoodIff(entries, pos + 1, entries[pos], n - 1, cs);
    }
  }

  predicate SlotFollows(e: Entry, number: nat, cs: byte) {
    e[11] == 0x0F && LongEntries(e[0]) == number && e[13] == cs
  }

  /** The terminator that a slot with bit 6 set stores behind its own characters. On a slot that does
      not come first it lands on the first character of the part behind it. */
  function Ended(slot: Entry, tail: seq<byte>): (r: seq<byte>)
    ensures |r| == |tail|
  {
    if IsLong(slot[0]) && tail != [] then [0] + tail[1..] else tail
  }

  lemma EndedSlice(b: seq<byte>, b': seq<byte>, m: nat, e: nat, slot: Entry, tail: seq<byte>)
    requires m <= e < |b| && b[m..e] == tail
    requires b' == if IsLong(slot[0]) then b[m := 0] else b
    ensures b'[m..e] == Ended(slot, tail)
  {
    hide IsLong;
  }

  /** The loop of FatGetLongName, with `tail` already in the buffer behind slot `n`. */
  function ReadOn(entries: seq<Entry>, pos: nat, slot: Entry, n: nat, cs: byte, tail: seq<byte>): (r: Reading)
    requires 1 <= n
  {
    var r := Read(entries, pos, slot, n, cs);
    if r.Bad? then Bad else r.(chars := r.chars + Ended(slot, tail))
  }

  lemma ReadOnStep(entries: seq<Entry>, pos: nat, slot: Entry, n: nat, cs: byte, tail: seq<byte>, next: Entry)
    requires 2 <= n && next == if pos < |entries| then entries[pos] else slot
    ensures ReadOn(entries, pos, slot, n, cs, tail) ==
      if next[11] != ATTR_EXT || LongEntries(next[0]) != n - 1 || next[13] != cs then Bad
      else ReadOn(entries, pos + 1, next, n - 1, cs, Chars(slot) + Ended(slot, tail))
  {
    hide CheckSum;
    var rest := Read(entries, pos + 1, next, n - 1, cs);
    if rest.Good? {
      assert rest.chars + Ended(next, Chars(slot)) + Ended(slot, tail)
          == rest.chars + Ended(next, Chars(slot) + Ended(slot, tail));
    }
  }

  lemma ReadOnLast(entries: seq<Entry>, pos: nat, slot: Entry, cs: byte, tail: seq<byte>, next: Entry)
    requires next == if pos < |entries| then entries[pos] else slot
    ensures ReadOn(entries, pos, slot, 1, cs, tail) ==
      if CheckSum(next[..11]) == cs then Good(Chars(slot) + Ended(slot, tail), next) else Bad
  {
  }

  lemma ReadOnAll(entries: seq<Entry>, pos: nat, slot: Entry, n: nat, cs: byte)
    requires 1 <= n
    ensures ReadOn(entries, pos, slot, n, cs, []) == Read(entries, pos, slot, n, cs)
  {
    hide Read, CheckSum;
    var r := Read(entries, pos, slot, n, cs);
    if r.Good? { assert r.chars + [] == r.chars; }
  }

  /** The characters of the first `n` slots of a name, padded with zeros. */
  function Padded(name: seq<byte>, n: nat): (c: seq<byte>)
    ensures |c| == 13 * n
  {
    seq<byte>(13 * n, i requires 0 <= i < 13 * n => NameChar(name, i))
  }

  /** Reading back what was laid down: every id, attribute and checksum check passes. */
  lemma {:induction false} ReadLaid(entries: seq<Entry>, off: nat, name: seq<byte>, fatName: seq<byte>, n: nat)
    requires Laid(entries, off, name, fatName) && 1 <= n <= Slots(|name|) <= 20
    ensures var k := off + Slots(|name|) - n;
      Read(entries, k + 1, entries[k], n, CheckSum(fatName)) == Good(Padded(name, n), entries[off + Slots(|name|)])
    decreases n
  {
    hide CheckSum, IsSlot, Chars, CharOffset, NameChar, Padded, Slots, Read, IsLong, LongEntries;
    var total := Slots(|name|);
    var k := off + total - n;
    assert SlotLaid(entries, off, name, fatName, n);
    SlotHolds(entries[k], SlotId(n, total), CheckSum(fatName), name, n);
    PaddedNext(name, n, Chars(entries[k]));
    if n == 1 {
      ReadLast(entries, k + 1, entries[k], CheckSum(fatName));
    } else {
      ReadLaid(entries, off, name, fatName, n - 1);
      assert SlotLaid(entries, off, name, fatName, n - 1);
      SlotHolds(entries[k + 1], SlotId(n - 1, total), CheckSum(fatName), name, n - 1);
      ReadNext(entries, k + 1, entries[k], n, CheckSum(fatName), Padded(name, n - 1), entries[off + total]);
    }
  }

  /** The lowest slot: the short entry behind it must have the checksum. */
  lemma ReadLast(entries: seq<Entry>, pos: nat, slot: Entry, cs: byte)
    requires pos < |entries| && CheckSum(entries[pos][..11]) == cs
    ensures Read(entries, pos, slot, 1, cs) == Good(Chars(slot), entries[pos])
  {
    hide CheckSum, Chars;
  }

  /** A higher slot, with the slot below it in place. */
  lemma ReadNext(entries: seq<Entry>, pos: nat, slot: Entry, n: nat, cs: byte, chars: seq<byte>, e: Entry)
    requires 2 <= n <= 20 && pos < |entries|
    requires entries[pos][0] == n - 1 && entries[pos][11] == ATTR_EXT && entries[pos][13] == cs
    requires Read(entries, pos + 1, entries[pos], n - 1, cs) == Good(chars, e)
    ensures Read(entries, pos, slot, n, cs) == Good(chars + Chars(slot), e)
  {
    hide CheckSum, Chars;
  }

  /** The characters of slot n continue those of the slots below it. */
  lemma PaddedNext(name: seq<byte>, n: nat, part: seq<byte>)
    requires 1 <= n && |part| == 13 && forall i :: 0 <= i < 13 ==> part[i] == NameChar(name, (n - 1) * 13 + i)
    ensures Padded(name, n) == Padded(name, n - 1) + part
    ensures n == 1 ==> Padded(name, n) == part
  {
    hide NameChar;
    assert Padded(name, n) == Padded(name, n - 1) + part;
    if n == 1 { assert Padded(name, 0) + part == part; }
  }

  lemma SlotHolds(e: Entry, id: nat, cs: byte, name: seq<byte>, n: nat)
    requires 1 <= n && IsSlot(e, id, cs, name, n)
    ensures e[0] == id && e[11] == ATTR_EXT && e[13] == cs
    ensures forall i :: 0 <= i < 13 ==> Chars(e)[i] == NameChar(name, (n - 1) * 13 + i)
  {
  }

  /** The C string in a buffer: the characters before the first zero. */
  function CString(s: seq<byte>): (r: seq<byte>) {
    if s == [] || s[0] == 0 then [] else [s[0]] + CString(s[1..])
  }

  lemma {:induction false} CStringOfPadded(name: seq<byte>, zeros: seq<byte>)
    requires forall i :: 0 <= i < |name| ==> name[i] != 0
    requires zeros != [] ==> zeros[0] == 0
    ensures CString(name + zeros) == name
  {
    if name == [] {
      assert name + zeros == zeros;
    } else {
      assert (name + zeros)[1..] == name[1..] + zeros;
      CStringOfPadded(name[1..], zeros);
    }
  }

  lemma PaddedString(name: seq<byte>, n: nat)
    requires forall i :: 0 <= i < |name| ==> name[i] != 0
    requires |name| <= 13 * n
    ensures CString(Padded(name, n) + [0]) == name
  {
    hide CString;
    var rest := seq<byte>(13 * n - |name|, _ => 0) + [0];
    assert Padded(name, n) + [0] == name + rest;
    CStringOfPadded(name, rest);
  }

  /** The long-name round trip: for every name without zero bytes of up to 20 slots, the reader
      accepts what the writer laid down and the buffer it fills holds exactly the name. */
  lemma NameRoundTrip(entries: seq<Entry>, off: nat, name: seq<byte>, fatName: seq<byte>)
    requires Laid(entries, off, name, fatName) && 1 <= |name| <= 260
    requires forall i :: 0 <= i < |name| ==> name[i] != 0
    ensures var n := Slots(|name|);
      && IsLong(entries[off][0]) && LongEntries(entries[off][0]) == n && entries[off][13] == CheckSum(fatName)
      && Read(entries, off + 1, entries[off], n, CheckSum(fatName)) == Good(Padded(name, n), entries[off + n])
      && CString(Padded(name, n) + [0]) == name
  {
    hide CString, Read, Padded, CheckSum;
    var n := Slots(|name|);
    assert SlotLaid(entries, off, name, fatName, n);
    ReadLaid(entries, off, name, fatName, n);
    PaddedString(name, n);
  }

  lemma SlotsBound(length: nat)
    requires 1 <= length <= 255
    ensures 1 <= Slots(length) <= 20
  {
  }

  /** A string ends at its first zero, whatever follows. */
  lemma {:induction false} CStringEnds(s: seq<byte>, rest: seq<byte>)
    ensures CString(s + [0] + rest) == CString(s + [0])
  {
    if s == [] {
    } else {
      assert (s + [0] + rest)[1..] == s[1..] + [0] + rest && (s + [0])[1..] == s[1..] + [0];
      CStringEnds(s[1..], rest);
    }
  }

  /** The terminator the reader stores fits a 255-byte buffer exactly for names of up to 247
      characters. */
  lemma FitsBuffer(length: nat)
    ensures 13 * Slots(length) < 255 <==> length <= 247
  {
  }

  function SetByte(e: Entry, o: nat, v: byte): (r: Entry)
    requires o < 32
    ensures forall k :: 0 <= k < 32 ==> r[k] == if k == o then v else e[k]
  {
    e[o := v]
  }

  lemma CharOffsetInjective(i: nat, j: nat)
    requires i < 13 && j < 13
    ensures CharOffset(i) == CharOffset(j) <==> i == j
    ensures IsCharOffset(CharOffset(i))
  {
  }

  /** One of the three copy loops of FatCopyLongName: characters `from` up to `to` of a slot. */
  method CopyPart(slot: Entry, src: seq<byte>, copyOffset: nat, from: nat, to: nat) returns (r: Entry)
    requires from <= to <= 13
    ensures forall j :: 0 <= j < 13 ==>
              r[CharOffset(j)] == if from <= j < to && copyOffset + j < |src| then src[copyOffset + j]
                                  else slot[CharOffset(j)]
    ensures forall o :: 0 <= o < 32 && !IsCharOffset(o) ==> r[o] == slot[o]
  {
    r := slot;
    var i := from;
    while i < to
      invariant from <= i <= to
      invariant forall j :: 0 <= j < 13 ==>
                  r[CharOffset(j)] == if from <= j < i && copyOffset + j < |src| then src[copyOffset + j]
                                      else slot[CharOffset(j)]
      invariant forall o :: 0 <= o < 32 && !IsCharOffset(o) ==> r[o] == slot[o]
    {
      forall j | 0 <= j < 13 ensures CharOffset(i) == CharOffset(j) <==> i == j { CharOffsetInjective(i, j); }
      CharOffsetInjective(i, i);
      if copyOffset + i < |src| {
        r := SetByte(r, CharOffset(i), src[copyOffset + i]);
      }
      i := i + 1;
    }
  }

  /** FatCopyLongName. */
  method CopyLongName(slot: Entry, src: seq<byte>, copyOffset: nat) returns (r: Entry)
    ensures forall j :: 0 <= j < 13 ==>
              r[CharOffset(j)] == if copyOffset + j < |src| then src[copyOffset + j] else slot[CharOffset(j)]
    ensures forall o :: 0 <= o < 32 && !IsCharOffset(o) ==> r[o] == slot[o]
  {
    r := CopyPart(slot, src, copyOffset, 0, 5);
    r := CopyPart(r, src, copyOffset, 5, 11);
    r := CopyPart(r, src, copyOffset, 11, 13);
  }

  // ---- Free entries ----

  /** FAT_VALID_DE: the entry is in use. */
  predicate InUse(e: Entry) {
    e[0] != 0 && e[0] != 0xE5
  }

  /** Entries that were never used start with 0 and deleted ones with 0xE5; all others are in use. */
  lemma UsedEntries(e: Entry)
    ensures !InUse(e) <==> e[0] in {0, 0xE5}
  {
  }

  /** The n entries from `off` on are free. */
  ghost predicate FreeRun(entries: seq<Entry>, off: nat, n: nat) {
    off + n <= |entries| && forall j :: off <= j < off + n ==> !InUse(entries[j])
  }

  /** No entry in use has changed. */
  ghost predicate KeepsUsed(before: seq<Entry>, after: seq<Entry>) {
    |before| == |after| && forall j :: 0 <= j < |before| && InUse(before[j]) ==> after[j] == before[j]
  }

  /** What FatAddShortName makes of an entry: it sets the name, the attribute, the start cluster and
      the size, and keeps the dates. */
  function ShortEntry(e: Entry, fatName: seq<byte>, attr: byte): (r: Entry)
    requires |fatName| == 11
    ensures r[..11] == fatName && r[11] == attr
  {
    fatName + [attr] + e[12..20] + [0, 0] + e[22..26] + [0, 0] + [0, 0, 0, 0]
  }

  /** FatAddEntries asks for as many free entries as there are slots, and the short entry goes one
      further. With those slots free, a name keeps all entries in use if and only if the entry behind
      the slots is free as well, or is in use with just the contents it would get. */
  lemma KeepsUsedIff(before: seq<Entry>, after: seq<Entry>, off: nat, name: seq<byte>, fatName: seq<byte>, attr: byte)
    requires |fatName| == 11 && |before| == |after| && off + Slots(|name|) < |before|
    requires FreeRun(before, off, Slots(|name|))
    requires after[off + Slots(|name|)] == ShortEntry(before[off + Slots(|name|)], fatName, attr)
    requires forall j :: 0 <= j < |before| && !(off <= j <= off + Slots(|name|)) ==> after[j] == before[j]
    ensures var behind := before[off + Slots(|name|)];
      && (KeepsUsed(before, after) <==> !InUse(behind) || behind == ShortEntry(behind, fatName, attr))
      && (behind[..11] != fatName ==> (KeepsUsed(before, after) <==> !InUse(behind)))
  {
    hide Slots, InUse, ShortEntry;
    var k := off + Slots(|name|);
    if InUse(before[k]) && before[k] != after[k] {
      assert !KeepsUsed(before, after);
    }
  }

  /** A free entry and then a file: a name of one slot finds the free entry, and its short entry takes
      the place of the file. */
  lemma OverwriteExample(after: seq<Entry>, attr: byte)
    requires |after| == 2 && after[1] == ShortEntry(seq<byte>(32, _ => 0x41), seq<byte>(11, _ => 0x42), attr)
    ensures var before: seq<Entry> := [seq<byte>(32, _ => 0), seq<byte>(32, _ => 0x41)];
      Slots(1) == 1 && FreeRun(before, 0, 1) && InUse(before[1]) && !KeepsUsed(before, after)
  {
    var name: seq<byte>, fatName: seq<byte> := [0x61], seq<byte>(11, _ => 0x42);
    var before: seq<Entry> := [seq<byte>(32, _ => 0), seq<byte>(32, _ => 0x41)];
    assert before[1][..11][0] != fatName[0];
    KeepsUsedIff(before, after, 0, name, fatName, attr);
  }

  /** A directory: its entries in order. The root directory of FAT12 and FAT16 has a fixed length. */
  class Directory {
    const fixed: bool
    var entries: seq<Entry>

    constructor (fixed: bool, entries: seq<Entry>)
      ensures this.fixed == fixed && this.entries == entries
    {
      this.fixed, this.entries := fixed, entries;
    }

    /** The search of FatAddEntries: the lowest run of free entries. When there is none, the fixed root
        directory of FAT12 and FAT16 gets -ENOSPC and any other directory the entry after the first one
        past its end. */
    method FindEntries(n: nat) returns (r: int)
      ensures r == -EINVAL <==> n == 0
      ensures n > 0 ==>
                if exists o: nat :: FreeRun(entries, o, n)
                then 0 <= r && FreeRun(entries, r, n) && forall o: nat :: o < r ==> !FreeRun(entries, o, n)
                else r == if fixed then -ENOSPC else |entries| + 1
    {
      hide InUse;
      if n == 0 {
        return -EINVAL;
      }
      var pos, currNum, offset := 0, 0, 0;
      while pos < |entries|
        invariant 0 <= pos <= |entries| && offset + currNum == pos && 0 <= currNum < n
        invariant forall j :: offset <= j < pos ==> !InUse(entries[j])
        invariant forall o: nat :: o < offset ==> !FreeRun(entries, o, n)
      {
        var entry := entries[pos];
        pos := pos + 1;
        if !InUse(entry) {
          currNum := currNum + 1;
          if currNum == n {
            return offset;
          }
        } else {
          forall o: nat | o < pos ensures !FreeRun(entries, o, n) {
            if offset <= o && o + n <= |entries| { assert InUse(entries[pos - 1]) && o <= pos - 1 < o + n; }
          }
          currNum := 0;
          offset := pos;
        }
      }
      forall o: nat ensures !FreeRun(entries, o, n) {
        if offset <= o && o + n <= |entries| { assert false; }
      }
      if fixed {
        return -ENOSPC;
      }
      return |entries| + 1;
    }

    /** FatAddName for a long name, from the search to the short entry. When the entries run past the
        end of the directory (`past`) the slots or the short entry have no sector, and the model stops.
        Otherwise no entry in use is lost if and only if the entry behind the free run that was found
        is free, or has the contents it gets. */
    method CreateName(fatName: seq<byte>, name: seq<byte>, attr: byte) returns (r: int, past: bool)
      requires |fatName| == 11 && 1 <= |name| <= 255
      modifies this
      ensures r < 0 <==> fixed && forall o: nat :: !FreeRun(old(entries), o, Slots(|name|))
      ensures r < 0 ==> r == -ENOSPC
      ensures past <==> 0 <= r && |entries| <= r + Slots(|name|)
      ensures r < 0 || past ==> entries == old(entries)
      ensures 0 <= r && !past ==>
                && Laid(entries, r, name, fatName) && |entries| == |old(entries)|
                && FreeRun(old(entries), r, Slots(|name|))
                && (forall o: nat :: o < r ==> !FreeRun(old(entries), o, Slots(|name|)))
      ensures 0 <= r && !past ==>
                var behind := old(entries)[r + Slots(|name|)];
                && (KeepsUsed(old(entries), entries) <==>
                      !InUse(behind) || behind == ShortEntry(behind, fatName, attr))
                && (behind[..11] != fatName ==> (KeepsUsed(old(entries), entries) <==> !InUse(behind)))
    {
      hide Slots, InUse, ShortEntry, Laid, KeepsUsed;
      SlotsBound(|name|);
      r := FindEntries(Slots(|name|));
      if r < 0 {
        return r, false;
      }
      past := |entries| <= r + Slots(|name|);
      if past {
        return;
      }
      ghost var before := entries;
      AddName(fatName, name, r, attr);
      KeepsUsedIff(before, entries, r, name, fatName, attr);
    }

    /** The name that FatAddName lays down comes back from FatGetLongName, for any buffer that has room
        for the reader's terminator. */
    method AddThenGet(fatName: seq<byte>, name: seq<byte>, off: nat, attr: byte, buffer: array<byte>) returns (err: int)
      requires |fatName| == 11 && 1 <= |name| <= 255 && 0 !in name
      requires off + Slots(|name|) < |entries| && 13 * Slots(|name|) < buffer.Length
      modifies this, buffer
      ensures err == 0 && CString(buffer[..]) == name
    {
      hide Read, CheckSum, Padded, IsLong, LongEntries, Slots, CString;
      AddName(fatName, name, off, attr);
      SlotsBound(|name|);
      NameRoundTrip(entries, off, name, fatName);
      var next, entry;
      err, next, entry := GetLongName(off + 1, entries[off], buffer);
      ghost var n := 13 * Slots(|name|);
      assert buffer[..] == buffer[..n] + [0] + buffer[n + 1..];
      CStringEnds(buffer[..n], buffer[n + 1..]);
    }

    /** FatAddName for a long name, on slots that FatAddEntries found from `off` on, with the short
        entry right behind them. */
    method AddName(fatName: seq<byte>, name: seq<byte>, off: nat, attr: byte)
      requires |fatName| == 11 && 1 <= |name| <= 255 && off + Slots(|name|) < |entries|
      modifies this
      ensures Laid(entries, off, name, fatName) && |entries| == |old(entries)|
      ensures entries[off + Slots(|name|)] == ShortEntry(old(entries)[off + Slots(|name|)], fatName, attr)
      ensures forall j :: 0 <= j < |entries| && !(off <= j <= off + Slots(|name|)) ==> entries[j] == old(entries)[j]
    {
      var total := Slots(|name|);
      var checkSum := FatCheckSum(fatName);
      var i := total;
      while i > 0
        invariant 0 <= i <= total && |entries| == |old(entries)|
        invariant forall n :: i < n <= total ==> SlotLaid(entries, off, name, fatName, n)
        invariant forall j :: 0 <= j < |entries| && !(off <= j < off + (total - i)) ==> entries[j] == old(entries)[j]
      {
        var slot: Entry := seq<byte>(32, _ => 0);
        slot := SetByte(slot, 0, if i == total then i + 64 else i);
        slot := SetByte(slot, 13, checkSum);
        slot := SetByte(slot, 11, ATTR_EXT);
        forall j | 0 <= j < 13 ensures slot[CharOffset(j)] == 0 { CharOffsetInjective(j, j); }
        slot := CopyLongName(slot, name, (i - 1) * 13);
        ghost var before := entries;
        entries := entries[off + (total - i) := slot];
        assert SlotLaid(entries, off, name, fatName, i);
        forall n | i < n <= total ensures SlotLaid(entries, off, name, fatName, n) {
          assert SlotLaid(before, off, name, fatName, n);
        }
        i := i - 1;
      }
      AddShortName(fatName, off + total, attr, off, name);
    }

    /** FatAddShortName at a known offset. */
    method AddShortName(fatName: seq<byte>, offset: nat, attr: byte, ghost off: nat, ghost name: seq<byte>)
      requires |fatName| == 11 && offset < |entries| && offset == off + Slots(|name|)
      requires forall n :: 1 <= n <= Slots(|name|) ==> SlotLaid(entries, off, name, fatName, n)
      modifies this
      ensures |entries| == |old(entries)| && Laid(entries, off, name, fatName)
      ensures entries[offset] == ShortEntry(old(entries)[offset], fatName, attr)
      ensures forall j :: 0 <= j < |entries| && j != offset ==> entries[j] == old(entries)[j]
    {
      ghost var before := entries;
      entries := entries[offset := ShortEntry(entries[offset], fatName, attr)];
      forall n | 1 <= n <= Slots(|name|) ensures SlotLaid(entries, off, name, fatName, n) {
        assert SlotLaid(before, off, name, fatName, n);
      }
    }

    /** FatGetLongName: `first` is the entry before `pos`; the characters go to `buffer`. The answer
        is what Read says. */
    method GetLongName(pos: nat, first: Entry, buffer: array<byte>) returns (err: int, next: nat, entry: Entry)
      requires IsLong(first[0]) && 1 <= LongEntries(first[0]) <= 20 ==> 13 * LongEntries(first[0]) < buffer.Length
      modifies buffer
      ensures !(IsLong(first[0]) && 1 <= LongEntries(first[0]) <= 20) ==> err == -EINVAL
      ensures IsLong(first[0]) && 1 <= LongEntries(first[0]) <= 20 ==>
                var n := LongEntries(first[0]);
                var r := Read(entries, pos, first, n, first[13]);
                && err == (if r.Good? then 0 else -EINVAL)
                && (r.Good? ==>
                      buffer[..13 * n] == r.chars && buffer[13 * n] == 0 && entry == r.entry && next == pos + n)
    {
      var numSlots := LongEntries(first[0]);
      if !IsLong(first[0]) || numSlots == 0 || numSlots > 20 {
        return -EINVAL, pos, first;
      }
      err, next, entry := ReadSlots(pos, first, numSlots, buffer);
    }

    method ReadSlots(pos: nat, first: Entry, n: nat, buffer: array<byte>) returns (err: int, next: nat, entry: Entry)
      requires IsLong(first[0]) && 1 <= n <= 20 && 13 * n < buffer.Length
      modifies buffer
      ensures var r := Read(entries, pos, first, n, first[13]);
              && err == (if r.Good? then 0 else -EINVAL)
              && (r.Good? ==> buffer[..13 * n] == r.chars && buffer[13 * n] == 0 && entry == r.entry && next == pos + n)
    {
      hide Read, ReadOn, CheckSum, Chars, Ended, IsLong, LongEntries;
      var checkSum := first[13];
      entry, next := first, pos;
      var numSlots := n;
      ghost var tail: seq<byte> := [];
      ghost var want := Read(entries, pos, first, n, checkSum);
      ReadOnAll(entries, pos, first, n, checkSum);
      while true
        invariant 1 <= numSlots <= n && next == pos + (n - numSlots)
        invariant |tail| == 13 * (n - numSlots) && buffer[13 * numSlots..13 * n] == tail
        invariant if numSlots < n then buffer[13 * n] == 0 else IsLong(entry[0])
        invariant want == ReadOn(entries, next, entry, numSlots, checkSum, tail)
        decreases numSlots
      {
        ghost var slot, behind := entry, next;
        numSlots := numSlots - 1;
        StoreSlot(buffer, numSlots, entry, n, tail);
        ghost var longer := Chars(slot) + Ended(slot, tail);
        if next < |entries| {
          entry := entries[next];
        }
        next := next + 1;
        if numSlots == 0 {
          ReadOnLast(entries, behind, slot, checkSum, tail, entry);
          tail := longer;
          break;
        }
        ReadOnStep(entries, behind, slot, numSlots + 1, checkSum, tail, entry);
        tail := longer;
        if entry[11] != ATTR_EXT || LongEntries(entry[0]) != numSlots || entry[13] != checkSum {
          return -EINVAL, next, entry;
        }
      }
      var shortCheckSum := FatCheckSum(entry[..11]);
      err := if shortCheckSum != checkSum then -EINVAL else 0;
    }

    /** What one turn of the reader stores: 13 characters, and a terminator behind them when bit 6
        is set. */
    static method StoreSlot(buffer: array<byte>, k: nat, slot: Entry, ghost n: nat, ghost tail: seq<byte>)
      requires k < n && 13 * n < buffer.Length && |tail| == 13 * (n - k - 1) && buffer[13 * k + 13..13 * n] == tail
      requires if k + 1 < n then buffer[13 * n] == 0 else IsLong(slot[0])
      modifies buffer
      ensures buffer[13 * k..13 * n] == Chars(slot) + Ended(slot, tail) && buffer[13 * n] == 0
    {
      hide Chars, CharOffset, IsLong;
      var o := 13 * k;
      ghost var e := 13 * n;
      FillSlot(buffer, o, slot);
      EndName(buffer, o, slot, e, tail);
    }

    /** A slot marked as the last part of the name ends the string behind its part. */
    static method EndName(buffer: array<byte>, o: nat, slot: Entry, ghost e: nat, ghost tail: seq<byte>)
      requires o + 13 <= e < buffer.Length && buffer[o..o + 13] == Chars(slot) && buffer[o + 13..e] == tail
      requires if o + 13 < e then buffer[e] == 0 else IsLong(slot[0])
      modifies buffer
      ensures buffer[o..e] == Chars(slot) + Ended(slot, tail) && buffer[e] == 0
    {
      hide Chars, CharOffset, IsLong;
      ghost var b := buffer[..];
      if IsLong(slot[0]) {
        buffer[o + 13] := 0;
      }
      EndedSlice(b, buffer[..], o + 13, e, slot, tail);
      assert buffer[..][o..o + 13] == b[o..o + 13];
      JoinSlices(buffer[..], o, o + 13, e);
    }

    /** The three character loops of the reader. */
    static method FillSlot(buffer: array<byte>, offset: nat, slot: Entry)
      requires offset + 13 < buffer.Length
      modifies buffer
      ensures buffer[offset..offset + 13] == Chars(slot)
      ensures forall j :: 0 <= j < buffer.Length && !(offset <= j < offset + 13) ==> buffer[j] == old(buffer[j])
    {
      var i := 0;
      while i < 13
        invariant 0 <= i <= 13
        invariant forall j :: 0 <= j < i ==> buffer[offset + j] == slot[CharOffset(j)]
        invariant forall j :: 0 <= j < buffer.Length && !(offset <= j < offset + 13) ==> buffer[j] == old(buffer[j])
      {
        buffer[offset + i] := slot[CharOffset(i)];
        i := i + 1;
      }
    }
  }
}
