/** centraldir.cpp: finding and reading the central directory. Pointers into the file are offsets
    into buf. */
module CentralDir {
  import opened Limbs
  import opened Wrappers
  import opened ZipFormat

  // ---------------------------------------------------------------- what is to be read

  /** Where the search for the end record stops. */
  function SearchStart(b: seq<byte>): nat {
    if |b| > MAX_EOCD_SEARCH then |b| - MAX_EOCD_SEARCH else 0
  }

  /** The largest signature position from start to p. */
  function LastSignature(b: seq<byte>, start: nat, p: int): (r: Option<nat>)
    ensures r.Some? ==> start <= r.value <= p && Le32(b, r.value) == CD_SIGNATURE
    ensures forall j :: start <= j <= p && (r.Some? ==> r.value < j) ==> Le32(b, j) != CD_SIGNATURE
    decreases p - start
  {
    if p < start then None
    else if Le32(b, p) == CD_SIGNATURE then Some(p)
    else LastSignature(b, start, p - 1)
  }

  /** The end record the reader takes: the last signature in the window. */
  function EocdAt(b: seq<byte>): Option<nat> {
    LastSignature(b, SearchStart(b), |b| - 4)
  }

  /** One directory record as the reader stores it. The data position is a 32-bit sum. */
  datatype Record = Record(nameLength: nat, name: Option<nat>, compression: nat,
                           uncompressedSize: nat, compressedSize: nat, data: nat)

  function ParseRecord(b: seq<byte>, p: nat): Record {
    var nameLength := Le16(b, p + 28);
    Record(nameLength, if nameLength != 0 then Some(p + ENTRY_LEN) else None, Le16(b, p + 10),
           Le32(b, p + 24), Le32(b, p + 20), DataPosition(b, Le32(b, p + 42), nameLength))
  }

  /** After the local header at position header, its name and its own extra field. */
  function DataPosition(b: seq<byte>, header: nat, nameLength: nat): nat {
    (header + LFH_SIZE + nameLength + Le16(b, header + 28)) % WORD_BASE
  }

  /** The sum wraps round at 2^32: for a header near the end of that range the data position comes out
      before it. */
  lemma DataPositionWraps(b: seq<byte>, header: nat, nameLength: nat)
    requires header < 0x1_0000_0000 && nameLength < 0x1_0000
    ensures var sum := header + 30 + nameLength + Le16(b, header + 28);
            DataPosition(b, header, nameLength) == if sum < 0x1_0000_0000 then sum else sum - 0x1_0000_0000
  {
  }

  function RecordSize(b: seq<byte>, p: nat): nat {
    ENTRY_LEN + Le16(b, p + 28) + Le16(b, p + 30) + Le16(b, p + 32)
  }

  /** The directory cursor after k records. */
  function Cursor(b: seq<byte>, p: nat, k: nat): nat {
    if k == 0 then p else Cursor(b, p, k - 1) + RecordSize(b, Cursor(b, p, k - 1))
  }

  /** The first k directory records, in directory order. */
  function Records(b: seq<byte>, p: nat, k: nat): (records: seq<Record>)
    ensures |records| == k
  {
    if k == 0 then [] else Records(b, p, k - 1) + [ParseRecord(b, Cursor(b, p, k - 1))]
  }

  predicate Signed(b: seq<byte>, p: nat) {
    Le32(b, p) == ENTRY_SIGNATURE
  }

  /** How many of the first n records start with the entry signature, up to the first that does not. */
  function SignedRun(b: seq<byte>, p: nat, n: nat): (k: nat)
    ensures k <= n && (forall j :: 0 <= j < k ==> Signed(b, Cursor(b, p, j)))
    ensures k < n ==> !Signed(b, Cursor(b, p, k))
  {
    if n == 0 then 0
    else
      var k := SignedRun(b, p, n - 1);
      if k == n - 1 && Signed(b, Cursor(b, p, k)) then n else k
  }

  /** The end record is complete, names one disk and agrees with itself about the entry count. */
  predicate EndAccepted(b: seq<byte>) {
    && |b| >= EOCD_LEN && EocdAt(b).Some?
    && var e := EocdAt(b).value;
       && e + EOCD_LEN + Le16(b, e + 20) <= |b|
       && Le16(b, e + 4) == 0 && Le16(b, e + 6) == 0 && Le16(b, e + 8) == Le16(b, e + 10)
  }

  function EntryCount(b: seq<byte>): nat
    requires EndAccepted(b)
  {
    Le16(b, EocdAt(b).value + 10)
  }

  function DirectoryStart(b: seq<byte>): nat
    requires EndAccepted(b)
  {
    Le32(b, EocdAt(b).value + 16)
  }

  /** The room from the directory start to the end of the file, as the int the code keeps it in: it
      is computed once, never reduced, and every record is checked against it. */
  function Room(b: seq<byte>): int
    requires EndAccepted(b)
  {
    AsInt32(|b| - DirectoryStart(b))
  }

  predicate RoomForEntry(b: seq<byte>)
    requires EndAccepted(b)
  {
    Room(b) >= ENTRY_LEN
  }

  /** What the check decides, for a file whose size fits its int: an entry does fit between the
      directory start and the end of the file, or the start is so far behind the end that the
      difference, too negative for an int, comes out positive. */
  lemma RoomExact(b: seq<byte>)
    requires EndAccepted(b) && |b| < 0x8000_0000
    ensures var off := DirectoryStart(b);
            RoomForEntry(b) <==>
              off + ENTRY_LEN <= |b| || |b| + 0x8000_0000 < off <= |b| + WORD_BASE - ENTRY_LEN
  {
    Le32Bound(b, EocdAt(b).value + 16);
    NarrowDifference(|b|, DirectoryStart(b));
  }

  lemma NarrowDifference(size: int, off: int)
    requires 0 <= size < 0x8000_0000 && 0 <= off < WORD_BASE
    ensures AsInt32(size - off) == if size - off < -0x8000_0000 then size - off + WORD_BASE else size - off
  {
  }

  /** How many of n entries from p on get linked before the reader stops. */
  function Linked(b: seq<byte>, p: nat, n: nat, len: int): (k: nat)
    ensures k <= n
  {
    if len >= ENTRY_LEN then SignedRun(b, p, n) else 0
  }

  /** Every record that a reader with this room comes to, of n from p on, is inside the file. */
  ghost predicate RecordsInside(b: seq<byte>, p: nat, n: nat, len: int) {
    len >= ENTRY_LEN ==> forall k :: 0 <= k <= Linked(b, p, n, len) && k < n ==> RecordInside(b, Cursor(b, p, k))
  }

  lemma LinkedNext(b: seq<byte>, p: nat, n: nat, len: int, i: nat)
    requires i <= Linked(b, p, n, len) && i < n && RecordsInside(b, p, n, len)
    ensures i < Linked(b, p, n, len) <==> len >= ENTRY_LEN && Signed(b, Cursor(b, p, i))
    ensures len >= ENTRY_LEN ==> RecordInside(b, Cursor(b, p, i))
  {
  }

  /** How many entries get linked in all. */
  function LinkedCount(b: seq<byte>): nat {
    if EndAccepted(b) then Linked(b, DirectoryStart(b), EntryCount(b), Room(b)) else 0
  }

  /** The files the reader accepts. */
  predicate Accepted(b: seq<byte>) {
    && EndAccepted(b)
    && (EntryCount(b) > 0 ==> RoomForEntry(b))
    && forall k :: 0 <= k < EntryCount(b) ==> Signed(b, Cursor(b, DirectoryStart(b), k))
  }

  /** What the reader touches for the record at p is inside the file: the signature and, if that is
      right, the fixed part and the local header. */
  predicate RecordInside(b: seq<byte>, p: nat) {
    && p + 4 <= |b|
    && (Signed(b, p) ==> p + ENTRY_LEN <= |b| && Le32(b, p + 42) + LFH_SIZE <= |b|)
  }

  /** What the code takes for granted: the file's size fits its int, and every record it comes to is
      inside the file. */
  ghost predicate ReadsInside(b: seq<byte>) {
    && |b| < 0x8000_0000
    && (EndAccepted(b) ==> RecordsInside(b, DirectoryStart(b), EntryCount(b), Room(b)))
  }

  /** Where every record the reader comes to is inside the file, the room check decides what it should. */
  lemma RoomReal(b: seq<byte>)
    requires ReadsInside(b) && EndAccepted(b) && EntryCount(b) > 0
    ensures RoomForEntry(b) <==> DirectoryStart(b) + ENTRY_LEN <= |b|
  {
    RoomExact(b);
    if RoomForEntry(b) {
      assert RecordInside(b, Cursor(b, DirectoryStart(b), 0));
    }
  }

  /** The reader accepts exactly when it links every entry the end record announces. */
  lemma AcceptedLinksAll(b: seq<byte>)
    ensures Accepted(b) <==> EndAccepted(b) && LinkedCount(b) == EntryCount(b)
  {
    if EndAccepted(b) && RoomForEntry(b) {
      var k, n := LinkedCount(b), EntryCount(b);
      assert k < n ==> !Signed(b, Cursor(b, DirectoryStart(b), k));
    }
  }

  // ---------------------------------------------------------------- the accepted files, in bytes

  /** These four bytes are at position p. */
  predicate BytesAt(b: seq<byte>, p: nat, w: byte, x: byte, y: byte, z: byte) {
    p + 4 <= |b| && b[p] == w && b[p + 1] == x && b[p + 2] == y && b[p + 3] == z
  }

  /** PK\5\6 stands at e, among the last 22 + 65535 bytes of the file, and nowhere behind. */
  ghost predicate LastEndMark(b: seq<byte>, e: nat) {
    && e + 65557 >= |b| && BytesAt(b, e, 0x50, 0x4b, 5, 6)
    && forall j: nat :: e < j < |b| ==> !BytesAt(b, j, 0x50, 0x4b, 5, 6)
  }

  /** The directory of count entries starting at off: PK\1\2 at each of these positions, each one
      fixed part, name, extra field and comment behind the one before. */
  ghost predicate EntryMarks(b: seq<byte>, off: nat, count: nat, at: seq<nat>) {
    && |at| == count && (count > 0 ==> at[0] == off)
    && (forall k :: 0 <= k < count ==> BytesAt(b, at[k], 0x50, 0x4b, 1, 2))
    && forall k :: 0 < k < count ==>
         at[k] == at[k - 1] + 46 + Le16(b, at[k - 1] + 28) + Le16(b, at[k - 1] + 30) + Le16(b, at[k - 1] + 32)
  }

  /** e is the end record of a file to be accepted. */
  ghost predicate EndRecordAt(b: seq<byte>, e: nat) {
    && LastEndMark(b, e) && e + 22 + Le16(b, e + 20) <= |b|
    && Le16(b, e + 4) == 0 && Le16(b, e + 6) == 0 && Le16(b, e + 8) == Le16(b, e + 10)
  }

  /** The directory that the end record at e announces is there, and starts where an entry fits. */
  ghost predicate DirectoryMarked(b: seq<byte>, e: nat) {
    && (Le16(b, e + 10) > 0 ==> Le32(b, e + 16) + 46 <= |b|)
    && AllMarked(b, Le32(b, e + 16), Le16(b, e + 10))
  }

  ghost predicate AllMarked(b: seq<byte>, off: nat, count: nat) {
    exists at: seq<nat> :: EntryMarks(b, off, count, at)
  }

  ghost predicate WellMarked(b: seq<byte>) {
    |b| >= 22 && exists e: nat :: EndRecordAt(b, e) && DirectoryMarked(b, e)
  }

  lemma MarkBytes(b: seq<byte>, p: nat)
    ensures Le32(b, p) == CD_SIGNATURE <==> BytesAt(b, p, 0x50, 0x4b, 5, 6)
    ensures Le32(b, p) == ENTRY_SIGNATURE <==> BytesAt(b, p, 0x50, 0x4b, 1, 2)
  {
    Digits(ByteAt(b, p), ByteAt(b, p + 1), ByteAt(b, p + 2), ByteAt(b, p + 3));
  }

  lemma Digits(w: byte, x: byte, y: byte, z: byte)
    ensures var r := w + 256 * x + 0x1_0000 * (y + 256 * z);
            && (r == 0x06054b50 <==> w == 0x50 && x == 0x4b && y == 5 && z == 6)
            && (r == 0x02014b50 <==> w == 0x50 && x == 0x4b && y == 1 && z == 2)
  {
  }

  lemma EocdIs(b: seq<byte>, e: nat)
    ensures EocdAt(b) == Some(e) <==> LastEndMark(b, e)
  {
    MarkBytes(b, e);
    if EocdAt(b) == Some(e) {
      forall j: nat | e < j < |b| ensures !BytesAt(b, j, 0x50, 0x4b, 5, 6) {
        MarkBytes(b, j);
      }
    } else if LastEndMark(b, e) {
      if EocdAt(b).Some? {
        MarkBytes(b, EocdAt(b).value);
      }
    }
  }

  lemma {:induction false} MarksFollowCursor(b: seq<byte>, off: nat, count: nat, at: seq<nat>, k: nat)
    requires EntryMarks(b, off, count, at) && k < count
    ensures at[k] == Cursor(b, off, k)
  {
    if k > 0 {
      MarksFollowCursor(b, off, count, at, k - 1);
    }
  }

  lemma SignedAreMarked(b: seq<byte>, off: nat, count: nat)
    requires forall k :: 0 <= k < count ==> Signed(b, Cursor(b, off, k))
    ensures AllMarked(b, off, count)
  {
    var at: seq<nat> := seq(count, k requires 0 <= k < count => Cursor(b, off, k));
    forall k | 0 <= k < count ensures BytesAt(b, at[k], 0x50, 0x4b, 1, 2) {
      assert Signed(b, Cursor(b, off, k));
      MarkBytes(b, at[k]);
    }
    assert EntryMarks(b, off, count, at);
  }

  lemma MarkedAreSigned(b: seq<byte>, off: nat, count: nat, at: seq<nat>, k: nat)
    requires EntryMarks(b, off, count, at) && k < count
    ensures Signed(b, Cursor(b, off, k))
  {
    MarksFollowCursor(b, off, count, at, k);
    MarkBytes(b, at[k]);
  }

  lemma EndAcceptedIs(b: seq<byte>, e: nat)
    requires |b| >= 22
    ensures EndAccepted(b) && EocdAt(b) == Some(e) <==> EndRecordAt(b, e)
  {
    EocdIs(b, e);
  }

  lemma AcceptedIsMarked(b: seq<byte>)
    requires ReadsInside(b) && Accepted(b)
    ensures WellMarked(b)
  {
    var e, off, count := EocdAt(b).value, DirectoryStart(b), EntryCount(b);
    EndAcceptedIs(b, e);
    SignedAreMarked(b, off, count);
    if count > 0 {
      RoomReal(b);
    }
    assert DirectoryMarked(b, e);
  }

  lemma MarkedIsAccepted(b: seq<byte>)
    requires ReadsInside(b) && WellMarked(b)
    ensures Accepted(b)
  {
    var e: nat :| EndRecordAt(b, e) && DirectoryMarked(b, e);
    EndAcceptedIs(b, e);
    var off, count := DirectoryStart(b), EntryCount(b);
    var at: seq<nat> :| EntryMarks(b, off, count, at);
    forall k | 0 <= k < count ensures Signed(b, Cursor(b, off, k)) {
      MarkedAreSigned(b, off, count, at, k);
    }
    if count > 0 {
      RoomReal(b);
    }
  }

  /** The exact success condition in bytes: the files accepted are the well marked ones. */
  lemma AcceptedBytes(b: seq<byte>)
    requires ReadsInside(b)
    ensures Accepted(b) <==> WellMarked(b)
  {
    if Accepted(b) {
      AcceptedIsMarked(b);
    }
    if WellMarked(b) {
      MarkedIsAccepted(b);
    }
  }

  /** How many entries are linked, in bytes: those with a mark, up to the first without, and none when
      there is no end record or no room. */
  lemma LinkedBytes(b: seq<byte>)
    requires ReadsInside(b)
    ensures (|b| < 22 || forall e: nat :: !EndRecordAt(b, e)) ==> LinkedCount(b) == 0
    ensures |b| >= 22 ==>
              forall e: nat :: EndRecordAt(b, e) ==>
                var off, count, k := Le32(b, e + 16), Le16(b, e + 10), LinkedCount(b);
                && k <= count && AllMarked(b, off, k)
                && (if off + 46 <= |b| then k < count ==> !AllMarked(b, off, k + 1) else k == 0)
  {
    if |b| >= 22 {
      if EndAccepted(b) {
        EndAcceptedIs(b, EocdAt(b).value);
      }
      forall e: nat | EndRecordAt(b, e)
        ensures var off, count, k := Le32(b, e + 16), Le16(b, e + 10), LinkedCount(b);
                && k <= count && AllMarked(b, off, k)
                && (if off + 46 <= |b| then k < count ==> !AllMarked(b, off, k + 1) else k == 0)
      {
        EndAcceptedIs(b, e);
        LinkedMarks(b);
      }
    }
  }

  lemma LinkedMarks(b: seq<byte>)
    requires ReadsInside(b) && EndAccepted(b)
    ensures var off, count, k := DirectoryStart(b), EntryCount(b), LinkedCount(b);
            && k <= count && AllMarked(b, off, k)
            && (if off + 46 <= |b| then k < count ==> !AllMarked(b, off, k + 1) else k == 0)
  {
    var off, count, k := DirectoryStart(b), EntryCount(b), LinkedCount(b);
    SignedAreMarked(b, off, k);
    if count > 0 {
      RoomReal(b);
    }
    if k < count && off + 46 <= |b| {
      if AllMarked(b, off, k + 1) {
        var at: seq<nat> :| EntryMarks(b, off, k + 1, at);
        MarkedAreSigned(b, off, k + 1, at, k);
        assert false;
      }
    }
  }

  /** The two-byte field at distance field, summed over the first k records. */
  function FieldSum(b: seq<byte>, p: nat, field: nat, k: nat): nat
    decreases k
  {
    if k == 0 then 0 else FieldSum(b, p, field, k - 1) + Le16(b, Cursor(b, p, k - 1) + field)
  }

  /** The cursor has gone past k fixed parts and all names, extra fields and comments. */
  lemma {:induction false} CursorConservation(b: seq<byte>, p: nat, k: nat)
    ensures Cursor(b, p, k) == p + k * ENTRY_LEN + FieldSum(b, p, 28, k) + FieldSum(b, p, 30, k) + FieldSum(b, p, 32, k)
  {
    if k > 0 {
      CursorConservation(b, p, k - 1);
    }
  }

  // ---------------------------------------------------------------- the reader

  /** What malloc has handed out and free not yet taken back. */
  class Heap {
    ghost var live: set<object>

    constructor ()
      ensures live == {}
    {
      live := {};
    }

    method Malloc(o: object)
      requires o !in live
      modifies this
      ensures live == old(live) + {o}
    {
      live := live + {o};
    }

    method FreeFile(file: Zipfile)
      requires file in live
      modifies this
      ensures live == old(live) - {file}
    {
      live := live - {file};
    }

    /** Freeing an entry leaves nothing to be known of what its fields hold. */
    method FreeEntry(entry: Zipentry)
      requires entry in live
      modifies this, entry
      ensures live == old(live) - {entry}
    {
      entry.fileNameLength, entry.compressionMethod, entry.uncompressedSize, entry.compressedSize, entry.data := *, *, *, *, *;
      entry.fileName, entry.next := *, *;
      live := live - {entry};
    }

    /** Following a link takes an entry that has not been freed. */
    method Next(entry: Zipentry) returns (next: Zipentry?)
      requires entry in live
      ensures next == entry.next
    {
      next := entry.next;
    }
  }

  class Zipentry {
    var fileNameLength: nat
    var fileName: Option<nat>
    var compressionMethod: nat
    var uncompressedSize: nat
    var compressedSize: nat
    var data: nat
    var next: Zipentry?

    constructor ()
      ensures next == null
    {
      fileNameLength, fileName, compressionMethod, uncompressedSize, compressedSize, data := 0, None, 0, 0, 0, 0;
      next := null;
    }

    function View(): Record
      reads this
    {
      Record(fileNameLength, fileName, compressionMethod, uncompressedSize, compressedSize, data)
    }
  }

  /** head is a null-terminated list of exactly these nodes. */
  ghost predicate IsList(head: Zipentry?, nodes: seq<Zipentry>)
    reads nodes
  {
    && head == NodeAt(nodes, 0)
    && (forall i :: 0 <= i < |nodes| ==> nodes[i].next == NodeAt(nodes, i + 1))
    && (forall i, j :: 0 <= i < j < |nodes| ==> nodes[i] != nodes[j])
  }

  ghost function NodeAt(nodes: seq<Zipentry>, i: nat): Zipentry? {
    if i < |nodes| then nodes[i] else null
  }

  ghost function NodeSet(nodes: seq<Zipentry>): set<object> {
    set x | x in nodes
  }

  lemma NodeSetPrepend(entry: Zipentry, nodes: seq<Zipentry>)
    ensures NodeSet([entry] + nodes) == {entry as object} + NodeSet(nodes)
  {
  }

  /** The nodes hold these records, the last record first. */
  ghost predicate AreRecords(nodes: seq<Zipentry>, records: seq<Record>)
    reads nodes
  {
    && |nodes| == |records|
    && forall j :: 0 <= j < |nodes| ==> nodes[|nodes| - 1 - j].View() == records[j]
  }

  lemma RecordPrepended(entry: Zipentry, nodes: seq<Zipentry>, records: seq<Record>)
    requires AreRecords(nodes, records)
    ensures AreRecords([entry] + nodes, records + [entry.View()])
  {
    var all := [entry] + nodes;
    assert forall i :: 1 <= i < |all| ==> all[i] == nodes[i - 1];
  }

  class Zipfile {
    const buf: seq<byte>
    var disknum: nat
    var diskWithCentralDir: nat
    var entryCount: nat
    var totalEntryCount: nat
    var centralDirSize: nat
    var centralDirOffset: nat
    var commentLen: nat
    var comment: Option<nat>
    var entries: Zipentry?
    ghost var nodes: seq<Zipentry>

    constructor (data: seq<byte>)
      ensures buf == data && entries == null && nodes == []
    {
      buf := data;
      disknum, diskWithCentralDir, entryCount, totalEntryCount := 0, 0, 0, 0;
      centralDirSize, centralDirOffset, commentLen, comment := 0, 0, 0, None;
      entries, nodes := null, [];
    }

    method Prepend(entry: Zipentry)
      requires IsList(entries, nodes) && entry !in nodes
      modifies this`entries, this`nodes, entry`next
      ensures IsList(entries, nodes) && nodes == [entry] + old(nodes) && entry.View() == old(entry.View())
    {
      entry.next := entries;
      entries := entry;
      nodes := [entry] + nodes;
    }
  }

  /** The end record's fields, its comment only when there is one and it fits. */
  method ReadCentralDirValues(file: Zipfile, eocd: nat, len: int) returns (err: int)
    requires len == |file.buf| - eocd
    modifies file`disknum, file`diskWithCentralDir, file`entryCount, file`totalEntryCount, file`centralDirSize,
             file`centralDirOffset, file`commentLen, file`comment
    ensures err == if eocd + EOCD_LEN + Le16(file.buf, eocd + 20) <= |file.buf| then 0 else -1
    ensures err == 0 ==>
              && file.disknum == Le16(file.buf, eocd + 4) && file.diskWithCentralDir == Le16(file.buf, eocd + 6)
              && file.entryCount == Le16(file.buf, eocd + 8) && file.totalEntryCount == Le16(file.buf, eocd + 10)
              && file.centralDirSize == Le32(file.buf, eocd + 12) && file.centralDirOffset == Le32(file.buf, eocd + 16)
              && file.commentLen == Le16(file.buf, eocd + 20)
              && file.comment == if file.commentLen > 0 then Some(eocd + EOCD_LEN) else old(file.comment)
  {
    if len < EOCD_LEN {
      return -1;
    }
    file.disknum := ReadLeShort(file.buf, eocd + 0x04);
    file.diskWithCentralDir := ReadLeShort(file.buf, eocd + 0x06);
    file.entryCount := ReadLeShort(file.buf, eocd + 0x08);
    file.totalEntryCount := ReadLeShort(file.buf, eocd + 0x0a);
    file.centralDirSize := ReadLeInt(file.buf, eocd + 0x0c);
    file.centralDirOffset := ReadLeInt(file.buf, eocd + 0x10);
    file.commentLen := ReadLeShort(file.buf, eocd + 0x14);
    if file.commentLen > 0 {
      if EOCD_LEN + file.commentLen > len {
        return -1;
      }
      file.comment := Some(eocd + EOCD_LEN);
    }
    return 0;
  }

  /** One directory record into entry; the cursor p moves past it. */
  method ReadCentralDirectoryEntry(file: Zipfile, entry: Zipentry, p: nat, len: int) returns (err: int, p': nat)
    requires len >= ENTRY_LEN ==> RecordInside(file.buf, p)
    modifies entry
    ensures err == if len >= ENTRY_LEN && Signed(file.buf, p) then 0 else -1
    ensures if err == 0 then entry.View() == ParseRecord(file.buf, p) && p' == p + RecordSize(file.buf, p) else p' == p
    ensures entry.next == old(entry.next)
  {
    p' := p;
    if len < ENTRY_LEN {
      return -1, p';
    }
    var signature := ReadLeInt(file.buf, p);
    if signature != ENTRY_SIGNATURE {
      return -1, p';
    }
    entry.compressionMethod := ReadLeShort(file.buf, p + 0x0a);
    entry.compressedSize := ReadLeInt(file.buf, p + 0x14);
    entry.uncompressedSize := ReadLeInt(file.buf, p + 0x18);
    entry.fileNameLength := ReadLeShort(file.buf, p + 0x1c);
    var extraFieldLength := ReadLeShort(file.buf, p + 0x1e);
    var fileCommentLength := ReadLeShort(file.buf, p + 0x20);
    var localHeaderRelOffset := ReadLeInt(file.buf, p + 0x2a);

    p' := p' + ENTRY_LEN;
    entry.fileName := if entry.fileNameLength != 0 then Some(p') else None;
    p' := p' + entry.fileNameLength;
    p' := p' + extraFieldLength;
    p' := p' + fileCommentLength;

    extraFieldLength := ReadLeShort(file.buf, localHeaderRelOffset + 0x1c);
    var dataOffset := (localHeaderRelOffset + LFH_SIZE + entry.fileNameLength + extraFieldLength) % WORD_BASE;
    entry.data := dataOffset;
    err := 0;
  }

  /** The one-byte test never hides a signature. */
  lemma FirstByteOfSignature(b: seq<byte>, p: nat)
    requires p < |b| && b[p] != 0x50
    ensures Le32(b, p) != CD_SIGNATURE
  {
    assert Le32(b, p) % 256 == b[p];
  }

  /** The backward scan for the end record signature; the one-byte test only saves time. */
  method FindEocd(buf: seq<byte>) returns (eocd: Option<nat>)
    requires |buf| >= EOCD_LEN
    ensures eocd == EocdAt(buf)
  {
    var start := if |buf| > MAX_EOCD_SEARCH then |buf| - MAX_EOCD_SEARCH else 0;
    var p := |buf| - 4;
    while p >= start
      invariant start - 1 <= p <= |buf| - 4
      invariant EocdAt(buf) == LastSignature(buf, start, p)
    {
      if buf[p] == 0x50 {
        var signature := ReadLeInt(buf, p);
        if signature == CD_SIGNATURE {
          return Some(p);
        }
      } else {
        FirstByteOfSignature(buf, p);
      }
      p := p - 1;
    }
    return None;
  }

  /** One turn of the loop of read_central_dir: a new entry is read and put in front of the list,
      or given back when the record is no good. */
  method ReadNext(file: Zipfile, heap: Heap, p: nat, len: int, ghost records: seq<Record>) returns (err: int, p': nat)
    requires len >= ENTRY_LEN ==> RecordInside(file.buf, p)
    requires records != [] && records[|records| - 1] == ParseRecord(file.buf, p)
    requires IsList(file.entries, file.nodes) && AreRecords(file.nodes, records[..|records| - 1])
    modifies file`entries, file`nodes, heap
    ensures err == if len >= ENTRY_LEN && Signed(file.buf, p) then 0 else -1
    ensures err != 0 ==> p' == p && file.entries == old(file.entries) && file.nodes == old(file.nodes) && heap.live == old(heap.live)
    ensures err == 0 ==>
              && p' == p + RecordSize(file.buf, p)
              && file.nodes != [] && file.nodes == [file.nodes[0]] + old(file.nodes) && fresh(file.nodes[0])
              && IsList(file.entries, file.nodes) && AreRecords(file.nodes, records)
              && heap.live == old(heap.live) + {file.nodes[0]}
  {
    var entry := new Zipentry();
    heap.Malloc(entry);
    err, p' := ReadCentralDirectoryEntry(file, entry, p, len);
    if err != 0 {
      heap.FreeEntry(entry);
      return;
    }
    file.Prepend(entry);
    RecordPrepended(entry, old(file.nodes), records[..|records| - 1]);
    assert records == records[..|records| - 1] + [entry.View()];
  }

  /** The whole loop. The room len is what was computed before the first entry. */
  method ReadEntries(file: Zipfile, heap: Heap, p0: nat, len: int) returns (err: int, p: nat)
    requires file.entries == null && file.nodes == []
    requires RecordsInside(file.buf, p0, file.totalEntryCount, len)
    modifies file`entries, file`nodes, heap
    ensures |file.nodes| == Linked(file.buf, p0, file.totalEntryCount, len)
    ensures err == if |file.nodes| == file.totalEntryCount then 0 else -1
    ensures p == Cursor(file.buf, p0, |file.nodes|)
    ensures IsList(file.entries, file.nodes) && AreRecords(file.nodes, Records(file.buf, p0, |file.nodes|))
    ensures heap.live == old(heap.live) + NodeSet(file.nodes)
    ensures fresh(NodeSet(file.nodes))
  {
    ghost var b, n := file.buf, file.totalEntryCount;
    ghost var k := Linked(b, p0, n, len);
    p := p0;
    var i := 0;
    ghost var records: seq<Record> := [];
    while i < file.totalEntryCount
      invariant i <= k && p == Cursor(b, p0, i) && records == Records(b, p0, i)
      invariant |file.nodes| == i && IsList(file.entries, file.nodes) && AreRecords(file.nodes, records)
      invariant heap.live == old(heap.live) + NodeSet(file.nodes)
      invariant fresh(NodeSet(file.nodes))
    {
      ghost var nodes := file.nodes;
      LinkedNext(b, p0, n, len, i);
      records := records + [ParseRecord(b, p)];
      err, p := ReadNext(file, heap, p, len, records);
      if err != 0 {
        return -1, p;
      }
      NodeSetPrepend(file.nodes[0], nodes);
      i := i + 1;
    }
    return 0, p;
  }

  /** read_central_dir. */
  method ReadCentralDir(file: Zipfile, heap: Heap) returns (err: int)
    requires file.entries == null && file.nodes == [] && ReadsInside(file.buf)
    modifies file, heap
    ensures err == if Accepted(file.buf) then 0 else -1
    ensures IsList(file.entries, file.nodes) && |file.nodes| == LinkedCount(file.buf)
    ensures file.nodes != [] ==> AreRecords(file.nodes, Records(file.buf, DirectoryStart(file.buf), |file.nodes|))
    ensures err == 0 ==>
              && file.entryCount == file.totalEntryCount == |file.nodes| == EntryCount(file.buf)
              && AreRecords(file.nodes, Records(file.buf, DirectoryStart(file.buf), |file.nodes|))
    ensures heap.live == old(heap.live) + NodeSet(file.nodes)
    ensures fresh(NodeSet(file.nodes))
  {
    var buf := file.buf;
    AcceptedLinksAll(buf);
    if |buf| < EOCD_LEN {
      return -1;
    }
    var eocd := FindEocd(buf);
    if eocd.None? {
      return -1;
    }
    err := ReadCentralDirValues(file, eocd.value, |buf| - eocd.value);
    if err != 0 {
      return -1;
    }
    if file.disknum != 0 || file.diskWithCentralDir != 0 || file.entryCount != file.totalEntryCount {
      return -1;
    }
    var p := file.centralDirOffset;
    var len := AsInt32(|buf| - p);
    assert EndAccepted(buf) && len == Room(buf) && RecordsInside(buf, p, file.totalEntryCount, len);
    err, p := ReadEntries(file, heap, p, len);
  }
}
