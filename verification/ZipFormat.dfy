/** The ZIP file format as far as the reader is concerned, PKWARE APPNOTE.TXT sections 4.3.7 (local
    file header), 4.3.12 (central directory header) and 4.3.16 (end of central directory record):
    how an archive is laid out in bytes. This is the specification the reader is proved against. */
module ZipFormat {
  import opened Limbs
  import opened Modular
  import Bits

  type byte = x: nat | x < 256

  const CD_SIGNATURE: nat := 0x06054b50
  const ENTRY_SIGNATURE: nat := 0x02014b50
  const LOCAL_SIGNATURE: nat := 0x04034b50
  const EOCD_LEN: nat := 22
  const ENTRY_LEN: nat := 46
  const LFH_SIZE: nat := 30
  const MAX_COMMENT_LEN: nat := 65535
  const MAX_EOCD_SEARCH: nat := MAX_COMMENT_LEN + EOCD_LEN

  // ---------------------------------------------------------------- little-endian numbers

  /** The byte at i; positions outside the buffer count as 0, and nothing is claimed about them. */
  function ByteAt(b: seq<byte>, i: int): byte {
    if 0 <= i < |b| then b[i] else 0
  }

  function Le16(b: seq<byte>, i: int): nat {
    ByteAt(b, i) + 256 * ByteAt(b, i + 1)
  }

  function Le32(b: seq<byte>, i: int): nat {
    Le16(b, i) + 0x1_0000 * Le16(b, i + 2)
  }

  lemma Le32Bound(b: seq<byte>, i: int)
    ensures Le32(b, i) < WORD_BASE
  {
  }

  function Put16(x: nat): seq<byte> {
    [x % 256, x / 256 % 256]
  }

  function Put32(x: nat): seq<byte> {
    Put16(x % 0x1_0000) + Put16(x / 0x1_0000)
  }

  lemma PutGet16(x: nat)
    requires x < 0x1_0000
    ensures Le16(Put16(x), 0) == x
  {
  }

  function ShiftLeft(x: byte, k: nat): nat {
    x * Pow2(k)
  }

  /** read_le_short: the bytes shifted into place and or-ed are their weighted sum. */
  method ReadLeShort(buf: seq<byte>, i: nat) returns (r: nat)
    requires i + 2 <= |buf|
    ensures r == Le16(buf, i) < 0x1_0000
  {
    Pow2OfWord();
    Bits.OrDisjoint(buf[i], buf[i + 1], 8);
    r := Bits.Or(buf[i], ShiftLeft(buf[i + 1], 8));
  }

  /** read_le_int. */
  method ReadLeInt(buf: seq<byte>, i: nat) returns (r: nat)
    requires i + 4 <= |buf|
    ensures r == Le32(buf, i) < WORD_BASE
  {
    Pow2OfWord();
    r := ReadLeShort(buf, i);
    Bits.OrDisjoint(r, buf[i + 2], 16);
    r := Bits.Or(r, ShiftLeft(buf[i + 2], 16));
    Bits.OrDisjoint(r, buf[i + 3], 24);
    r := Bits.Or(r, ShiftLeft(buf[i + 3], 24));
  }

  // ---------------------------------------------------------------- parts of a buffer

  /** part lies in b at position p. */
  predicate Placed(b: seq<byte>, p: nat, part: seq<byte>) {
    p + |part| <= |b| && b[p..p + |part|] == part
  }

  lemma PlacedInside(b: seq<byte>, p: nat, part: seq<byte>, q: nat, inner: seq<byte>)
    requires Placed(b, p, part) && Placed(part, q, inner)
    ensures Placed(b, p + q, inner)
  {
    forall i | 0 <= i < |inner| ensures b[p + q + i] == inner[i] {
      assert inner[i] == part[q..q + |inner|][i] == part[q + i];
      assert part[q + i] == b[p..p + |part|][q + i];
    }
  }

  lemma PlacedByte(b: seq<byte>, p: nat, part: seq<byte>, i: nat)
    requires Placed(b, p, part) && i < |part|
    ensures ByteAt(b, p + i) == part[i]
  {
    assert part[i] == b[p..p + |part|][i];
  }

  lemma PlacedLe16(b: seq<byte>, p: nat, part: seq<byte>, i: nat)
    requires Placed(b, p, part) && i + 2 <= |part|
    ensures Le16(b, p + i) == Le16(part, i)
  {
    PlacedByte(b, p, part, i);
    PlacedByte(b, p, part, i + 1);
  }

  lemma PlacedLe32(b: seq<byte>, p: nat, part: seq<byte>, i: nat)
    requires Placed(b, p, part) && i + 4 <= |part|
    ensures Le32(b, p + i) == Le32(part, i)
  {
    PlacedLe16(b, p, part, i);
    PlacedLe16(b, p, part, i + 2);
  }

  lemma PlacedNumbers(b: seq<byte>, p: nat, part: seq<byte>)
    requires Placed(b, p, part)
    ensures forall i :: 0 <= i && i + 2 <= |part| ==> Le16(b, p + i) == Le16(part, i)
    ensures forall i :: 0 <= i && i + 4 <= |part| ==> Le32(b, p + i) == Le32(part, i)
  {
    forall i | 0 <= i && i + 2 <= |part| ensures Le16(b, p + i) == Le16(part, i) {
      PlacedLe16(b, p, part, i);
    }
    forall i | 0 <= i && i + 4 <= |part| ensures Le32(b, p + i) == Le32(part, i) {
      PlacedLe32(b, p, part, i);
    }
  }

  lemma PutGet32(x: nat)
    requires x < WORD_BASE
    ensures Le32(Put32(x), 0) == x
  {
    var lo, hi := x % 0x1_0000, x / 0x1_0000;
    PutGet16(lo);
    PutGet16(hi);
    PlacedLe16(Put32(x), 0, Put16(lo), 0);
    PlacedLe16(Put32(x), 2, Put16(hi), 0);
  }

  // ---------------------------------------------------------------- headers

  /** A two-byte or four-byte header field. */
  datatype Field = Short(v: nat) | Long(v: nat) {
    function Width(): nat {
      if Short? then 2 else 4
    }

    function Bytes(): (r: seq<byte>)
      ensures |r| == Width()
    {
      if Short? then Put16(v) else Put32(v)
    }
  }

  function Fields(fs: seq<Field>): seq<byte> {
    if fs == [] then [] else Fields(fs[..|fs| - 1]) + fs[|fs| - 1].Bytes()
  }

  /** The width of the first i fields. */
  function Extent(fs: seq<Field>, i: nat): nat
    requires i <= |fs|
    decreases i
  {
    if i == 0 then 0 else Extent(fs, i - 1) + fs[i - 1].Width()
  }

  lemma {:induction false} ExtentOfPrefix(fs: seq<Field>, k: nat, i: nat)
    requires i <= k <= |fs|
    ensures Extent(fs[..k], i) == Extent(fs, i)
    decreases i
  {
    if i > 0 {
      ExtentOfPrefix(fs, k, i - 1);
    }
  }

  lemma {:induction false} FieldsLength(fs: seq<Field>)
    ensures |Fields(fs)| == Extent(fs, |fs|)
  {
    if fs != [] {
      FieldsLength(fs[..|fs| - 1]);
      ExtentOfPrefix(fs, |fs| - 1, |fs| - 1);
    }
  }

  lemma {:induction false} FieldPlaced(fs: seq<Field>, i: nat)
    requires i < |fs|
    ensures Placed(Fields(fs), Extent(fs, i), fs[i].Bytes())
    decreases |fs|
  {
    var before, last := fs[..|fs| - 1], fs[|fs| - 1].Bytes();
    ExtentOfPrefix(fs, |fs| - 1, i);
    if i == |fs| - 1 {
      FieldsLength(before);
      assert Fields(fs)[|Fields(before)|..] == last;
    } else {
      FieldPlaced(before, i);
      assert Placed(Fields(fs), 0, Fields(before));
      PlacedInside(Fields(fs), 0, Fields(before), Extent(fs, i), fs[i].Bytes());
    }
  }

  /** A field that fits its width reads back. */
  lemma ShortAt(fs: seq<Field>, i: nat)
    requires i < |fs| && fs[i].Short? && fs[i].v < 0x1_0000
    ensures Le16(Fields(fs), Extent(fs, i)) == fs[i].v
  {
    FieldPlaced(fs, i);
    PlacedLe16(Fields(fs), Extent(fs, i), fs[i].Bytes(), 0);
    PutGet16(fs[i].v);
  }

  lemma LongAt(fs: seq<Field>, i: nat)
    requires i < |fs| && fs[i].Long? && fs[i].v < WORD_BASE
    ensures Le32(Fields(fs), Extent(fs, i)) == fs[i].v
  {
    FieldPlaced(fs, i);
    PlacedLe32(Fields(fs), Extent(fs, i), fs[i].Bytes(), 0);
    PutGet32(fs[i].v);
  }

  // ---------------------------------------------------------------- archives

  datatype Member = Member(
    versionMadeBy: nat, versionToExtract: nat, flags: nat, compression: nat, time: nat, date: nat,
    crc: nat, uncompressedSize: nat, diskStart: nat, internalAttrs: nat, externalAttrs: nat,
    name: seq<byte>, centralExtra: seq<byte>, comment: seq<byte>,
    localExtra: seq<byte>, payload: seq<byte>)

  /** The preamble is whatever comes before the first local header. */
  datatype Archive = Archive(preamble: seq<byte>, members: seq<Member>, comment: seq<byte>)

  function LocalHeader(m: Member): seq<Field> {
    [Long(LOCAL_SIGNATURE), Short(m.versionToExtract), Short(m.flags), Short(m.compression),
     Short(m.time), Short(m.date), Long(m.crc), Long(|m.payload|), Long(m.uncompressedSize),
     Short(|m.name|), Short(|m.localExtra|)]
  }

  function Local(m: Member): seq<byte> {
    Fields(LocalHeader(m)) + m.name + m.localExtra + m.payload
  }

  function CentralHeader(m: Member, offset: nat): seq<Field> {
    [Long(ENTRY_SIGNATURE), Short(m.versionMadeBy), Short(m.versionToExtract), Short(m.flags),
     Short(m.compression), Short(m.time), Short(m.date), Long(m.crc), Long(|m.payload|),
     Long(m.uncompressedSize), Short(|m.name|), Short(|m.centralExtra|), Short(|m.comment|),
     Short(m.diskStart), Short(m.internalAttrs), Long(m.externalAttrs), Long(offset)]
  }

  function Central(m: Member, offset: nat): seq<byte> {
    Fields(CentralHeader(m, offset)) + m.name + m.centralExtra + m.comment
  }

  /** The end record of an archive on one disk, without its comment. */
  function EndRecord(count: nat, size: nat, offset: nat, commentLen: nat): seq<Field> {
    [Long(CD_SIGNATURE), Short(0), Short(0), Short(count), Short(count), Long(size), Long(offset), Short(commentLen)]
  }

  function Concat(parts: seq<seq<byte>>): seq<byte> {
    if parts == [] then [] else Concat(parts[..|parts| - 1]) + parts[|parts| - 1]
  }

  /** Where part j starts when the first is at base; part |parts| is what follows. */
  function StartOf(base: nat, parts: seq<seq<byte>>, j: nat): nat
    requires j <= |parts|
  {
    base + |Concat(parts[..j])|
  }

  /** The pieces of an archive file, and where they come to lie. */
  datatype Layout = Layout(preamble: seq<byte>, locals: seq<seq<byte>>, dir: seq<seq<byte>>,
                           end: seq<byte>, comment: seq<byte>) {

    function Bytes(): seq<byte> {
      preamble + Concat(locals) + Concat(dir) + end + comment
    }

    function LocalOffset(j: nat): nat
      requires j <= |locals|
    {
      StartOf(|preamble|, locals, j)
    }

    function DirectoryOffset(): nat {
      |preamble| + |Concat(locals)|
    }

    /** Entry |dir| is the end record. */
    function CentralOffset(j: nat): nat
      requires j <= |dir|
    {
      StartOf(DirectoryOffset(), dir, j)
    }

    function EocdOffset(): nat {
      DirectoryOffset() + |Concat(dir)|
    }
  }

  ghost predicate AreLocals(parts: seq<seq<byte>>, ms: seq<Member>) {
    |parts| == |ms| && forall j :: 0 <= j < |ms| ==> parts[j] == Local(ms[j])
  }

  function Locals(ms: seq<Member>): (parts: seq<seq<byte>>)
    ensures AreLocals(parts, ms)
  {
    seq(|ms|, j requires 0 <= j < |ms| => Local(ms[j]))
  }

  /** Each directory entry points to its local header, the first of which is at base. */
  ghost predicate AreCentrals(parts: seq<seq<byte>>, ms: seq<Member>, base: nat, locals: seq<seq<byte>>) {
    && |parts| == |ms| == |locals|
    && forall j :: 0 <= j < |ms| ==> parts[j] == Central(ms[j], StartOf(base, locals, j))
  }

  function Centrals(ms: seq<Member>, base: nat, locals: seq<seq<byte>>): (parts: seq<seq<byte>>)
    requires |locals| == |ms|
    ensures AreCentrals(parts, ms, base, locals)
  {
    seq(|ms|, j requires 0 <= j < |ms| => Central(ms[j], StartOf(base, locals, j)))
  }

  function EndOf(preamble: seq<byte>, locals: seq<seq<byte>>, dir: seq<seq<byte>>, comment: seq<byte>): seq<byte> {
    Fields(EndRecord(|dir|, |Concat(dir)|, |preamble| + |Concat(locals)|, |comment|))
  }

  /** The file of an archive: local headers with payloads, the directory pointing back to them, and
      the end record pointing to the directory. */
  function LayoutOf(a: Archive): (l: Layout)
    ensures Lays(l, a)
  {
    var locals := Locals(a.members);
    var dir := Centrals(a.members, |a.preamble|, locals);
    Layout(a.preamble, locals, dir, EndOf(a.preamble, locals, dir, a.comment), a.comment)
  }

  function Encode(a: Archive): seq<byte> {
    LayoutOf(a).Bytes()
  }

  predicate MemberFits(m: Member) {
    && m.compression < 0x1_0000 && m.uncompressedSize < WORD_BASE
    && |m.name| < 0x1_0000 && |m.centralExtra| < 0x1_0000 && |m.comment| < 0x1_0000
    && |m.localExtra| < 0x1_0000
    && (m.compression == 0 ==> m.uncompressedSize == |m.payload|)
  }

  /** Everything the reader looks at fits its field, and the file its int length. */
  ghost predicate WellFormed(a: Archive) {
    && (forall i :: 0 <= i < |a.members| ==> MemberFits(a.members[i]))
    && |a.members| < 0x1_0000 && |a.comment| < 0x1_0000
    && |Encode(a)| < 0x8000_0000
  }

  lemma LocalHeaderFields(m: Member)
    requires MemberFits(m)
    ensures |Fields(LocalHeader(m))| == LFH_SIZE
    ensures Le16(Fields(LocalHeader(m)), 28) == |m.localExtra|
  {
    var fs := LocalHeader(m);
    assert Extent(fs, 11) == 30 && Extent(fs, 10) == 28;
    FieldsLength(fs);
    ShortAt(fs, 10);
  }

  lemma FourParts(a: seq<byte>, b: seq<byte>, c: seq<byte>, d: seq<byte>)
    ensures var s := a + b + c + d;
            Placed(s, 0, a) && Placed(s, |a|, b) && Placed(s, |a| + |b|, c) && Placed(s, |a| + |b| + |c|, d)
  {
    var s := a + b + c + d;
    assert s[0..|a|] == a && s[|a|..|a| + |b|] == b;
    assert s[|a| + |b|..|a| + |b| + |c|] == c;
  }

  lemma CentralHeaderFields(m: Member, offset: nat)
    requires MemberFits(m) && |m.payload| < WORD_BASE && offset < WORD_BASE
    ensures var h := Fields(CentralHeader(m, offset));
            && |h| == ENTRY_LEN
            && Le32(h, 0) == ENTRY_SIGNATURE && Le16(h, 10) == m.compression
            && Le32(h, 20) == |m.payload| && Le32(h, 24) == m.uncompressedSize
            && Le16(h, 28) == |m.name| && Le16(h, 30) == |m.centralExtra| && Le16(h, 32) == |m.comment|
            && Le32(h, 42) == offset
  {
    var fs := CentralHeader(m, offset);
    assert Extent(fs, 0) == 0 && Extent(fs, 4) == 10 && Extent(fs, 8) == 20 && Extent(fs, 9) == 24;
    assert Extent(fs, 10) == 28 && Extent(fs, 11) == 30 && Extent(fs, 12) == 32;
    assert Extent(fs, 16) == 42 && Extent(fs, 17) == 46;
    FieldsLength(fs);
    LongAt(fs, 0);
    ShortAt(fs, 4);
    LongAt(fs, 8);
    LongAt(fs, 9);
    ShortAt(fs, 10);
    ShortAt(fs, 11);
    ShortAt(fs, 12);
    LongAt(fs, 16);
  }

  lemma EndRecordFields(count: nat, size: nat, offset: nat, commentLen: nat)
    requires count < 0x1_0000 && size < WORD_BASE && offset < WORD_BASE && commentLen < 0x1_0000
    ensures var e := Fields(EndRecord(count, size, offset, commentLen));
            && |e| == EOCD_LEN && Le32(e, 0) == CD_SIGNATURE
            && Le16(e, 4) == 0 && Le16(e, 6) == 0 && Le16(e, 8) == count && Le16(e, 10) == count
            && Le32(e, 12) == size && Le32(e, 16) == offset && Le16(e, 20) == commentLen
  {
    var fs := EndRecord(count, size, offset, commentLen);
    assert Extent(fs, 0) == 0 && Extent(fs, 1) == 4 && Extent(fs, 2) == 6 && Extent(fs, 3) == 8;
    assert Extent(fs, 4) == 10 && Extent(fs, 5) == 12 && Extent(fs, 6) == 16 && Extent(fs, 7) == 20 && Extent(fs, 8) == 22;
    FieldsLength(fs);
    LongAt(fs, 0);
    ShortAt(fs, 1);
    ShortAt(fs, 2);
    ShortAt(fs, 3);
    ShortAt(fs, 4);
    LongAt(fs, 5);
    LongAt(fs, 6);
    ShortAt(fs, 7);
  }

  // ---------------------------------------------------------------- where members are

  lemma {:induction false} PartPlaced(parts: seq<seq<byte>>, j: nat)
    requires j < |parts|
    ensures Placed(Concat(parts), |Concat(parts[..j])|, parts[j])
    ensures |Concat(parts[..j + 1])| == |Concat(parts[..j])| + |parts[j]|
    decreases |parts|
  {
    var before, last := parts[..|parts| - 1], parts[|parts| - 1];
    assert parts[..j + 1][..j] == parts[..j];
    if j == |parts| - 1 {
      assert Concat(parts)[|Concat(before)|..] == last;
      assert parts[..j + 1] == parts;
    } else {
      assert before[..j] == parts[..j];
      PartPlaced(before, j);
      assert Placed(Concat(parts), 0, Concat(before));
      PlacedInside(Concat(parts), 0, Concat(before), |Concat(parts[..j])|, parts[j]);
    }
  }

  lemma LayoutPlaced(l: Layout)
    ensures Placed(l.Bytes(), |l.preamble|, Concat(l.locals))
    ensures Placed(l.Bytes(), l.DirectoryOffset(), Concat(l.dir))
    ensures Placed(l.Bytes(), l.EocdOffset(), l.end)
    ensures |l.Bytes()| == l.EocdOffset() + |l.end| + |l.comment|
  {
    var b, rest := l.Bytes(), l.end + l.comment;
    FourParts(l.preamble, Concat(l.locals), Concat(l.dir), rest);
    assert b == l.preamble + Concat(l.locals) + Concat(l.dir) + rest;
    assert Placed(rest, 0, l.end);
    PlacedInside(b, l.EocdOffset(), rest, 0, l.end);
  }

  lemma DirectoryEnds(l: Layout)
    ensures l.CentralOffset(0) == l.DirectoryOffset()
    ensures l.CentralOffset(|l.dir|) == l.EocdOffset()
  {
    assert l.dir[..|l.dir|] == l.dir;
  }

  lemma PiecesPlaced(l: Layout, j: nat)
    requires j < |l.locals| == |l.dir|
    ensures Placed(l.Bytes(), l.LocalOffset(j), l.locals[j])
    ensures Placed(l.Bytes(), l.CentralOffset(j), l.dir[j])
    ensures l.CentralOffset(j + 1) == l.CentralOffset(j) + |l.dir[j]|
  {
    var b := l.Bytes();
    LayoutPlaced(l);
    PartPlaced(l.locals, j);
    PartPlaced(l.dir, j);
    PlacedInside(b, |l.preamble|, Concat(l.locals), |Concat(l.locals[..j])|, l.locals[j]);
    PlacedInside(b, l.DirectoryOffset(), Concat(l.dir), |Concat(l.dir[..j])|, l.dir[j]);
  }

  /** l is the layout of a. */
  ghost predicate Lays(l: Layout, a: Archive) {
    && l.preamble == a.preamble && l.comment == a.comment
    && AreLocals(l.locals, a.members) && AreCentrals(l.dir, a.members, |l.preamble|, l.locals)
    && l.end == EndOf(l.preamble, l.locals, l.dir, l.comment)
  }

  // ---------------------------------------------------------------- what a reader finds there

  /** The directory entry of m at position c of b. */
  ghost predicate EntryAt(b: seq<byte>, c: nat, m: Member, offset: nat) {
    && c + ENTRY_LEN + |m.name| <= |b|
    && Le32(b, c) == ENTRY_SIGNATURE && Le16(b, c + 10) == m.compression
    && Le32(b, c + 20) == |m.payload| && Le32(b, c + 24) == m.uncompressedSize
    && Le16(b, c + 28) == |m.name| && Le16(b, c + 30) == |m.centralExtra| && Le16(b, c + 32) == |m.comment|
    && Le32(b, c + 42) == offset
    && b[c + ENTRY_LEN..c + ENTRY_LEN + |m.name|] == m.name
  }

  /** The local header of m at position o of b, its payload after it. */
  ghost predicate LocalAt(b: seq<byte>, o: nat, m: Member) {
    && Le16(b, o + 28) == |m.localExtra|
    && Placed(b, o + LFH_SIZE + |m.name| + |m.localExtra|, m.payload)
  }

  lemma CentralRead(b: seq<byte>, c: nat, m: Member, offset: nat)
    requires MemberFits(m) && |m.payload| < WORD_BASE && offset < WORD_BASE
    requires Placed(b, c, Central(m, offset))
    ensures EntryAt(b, c, m, offset)
    ensures |Central(m, offset)| == ENTRY_LEN + |m.name| + |m.centralExtra| + |m.comment|
  {
    var h, whole := Fields(CentralHeader(m, offset)), Central(m, offset);
    CentralHeaderFields(m, offset);
    FourParts(h, m.name, m.centralExtra, m.comment);
    HeaderRead(b, c, whole, h, m.name);
    PlacedNumbers(b, c, h);
  }

  lemma HeaderRead(b: seq<byte>, c: nat, whole: seq<byte>, h: seq<byte>, name: seq<byte>)
    requires Placed(b, c, whole) && Placed(whole, 0, h) && Placed(whole, |h|, name)
    ensures Placed(b, c, h) && Placed(b, c + |h|, name)
  {
    PlacedInside(b, c, whole, 0, h);
    PlacedInside(b, c, whole, |h|, name);
  }

  lemma LocalRead(b: seq<byte>, o: nat, m: Member)
    requires MemberFits(m) && Placed(b, o, Local(m))
    ensures LocalAt(b, o, m)
  {
    var h := Fields(LocalHeader(m));
    LocalHeaderFields(m);
    FourParts(h, m.name, m.localExtra, m.payload);
    HeaderRead(b, o, Local(m), h, m.name);
    PlacedInside(b, o, Local(m), |h| + |m.name| + |m.localExtra|, m.payload);
    PlacedLe16(b, o, h, 28);
  }

  /** Member j can be read back from where the layout puts it. */
  lemma MemberRead(a: Archive, l: Layout, j: nat)
    requires Lays(l, a) && j < |a.members| && MemberFits(a.members[j]) && |l.Bytes()| < 0x8000_0000
    ensures EntryAt(l.Bytes(), l.CentralOffset(j), a.members[j], l.LocalOffset(j))
    ensures LocalAt(l.Bytes(), l.LocalOffset(j), a.members[j])
    ensures var m := a.members[j];
            l.CentralOffset(j + 1) == l.CentralOffset(j) + ENTRY_LEN + |m.name| + |m.centralExtra| + |m.comment|
  {
    var b, m := l.Bytes(), a.members[j];
    PiecesPlaced(l, j);
    LocalRead(b, l.LocalOffset(j), m);
    CentralRead(b, l.CentralOffset(j), m, l.LocalOffset(j));
  }

  /** The end record of a at position e of b, with nothing but the comment after it and the directory
      right before it. */
  ghost predicate EndAt(b: seq<byte>, e: nat, a: Archive, directory: nat) {
    && |b| == e + EOCD_LEN + |a.comment|
    && Le32(b, e) == CD_SIGNATURE && Le16(b, e + 4) == 0 && Le16(b, e + 6) == 0
    && Le16(b, e + 8) == Le16(b, e + 10) == |a.members|
    && directory <= e && Le32(b, e + 12) == e - directory
    && Le32(b, e + 16) == directory && Le16(b, e + 20) == |a.comment|
  }

  lemma EndFieldsRead(b: seq<byte>, e: nat, preamble: seq<byte>, locals: seq<seq<byte>>, dir: seq<seq<byte>>, comment: seq<byte>)
    requires |dir| < 0x1_0000 && |Concat(dir)| < WORD_BASE && |preamble| + |Concat(locals)| < WORD_BASE && |comment| < 0x1_0000
    requires Placed(b, e, EndOf(preamble, locals, dir, comment))
    ensures |EndOf(preamble, locals, dir, comment)| == EOCD_LEN
    ensures Le32(b, e) == CD_SIGNATURE && Le16(b, e + 4) == 0 && Le16(b, e + 6) == 0
    ensures Le16(b, e + 8) == |dir| && Le16(b, e + 10) == |dir|
    ensures Le32(b, e + 12) == |Concat(dir)|
    ensures Le32(b, e + 16) == |preamble| + |Concat(locals)| && Le16(b, e + 20) == |comment|
  {
    var end := EndOf(preamble, locals, dir, comment);
    EndRecordFields(|dir|, |Concat(dir)|, |preamble| + |Concat(locals)|, |comment|);
    PlacedNumbers(b, e, end);
  }

  lemma EndRead(a: Archive, l: Layout)
    requires Lays(l, a) && |l.Bytes()| < 0x8000_0000 && |a.members| < 0x1_0000 && |a.comment| < 0x1_0000
    ensures EndAt(l.Bytes(), l.EocdOffset(), a, l.DirectoryOffset())
  {
    LayoutPlaced(l);
    EndFieldsRead(l.Bytes(), l.EocdOffset(), l.preamble, l.locals, l.dir, l.comment);
  }
}
