/** The reader undoes the encoder: what centraldir.cpp reads from an archive file is the archive. */
module ZipRoundTrip {
  import opened CentralDir
  import opened Limbs
  import opened Wrappers
  import opened ZipFormat

  /** A signature after position e would be taken for the end record instead. */
  ghost predicate LaterSignature(b: seq<byte>, e: nat) {
    exists j :: e < j <= |b| - 4 && Le32(b, j) == CD_SIGNATURE
  }

  lemma FoundUnlessLater(b: seq<byte>, e: nat)
    requires SearchStart(b) <= e <= |b| - 4 && Le32(b, e) == CD_SIGNATURE
    ensures EocdAt(b) == Some(e) <==> !LaterSignature(b, e)
    ensures EocdAt(b).Some? && EocdAt(b).value >= e
  {
  }

  /** The end record the encoder wrote is found exactly when no signature follows it, however long
      its comment; otherwise one further back in the file is taken. */
  lemma EndRecordFound(a: Archive)
    requires WellFormed(a)
    ensures var b, e := Encode(a), LayoutOf(a).EocdOffset();
            && (EocdAt(b) == Some(e) <==> !LaterSignature(b, e))
            && (LaterSignature(b, e) ==> EocdAt(b).Some? && EocdAt(b).value > e)
  {
    EndRead(a, LayoutOf(a));
    FoundUnlessLater(Encode(a), LayoutOf(a).EocdOffset());
  }

  /** A tail without the letter P cannot hide a signature. */
  lemma NoSignatureWithoutP(b: seq<byte>, e: nat)
    requires forall j :: e < j < |b| ==> b[j] != 0x50
    ensures !LaterSignature(b, e)
  {
    forall j | e < j <= |b| - 4 ensures Le32(b, j) != CD_SIGNATURE {
      FirstByteOfSignature(b, j);
    }
  }

  /** Neither byte of x is the letter P. */
  predicate WithoutP(x: nat) {
    x % 256 != 0x50 && x / 256 != 0x50
  }

  lemma Bytes16(b: seq<byte>, i: nat)
    requires i + 2 <= |b|
    ensures Le16(b, i) % 256 == b[i] && Le16(b, i) / 256 == b[i + 1]
  {
  }

  lemma EndWithoutP(b: seq<byte>, e: nat)
    requires |b| == e + EOCD_LEN && Le32(b, e) == CD_SIGNATURE
    requires forall i :: 2 <= i <= 10 ==> WithoutP(Le16(b, e + 2 * i))
    ensures !LaterSignature(b, e)
  {
    forall j | e < j < |b| ensures b[j] != 0x50 {
      var i := (j - e) / 2;
      Bytes16(b, e + 2 * i);
      if i < 2 {
        Bytes16(b, e);
        Bytes16(b, e + 2);
        assert Le16(b, e) == 0x4b50 && Le16(b, e + 2) == 0x0605;
      }
    }
    NoSignatureWithoutP(b, e);
  }

  /** x is one byte, and not the letter P. */
  predicate SmallWithoutP(x: nat) {
    x < 0x100 && x != 0x50
  }

  lemma SmallEnd(b: seq<byte>, e: nat)
    requires |b| == e + EOCD_LEN && Le32(b, e) == CD_SIGNATURE
    requires Le16(b, e + 4) == Le16(b, e + 6) == Le16(b, e + 20) == 0
    requires SmallWithoutP(Le16(b, e + 8)) && SmallWithoutP(Le16(b, e + 10))
    requires SmallWithoutP(Le32(b, e + 12)) && SmallWithoutP(Le32(b, e + 16))
    ensures !LaterSignature(b, e)
  {
    assert Le16(b, e + 14) == Le16(b, e + 18) == 0;
    EndWithoutP(b, e);
  }

  lemma SmallEndWritten(b: seq<byte>, e: nat, preamble: seq<byte>, locals: seq<seq<byte>>, dir: seq<seq<byte>>)
    requires |b| == e + EOCD_LEN && Placed(b, e, EndOf(preamble, locals, dir, []))
    requires SmallWithoutP(|dir|)
    requires SmallWithoutP(|preamble| + |Concat(locals)|) && SmallWithoutP(|Concat(dir)|)
    ensures !LaterSignature(b, e)
  {
    EndFieldsRead(b, e, preamble, locals, dir, []);
    SmallEnd(b, e);
  }

  lemma SmallLayout(a: Archive, l: Layout)
    requires Lays(l, a) && a.comment == [] && SmallWithoutP(|a.members|)
    requires SmallWithoutP(l.DirectoryOffset()) && SmallWithoutP(|Concat(l.dir)|)
    ensures |l.Bytes()| < 0x400 && !LaterSignature(l.Bytes(), l.EocdOffset())
  {
    LayoutPlaced(l);
    EndRecordFields(|l.dir|, |Concat(l.dir)|, l.DirectoryOffset(), 0);
    SmallEndWritten(l.Bytes(), l.EocdOffset(), l.preamble, l.locals, l.dir);
  }

  lemma HeaderSizes(m: Member, offset: nat)
    requires MemberFits(m) && |m.payload| < WORD_BASE && offset < WORD_BASE
    ensures |Local(m)| == LFH_SIZE + |m.name| + |m.localExtra| + |m.payload|
    ensures |Central(m, offset)| == ENTRY_LEN + |m.name| + |m.centralExtra| + |m.comment|
  {
    LocalHeaderFields(m);
    CentralHeaderFields(m, offset);
  }

  /** Archives that the round trip is about: every one-member archive small enough, whatever its
      name, contents and extra fields. */
  lemma OneMemberArchive(m: Member)
    requires MemberFits(m)
    requires |m.name| + |m.centralExtra| + |m.comment| < 34 && |m.name| + |m.localExtra| + |m.payload| < 50
    ensures var a := Archive([], [m], []);
            WellFormed(a) && !LaterSignature(Encode(a), LayoutOf(a).EocdOffset())
  {
    var a := Archive([], [m], []);
    var l := LayoutOf(a);
    HeaderSizes(m, 0);
    assert StartOf(0, l.locals, 0) == 0;
    assert Concat(l.locals) == Local(m) && Concat(l.dir) == Central(m, 0);
    SmallLayout(a, l);
  }

  /** Another, of two empty members named "ab" and "a". */
  lemma PrefixArchive(m: Member, m': Member)
    requires MemberFits(m) && m.name == [97, 98] && m.centralExtra == m.comment == m.localExtra == m.payload == []
    requires MemberFits(m') && m'.name == [97] && m'.centralExtra == m'.comment == m'.localExtra == m'.payload == []
    ensures var a := Archive([], [m, m'], []);
            WellFormed(a) && !LaterSignature(Encode(a), LayoutOf(a).EocdOffset())
  {
    var a := Archive([], [m, m'], []);
    var l := LayoutOf(a);
    HeaderSizes(m, StartOf(0, l.locals, 0));
    HeaderSizes(m', StartOf(0, l.locals, 1));
    ConcatPair(l.locals);
    ConcatPair(l.dir);
    SmallLayout(a, l);
  }

  lemma ConcatPair(parts: seq<seq<byte>>)
    requires |parts| == 2
    ensures |Concat(parts[..0])| == 0 && Concat(parts[..1]) == parts[0] && Concat(parts) == parts[0] + parts[1]
  {
    assert parts[..1][..0] == [];
  }

  lemma EndAtStart(b: seq<byte>)
    requires |b| == EOCD_LEN && Le32(b, 0) == CD_SIGNATURE && !LaterSignature(b, 0)
    requires Le16(b, 4) == Le16(b, 6) == Le16(b, 20) == 0 && Le16(b, 8) == Le16(b, 10)
    ensures EndAccepted(b) && EntryCount(b) == Le16(b, 10) && DirectoryStart(b) == Le32(b, 16)
  {
    FoundUnlessLater(b, 0);
  }

  /** A file of which the room check makes nothing: 22 bytes, one entry announced, the directory said
      to start more than 2^31 further on. The check is passed, and the first record lies outside. */
  lemma FarDirectory(b: seq<byte>)
    requires b == Fields(EndRecord(1, 0, 0x8000_0100, 0))
    ensures |b| == EOCD_LEN && EndAccepted(b) && EntryCount(b) == 1
    ensures RoomForEntry(b) && DirectoryStart(b) > |b| && !ReadsInside(b)
  {
    EndRecordFields(1, 0, 0x8000_0100, 0);
    assert Le16(b, 12) == Le16(b, 14) == 0 && Le16(b, 16) == 0x100 && Le16(b, 18) == 0x8000;
    EndWithoutP(b, 0);
    EndAtStart(b);
    RoomExact(b);
    assert !RecordInside(b, Cursor(b, DirectoryStart(b), 0));
  }

  /** A record reads as this member: same name, sizes and method, its data position the payload's. */
  ghost predicate ReadsAs(b: seq<byte>, r: Record, m: Member) {
    && r.nameLength == |m.name| && (r.name.None? <==> m.name == [])
    && (r.name.Some? ==> Placed(b, r.name.value, m.name))
    && r.compression == m.compression
    && r.uncompressedSize == m.uncompressedSize && r.compressedSize == |m.payload|
    && Placed(b, r.data, m.payload)
  }

  /** The records read as these members, in directory order. */
  ghost predicate AllReadAs(b: seq<byte>, records: seq<Record>, ms: seq<Member>) {
    |records| == |ms| && forall j :: 0 <= j < |ms| ==> ReadsAs(b, records[j], ms[j])
  }

  lemma EntryPassed(b: seq<byte>, c: nat, o: nat, m: Member)
    requires EntryAt(b, c, m, o) && LocalAt(b, o, m)
    ensures RecordSize(b, c) == ENTRY_LEN + |m.name| + |m.centralExtra| + |m.comment|
    ensures Signed(b, c) && RecordInside(b, c) && c + ENTRY_LEN <= |b|
  {
  }

  /** The data position comes from the local header's own extra length. */
  lemma PayloadFound(b: seq<byte>, o: nat, m: Member)
    requires LocalAt(b, o, m) && |b| < 0x8000_0000
    ensures Placed(b, DataPosition(b, o, |m.name|), m.payload)
  {
    var data := o + LFH_SIZE + |m.name| + |m.localExtra|;
    assert data <= |b|;
    assert DataPosition(b, o, |m.name|) == data % WORD_BASE == data;
  }

  lemma EntryParsed(b: seq<byte>, c: nat, o: nat, m: Member)
    requires EntryAt(b, c, m, o) && LocalAt(b, o, m) && |b| < 0x8000_0000
    ensures ReadsAs(b, ParseRecord(b, c), m)
  {
    PayloadFound(b, o, m);
    assert ParseRecord(b, c) == Record(|m.name|, if m.name != [] then Some(c + ENTRY_LEN) else None, m.compression,
                                       m.uncompressedSize, |m.payload|, DataPosition(b, o, |m.name|));
  }

  lemma EncodedSize(a: Archive, l: Layout, j: nat)
    requires Lays(l, a) && j < |a.members| && MemberFits(a.members[j]) && |l.Bytes()| < 0x8000_0000
    ensures l.CentralOffset(j) + RecordSize(l.Bytes(), l.CentralOffset(j)) == l.CentralOffset(j + 1)
  {
    MemberRead(a, l, j);
    EntryPassed(l.Bytes(), l.CentralOffset(j), l.LocalOffset(j), a.members[j]);
  }

  /** The cursor follows any positions each a record size after the one before. */
  lemma {:induction false} CursorFollows(b: seq<byte>, at: seq<nat>, j: nat)
    requires j < |at| && forall i :: 0 < i < |at| ==> at[i - 1] + RecordSize(b, at[i - 1]) == at[i]
    ensures Cursor(b, at[0], j) == at[j]
    decreases j
  {
    if j > 0 {
      CursorFollows(b, at, j - 1);
    }
  }

  /** The cursor visits the entries where the encoder put them. */
  lemma CursorOnEncoded(a: Archive, l: Layout, j: nat)
    requires Lays(l, a) && j <= |a.members| && |l.Bytes()| < 0x8000_0000
    requires forall i :: 0 <= i < |a.members| ==> MemberFits(a.members[i])
    ensures Cursor(l.Bytes(), l.DirectoryOffset(), j) == l.CentralOffset(j)
  {
    var b := l.Bytes();
    var at: seq<nat> := seq(|l.dir| + 1, i requires 0 <= i <= |l.dir| => l.CentralOffset(i));
    DirectoryEnds(l);
    forall i | 0 < i < |at| ensures at[i - 1] + RecordSize(b, at[i - 1]) == at[i] {
      EncodedSize(a, l, i - 1);
    }
    CursorFollows(b, at, j);
  }

  lemma {:induction false} RecordIndex(b: seq<byte>, p: nat, k: nat, j: nat)
    requires j < k
    ensures Records(b, p, k)[j] == ParseRecord(b, Cursor(b, p, j))
  {
    if j < k - 1 {
      RecordIndex(b, p, k - 1, j);
    }
  }

  /** Record j of an encoded directory. */
  lemma EncodedRecord(a: Archive, l: Layout, j: nat)
    requires Lays(l, a) && j < |a.members| && |l.Bytes()| < 0x8000_0000
    requires forall i :: 0 <= i < |a.members| ==> MemberFits(a.members[i])
    ensures var b, c := l.Bytes(), Cursor(l.Bytes(), l.DirectoryOffset(), j);
            Signed(b, c) && RecordInside(b, c) && c + ENTRY_LEN <= |b|
            && ReadsAs(b, ParseRecord(b, c), a.members[j])
  {
    CursorOnEncoded(a, l, j);
    MemberRead(a, l, j);
    EntryPassed(l.Bytes(), l.CentralOffset(j), l.LocalOffset(j), a.members[j]);
    EntryParsed(l.Bytes(), l.CentralOffset(j), l.LocalOffset(j), a.members[j]);
  }

  lemma EncodedRecords(a: Archive, l: Layout)
    requires Lays(l, a) && |l.Bytes()| < 0x8000_0000
    requires forall i :: 0 <= i < |a.members| ==> MemberFits(a.members[i])
    ensures var b, off := l.Bytes(), l.DirectoryOffset();
            forall j :: 0 <= j < |a.members| ==>
              && Signed(b, Cursor(b, off, j)) && RecordInside(b, Cursor(b, off, j))
              && Cursor(b, off, j) + ENTRY_LEN <= |b|
              && ReadsAs(b, Records(b, off, |a.members|)[j], a.members[j])
  {
    var b, off, n := l.Bytes(), l.DirectoryOffset(), |a.members|;
    forall j | 0 <= j < n
      ensures Signed(b, Cursor(b, off, j)) && RecordInside(b, Cursor(b, off, j))
      ensures Cursor(b, off, j) + ENTRY_LEN <= |b|
      ensures ReadsAs(b, Records(b, off, n)[j], a.members[j])
    {
      EncodedRecord(a, l, j);
      RecordIndex(b, off, n, j);
    }
  }

  /** An end record found where it was written is accepted. */
  lemma EndRecordAccepted(a: Archive, b: seq<byte>, e: nat, off: nat)
    requires EndAt(b, e, a, off) && EocdAt(b) == Some(e)
    ensures EndAccepted(b) && EntryCount(b) == |a.members| && DirectoryStart(b) == off
  {
  }

  /** Signed records all inside the file are all the reader needs once it has the end record. */
  lemma RecordsAccepted(b: seq<byte>)
    requires EndAccepted(b) && |b| < 0x8000_0000
    requires forall j :: 0 <= j < EntryCount(b) ==>
               var c := Cursor(b, DirectoryStart(b), j);
               Signed(b, c) && RecordInside(b, c) && c + ENTRY_LEN <= |b|
    ensures Accepted(b) && ReadsInside(b)
  {
    if EntryCount(b) > 0 {
      assert Cursor(b, DirectoryStart(b), 0) == DirectoryStart(b);
      RoomExact(b);
    }
  }

  /** The round trip: every well-formed archive without a later signature is accepted, with every
      read inside the file, and its records are its members in directory order. */
  lemma RoundTrip(a: Archive)
    requires WellFormed(a) && !LaterSignature(Encode(a), LayoutOf(a).EocdOffset())
    ensures Accepted(Encode(a)) && ReadsInside(Encode(a))
    ensures EntryCount(Encode(a)) == |a.members|
    ensures var b := Encode(a);
            AllReadAs(b, Records(b, DirectoryStart(b), |a.members|), a.members)
  {
    var b, l := Encode(a), LayoutOf(a);
    EndRecordFound(a);
    EndRead(a, l);
    EndRecordAccepted(a, b, l.EocdOffset(), l.DirectoryOffset());
    EncodedRecords(a, l);
    RecordsAccepted(b);
  }
}
