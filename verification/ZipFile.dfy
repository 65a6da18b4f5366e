/** zipfile.cpp: opening and releasing an archive, and the entry list's consumers. */
module ZipFile {
  import opened CentralDir
  import opened Wrappers
  import opened ZipFormat
  import ZipRoundTrip
  import Ring
  import Rotation

  /** What a successful init_zipfile hands out: the list of all directory entries, everything on it
      allocated. */
  ghost predicate Opened(file: Zipfile, heap: Heap)
    reads file, file.nodes, heap
  {
    && Allocated(file, heap) && Accepted(file.buf)
    && file.entryCount == |file.nodes| == EntryCount(file.buf)
    && AreRecords(file.nodes, Records(file.buf, DirectoryStart(file.buf), |file.nodes|))
  }

  ghost predicate Allocated(file: Zipfile, heap: Heap)
    reads file, file.nodes, heap
  {
    IsList(file.entries, file.nodes) && file in heap.live && NodeSet(file.nodes) <= heap.live
  }

  /** init_zipfile. On failure the file record is given back, but not the entries linked before the
      reader gave up: nothing is lost exactly when there were none. */
  method InitZipfile(data: seq<byte>, heap: Heap) returns (file: Zipfile?)
    requires ReadsInside(data)
    modifies heap
    ensures file != null <==> Accepted(data)
    ensures file != null <==> WellMarked(data)
    ensures file != null ==>
              && fresh(file) && fresh(NodeSet(file.nodes)) && file.buf == data && Opened(file, heap)
              && heap.live == old(heap.live) + {file} + NodeSet(file.nodes)
    ensures file == null ==>
              exists lost: seq<Zipentry> :: IsList(NodeAt(lost, 0), lost) && |lost| == LinkedCount(data)
                && fresh(NodeSet(lost)) && heap.live == old(heap.live) + NodeSet(lost)
  {
    var f := new Zipfile(data);
    heap.Malloc(f);
    AcceptedBytes(data);
    var err := ReadCentralDir(f, heap);
    ghost var nodes := f.nodes;
    assert IsList(NodeAt(nodes, 0), nodes) && f !in NodeSet(nodes);
    if err != 0 {
      heap.FreeFile(f);
      return null;
    }
    return f;
  }

  /** release_zipfile: frees every entry and then the file, each once. Links are followed only from
      entries not yet freed, and what a freed entry's fields hold plays no part. */
  method ReleaseZipfile(file: Zipfile, heap: Heap)
    requires Allocated(file, heap)
    modifies heap, NodeSet(file.nodes)
    ensures heap.live == old(heap.live) - NodeSet(file.nodes) - {file}
  {
    var entry := file.entries;
    ghost var i := 0;
    while entry != null
      invariant i <= |file.nodes| && entry == NodeAt(file.nodes, i)
      invariant heap.live == old(heap.live) - NodeSet(file.nodes[..i])
      invariant forall k :: i <= k < |file.nodes| ==> file.nodes[k].next == NodeAt(file.nodes, k + 1)
      decreases |file.nodes| - i
    {
      assert entry in NodeSet(file.nodes) && entry !in NodeSet(file.nodes[..i]);
      var next := heap.Next(entry);
      heap.FreeEntry(entry);
      entry := next;
      i := i + 1;
      assert file.nodes[..i] == file.nodes[..i - 1] + [file.nodes[i - 1]];
    }
    assert file.nodes[..i] == file.nodes;
    heap.FreeFile(file);
  }

  lemma GivenBack(live: set<object>, file: set<object>, nodes: set<object>)
    requires live !! file + nodes
    ensures live + file + nodes - nodes - file == live
  {
  }

  /** Opening and releasing gives back exactly what was allocated, file by file. */
  method OpenAndRelease(data: seq<byte>, heap: Heap)
    requires ReadsInside(data) && Accepted(data)
    modifies heap
    ensures heap.live == old(heap.live)
  {
    var file := InitZipfile(data, heap);
    ghost var nodes := NodeSet(file.nodes);
    assert Allocated(file, heap);
    GivenBack(old(heap.live), {file}, nodes);
    ReleaseZipfile(file, heap);
  }

  /** The archives whose file reads back. */
  ghost predicate ReadsBack(a: Archive) {
    WellFormed(a) && !ZipRoundTrip.LaterSignature(Encode(a), LayoutOf(a).EocdOffset())
  }

  /** The list reads as these members, the last member first. */
  ghost predicate ListReadsAs(b: seq<byte>, nodes: seq<Zipentry>, ms: seq<Member>)
    reads nodes
  {
    && |nodes| == |ms|
    && forall j :: 0 <= j < |ms| ==> ZipRoundTrip.ReadsAs(b, nodes[|ms| - 1 - j].View(), ms[j])
  }

  /** Opening the file of a well-formed archive always succeeds, and the list is its members, the
      last member first. */
  method OpenEncoded(a: Archive, heap: Heap) returns (file: Zipfile, ghost records: seq<Record>)
    requires ReadsBack(a)
    modifies heap
    ensures Allocated(file, heap) && file.buf == Encode(a) && ListReadsAs(file.buf, file.nodes, a.members)
    ensures AreRecords(file.nodes, records) && ZipRoundTrip.AllReadAs(file.buf, records, a.members)
  {
    ZipRoundTrip.RoundTrip(a);
    var data := Encode(a);
    file := InitZipfile(data, heap);
    records := Records(data, DirectoryStart(data), |a.members|);
    NodesRead(file.nodes, data, records, a.members);
  }

  lemma NodesRead(nodes: seq<Zipentry>, b: seq<byte>, records: seq<Record>, ms: seq<Member>)
    requires AreRecords(nodes, records) && ZipRoundTrip.AllReadAs(b, records, ms)
    ensures ListReadsAs(b, nodes, ms)
  {
  }

  // ---------------------------------------------------------------- names

  /** The bytes a record's name covers, when they are inside the file. */
  function NameOf(b: seq<byte>, r: Record): seq<byte> {
    if r.name.Some? && r.name.value + r.nameLength <= |b| then b[r.name.value..r.name.value + r.nameLength] else []
  }

  function NamesOf(b: seq<byte>, records: seq<Record>): (names: seq<seq<byte>>)
    ensures |names| == |records| && forall i :: 0 <= i < |records| ==> names[i] == NameOf(b, records[i])
  {
    seq(|records|, i requires 0 <= i < |records| => NameOf(b, records[i]))
  }

  /** The last name, in directory order, that starts key. */
  function LastPrefix(names: seq<seq<byte>>, key: seq<byte>): (r: Option<nat>)
    ensures r.Some? ==> r.value < |names| && names[r.value] <= key
    ensures forall k :: 0 <= k < |names| && (r.Some? ==> r.value < k) ==> !(names[k] <= key)
  {
    if names == [] then None
    else if names[|names| - 1] <= key then Some(|names| - 1)
    else LastPrefix(names[..|names| - 1], key)
  }

  /** The last entry of that very name: what a lookup promises. */
  function LastEqual(names: seq<seq<byte>>, key: seq<byte>): (r: Option<nat>)
    ensures r.Some? ==> r.value < |names| && names[r.value] == key
    ensures forall k :: 0 <= k < |names| && (r.Some? ==> r.value < k) ==> names[k] != key
  {
    if names == [] then None
    else if names[|names| - 1] == key then Some(|names| - 1)
    else LastEqual(names[..|names| - 1], key)
  }

  /** Some entry behind position k has that very name. */
  ghost predicate Overruled(names: seq<seq<byte>>, k: nat, query: seq<byte>) {
    exists m :: k < m < |names| && names[m] == query
  }

  /** Every other name that starts key has an entry of the queried name behind it. */
  ghost predicate NothingMisleads(names: seq<seq<byte>>, key: seq<byte>, query: seq<byte>) {
    forall k :: 0 <= k < |names| && names[k] <= key && names[k] != query ==> Overruled(names, k, query)
  }

  /** Comparing with key, the query and whatever follows it in memory, finds the entry of the queried
      name exactly when nothing misleads. For a C string key is query + [0]. */
  lemma LookupExact(names: seq<seq<byte>>, key: seq<byte>, query: seq<byte>)
    requires query <= key
    ensures LastPrefix(names, key) == LastEqual(names, query) <==> NothingMisleads(names, key, query)
  {
    var p, e := LastPrefix(names, key), LastEqual(names, query);
    if p == e {
      forall k | 0 <= k < |names| && names[k] <= key && names[k] != query ensures Overruled(names, k, query) {
        assert k < p.value && names[p.value] == query;
      }
    }
  }

  /** Looking up "ab" among the entries "ab" and "a" finds "a", with the query's terminator too. */
  lemma LookupFindsPrefix(names: seq<seq<byte>>)
    requires names == [[97, 98], [97]]
    ensures LastPrefix(names, [97, 98, 0]) == LastPrefix(names, [97, 98]) == Some(1)
    ensures LastEqual(names, [97, 98]) == Some(0)
  {
    assert names[1] <= [97, 98] && names[1] <= [97, 98, 0] && names[0] == [97, 98];
  }

  /** Looking up "ab" among "ab" and "ab" with a zero byte at its end finds the latter: the terminator
      takes part in the comparison. */
  lemma LookupFindsTerminated(names: seq<seq<byte>>)
    requires names == [[97, 98], [97, 98, 0]]
    ensures LastPrefix(names, [97, 98, 0]) == Some(1)
    ensures LastPrefix(names, [97, 98]) == LastEqual(names, [97, 98]) == Some(0)
  {
    assert names[1] <= [97, 98, 0] && names[0] <= [97, 98] && names[0] == [97, 98];
  }

  /** The terminating zero of a C string matters only to names that contain one. */
  lemma {:induction false} TerminatorIgnored(names: seq<seq<byte>>, key: seq<byte>)
    requires forall k :: 0 <= k < |names| ==> 0 !in names[k]
    ensures LastPrefix(names, key + [0]) == LastPrefix(names, key)
  {
    if names != [] {
      var name := names[|names| - 1];
      PrefixOfTerminated(name, key);
      assert name <= key ==> name <= key + [0];
      TerminatorIgnored(names[..|names| - 1], key);
    }
  }

  lemma PrefixOfTerminated(name: seq<byte>, key: seq<byte>)
    ensures name <= key + [0] ==> name <= key || 0 in name
  {
    if name <= key + [0] && |name| == |key| + 1 {
      assert name[|key|] == 0;
    }
  }

  /** memcmp never runs past the end of s: it stops at a difference before that. */
  ghost predicate Comparable(s: seq<byte>, t: seq<byte>) {
    |t| <= |s| || exists i :: 0 <= i < |s| && s[i] != t[i]
  }

  /** memcmp of the first n bytes of s against those at position at. */
  method SameBytes(s: seq<byte>, buf: seq<byte>, at: nat, n: nat) returns (same: bool)
    requires at + n <= |buf| && Comparable(s, buf[at..at + n])
    ensures same <==> buf[at..at + n] <= s
  {
    ghost var t := buf[at..at + n];
    var i := 0;
    while i < n
      invariant i <= n && i <= |s| && s[..i] == t[..i]
    {
      if s[i] != buf[at + i] {
        assert t[i] != s[i];
        return false;
      }
      i := i + 1;
    }
    assert t == t[..i];
    return true;
  }

  /** The name is inside the file, and comparing the key with it stays inside the key. */
  ghost predicate NameReadable(b: seq<byte>, r: Record, key: seq<byte>) {
    && (r.name.Some? ==> r.name.value + r.nameLength <= |b|)
    && Comparable(key, NameOf(b, r))
  }

  /** A name without a zero byte can be compared with any C string. */
  lemma ZeroFreeComparable(key: seq<byte>, name: seq<byte>)
    requires 0 !in name
    ensures Comparable(key + [0], name)
  {
    if |name| > |key| + 1 {
      assert (key + [0])[|key|] != name[|key|];
    }
  }

  /** The comparison of one entry. An entry without a name matches anything. */
  method NameStarts(file: Zipfile, entry: Zipentry, key: seq<byte>) returns (same: bool)
    requires NameReadable(file.buf, entry.View(), key)
    ensures same <==> NameOf(file.buf, entry.View()) <= key
  {
    if entry.fileName.None? {
      return true;
    }
    same := SameBytes(key, file.buf, entry.fileName.value, entry.fileNameLength);
  }

  /** The list, in its own order, names these entries, and each name up to and including the first
      that starts key can be compared with it. */
  ghost predicate ListNames(b: seq<byte>, nodes: seq<Zipentry>, names: seq<seq<byte>>, key: seq<byte>)
    reads nodes
  {
    && |names| == |nodes|
    && forall i :: 0 <= i < |nodes| ==>
         && NameOf(b, nodes[i].View()) == names[i]
         && (NoneStarts(names, i, key) ==> NameReadable(b, nodes[i].View(), key))
  }

  /** None of the first at names starts key. */
  ghost predicate NoneStarts(names: seq<seq<byte>>, at: nat, key: seq<byte>)
    requires at <= |names|
  {
    forall i :: 0 <= i < at ==> !(names[i] <= key)
  }

  /** None of the names behind position k starts key. */
  ghost predicate NoneBehind(names: seq<seq<byte>>, k: nat, key: seq<byte>) {
    forall j :: k < j < |names| ==> !(names[j] <= key)
  }

  /** What the code takes for granted of the query: the names it comes to, from the directory's end
      back to the first that starts key, can be compared with it. */
  ghost predicate ComesToReadable(b: seq<byte>, records: seq<Record>, key: seq<byte>) {
    forall k :: 0 <= k < |records| && NoneBehind(NamesOf(b, records), k, key) ==> NameReadable(b, records[k], key)
  }

  /** The walk of lookup_zipentry: the first node on the list whose name starts key. */
  method FirstMatch(file: Zipfile, key: seq<byte>, ghost names: seq<seq<byte>>) returns (r: Zipentry?)
    requires IsList(file.entries, file.nodes) && ListNames(file.buf, file.nodes, names, key)
    ensures r == null ==> NoneStarts(names, |names|, key)
    ensures r != null ==> r in file.nodes
    ensures forall at :: 0 <= at < |names| && file.nodes[at] == r ==> names[at] <= key && NoneStarts(names, at, key)
  {
    ghost var at := 0;
    var entry := file.entries;
    while entry != null
      invariant at <= |names| && entry == NodeAt(file.nodes, at) && NoneStarts(names, at, key)
      decreases |names| - at
    {
      var same := NameStarts(file, entry, key);
      if same {
        return entry;
      }
      entry := entry.next;
      at := at + 1;
    }
    return null;
  }

  /** The node of a directory position: the list is in reverse order. */
  ghost function FromEnd(nodes: seq<Zipentry>, k: Option<nat>): Zipentry? {
    if k.Some? && k.value < |nodes| then nodes[|nodes| - 1 - k.value] else null
  }

  lemma EndToEnd(nodes: seq<Zipentry>, at: nat, k: Option<nat>)
    requires k == if at < |nodes| then Some(|nodes| - 1 - at) else None
    ensures FromEnd(nodes, k) == NodeAt(nodes, at)
  {
  }

  /** lookup_zipentry. The list is in reverse directory order, so its first match is the directory's
      last. The query is a C string: key is its bytes with the terminator. */
  method LookupZipentry(file: Zipfile, key: seq<byte>, ghost records: seq<Record>) returns (r: Zipentry?)
    requires IsList(file.entries, file.nodes) && AreRecords(file.nodes, records)
    requires ComesToReadable(file.buf, records, key)
    ensures r == FromEnd(file.nodes, LastPrefix(NamesOf(file.buf, records), key))
  {
    ghost var names := NamesOf(file.buf, records);
    ghost var back := Ring.Reversed(names);
    ReversedNames(file.nodes, records, file.buf, key, back);
    r := FirstMatch(file, key, back);
    MatchIsLast(file.nodes, names, back, key, r);
  }

  /** The first match going backwards is the last. */
  lemma FirstIsLast(names: seq<seq<byte>>, back: seq<seq<byte>>, key: seq<byte>, at: nat)
    requires Mirrored(names, back) && at <= |back| && (at < |back| ==> back[at] <= key)
    requires NoneStarts(back, at, key)
    ensures LastPrefix(names, key) == if at < |names| then Some(|names| - 1 - at) else None
  {
    forall j | |names| - 1 - at < j < |names| ensures !(names[j] <= key) {
      assert back[|names| - 1 - j] == names[j];
    }
  }

  lemma MatchIsLast(nodes: seq<Zipentry>, names: seq<seq<byte>>, back: seq<seq<byte>>, key: seq<byte>, r: Zipentry?)
    requires Mirrored(names, back) && |back| == |nodes|
    requires r == null ==> NoneStarts(back, |back|, key)
    requires r != null ==> r in nodes
    requires forall at :: 0 <= at < |back| && nodes[at] == r ==> back[at] <= key && NoneStarts(back, at, key)
    ensures r == FromEnd(nodes, LastPrefix(names, key))
  {
    var at: nat := |back|;
    if r != null {
      at :| 0 <= at < |nodes| && nodes[at] == r;
    }
    FirstIsLast(names, back, key, at);
    EndToEnd(nodes, at, LastPrefix(names, key));
  }

  /** back is names backwards. */
  ghost predicate Mirrored(names: seq<seq<byte>>, back: seq<seq<byte>>) {
    |back| == |names| && forall k :: 0 <= k < |names| ==> back[k] == names[|names| - 1 - k]
  }

  /** What comes before position i on the list comes behind its mirror image in the directory. */
  lemma BeforeIsBehind(names: seq<seq<byte>>, back: seq<seq<byte>>, i: nat, key: seq<byte>)
    requires Mirrored(names, back) && i < |names| && NoneStarts(back, i, key)
    ensures NoneBehind(names, |names| - 1 - i, key)
  {
    forall k | |names| - 1 - i < k < |names| ensures !(names[k] <= key) {
      assert back[|names| - 1 - k] == names[k];
    }
  }

  lemma ListedName(b: seq<byte>, records: seq<Record>, back: seq<seq<byte>>, i: nat, key: seq<byte>)
    requires Mirrored(NamesOf(b, records), back) && ComesToReadable(b, records, key) && i < |records|
    ensures NameOf(b, records[|records| - 1 - i]) == back[i]
    ensures NoneStarts(back, i, key) ==> NameReadable(b, records[|records| - 1 - i], key)
  {
    if NoneStarts(back, i, key) {
      BeforeIsBehind(NamesOf(b, records), back, i, key);
    }
  }

  /** The list names the directory backwards. */
  lemma ReversedNames(nodes: seq<Zipentry>, records: seq<Record>, b: seq<byte>, key: seq<byte>, back: seq<seq<byte>>)
    requires AreRecords(nodes, records) && ComesToReadable(b, records, key) && Mirrored(NamesOf(b, records), back)
    ensures ListNames(b, nodes, back, key)
  {
    forall i | 0 <= i < |nodes|
      ensures NameOf(b, nodes[i].View()) == back[i]
      ensures NoneStarts(back, i, key) ==> NameReadable(b, nodes[i].View(), key)
    {
      assert nodes[|nodes| - 1 - (|nodes| - 1 - i)].View() == records[|nodes| - 1 - i];
      ListedName(b, records, back, i, key);
    }
  }

  /** The names an archive was written with. */
  function MemberNames(ms: seq<Member>): (names: seq<seq<byte>>)
    ensures |names| == |ms| && forall j :: 0 <= j < |ms| ==> names[j] == ms[j].name
  {
    seq(|ms|, j requires 0 <= j < |ms| => ms[j].name)
  }

  /** The query can be compared with the names it is compared with. */
  ghost predicate ComesToComparable(names: seq<seq<byte>>, key: seq<byte>) {
    forall k :: 0 <= k < |names| && NoneBehind(names, k, key) ==> Comparable(key, names[k])
  }

  /** Names without a zero byte can be compared with any C string, and its terminator plays no part. */
  lemma ZeroFreeNames(names: seq<seq<byte>>, query: seq<byte>)
    requires forall k :: 0 <= k < |names| ==> 0 !in names[k]
    ensures ComesToComparable(names, query + [0])
    ensures LastPrefix(names, query + [0]) == LastPrefix(names, query)
  {
    forall k | 0 <= k < |names| ensures Comparable(query + [0], names[k]) {
      ZeroFreeComparable(query, names[k]);
    }
    TerminatorIgnored(names, query);
  }

  /** Lookup over a read-back archive is lookup over its members' names. */
  lemma NamesComeBack(b: seq<byte>, records: seq<Record>, ms: seq<Member>, key: seq<byte>)
    requires ZipRoundTrip.AllReadAs(b, records, ms)
    requires ComesToComparable(MemberNames(ms), key)
    ensures NamesOf(b, records) == MemberNames(ms) && ComesToReadable(b, records, key)
  {
    forall j | 0 <= j < |ms| ensures NamesOf(b, records)[j] == ms[j].name {
      assert ZipRoundTrip.ReadsAs(b, records[j], ms[j]);
    }
    assert NamesOf(b, records) == MemberNames(ms);
    forall k | 0 <= k < |records| && NoneBehind(NamesOf(b, records), k, key) ensures NameReadable(b, records[k], key) {
      assert ZipRoundTrip.ReadsAs(b, records[k], ms[k]);
    }
  }

  predicate Decompressible(m: Member) {
    m.compression == STORED || m.compression == DEFLATED
  }

  /** What zipfile.h promises of a lookup: the last member of that name, or none if it cannot be
      decompressed. */
  function Promised(ms: seq<Member>, query: seq<byte>): Option<nat> {
    var j := LastEqual(MemberNames(ms), query);
    if j.Some? && Decompressible(ms[j.value]) then j else None
  }

  /** Every member whose name starts key, unless it has the queried name and can be decompressed, has
      one of the queried name behind it. */
  ghost predicate NothingSpoils(ms: seq<Member>, key: seq<byte>, query: seq<byte>) {
    forall k :: 0 <= k < |ms| && ms[k].name <= key && (ms[k].name != query || !Decompressible(ms[k])) ==>
      Overruled(MemberNames(ms), k, query)
  }

  /** The whole promise is kept exactly when nothing spoils it. */
  lemma PromiseExact(ms: seq<Member>, key: seq<byte>, query: seq<byte>)
    requires query <= key
    ensures LastPrefix(MemberNames(ms), key) == Promised(ms, query) <==> NothingSpoils(ms, key, query)
  {
    var names := MemberNames(ms);
    var p, e := LastPrefix(names, key), LastEqual(names, query);
    if p == Promised(ms, query) {
      forall k | 0 <= k < |ms| && ms[k].name <= key && (ms[k].name != query || !Decompressible(ms[k]))
        ensures Overruled(names, k, query)
      {
        assert names[k] == ms[k].name;
        assert k < p.value && names[p.value] == query;
      }
    }
  }

  /** Different directory positions are different nodes. */
  lemma SameNode(nodes: seq<Zipentry>, k: Option<nat>, k': Option<nat>)
    requires forall i, j :: 0 <= i < j < |nodes| ==> nodes[i] != nodes[j]
    requires (k.Some? ==> k.value < |nodes|) && (k'.Some? ==> k'.value < |nodes|)
    ensures FromEnd(nodes, k) == FromEnd(nodes, k') <==> k == k'
  {
  }

  /** When an answer is the entry of the queried name, and when it is all that is promised. */
  lemma AnswerExact(nodes: seq<Zipentry>, ms: seq<Member>, key: seq<byte>, query: seq<byte>)
    requires |nodes| == |ms| && forall i, j :: 0 <= i < j < |nodes| ==> nodes[i] != nodes[j]
    requires query <= key
    ensures var names, r := MemberNames(ms), FromEnd(nodes, LastPrefix(MemberNames(ms), key));
            && (r == FromEnd(nodes, LastEqual(names, query)) <==> NothingMisleads(names, key, query))
            && (r == FromEnd(nodes, Promised(ms, query)) <==> NothingSpoils(ms, key, query))
  {
    var names := MemberNames(ms);
    LookupExact(names, key, query);
    PromiseExact(ms, key, query);
    SameNode(nodes, LastPrefix(names, key), LastEqual(names, query));
    SameNode(nodes, LastPrefix(names, key), Promised(ms, query));
  }

  lemma FoundReads(b: seq<byte>, nodes: seq<Zipentry>, ms: seq<Member>, found: Option<nat>)
    requires ListReadsAs(b, nodes, ms) && (found.Some? ==> found.value < |ms|)
    ensures var r := FromEnd(nodes, found);
            && (r == null <==> found.None?)
            && (found.Some? ==> r in nodes && ZipRoundTrip.ReadsAs(b, r.View(), ms[found.value]))
  {
  }

  /** Opening a well-formed archive and looking up a C string, of which query is the bytes before the
      terminator: the answer is the last member whose name starts the terminated query, NULL if no
      member's does. It is the last member of the queried name exactly when no other name misleads,
      and keeps the promise about decompression too exactly when nothing spoils that. */
  method LookupMember(a: Archive, query: seq<byte>, heap: Heap) returns (file: Zipfile, r: Zipentry?)
    requires ReadsBack(a)
    requires ComesToComparable(MemberNames(a.members), query + [0])
    modifies heap
    ensures Allocated(file, heap) && file.buf == Encode(a) && ListReadsAs(file.buf, file.nodes, a.members)
    ensures r == FromEnd(file.nodes, LastEqual(MemberNames(a.members), query)) <==>
            NothingMisleads(MemberNames(a.members), query + [0], query)
    ensures r == FromEnd(file.nodes, Promised(a.members, query)) <==> NothingSpoils(a.members, query + [0], query)
    ensures var found := LastPrefix(MemberNames(a.members), query + [0]);
            && (r == null <==> found.None?)
            && (found.Some? ==> r in file.nodes && ZipRoundTrip.ReadsAs(file.buf, r.View(), a.members[found.value]))
  {
    ghost var records;
    file, records := OpenEncoded(a, heap);
    NamesComeBack(file.buf, records, a.members, query + [0]);
    r := LookupZipentry(file, query + [0], records);
    AnswerExact(file.nodes, a.members, query + [0], query);
    FoundReads(file.buf, file.nodes, a.members, LastPrefix(MemberNames(a.members), query + [0]));
  }

  // ---------------------------------------------------------------- walking

  class Cookie {
    var at: Zipentry?

    constructor ()
      ensures at == null
    {
      at := null;
    }
  }

  /** iterate_zipfile, with the cookie at list position p or, at |nodes|, null. */
  method IterateZipfile(file: Zipfile, cookie: Cookie, ghost p: nat) returns (r: Zipentry?)
    requires IsList(file.entries, file.nodes) && p <= |file.nodes| && cookie.at == NodeAt(file.nodes, p)
    modifies cookie
    ensures r == cookie.at == NodeAt(file.nodes, Rotation.Next(p, |file.nodes|))
  {
    if cookie.at == null {
      cookie.at := file.entries;
    } else {
      cookie.at := cookie.at.next;
    }
    return cookie.at;
  }

  /** Any number of calls from a null cookie: each turn answers every entry once, in list order, and
      then null. */
  method IterateRepeatedly(file: Zipfile, calls: nat) returns (answers: seq<Zipentry?>)
    requires IsList(file.entries, file.nodes)
    ensures |answers| == calls
    ensures forall k :: 0 <= k < calls ==>
              var p := k % (|file.nodes| + 1);
              answers[k] == if p < |file.nodes| then file.nodes[p] else null
  {
    var cookie := new Cookie();
    answers := [];
    ghost var n := |file.nodes|;
    ghost var p: nat := n;
    for i := 0 to calls
      invariant |answers| == i && p <= n && cookie.at == NodeAt(file.nodes, p)
      invariant p == if i == 0 then n else Rotation.Answer(n, i - 1)
      invariant forall k :: 0 <= k < i ==> answers[k] == NodeAt(file.nodes, k % (n + 1))
    {
      var r := IterateZipfile(file, cookie, p);
      p := Rotation.Next(p, n);
      Rotation.AnswerCycles(n, i);
      assert p == Rotation.Answer(n, i) && r == NodeAt(file.nodes, i % (n + 1));
      answers := answers + [r];
    }
  }

  /** dump_zipfile counts instead of looking for the end: it visits the list, all of it, and never
      steps past. */
  method DumpZipfile(file: Zipfile) returns (visited: seq<Zipentry>)
    requires IsList(file.entries, file.nodes) && file.entryCount == |file.nodes|
    ensures visited == file.nodes
  {
    var entry := file.entries;
    visited := [];
    for i := 0 to file.entryCount
      invariant visited == file.nodes[..i] && entry == NodeAt(file.nodes, i)
    {
      visited := visited + [entry];
      entry := entry.next;
    }
  }

  // ---------------------------------------------------------------- contents

  /** zlib's part of decompress_zipentry is not modelled; Inflate stands for its answer. */
  datatype Outcome = Code(code: int) | Inflate

  const STORED: nat := 0
  const DEFLATED: nat := 8

  /** decompress_zipentry: a stored entry's bytes are copied out, and nothing else is written. */
  method DecompressZipentry(buf: seq<byte>, entry: Zipentry, out: array<byte>) returns (ret: Outcome)
    requires entry.compressionMethod == STORED ==>
               entry.data + entry.uncompressedSize <= |buf| && entry.uncompressedSize <= out.Length
    modifies out
    ensures ret == if entry.compressionMethod == 0 then Code(0)
                   else if entry.compressionMethod == 8 then Inflate else Code(-1)
    ensures entry.compressionMethod == STORED ==>
              out[..] == buf[entry.data..entry.data + entry.uncompressedSize] + old(out[entry.uncompressedSize..])
    ensures entry.compressionMethod != STORED ==> out[..] == old(out[..])
  {
    if entry.compressionMethod == STORED {
      var n := entry.uncompressedSize;
      for i := 0 to n
        invariant out[..i] == buf[entry.data..entry.data + i] && out[i..] == old(out[i..])
      {
        out[i] := buf[entry.data + i];
      }
      assert out[..] == out[..n] + out[n..];
      return Code(0);
    } else if entry.compressionMethod == DEFLATED {
      return Inflate;
    } else {
      return Code(-1);
    }
  }

  /** The bytes a stored entry points to are the member's payload, whatever the sizes of its two
      extra fields. */
  lemma StoredComesBack(b: seq<byte>, r: Record, m: Member)
    requires ZipRoundTrip.ReadsAs(b, r, m) && MemberFits(m) && m.compression == STORED
    ensures r.compression == STORED && r.uncompressedSize == |m.payload|
    ensures r.data + r.uncompressedSize <= |b| && b[r.data..r.data + r.uncompressedSize] == m.payload
  {
  }

  /** Decompressing an entry that reads as a member: refused exactly when the member is neither stored
      nor deflated. */
  method DecompressMember(buf: seq<byte>, entry: Zipentry, ghost m: Member, out: array<byte>) returns (ret: Outcome)
    requires ZipRoundTrip.ReadsAs(buf, entry.View(), m) && MemberFits(m)
    requires m.compression == STORED ==> |m.payload| <= out.Length
    modifies out
    ensures ret == (if m.compression == 0 then Code(0) else if m.compression == 8 then Inflate else Code(-1))
    ensures ret == Code(-1) <==> !Decompressible(m)
    ensures m.compression == STORED ==> ret == Code(0) && out[..] == m.payload + old(out[|m.payload|..])
    ensures m.compression != STORED ==> out[..] == old(out[..])
  {
    if m.compression == STORED {
      StoredComesBack(buf, entry.View(), m);
    }
    ret := DecompressZipentry(buf, entry, out);
  }

  /** The entry that i + 1 calls from a null cookie come to. */
  method IterateTo(file: Zipfile, i: nat) returns (entry: Zipentry)
    requires IsList(file.entries, file.nodes) && i < |file.nodes|
    ensures entry == file.nodes[i]
  {
    var answers := IterateRepeatedly(file, i + 1);
    Rotation.Within(i, |file.nodes| + 1);
    entry := answers[i];
  }

  /** A stored member of an open archive. */
  method ExtractListed(file: Zipfile, ms: seq<Member>, j: nat, out: array<byte>) returns (ret: Outcome)
    requires IsList(file.entries, file.nodes) && ListReadsAs(file.buf, file.nodes, ms)
    requires j < |ms| && MemberFits(ms[j]) && ms[j].compression == STORED && |ms[j].payload| <= out.Length
    modifies out
    ensures ret == Code(0)
    ensures out[..] == ms[j].payload + old(out[|ms[j].payload|..])
  {
    var entry := IterateTo(file, |ms| - 1 - j);
    assert ZipRoundTrip.ReadsAs(file.buf, entry.View(), ms[j]);
    ret := DecompressMember(file.buf, entry, ms[j], out);
  }

  /** Opening a well-formed archive, iterating to a stored member's entry and copying it out yields
      the bytes the member was written with. */
  method ExtractStored(a: Archive, j: nat, out: array<byte>, heap: Heap) returns (ret: Outcome)
    requires ReadsBack(a)
    requires j < |a.members| && a.members[j].compression == STORED && |a.members[j].payload| <= out.Length
    modifies heap, out
    ensures ret == Code(0)
    ensures out[..] == a.members[j].payload + old(out[|a.members[j].payload|..])
  {
    var file, _ := OpenEncoded(a, heap);
    ret := ExtractListed(file, a.members, j, out);
  }

  /** Opening a well-formed archive, looking a name up and decompressing what is found, if anything. */
  method ExtractNamed(a: Archive, query: seq<byte>, out: array<byte>, heap: Heap) returns (ret: Option<Outcome>)
    requires ReadsBack(a) && ComesToComparable(MemberNames(a.members), query + [0])
    requires var found := LastPrefix(MemberNames(a.members), query + [0]);
             found.Some? && a.members[found.value].compression == STORED ==>
               |a.members[found.value].payload| <= out.Length
    modifies heap, out
    ensures var found := LastPrefix(MemberNames(a.members), query + [0]);
            if found.None? then ret == None && out[..] == old(out[..])
            else
              var m := a.members[found.value];
              && ret == Some(if m.compression == 0 then Code(0) else if m.compression == 8 then Inflate else Code(-1))
              && (ret == Some(Code(-1)) <==> !Decompressible(m))
              && (m.compression == STORED ==> out[..] == m.payload + old(out[|m.payload|..]))
              && (m.compression != STORED ==> out[..] == old(out[..]))
  {
    var file, r := LookupMember(a, query, heap);
    if r == null {
      return None;
    }
    ghost var found := LastPrefix(MemberNames(a.members), query + [0]);
    var answer := DecompressMember(file.buf, r, a.members[found.value], out);
    return Some(answer);
  }

  lemma WrongNames(ms: seq<Member>, key: seq<byte>)
    requires |ms| == 2 && ms[0].name == [97, 98] && ms[1].name == [97] && key == [97, 98] + [0]
    ensures ComesToComparable(MemberNames(ms), key) && LastPrefix(MemberNames(ms), key) == Some(1)
  {
    var names := MemberNames(ms);
    ZeroFreeNames(names, [97, 98]);
    assert key == [97, 98, 0] && names == [[97, 98], [97]];
    LookupFindsPrefix(names);
  }

  /** Looking up "ab" in an archive whose members are "ab" and, in a method the code cannot
      decompress, "a": the answer is "a", and decompressing it is refused. */
  method LookupGoesWrong(m: Member, m': Member, out: array<byte>, heap: Heap) returns (file: Zipfile, r: Zipentry?, ret: Outcome)
    requires MemberFits(m) && m.name == [97, 98] && m.centralExtra == m.comment == m.localExtra == m.payload == []
    requires MemberFits(m') && m'.name == [97] && m'.centralExtra == m'.comment == m'.localExtra == m'.payload == []
    requires m'.compression != STORED && m'.compression != DEFLATED
    modifies heap, out
    ensures r != null && ZipRoundTrip.ReadsAs(file.buf, r.View(), m')
    ensures ret == Code(-1)
  {
    ZipRoundTrip.PrefixArchive(m, m');
    var a := Archive([], [m, m'], []);
    WrongNames(a.members, [97, 98] + [0]);
    file, r := LookupMember(a, [97, 98], heap);
    ret := DecompressMember(file.buf, r, m', out);
  }
}
