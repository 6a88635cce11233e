/**
 IOHIDEvent: writing a tree of events as a run of flat records, under a length
 limit, and reading such records back.

 A record is a 28-byte IOHIDSystemQueueElement header followed by the event's
 data structure, whose first fields are its size, its type, its options and its
 depth. The catalogue of event types (their number, the size of each data
 structure, the option bit that marks a collection) comes from a header that is
 not part of this model.
 */
module EventSerialization {
  import opened Numbers
  import opened Options

  const HEADER: nat := 28       // sizeof(IOHIDSystemQueueElement)
  const BASE: nat := 16         // sizeof(IOHIDEventData)
  const UINT32_MAX: nat := 0xFFFF_FFFF

  datatype Catalogue = Catalogue(typeCount: nat, sizeOf: nat -> nat, collectionBit: nat)

  /** An event; `data` are the bytes of its data structure. */
  datatype Event = Event(timeStamp: nat, senderID: nat, options: nat, data: seq<Byte>, children: seq<Event>)

  // ------------------------------------------------- little-endian numbers

  /** The low `k` bytes of `x`. */
  function Bytes(x: nat, k: nat): (s: seq<Byte>)
    ensures |s| == k
  {
    if k == 0 then [] else [x % 256] + Bytes(x / 256, k - 1)
  }

  lemma {:induction false} BytesNumber(x: nat, k: nat)
    ensures Number(Bytes(x, k), 8) == Low(x, 8 * k)
  {
    if k > 0 {
      BytesNumber(x / 256, k - 1);
      assert Bytes(x, k)[1..] == Bytes(x / 256, k - 1);
      LowSplit(x, 8, 8 * (k - 1));
      Low8(x);
    }
  }

  lemma Low8(x: nat)
    ensures Low(x, 8) == x % 256 && Above(x, 8) == x / 256
  {
    ClosedForm(x, 8);
    Pow2Values();
  }

  lemma BytesExact(x: nat, k: nat)
    requires x < Pow2(8 * k)
    ensures Number(Bytes(x, k), 8) == x
  {
    BytesNumber(x, k);
    LowOfSmall(x, 8 * k);
  }

  /** The number stored in the `k` bytes at `at`. */
  function Get(bytes: seq<Byte>, at: nat, k: nat): nat
    requires at + k <= |bytes|
  {
    Number(bytes[at..at + k], 8)
  }

  // ------------------------------------------------------- data structures

  function SizeField(data: seq<Byte>): nat requires |data| >= BASE { Get(data, 0, 4) }
  function TypeField(data: seq<Byte>): nat requires |data| >= BASE { Get(data, 4, 4) }
  function OptionsField(data: seq<Byte>): nat requires |data| >= BASE { Get(data, 8, 4) }
  function DepthField(data: seq<Byte>): Byte requires |data| >= BASE { data[12] }

  /** One byte deeper; the depth field wraps after 255. */
  function NextDepth(depth: Byte): Byte {
    if depth == 255 then 0 else depth + 1
  }

  function WithDepth(data: seq<Byte>, depth: Byte): seq<Byte>
    requires |data| >= BASE
  {
    data[12 := depth]
  }

  /** Sets the option bit that says that the event has children. */
  function MarkCollection(cat: Catalogue, data: seq<Byte>): (r: seq<Byte>)
    requires |data| >= BASE
    ensures |r| == |data|
  {
    data[..8] + Bytes(Or(OptionsField(data), Pow2(cat.collectionBit)), 4) + data[12..]
  }

  /** A data structure as initWithType leaves it, whatever its other fields. */
  ghost predicate ValidData(cat: Catalogue, data: seq<Byte>) {
    && BASE <= |data| < UINT32_MAX
    && SizeField(data) == |data|
    && TypeField(data) < cat.typeCount && cat.sizeOf(TypeField(data)) <= |data|
  }

  /** An event built by the constructors and appendChild. */
  ghost predicate ValidEvent(cat: Catalogue, e: Event)
    decreases e
  {
    && ValidData(cat, e.data)
    && e.timeStamp < Pow2(64) && e.senderID < Pow2(64) && e.options < Pow2(32)
    && (e.children != [] ==> MarkCollection(cat, e.data) == e.data)
    && forall c <- e.children :: ValidEvent(cat, c)
  }

  /** appendChild on values. */
  function AppendChild(cat: Catalogue, parent: Event, child: Event): Event
    requires |parent.data| >= BASE
  {
    parent.(data := if parent.children == [] then MarkCollection(cat, parent.data) else parent.data,
            children := parent.children + [child])
  }

  // ------------------------------------------------------------- the tree

  function Nodes(e: Event): nat
    decreases e
  {
    1 + NodesAll(e.children)
  }

  function NodesAll(cs: seq<Event>): nat
    decreases cs
  {
    if cs == [] then 0 else Nodes(cs[0]) + NodesAll(cs[1..])
  }

  /** getLength */
  function Length(e: Event): nat
    decreases e
  {
    HEADER + |e.data| + LengthAll(e.children)
  }

  function LengthAll(cs: seq<Event>): nat
    decreases cs
  {
    if cs == [] then 0 else Length(cs[0]) + LengthAll(cs[1..])
  }

  /** What is kept of an event when `room` bytes are left: the event itself if
      its record fits, and of its children, in order, what still fits. */
  function Prune(e: Event, room: nat): (r: Option<Event>)
    ensures r.Some? ==> Length(r.value) <= room
    decreases e
  {
    if HEADER + |e.data| > room then None
    else Some(e.(children := PruneAll(e.children, room - HEADER - |e.data|)))
  }

  function PruneAll(cs: seq<Event>, room: nat): (r: seq<Event>)
    ensures LengthAll(r) <= room
    decreases cs
  {
    if cs == [] then []
    else
      match Prune(cs[0], room)
      case None => PruneAll(cs[1..], room)
      case Some(c) => [c] + PruneAll(cs[1..], room - Length(c))
  }

  /** The tree with the depth of every node written into its data, as readBytes
      leaves it: one more than the parent's, in one byte. */
  function Stamp(e: Event, depth: Byte): Event
    decreases e
  {
    e.(data := if |e.data| >= BASE then WithDepth(e.data, depth) else e.data,
       children := StampAll(e.children, NextDepth(depth)))
  }

  function StampAll(cs: seq<Event>, depth: Byte): (r: seq<Event>)
    ensures |r| == |cs|
    decreases cs
  {
    if cs == [] then [] else [Stamp(cs[0], depth)] + StampAll(cs[1..], depth)
  }

  // -------------------------------------------------------------- records

  /** One flat record: an event without children, and its event count. */
  datatype Record = Record(event: Event, eventCount: nat)

  function HeaderBytes(r: Record, attributeLength: nat): (s: seq<Byte>)
    ensures |s| == HEADER
  {
    Bytes(r.event.timeStamp, 8) + Bytes(r.event.senderID, 8) + Bytes(r.event.options, 4)
    + Bytes(attributeLength, 4) + Bytes(r.eventCount, 4)
  }

  function RecordBytes(r: Record): (s: seq<Byte>)
    ensures |s| == HEADER + |r.event.data|
  {
    HeaderBytes(r, 0) + r.event.data
  }

  function Encode(rs: seq<Record>): seq<Byte> {
    if rs == [] then [] else RecordBytes(rs[0]) + Encode(rs[1..])
  }

  /** The records of a tree in pre-order; `count` records were finished before.
      A record's event count is the number of records finished by the time its
      last descendant has been written. */
  function Records(e: Event, count: nat): (r: seq<Record>)
    ensures |r| == Nodes(e)
    decreases e
  {
    [Record(e.(children := []), count + Nodes(e))] + RecordsAll(e.children, count)
  }

  function RecordsAll(cs: seq<Event>, count: nat): (r: seq<Record>)
    ensures |r| == NodesAll(cs)
    decreases cs
  {
    if cs == [] then [] else Records(cs[0], count) + RecordsAll(cs[1..], count + Nodes(cs[0]))
  }

  lemma {:induction false} EncodeConcat(a: seq<Record>, b: seq<Record>)
    ensures Encode(a + b) == Encode(a) + Encode(b)
  {
    if a == [] {
      assert a + b == b;
    } else {
      EncodeConcat(a[1..], b);
      assert (a + b)[1..] == a[1..] + b && (a + b)[0] == a[0];
      Assoc(RecordBytes(a[0]), Encode(a[1..]), Encode(b));
    }
  }

  lemma Assoc<T>(a: seq<T>, b: seq<T>, c: seq<T>)
    ensures a + (b + c) == (a + b) + c
  {
  }

  lemma {:induction false} EncodedLength(e: Event, count: nat)
    ensures |Encode(Records(e, count))| == Length(e)
    decreases e, 1
  {
    var r := Record(e.(children := []), count + Nodes(e));
    EncodeConcat([r], RecordsAll(e.children, count));
    EncodedLengthAll(e.children, count);
    assert Encode([r]) == RecordBytes(r) + Encode([]);
  }

  lemma {:induction false} EncodedLengthAll(cs: seq<Event>, count: nat)
    ensures |Encode(RecordsAll(cs, count))| == LengthAll(cs)
    decreases cs, 0
  {
    if cs != [] {
      EncodedLength(cs[0], count);
      EncodedLengthAll(cs[1..], count + Nodes(cs[0]));
      EncodeConcat(Records(cs[0], count), RecordsAll(cs[1..], count + Nodes(cs[0])));
    }
  }

  // ---------------------------------------------------------- growing lists

  lemma {:induction false} PushAll(cs: seq<Event>, c: Event, depth: Byte)
    ensures LengthAll(cs + [c]) == LengthAll(cs) + Length(c)
    ensures NodesAll(cs + [c]) == NodesAll(cs) + Nodes(c)
    ensures StampAll(cs + [c], depth) == StampAll(cs, depth) + [Stamp(c, depth)]
  {
    if cs == [] {
      assert [] + [c] == [c] && [c][1..] == [];
    } else {
      PushAll(cs[1..], c, depth);
      assert (cs + [c])[1..] == cs[1..] + [c];
    }
  }

  lemma RecordsCons(first: Event, rest: seq<Event>, count: nat)
    ensures RecordsAll([first] + rest, count) == Records(first, count) + RecordsAll(rest, count + Nodes(first))
    ensures NodesAll([first] + rest) == Nodes(first) + NodesAll(rest)
  {
    assert ([first] + rest)[1..] == rest;
  }

  lemma {:induction false} PushRecords(cs: seq<Event>, c: Event, count: nat)
    ensures RecordsAll(cs + [c], count) == RecordsAll(cs, count) + Records(c, count + NodesAll(cs))
    decreases |cs|
  {
    if cs == [] {
      assert [] + [c] == [c] + [];
      RecordsCons(c, [], count);
    } else {
      var n, first, others := count + Nodes(cs[0]), cs[0], cs[1..];
      PushRecords(others, c, n);
      RecordsCons(first, others, count);
      RecordsCons(first, others + [c], count);
      assert cs == [first] + others && cs + [c] == [first] + (others + [c]);
      Assoc(Records(first, count), RecordsAll(others, n), Records(c, n + NodesAll(others)));
    }
  }

  lemma {:induction false} StampKeepsShape(e: Event, depth: Byte)
    ensures Length(Stamp(e, depth)) == Length(e) && Nodes(Stamp(e, depth)) == Nodes(e)
    decreases e, 1
  {
    StampKeepsShapes(e.children, NextDepth(depth));
  }

  lemma {:induction false} StampKeepsShapes(cs: seq<Event>, depth: Byte)
    ensures LengthAll(StampAll(cs, depth)) == LengthAll(cs) && NodesAll(StampAll(cs, depth)) == NodesAll(cs)
    decreases cs, 0
  {
    if cs != [] {
      StampKeepsShape(cs[0], depth);
      StampKeepsShapes(cs[1..], depth);
    }
  }

  // -------------------------------------------------------------- readBytes

  /** Every event of the tree has its data structure. */
  predicate HasData(e: Event)
    decreases e
  {
    |e.data| >= BASE && forall c <- e.children :: HasData(c)
  }

  /** The header before the event count is filled in. */
  function HeaderStart(e: Event): (s: seq<Byte>)
    ensures |s| == 24
  {
    Bytes(e.timeStamp, 8) + Bytes(e.senderID, 8) + Bytes(e.options, 4) + Bytes(0, 4)
  }

  method PutBytes(buf: array<Byte>, at: nat, bytes: seq<Byte>)
    requires at + |bytes| <= buf.Length
    modifies buf
    ensures buf[at..at + |bytes|] == bytes
    ensures forall i :: 0 <= i < buf.Length && !(at <= i < at + |bytes|) ==> buf[i] == old(buf[i])
  {
    for i := 0 to |bytes|
      invariant forall j :: 0 <= j < buf.Length && !(at <= j < at + i) ==> buf[j] == old(buf[j])
      invariant forall j :: at <= j < at + i ==> buf[j] == bytes[j - at]
    {
      buf[at + i] := bytes[i];
    }
  }

  function DepthIn(e: Event, parentDepth: Option<Byte>): Byte
    requires |e.data| >= BASE
  {
    match parentDepth
    case None => DepthField(e.data)
    case Some(p) => NextDepth(p)
  }

  /** The record of a kept root, followed by those of its kept children. */
  lemma RootRecord(e: Event, kept: Event, depth: Byte, count: nat)
    requires |e.data| >= BASE && kept == e.(children := kept.children)
    ensures Encode(Records(Stamp(kept, depth), count))
            == HeaderStart(e) + Bytes(count + NodesAll(kept.children) + 1, 4) + WithDepth(e.data, depth)
               + Encode(RecordsAll(StampAll(kept.children, NextDepth(depth)), count))
  {
    var t := Stamp(kept, depth);
    var rest := RecordsAll(t.children, count);
    var r := Record(t.(children := []), count + Nodes(t));
    StampKeepsShapes(kept.children, NextDepth(depth));
    assert Records(t, count) == [r] + rest;
    assert ([r] + rest)[1..] == rest;
    assert HeaderBytes(r, 0) == HeaderStart(e) + Bytes(count + NodesAll(kept.children) + 1, 4);
  }

  /** One more child: kept if it fits, passed over otherwise. */
  lemma NextChild(cs: seq<Event>, i: nat, kept: seq<Event>, room: nat, used: nat)
    requires i < |cs| && used <= room
    ensures kept + PruneAll(cs[i..], room - used)
            == (match Prune(cs[i], room - used)
                case None => kept + PruneAll(cs[i + 1..], room - used)
                case Some(c) => (kept + [c]) + PruneAll(cs[i + 1..], room - used - Length(c)))
  {
    assert cs[i..][1..] == cs[i + 1..];
    if Prune(cs[i], room - used).Some? {
      var c := Prune(cs[i], room - used).value;
      Assoc(kept, [c], PruneAll(cs[i + 1..], room - used - Length(c)));
    }
  }

  lemma NextEncoded(kept: seq<Event>, c: Event, depth: Byte, count: nat)
    ensures LengthAll(kept + [c]) == LengthAll(kept) + Length(c) && NodesAll(kept + [c]) == NodesAll(kept) + Nodes(c)
    ensures Encode(RecordsAll(StampAll(kept + [c], depth), count))
            == Encode(RecordsAll(StampAll(kept, depth), count)) + Encode(Records(Stamp(c, depth), count + NodesAll(kept)))
  {
    PushAll(kept, c, depth);
    StampKeepsShapes(kept, depth);
    PushRecords(StampAll(kept, depth), Stamp(c, depth), count);
    EncodeConcat(RecordsAll(StampAll(kept, depth), count), Records(Stamp(c, depth), count + NodesAll(kept)));
  }

  /** Writes as much of the tree as fits into `withLength` bytes at `at`. */
  method ReadBytes(e: Event, parentDepth: Option<Byte>, buf: array<Byte>, at: nat, withLength: nat, count: nat)
    returns (size: nat, outCount: nat)
    requires HasData(e) && at + withLength <= buf.Length
    modifies buf
    ensures forall i :: 0 <= i < buf.Length && !(at <= i < at + withLength) ==> buf[i] == old(buf[i])
    ensures Prune(e, withLength).None? ==> size == 0 && outCount == count
    ensures Prune(e, withLength).Some? ==>
              var kept := Prune(e, withLength).value;
              && size == Length(kept) <= withLength && outCount == count + Nodes(kept)
              && buf[at..at + size] == Encode(Records(Stamp(kept, DepthIn(e, parentDepth)), count))
    decreases e, 1
  {
    if withLength < HEADER {
      return 0, count;
    }
    PutBytes(buf, at, HeaderStart(e));
    if HEADER + |e.data| > withLength {
      return 0, count;
    }
    ghost var kept := e.(children := PruneAll(e.children, withLength - HEADER - |e.data|));
    ghost var depth := DepthIn(e, parentDepth);
    PruneRoot(e, withLength);
    RootRecord(e, kept, depth, count);
    size, outCount := WriteKept(e, DepthIn(e, parentDepth), buf, at, withLength, count, kept.children,
                                Encode(RecordsAll(StampAll(kept.children, NextDepth(depth)), count)));
  }

  lemma PruneRoot(e: Event, room: nat)
    requires HEADER + |e.data| <= room
    ensures var kept := e.(children := PruneAll(e.children, room - HEADER - |e.data|));
      && Prune(e, room) == Some(kept)
      && Length(kept) == HEADER + |e.data| + LengthAll(kept.children) <= room
      && Nodes(kept) == 1 + NodesAll(kept.children)
  {
  }

  /** The part of readBytes after its length checks. */
  method WriteKept(e: Event, depth: Byte, buf: array<Byte>, at: nat, withLength: nat, count: nat,
                   ghost cs: seq<Event>, ghost rest: seq<Byte>)
    returns (size: nat, outCount: nat)
    requires HasData(e) && at + withLength <= buf.Length && HEADER + |e.data| <= withLength
    requires buf[at..at + 24] == HeaderStart(e)
    requires cs == PruneAll(e.children, withLength - HEADER - |e.data|)
    requires rest == Encode(RecordsAll(StampAll(cs, NextDepth(depth)), count))
    modifies buf
    ensures forall i :: 0 <= i < buf.Length && !(at <= i < at + withLength) ==> buf[i] == old(buf[i])
    ensures size == HEADER + |e.data| + LengthAll(cs) <= withLength && outCount == count + NodesAll(cs) + 1
    ensures buf[at..at + size] == HeaderStart(e) + Bytes(outCount, 4) + WithDepth(e.data, depth) + rest
    decreases e, 0
  {
    hide Encode, RecordsAll, StampAll, PruneAll, LengthAll, NodesAll, Bytes;
    var data := WithDepth(e.data, depth);
    var own := HEADER + |data|;
    ghost var first := buf[..];
    PutBytes(buf, at + HEADER, data);
    ghost var second := buf[..];
    Unmoved(first, second, at, at + 24);
    size, outCount := ReadChildren(e.children, depth, buf, at + own, withLength - own, count);
    Unmoved(second, buf[..], at, at + 24);
    Unmoved(second, buf[..], at + HEADER, at + own);
    outCount := outCount + 1;
    Finish(e, data, buf, at, size, outCount, rest);
    size := own + size;
  }

  lemma Unmoved(was: seq<Byte>, now: seq<Byte>, i: nat, j: nat)
    requires i <= j <= |was| == |now|
    requires forall k :: i <= k < j ==> now[k] == was[k]
    ensures now[i..j] == was[i..j]
  {
  }

  /** Fills in the event count, which completes the record. */
  method Finish(e: Event, data: seq<Byte>, buf: array<Byte>, at: nat, size: nat, outCount: nat, ghost rest: seq<Byte>)
    requires at + HEADER + |data| + size <= buf.Length
    requires buf[at..at + 24] == HeaderStart(e) && buf[at + HEADER..at + HEADER + |data|] == data
    requires buf[at + HEADER + |data|..at + HEADER + |data| + size] == rest
    modifies buf
    ensures buf[at..at + HEADER + |data| + size] == HeaderStart(e) + Bytes(outCount, 4) + data + rest
    ensures forall i :: 0 <= i < buf.Length && !(at + 24 <= i < at + HEADER) ==> buf[i] == old(buf[i])
  {
    ghost var was := buf[..];
    PutBytes(buf, at + 24, Bytes(outCount, 4));
    Patched(was, buf[..], at, at + HEADER + |data| + size, HeaderStart(e), Bytes(outCount, 4), data);
  }

  /** Four bytes are replaced between two runs of bytes. */
  lemma Patched(was: seq<Byte>, now: seq<Byte>, at: nat, end: nat, a: seq<Byte>, b: seq<Byte>, c: seq<Byte>)
    requires |a| == 24 && |b| == 4 && at + HEADER + |c| <= end <= |was| == |now|
    requires was[at..at + 24] == a && was[at + HEADER..at + HEADER + |c|] == c && now[at + 24..at + HEADER] == b
    requires forall i :: 0 <= i < |was| && !(at + 24 <= i < at + HEADER) ==> now[i] == was[i]
    ensures now[at..end] == a + b + c + was[at + HEADER + |c|..end]
  {
    assert now[at..at + 24] == was[at..at + 24];
    assert now[at + HEADER..at + HEADER + |c|] == was[at + HEADER..at + HEADER + |c|];
    assert now[at + HEADER + |c|..end] == was[at + HEADER + |c|..end];
    FourParts(now, at, at + 24, at + HEADER, at + HEADER + |c|, end);
  }

  lemma FourParts(s: seq<Byte>, i: nat, j: nat, k: nat, l: nat, m: nat)
    requires i <= j <= k <= l <= m <= |s|
    ensures s[i..m] == s[i..j] + s[j..k] + s[k..l] + s[l..m]
  {
    assert s[i..k] == s[i..j] + s[j..k];
    assert s[i..l] == s[i..k] + s[k..l];
    assert s[i..m] == s[i..l] + s[l..m];
  }

  /** The loop over the children of an event at the given depth. */
  method ReadChildren(cs: seq<Event>, depth: Byte, buf: array<Byte>, at: nat, room: nat, count: nat)
    returns (size: nat, outCount: nat)
    requires (forall c <- cs :: HasData(c)) && at + room <= buf.Length
    modifies buf
    ensures forall i :: 0 <= i < buf.Length && !(at <= i < at + room) ==> buf[i] == old(buf[i])
    ensures var kept := PruneAll(cs, room);
      && size == LengthAll(kept) <= room && outCount == count + NodesAll(kept)
      && buf[at..at + size] == Encode(RecordsAll(StampAll(kept, NextDepth(depth)), count))
    decreases cs, 0
  {
    hide Progress, Encode, RecordsAll, Records, StampAll, Stamp, PruneAll, Prune, LengthAll, NodesAll;
    size, outCount := 0, count;
    ghost var kept: seq<Event>, bytes: seq<Byte> := [], [];
    ProgressStart(cs, depth, room, count);
    for i := 0 to |cs|
      invariant size <= room && Progress(cs, i, kept, bytes, depth, room, count, size, outCount)
      invariant buf[at..at + size] == bytes
      invariant forall j :: 0 <= j < buf.Length && !(at <= j < at + room) ==> buf[j] == old(buf[j])
    {
      ghost var c := Prune(cs[i], room - size);
      ChildProgress(cs, i, kept, bytes, depth, room, count, size, outCount);
      ghost var more := if c.None? then [] else Encode(Records(Stamp(c.value, NextDepth(depth)), outCount));
      size, outCount := ReadChild(cs[i], depth, buf, at, size, room, outCount, bytes, more);
      kept, bytes := if c.None? then kept else kept + [c.value], bytes + more;
    }
    ProgressEnd(cs, kept, bytes, depth, room, count, size, outCount);
  }

  lemma ProgressStart(cs: seq<Event>, depth: Byte, room: nat, count: nat)
    ensures Progress(cs, 0, [], [], depth, room, count, 0, count)
  {
    assert cs[0..] == cs && [] + PruneAll(cs, room) == PruneAll(cs, room);
  }

  lemma ProgressEnd(cs: seq<Event>, kept: seq<Event>, bytes: seq<Byte>, depth: Byte, room: nat, count: nat, size: nat, outCount: nat)
    requires size <= room && Progress(cs, |cs|, kept, bytes, depth, room, count, size, outCount)
    ensures kept == PruneAll(cs, room) && size == LengthAll(kept) == |bytes| && outCount == count + NodesAll(kept)
    ensures bytes == Encode(RecordsAll(StampAll(kept, NextDepth(depth)), count))
  {
    assert cs[|cs|..] == [] && kept + [] == kept;
  }

  /** What has been written for the first `i` children. */
  ghost predicate Progress(cs: seq<Event>, i: nat, kept: seq<Event>, bytes: seq<Byte>, depth: Byte, room: nat,
                           count: nat, size: nat, outCount: nat)
    requires i <= |cs| && size <= room
  {
    && size == LengthAll(kept) == |bytes| && outCount == count + NodesAll(kept)
    && kept + PruneAll(cs[i..], room - size) == PruneAll(cs, room)
    && bytes == Encode(RecordsAll(StampAll(kept, NextDepth(depth)), count))
  }

  lemma ChildProgress(cs: seq<Event>, i: nat, kept: seq<Event>, bytes: seq<Byte>, depth: Byte, room: nat,
                      count: nat, size: nat, outCount: nat)
    requires i < |cs| && size <= room && Progress(cs, i, kept, bytes, depth, room, count, size, outCount)
    ensures Prune(cs[i], room - size).None? ==> Progress(cs, i + 1, kept, bytes + [], depth, room, count, size, outCount)
    ensures Prune(cs[i], room - size).Some? ==>
              var c := Prune(cs[i], room - size).value;
              Progress(cs, i + 1, kept + [c], bytes + Encode(Records(Stamp(c, NextDepth(depth)), outCount)), depth, room,
                       count, size + Length(c), outCount + Nodes(c))
  {
    hide Prune, PruneAll, Encode, Records, RecordsAll, Stamp, StampAll, Length, LengthAll, Nodes, NodesAll;
    NextChild(cs, i, kept, room, size);
    assert bytes + [] == bytes;
    if Prune(cs[i], room - size).Some? {
      var c := Prune(cs[i], room - size).value;
      NextEncoded(kept, c, NextDepth(depth), count);
      StampKeepsShape(c, NextDepth(depth));
      EncodedLength(Stamp(c, NextDepth(depth)), outCount);
    }
  }

  /** A child, written after the `size` bytes already there. */
  method ReadChild(child: Event, depth: Byte, buf: array<Byte>, at: nat, size: nat, room: nat, count: nat,
                   ghost bytes: seq<Byte>, ghost more: seq<Byte>)
    returns (newSize: nat, outCount: nat)
    requires HasData(child) && size <= room && at + room <= buf.Length && buf[at..at + size] == bytes
    requires more == (match Prune(child, room - size)
                      case None => []
                      case Some(c) => Encode(Records(Stamp(c, NextDepth(depth)), count)))
    modifies buf
    ensures forall j :: 0 <= j < buf.Length && !(at + size <= j < at + room) ==> buf[j] == old(buf[j])
    ensures match Prune(child, room - size)
            case None => newSize == size && outCount == count
            case Some(c) => newSize == size + Length(c) <= room && outCount == count + Nodes(c)
    ensures newSize <= room && buf[at..at + newSize] == bytes + more
    decreases child, 2
  {
    hide Encode, Records, Stamp, Prune, Nodes, Length, HasData;
    ghost var was := buf[..];
    var written;
    written, outCount := ReadBytes(child, Some(depth), buf, at + size, room - size, count);
    newSize := size + written;
    Joined(was, buf[..], at, at + size, at + newSize);
  }

  lemma Joined(was: seq<Byte>, now: seq<Byte>, at: nat, mid: nat, end: nat)
    requires at <= mid <= end <= |was| == |now|
    requires forall i :: at <= i < mid ==> now[i] == was[i]
    ensures now[at..end] == was[at..mid] + now[mid..end]
  {
    assert now[at..mid] == was[at..mid];
  }

  // -------------------------------------------------------------- withBytes

  /** The event data structure of every type starts with the common fields. */
  ghost predicate GoodCatalogue(cat: Catalogue) {
    cat.collectionBit < 32 && forall t: nat :: cat.sizeOf(t) >= BASE
  }

  /** What one turn of the loop finds at an offset; `at` is where its data
      starts. `Outside`: the data to copy is not contained in the buffer, so
      what is copied does not depend on the buffer alone. */
  datatype Turn = Stop | Outside | Found(event: Event, eventCount: nat, at: nat)

  function Look(cat: Catalogue, bytes: seq<Byte>, offset: nat): (t: Turn)
    ensures t.Found? ==> offset + HEADER <= t.at && t.at + |t.event.data| <= |bytes|
    ensures t.Found? ==> |t.event.data| >= cat.sizeOf(TypeAt(bytes, t.at)) && t.event.children == []
  {
    if HEADER >= |bytes| - offset then Stop
    else
      var attribute := Get(bytes, offset + 20, 4);
      var at := offset + HEADER + attribute;
      if at > UINT32_MAX || at >= |bytes| || |bytes| - at < BASE then Stop
      else
        var size := Get(bytes, at, 4);
        match Judge(cat, |bytes|, at, attribute, TypeAt(bytes, at), size)
        case Refused => Stop
        case Beyond => Outside
        case Accepted => Found(Event(Get(bytes, offset, 8), Get(bytes, offset + 8, 8), Get(bytes, offset + 16, 4),
                                     bytes[at..at + size], []),
                               Get(bytes, offset + 24, 4), at)
  }

  datatype Verdict = Refused | Beyond | Accepted

  /** The checks on the type and the size found at `at`. */
  function Judge(cat: Catalogue, total: nat, at: nat, attribute: nat, kind: nat, size: nat): (v: Verdict)
    ensures v.Accepted? ==> at + size <= total && cat.sizeOf(kind) <= size
  {
    var end := (attribute + at) % (UINT32_MAX + 1);
    if kind >= cat.typeCount || cat.sizeOf(kind) > size then Refused
    else if size >= UINT32_MAX || size == 0 then Refused
    else if end <= total && total - end < size then Refused
    else if at + size > total then Beyond
    else Accepted
  }

  function TypeAt(bytes: seq<Byte>, at: nat): nat {
    if at + 8 <= |bytes| then Get(bytes, at + 4, 4) else 0
  }

  datatype Outcome = Parsed(event: Option<Event>) | Undetermined

  /** The event count minus one, in 32 bits. */
  function LastIndex(eventCount: nat): nat {
    if eventCount == 0 then UINT32_MAX else eventCount - 1
  }

  function LookIn(cat: Catalogue, bytes: seq<Byte>): nat -> Turn {
    (offset: nat) => Look(cat, bytes, offset)
  }

  /** Every record found lies ahead, inside the buffer. */
  ghost predicate Forward(look: nat -> Turn, size: nat) {
    forall o: nat :: match look(o)
                     case Found(e, n, at) => o + HEADER <= at && at + |e.data| <= size && |e.data| >= BASE
                     case _ => true
  }

  /** The loop of withBytes from an offset on, with `index` records already
      read into `parent`; `look` is what it finds at each offset. */
  ghost function Scan(cat: Catalogue, look: nat -> Turn, size: nat, offset: nat, index: nat, parent: Option<Event>,
                      eventCount: nat): Outcome
    requires Forward(look, size) && (parent.Some? ==> |parent.value.data| >= BASE)
    decreases size - offset
  {
    if offset >= size then Parsed(parent)
    else
      match look(offset)
      case Stop => Parsed(parent)
      case Outside => Undetermined
      case Found(event, own, at) =>
        var count := if parent.None? then own else eventCount;
        var root := if parent.None? then event else AppendChild(cat, parent.value, event);
        if index >= LastIndex(count) || at + |event.data| > UINT32_MAX then Parsed(Some(root))
        else Scan(cat, look, size, at + |event.data|, index + 1, Some(root), count)
  }

  /** withBytes as a function of the buffer. */
  ghost function ParsedFrom(cat: Catalogue, bytes: seq<Byte>): Outcome
    requires GoodCatalogue(cat)
  {
    LooksForward(cat, bytes);
    Scan(cat, LookIn(cat, bytes), |bytes|, 0, 0, None, 0)
  }

  lemma LooksForward(cat: Catalogue, bytes: seq<Byte>)
    requires GoodCatalogue(cat)
    ensures Forward(LookIn(cat, bytes), |bytes|)
  {
    forall o: nat
      ensures match LookIn(cat, bytes)(o)
              case Found(e, n, at) => o + HEADER <= at && at + |e.data| <= |bytes| && |e.data| >= BASE
              case _ => true
    {
      var t := Look(cat, bytes, o);
    }
  }

  method WithBytes(cat: Catalogue, bytes: seq<Byte>) returns (r: Outcome)
    requires GoodCatalogue(cat)
    ensures r == ParsedFrom(cat, bytes)
  {
    LooksForward(cat, bytes);
    r := Loop(cat, LookIn(cat, bytes), |bytes|);
  }

  method Loop(cat: Catalogue, look: nat -> Turn, size: nat) returns (r: Outcome)
    requires Forward(look, size)
    ensures r == Scan(cat, look, size, 0, 0, None, 0)
  {
    var parent: Option<Event>, index, offset, eventCount := None, 0, 0, 0;
    while offset < size
      invariant parent.Some? ==> |parent.value.data| >= BASE
      invariant Scan(cat, look, size, offset, index, parent, eventCount) == Scan(cat, look, size, 0, 0, None, 0)
      decreases size - offset
    {
      var turn := look(offset);
      match turn
      case Stop =>
        return Parsed(parent);
      case Outside =>
        return Undetermined;
      case Found(event, own, at) =>
        if parent.None? {
          parent, eventCount := Some(event), own;
        } else {
          parent := Some(AppendChild(cat, parent.value, event));
        }
        if index >= LastIndex(eventCount) || at + |event.data| > UINT32_MAX {
          return Parsed(parent);
        }
        offset, index := at + |event.data|, index + 1;
    }
    return Parsed(parent);
  }

  // ------------------------------------------------- reading back a record

  ghost predicate ValidRecord(cat: Catalogue, r: Record) {
    && ValidEvent(cat, r.event) && r.event.children == [] && r.eventCount < Pow2(32)
  }

  lemma GetBytes(bytes: seq<Byte>, at: nat, k: nat, x: nat)
    requires at + k <= |bytes| && bytes[at..at + k] == Bytes(x, k) && x < Pow2(8 * k)
    ensures Get(bytes, at, k) == x
  {
    BytesExact(x, k);
  }

  lemma HeaderParts(r: Record, attributeLength: nat, h: seq<Byte>)
    requires h == HeaderBytes(r, attributeLength)
    ensures h[..8] == Bytes(r.event.timeStamp, 8) && h[8..16] == Bytes(r.event.senderID, 8)
    ensures h[16..20] == Bytes(r.event.options, 4) && h[20..24] == Bytes(attributeLength, 4) && h[24..28] == Bytes(r.eventCount, 4)
  {
  }

  lemma SliceOfSlice(bytes: seq<Byte>, at: nat, part: seq<Byte>, i: nat, j: nat)
    requires at + |part| <= |bytes| && bytes[at..at + |part|] == part && i <= j <= |part|
    ensures bytes[at + i..at + j] == part[i..j]
  {
    forall k | 0 <= k < j - i ensures bytes[at + i..at + j][k] == part[i..j][k] {
      assert bytes[at..at + |part|][i + k] == bytes[at + i + k];
    }
  }

  lemma HeaderRead(bytes: seq<Byte>, at: nat, r: Record, attributeLength: nat)
    requires at + HEADER <= |bytes| && bytes[at..at + HEADER] == HeaderBytes(r, attributeLength) && attributeLength < Pow2(32)
    requires r.event.timeStamp < Pow2(64) && r.event.senderID < Pow2(64) && r.event.options < Pow2(32) && r.eventCount < Pow2(32)
    ensures Get(bytes, at, 8) == r.event.timeStamp && Get(bytes, at + 8, 8) == r.event.senderID
    ensures Get(bytes, at + 16, 4) == r.event.options && Get(bytes, at + 20, 4) == attributeLength && Get(bytes, at + 24, 4) == r.eventCount
  {
    var h := HeaderBytes(r, attributeLength);
    HeaderParts(r, attributeLength, h);
    SliceOfSlice(bytes, at, h, 0, 8);
    SliceOfSlice(bytes, at, h, 8, 16);
    SliceOfSlice(bytes, at, h, 16, 20);
    SliceOfSlice(bytes, at, h, 20, 24);
    SliceOfSlice(bytes, at, h, 24, 28);
    GetBytes(bytes, at, 8, r.event.timeStamp);
    GetBytes(bytes, at + 8, 8, r.event.senderID);
    GetBytes(bytes, at + 16, 4, r.event.options);
    GetBytes(bytes, at + 20, 4, attributeLength);
    GetBytes(bytes, at + 24, 4, r.eventCount);
  }

  lemma DataRead(bytes: seq<Byte>, at: nat, data: seq<Byte>)
    requires |data| >= BASE && at + |data| <= |bytes| && bytes[at..at + |data|] == data
    ensures Get(bytes, at, 4) == SizeField(data) && TypeAt(bytes, at) == TypeField(data)
  {
    SliceOfSlice(bytes, at, data, 0, 4);
    SliceOfSlice(bytes, at, data, 4, 8);
  }

  /** A record, followed by anything, is read back whole. */
  lemma RecordRead(cat: Catalogue, bytes: seq<Byte>, offset: nat, r: Record)
    requires GoodCatalogue(cat) && ValidRecord(cat, r)
    requires offset + HEADER + |r.event.data| <= |bytes| && offset + HEADER + |r.event.data| <= UINT32_MAX
    requires bytes[offset..offset + HEADER + |r.event.data|] == RecordBytes(r)
    ensures Look(cat, bytes, offset) == Found(r.event, r.eventCount, offset + HEADER)
  {
    var data, at := r.event.data, offset + HEADER;
    SliceOfSlice(bytes, offset, RecordBytes(r), 0, HEADER);
    SliceOfSlice(bytes, offset, RecordBytes(r), HEADER, HEADER + |data|);
    Pow2Values();
    HeaderRead(bytes, offset, r, 0);
    DataRead(bytes, at, data);
    Recognised(cat, bytes, offset, r);
  }

  lemma Recognised(cat: Catalogue, bytes: seq<Byte>, offset: nat, r: Record)
    requires GoodCatalogue(cat) && ValidData(cat, r.event.data) && r.event.children == []
    requires offset + HEADER + |r.event.data| <= |bytes| && offset + HEADER + |r.event.data| <= UINT32_MAX
    requires Get(bytes, offset, 8) == r.event.timeStamp && Get(bytes, offset + 8, 8) == r.event.senderID
    requires Get(bytes, offset + 16, 4) == r.event.options && Get(bytes, offset + 20, 4) == 0
    requires Get(bytes, offset + 24, 4) == r.eventCount && Get(bytes, offset + HEADER, 4) == |r.event.data|
    requires TypeAt(bytes, offset + HEADER) == TypeField(r.event.data)
    requires bytes[offset + HEADER..offset + HEADER + |r.event.data|] == r.event.data
    ensures Look(cat, bytes, offset) == Found(r.event, r.eventCount, offset + HEADER)
  {
    var at := offset + HEADER;
    assert Judge(cat, |bytes|, at, 0, TypeAt(bytes, at), |r.event.data|) == Accepted;
  }

  // --------------------------------------------------- reading a run back

  function Events(rs: seq<Record>): (es: seq<Event>)
    ensures |es| == |rs|
  {
    if rs == [] then [] else [rs[0].event] + Events(rs[1..])
  }

  /** The parent after appendChild for each event in turn. */
  function Adopt(cat: Catalogue, parent: Event, cs: seq<Event>): Event
    requires |parent.data| >= BASE
  {
    if cs == [] then parent
    else parent.(data := if parent.children == [] then MarkCollection(cat, parent.data) else parent.data,
                 children := parent.children + cs)
  }

  lemma AdoptNext(cat: Catalogue, parent: Event, c: Event, cs: seq<Event>)
    requires |parent.data| >= BASE
    ensures Adopt(cat, AppendChild(cat, parent, c), cs) == Adopt(cat, parent, [c] + cs)
  {
    Assoc(parent.children, [c], cs);
    if cs == [] {
      assert [c] + cs == [c];
    }
  }

  ghost predicate ValidRecords(cat: Catalogue, rs: seq<Record>) {
    forall r <- rs :: ValidRecord(cat, r)
  }

  /** Splits a run of records in the buffer into its first record and the rest. */
  lemma FirstRecord(bytes: seq<Byte>, offset: nat, rs: seq<Record>)
    requires rs != [] && offset + |Encode(rs)| <= |bytes| && bytes[offset..offset + |Encode(rs)|] == Encode(rs)
    ensures var n := HEADER + |rs[0].event.data|;
      && |Encode(rs)| == n + |Encode(rs[1..])|
      && bytes[offset..offset + n] == RecordBytes(rs[0])
      && bytes[offset + n..offset + n + |Encode(rs[1..])|] == Encode(rs[1..])
  {
    var first, rest := RecordBytes(rs[0]), Encode(rs[1..]);
    assert Encode(rs) == first + rest;
    TwoSlices(bytes, offset, first, rest);
  }

  lemma TwoSlices(bytes: seq<Byte>, at: nat, a: seq<Byte>, b: seq<Byte>)
    requires at + |a| + |b| <= |bytes| && bytes[at..at + |a + b|] == a + b
    ensures bytes[at..at + |a|] == a && bytes[at + |a|..at + |a| + |b|] == b
  {
    SliceOfSlice(bytes, at, a + b, 0, |a|);
    SliceOfSlice(bytes, at, a + b, |a|, |a + b|);
  }

  /** At each offset from `offset` on where a record of the run starts, that
      record is found. */
  ghost predicate Finds(look: nat -> Turn, offset: nat, rs: seq<Record>)
    decreases |rs|
  {
    rs != [] ==>
      && look(offset) == Found(rs[0].event, rs[0].eventCount, offset + HEADER)
      && Finds(look, offset + HEADER + |rs[0].event.data|, rs[1..])
  }

  lemma {:induction false} RunFound(cat: Catalogue, bytes: seq<Byte>, offset: nat, rs: seq<Record>)
    requires GoodCatalogue(cat) && ValidRecords(cat, rs)
    requires offset + |Encode(rs)| <= |bytes| && offset + |Encode(rs)| <= UINT32_MAX
    requires bytes[offset..offset + |Encode(rs)|] == Encode(rs)
    ensures Finds(LookIn(cat, bytes), offset, rs)
    decreases |rs|
  {
    hide Look, Encode, RecordBytes, ValidRecord;
    if rs != [] {
      FirstRecord(bytes, offset, rs);
      RecordRead(cat, bytes, offset, rs[0]);
      RunFound(cat, bytes, offset + HEADER + |rs[0].event.data|, rs[1..]);
    }
  }

  /** The rest of a run is appended to the parent, record by record, and what
      follows the run is not looked at. */
  lemma {:induction false} RunRead(cat: Catalogue, look: nat -> Turn, size: nat, offset: nat, index: nat, parent: Event,
                                   total: nat, rs: seq<Record>)
    requires Forward(look, size) && Finds(look, offset, rs) && |parent.data| >= BASE
    requires rs != [] && index + |rs| == total && offset + |Encode(rs)| <= size && offset + |Encode(rs)| <= UINT32_MAX
    ensures Scan(cat, look, size, offset, index, Some(parent), total) == Parsed(Some(Adopt(cat, parent, Events(rs))))
    decreases |rs|
  {
    var e, rest, next := rs[0].event, rs[1..], AppendChild(cat, parent, rs[0].event);
    AdoptNext(cat, parent, e, Events(rest));
    assert |Encode(rs)| == HEADER + |e.data| + |Encode(rest)|;
    if |rs| > 1 {
      RunRead(cat, look, size, offset + HEADER + |e.data|, index + 1, next, total, rest);
    } else {
      assert rest == [] && Adopt(cat, next, Events(rest)) == next;
    }
  }

  /** Reading a run whose first record counts all of them. */
  lemma WholeRunRead(cat: Catalogue, bytes: seq<Byte>, rs: seq<Record>)
    requires GoodCatalogue(cat) && ValidRecords(cat, rs) && rs != [] && rs[0].eventCount == |rs|
    requires |Encode(rs)| <= |bytes| && |Encode(rs)| <= UINT32_MAX && bytes[..|Encode(rs)|] == Encode(rs)
    requires |rs[0].event.data| >= BASE
    ensures ParsedFrom(cat, bytes) == Parsed(Some(Adopt(cat, rs[0].event, Events(rs[1..]))))
  {
    assert bytes[0..0 + |Encode(rs)|] == Encode(rs);
    LooksForward(cat, bytes);
    RunFound(cat, bytes, 0, rs);
    FirstRead(cat, LookIn(cat, bytes), |bytes|, rs);
  }

  lemma FirstRead(cat: Catalogue, look: nat -> Turn, size: nat, rs: seq<Record>)
    requires Forward(look, size) && Finds(look, 0, rs) && rs != [] && rs[0].eventCount == |rs|
    requires |Encode(rs)| <= size && |Encode(rs)| <= UINT32_MAX && |rs[0].event.data| >= BASE
    ensures Scan(cat, look, size, 0, 0, None, 0) == Parsed(Some(Adopt(cat, rs[0].event, Events(rs[1..]))))
  {
    var e, rest := rs[0].event, rs[1..];
    assert |Encode(rs)| == HEADER + |e.data| + |Encode(rest)|;
    if |rs| > 1 {
      RunRead(cat, look, size, HEADER + |e.data|, 1, e, |rs|, rest);
    } else {
      assert rest == [] && Adopt(cat, e, Events(rest)) == e;
    }
  }

  // ------------------------------------------------- what is kept is a tree

  /** `kept` is `e` with whole subtrees left out: an event is only there with its parent. */
  ghost predicate Pruning(kept: Event, e: Event)
    decreases e
  {
    kept == e.(children := kept.children) && PruningAll(kept.children, e.children)
  }

  ghost predicate PruningAll(kept: seq<Event>, cs: seq<Event>)
    decreases cs
  {
    if cs == [] then kept == []
    else (kept != [] && Pruning(kept[0], cs[0]) && PruningAll(kept[1..], cs[1..])) || PruningAll(kept, cs[1..])
  }

  lemma {:induction false} PruneIsPruning(e: Event, room: nat)
    ensures Prune(e, room).Some? <==> HEADER + |e.data| <= room
    ensures Prune(e, room).Some? ==> Pruning(Prune(e, room).value, e) && Length(Prune(e, room).value) <= room
    decreases e, 1
  {
    if HEADER + |e.data| <= room {
      PruneAllIsPruning(e.children, room - HEADER - |e.data|);
    }
  }

  lemma {:induction false} PruneAllIsPruning(cs: seq<Event>, room: nat)
    ensures PruningAll(PruneAll(cs, room), cs)
    decreases cs, 0
  {
    if cs != [] {
      PruneIsPruning(cs[0], room);
      match Prune(cs[0], room)
      case None =>
        PruneAllIsPruning(cs[1..], room);
      case Some(c) =>
        var rest := PruneAll(cs[1..], room - Length(c));
        PruneAllIsPruning(cs[1..], room - Length(c));
        assert ([c] + rest)[1..] == rest;
    }
  }

  /** The children are taken in order, and one is left out exactly if its own
      record does not fit behind what has been kept of those before; the next ones
      are tried all the same. */
  lemma {:induction false} KeptOneByOne(cs: seq<Event>, c: Event, room: nat)
    ensures var kept := PruneAll(cs, room);
      var left := room - LengthAll(kept);
      PruneAll(cs + [c], room)
      == if HEADER + |c.data| > left then kept
         else kept + [c.(children := PruneAll(c.children, left - HEADER - |c.data|))]
    decreases |cs|
  {
    if cs == [] {
      assert [] + [c] == [c] && [c][1..] == [] && PruneAll([], room) == [];
    } else {
      var rest := cs[1..];
      assert (cs + [c])[0] == cs[0] && (cs + [c])[1..] == rest + [c];
      match Prune(cs[0], room)
      case None => KeptOneByOne(rest, c, room);
      case Some(first) =>
        var left := room - Length(first);
        KeptOneByOne(rest, c, left);
        assert ([first] + PruneAll(rest, left))[1..] == PruneAll(rest, left);
    }
  }

  /** Nothing is left out when there is room for the length of the event, and
      something is when there is not. */
  lemma {:induction false} KeepsAllIffRoom(e: Event, room: nat)
    ensures Prune(e, room) == Some(e) <==> Length(e) <= room
    decreases e, 1
  {
    if HEADER + |e.data| <= room {
      KeepsEveryChildIffRoom(e.children, room - HEADER - |e.data|);
      assert e.(children := e.children) == e;
    }
  }

  lemma {:induction false} KeepsEveryChildIffRoom(cs: seq<Event>, room: nat)
    ensures PruneAll(cs, room) == cs <==> LengthAll(cs) <= room
    decreases cs, 0
  {
    if cs != [] && LengthAll(cs) <= room {
      KeepsAllIffRoom(cs[0], room);
      KeepsEveryChildIffRoom(cs[1..], room - Length(cs[0]));
      assert cs == [cs[0]] + cs[1..];
    }
  }

  // ------------------------------------------------------------- valid trees

  lemma DepthFrame(cat: Catalogue, data: seq<Byte>, depth: Byte)
    requires |data| >= BASE
    ensures var d := WithDepth(data, depth);
      && SizeField(d) == SizeField(data) && TypeField(d) == TypeField(data)
      && MarkCollection(cat, d) == WithDepth(MarkCollection(cat, data), depth)
  {
    var d := WithDepth(data, depth);
    assert d[0..4] == data[0..4] && d[4..8] == data[4..8] && d[8..12] == data[8..12];
    assert d[..8] == data[..8] && d[12..] == data[12..][0 := depth];
  }

  lemma {:induction false} StampKeepsValid(cat: Catalogue, e: Event, depth: Byte)
    requires ValidEvent(cat, e)
    ensures ValidEvent(cat, Stamp(e, depth))
    decreases e, 1
  {
    DepthFrame(cat, e.data, depth);
    StampAllKeepsValid(cat, e.children, NextDepth(depth));
  }

  lemma {:induction false} StampAllKeepsValid(cat: Catalogue, cs: seq<Event>, depth: Byte)
    requires forall c <- cs :: ValidEvent(cat, c)
    ensures forall c <- StampAll(cs, depth) :: ValidEvent(cat, c)
    decreases cs, 0
  {
    if cs != [] {
      assert cs[0] in cs && forall c <- cs[1..] :: c in cs;
      StampKeepsValid(cat, cs[0], depth);
      StampAllKeepsValid(cat, cs[1..], depth);
    }
  }

  lemma {:induction false} PruneKeepsValid(cat: Catalogue, e: Event, room: nat)
    requires ValidEvent(cat, e)
    ensures Prune(e, room).Some? ==> ValidEvent(cat, Prune(e, room).value)
    decreases e, 1
  {
    if HEADER + |e.data| <= room {
      PruneAllKeepsValid(cat, e.children, room - HEADER - |e.data|);
    }
  }

  lemma {:induction false} PruneAllKeepsValid(cat: Catalogue, cs: seq<Event>, room: nat)
    requires forall c <- cs :: ValidEvent(cat, c)
    ensures forall c <- PruneAll(cs, room) :: ValidEvent(cat, c)
    ensures PruneAll(cs, room) != [] ==> cs != []
    decreases cs, 0
  {
    if cs != [] {
      assert cs[0] in cs && forall c <- cs[1..] :: c in cs;
      PruneKeepsValid(cat, cs[0], room);
      match Prune(cs[0], room)
      case None => PruneAllKeepsValid(cat, cs[1..], room);
      case Some(c) => PruneAllKeepsValid(cat, cs[1..], room - Length(c));
    }
  }

  /** appendChild keeps events well-formed. */
  lemma AppendKeepsValid(cat: Catalogue, parent: Event, child: Event)
    requires GoodCatalogue(cat) && ValidEvent(cat, parent) && ValidEvent(cat, child)
    ensures ValidEvent(cat, AppendChild(cat, parent, child))
  {
    MarkTwice(cat, parent.data);
  }

  lemma FieldWidth(s: seq<Byte>)
    ensures Number(s, 8) < Pow2(8 * |s|)
  {
    Pow2Values();
    NumberTake(s, 8, |s|);
    assert s[..|s|] == s;
    Parts(Number(s, 8), 8 * |s|);
  }

  lemma {:induction false} OrAgain(a: nat, b: nat)
    ensures Or(Or(a, b), b) == Or(a, b)
  {
    if a != 0 || b != 0 {
      OrAgain(a / 2, b / 2);
      assert Or(a, b) / 2 == Or(a / 2, b / 2);
    }
  }

  lemma MarkTwice(cat: Catalogue, data: seq<Byte>)
    requires |data| >= BASE && cat.collectionBit < 32
    ensures var d := MarkCollection(cat, data);
      SizeField(d) == SizeField(data) && TypeField(d) == TypeField(data) && MarkCollection(cat, d) == d
  {
    hide Number, Or, Bytes;
    var d := MarkCollection(cat, data);
    assert d[0..4] == data[0..4] && d[4..8] == data[4..8];
    MarkedOptions(cat, data);
    OrAgain(OptionsField(data), Pow2(cat.collectionBit));
    assert d[..8] == data[..8] && d[12..] == data[12..];
    assert d == d[..8] + d[8..12] + d[12..];
    MarkedBytes(cat, data);
  }

  lemma MarkedBytes(cat: Catalogue, data: seq<Byte>)
    requires |data| >= BASE
    ensures MarkCollection(cat, data)[8..12] == Bytes(Or(OptionsField(data), Pow2(cat.collectionBit)), 4)
  {
  }

  /** The options after marking. */
  lemma MarkedOptions(cat: Catalogue, data: seq<Byte>)
    requires |data| >= BASE && cat.collectionBit < 32
    ensures OptionsField(MarkCollection(cat, data)) == Or(OptionsField(data), Pow2(cat.collectionBit))
  {
    Pow2Monotone(cat.collectionBit + 1, 32);
    FieldWidth(data[8..12]);
    OrBound(OptionsField(data), Pow2(cat.collectionBit), 32);
    BytesExact(Or(OptionsField(data), Pow2(cat.collectionBit)), 4);
    assert MarkCollection(cat, data)[8..12] == Bytes(Or(OptionsField(data), Pow2(cat.collectionBit)), 4);
  }

  /** The first child sets the one option bit that says so in its parent's data;
      every other bit of the options, and every other byte, stays. */
  lemma FirstChildMarks(cat: Catalogue, parent: Event, child: Event)
    requires |parent.data| >= BASE && cat.collectionBit < 32 && parent.children == []
    ensures var was, now, bit := parent.data, AppendChild(cat, parent, child).data, cat.collectionBit;
      && |now| == |was| && now[..8] == was[..8] && now[12..] == was[12..]
      && Field(OptionsField(now), bit, 1) == 1
      && forall b: nat, n: nat :: b + n <= bit || b > bit ==> Field(OptionsField(now), b, n) == Field(OptionsField(was), b, n)
  {
    var o, bit := OptionsField(parent.data), cat.collectionBit;
    MarkedOptions(cat, parent.data);
    ShlPow2(bit);
    OrShifted(o, bit, 1, 1);
    FieldBound(o, bit, 1);
    assert Or(Field(o, bit, 1), 1) == 1 by {
      assert Pow2(1) == 2 && Or(0, 0) == 0;
    }
    ReplacedParts(o, bit, 1, 1);
    forall b: nat, n: nat | b + n <= bit || b > bit
      ensures Field(ReplaceField(o, bit, 1, 1), b, n) == Field(o, b, n)
    {
      ReplacedElsewhere(o, bit, 1, 1, b, n);
    }
  }

  // -------------------------------------------------------- the round trip

  /** The events of a tree in pre-order, each without its children. */
  function Leaves(e: Event): (es: seq<Event>)
    ensures |es| == Nodes(e)
    decreases e
  {
    [e.(children := [])] + LeavesAll(e.children)
  }

  function LeavesAll(cs: seq<Event>): (es: seq<Event>)
    ensures |es| == NodesAll(cs)
    decreases cs
  {
    if cs == [] then [] else Leaves(cs[0]) + LeavesAll(cs[1..])
  }

  /** The root with all its descendants, in pre-order, as its children. */
  function Flatten(e: Event): Event {
    e.(children := LeavesAll(e.children))
  }

  lemma EventsUnfold(rs: seq<Record>)
    requires rs != []
    ensures Events(rs) == [rs[0].event] + Events(rs[1..])
  {
  }

  lemma {:induction false} EventsConcat(a: seq<Record>, b: seq<Record>)
    ensures Events(a + b) == Events(a) + Events(b)
  {
    if a == [] {
      assert a + b == b;
    } else {
      EventsConcat(a[1..], b);
      assert (a + b)[0] == a[0] && (a + b)[1..] == a[1..] + b;
      hide Events;
      EventsUnfold(a + b);
      EventsUnfold(a);
      Assoc([a[0].event], Events(a[1..]), Events(b));
    }
  }

  lemma {:induction false} EventsOfRecords(e: Event, count: nat)
    ensures Events(Records(e, count)) == Leaves(e)
    decreases e, 1
  {
    var r, rest := Record(e.(children := []), count + Nodes(e)), RecordsAll(e.children, count);
    EventsOfAllRecords(e.children, count);
    assert ([r] + rest)[1..] == rest;
  }

  lemma {:induction false} EventsOfAllRecords(cs: seq<Event>, count: nat)
    ensures Events(RecordsAll(cs, count)) == LeavesAll(cs)
    decreases cs, 0
  {
    if cs != [] {
      EventsOfRecords(cs[0], count);
      EventsOfAllRecords(cs[1..], count + Nodes(cs[0]));
      EventsConcat(Records(cs[0], count), RecordsAll(cs[1..], count + Nodes(cs[0])));
    }
  }

  lemma {:induction false} RecordsValid(cat: Catalogue, e: Event, count: nat)
    requires ValidEvent(cat, e) && count + Nodes(e) < Pow2(32)
    ensures ValidRecords(cat, Records(e, count))
    decreases e, 1
  {
    AllRecordsValid(cat, e.children, count);
  }

  lemma {:induction false} AllRecordsValid(cat: Catalogue, cs: seq<Event>, count: nat)
    requires (forall c <- cs :: ValidEvent(cat, c)) && count + NodesAll(cs) < Pow2(32)
    ensures ValidRecords(cat, RecordsAll(cs, count))
    decreases cs, 0
  {
    hide ValidEvent, ValidRecord, ValidRecords, Records, Nodes;
    if cs == [] {
      NoRecordsValid(cat);
    } else {
      assert cs[0] in cs && forall c <- cs[1..] :: c in cs;
      RecordsValid(cat, cs[0], count);
      AllRecordsValid(cat, cs[1..], count + Nodes(cs[0]));
      BothValid(cat, Records(cs[0], count), RecordsAll(cs[1..], count + Nodes(cs[0])));
    }
  }

  lemma NoRecordsValid(cat: Catalogue)
    ensures ValidRecords(cat, [])
  {
  }

  lemma BothValid(cat: Catalogue, a: seq<Record>, b: seq<Record>)
    requires ValidRecords(cat, a) && ValidRecords(cat, b)
    ensures ValidRecords(cat, a + b)
  {
    hide ValidRecord;
  }

  lemma {:induction false} NodesBound(e: Event)
    ensures Nodes(e) <= Length(e)
    decreases e, 1
  {
    NodesAllBound(e.children);
  }

  lemma {:induction false} NodesAllBound(cs: seq<Event>)
    ensures NodesAll(cs) <= LengthAll(cs)
    decreases cs, 0
  {
    if cs != [] {
      NodesBound(cs[0]);
      NodesAllBound(cs[1..]);
    }
  }

  /** The records of a tree, whatever follows them in the buffer, are parsed
      into the root with all its descendants. */
  lemma TreeRead(cat: Catalogue, t: Event, bytes: seq<Byte>)
    requires GoodCatalogue(cat) && ValidEvent(cat, t)
    requires Length(t) <= |bytes| && Length(t) <= UINT32_MAX && bytes[..Length(t)] == Encode(Records(t, 0))
    ensures ParsedFrom(cat, bytes) == Parsed(Some(Flatten(t)))
  {
    var rs := Records(t, 0);
    Pow2Values();
    NodesBound(t);
    RecordsValid(cat, t, 0);
    EncodedLength(t, 0);
    WholeRunRead(cat, bytes, rs);
    EventsOfAllRecords(t.children, 0);
    assert rs[1..] == RecordsAll(t.children, 0);
    assert rs[0].event == t.(children := []);
    assert Adopt(cat, t.(children := []), LeavesAll(t.children)) == Flatten(t) by {
      assert LeavesAll(t.children) == [] ==> t.children == [];
    }
  }

  /** Writing under any length limit and reading back recovers exactly the
      events that were kept, in pre-order, whatever else the buffer holds. */
  lemma KeptEventsRead(cat: Catalogue, e: Event, parentDepth: Option<Byte>, room: nat, bytes: seq<Byte>)
    requires GoodCatalogue(cat) && ValidEvent(cat, e) && HEADER + |e.data| <= room
    requires var n := Length(Prune(e, room).value);
      && n <= |bytes| && n <= UINT32_MAX
      && bytes[..n] == Encode(Records(Stamp(Prune(e, room).value, DepthIn(e, parentDepth)), 0))
    ensures ParsedFrom(cat, bytes) == Parsed(Some(Flatten(Stamp(Prune(e, room).value, DepthIn(e, parentDepth)))))
  {
    var kept, depth := Prune(e, room).value, DepthIn(e, parentDepth);
    PruneKeepsValid(cat, e, room);
    StampKeepsValid(cat, kept, depth);
    StampKeepsShape(kept, depth);
    TreeRead(cat, Stamp(kept, depth), bytes);
  }

  /** With enough room a tree comes back as it was written, up to the depths,
      exactly when no child has children. */
  lemma SameTreeIffFlat(cat: Catalogue, e: Event, parentDepth: Option<Byte>, room: nat, bytes: seq<Byte>)
    requires GoodCatalogue(cat) && ValidEvent(cat, e) && Length(e) <= room && Length(e) <= UINT32_MAX
    requires Length(e) <= |bytes| && bytes[..Length(e)] == Encode(Records(Stamp(e, DepthIn(e, parentDepth)), 0))
    ensures ParsedFrom(cat, bytes) == Parsed(Some(Stamp(e, DepthIn(e, parentDepth))))
            <==> forall c <- e.children :: c.children == []
  {
    var t := Stamp(e, DepthIn(e, parentDepth));
    KeepsAllIffRoom(e, room);
    KeptEventsRead(cat, e, parentDepth, room, bytes);
    FlatIff(e.children, NextDepth(DepthIn(e, parentDepth)));
  }

  lemma {:induction false} ValidHasData(cat: Catalogue, e: Event)
    requires ValidEvent(cat, e)
    ensures HasData(e)
    decreases e
  {
    forall c | c in e.children ensures HasData(c) {
      ValidHasData(cat, c);
    }
  }

  /** readBytes into a buffer, and withBytes of the buffer: the root comes back
      with the events that were kept as its children, and with enough room the
      same tree exactly when no child has children. */
  method WriteThenRead(cat: Catalogue, e: Event, parentDepth: Option<Byte>, buf: array<Byte>, withLength: nat) returns (r: Outcome)
    requires GoodCatalogue(cat) && ValidEvent(cat, e)
    requires HEADER + |e.data| <= withLength <= buf.Length && withLength <= UINT32_MAX
    modifies buf
    ensures r == Parsed(Some(Flatten(Stamp(Prune(e, withLength).value, DepthIn(e, parentDepth)))))
    ensures Length(e) <= withLength ==>
              (r == Parsed(Some(Stamp(e, DepthIn(e, parentDepth)))) <==> forall c <- e.children :: c.children == [])
  {
    ValidHasData(cat, e);
    PruneRoot(e, withLength);
    var size, outCount := ReadBytes(e, parentDepth, buf, 0, withLength, 0);
    assert buf[..][..size] == buf[0..size];
    KeptEventsRead(cat, e, parentDepth, withLength, buf[..]);
    if Length(e) <= withLength {
      KeepsAllIffRoom(e, withLength);
      SameTreeIffFlat(cat, e, parentDepth, withLength, buf[..]);
    }
    r := WithBytes(cat, buf[..]);
  }

  lemma {:induction false} FlatIff(cs: seq<Event>, depth: Byte)
    ensures LeavesAll(StampAll(cs, depth)) == StampAll(cs, depth) <==> forall c <- cs :: c.children == []
    ensures NodesAll(cs) == |cs| <==> forall c <- cs :: c.children == []
    ensures NodesAll(cs) >= |cs|
    decreases |cs|
  {
    StampKeepsShapes(cs, depth);
    if cs != [] {
      var c, rest := cs[0], cs[1..];
      FlatIff(rest, depth);
      ChildlessIff(c.children);
      assert c in cs && (forall x <- rest :: x in cs) && forall x <- cs :: x == c || x in rest;
      if forall x <- cs :: x.children == [] {
        assert StampAll(c.children, NextDepth(depth)) == [];
        assert Leaves(Stamp(c, depth)) == [Stamp(c, depth)];
      }
    }
  }

  lemma ChildlessIff(cs: seq<Event>)
    ensures NodesAll(cs) == 0 <==> cs == []
  {
  }

  // ----------------------------------------------------------- event counts

  /** The number of events in the subtree of every event, in pre-order. */
  function Sizes(e: Event): (r: seq<nat>)
    ensures |r| == Nodes(e)
    decreases e
  {
    [Nodes(e)] + SizesAll(e.children)
  }

  function SizesAll(cs: seq<Event>): (r: seq<nat>)
    ensures |r| == NodesAll(cs)
    decreases cs
  {
    if cs == [] then [] else Sizes(cs[0]) + SizesAll(cs[1..])
  }

  /** Record `i` counts all before it and all of its own subtree, but for its
      ancestors, which are finished later. */
  ghost predicate CountsAre(rs: seq<Record>, sizes: seq<nat>, levels: seq<nat>, count: int)
    requires |rs| == |sizes| == |levels|
  {
    forall i :: 0 <= i < |rs| ==> rs[i].eventCount == count + i + sizes[i] - levels[i]
  }

  /** Every record's event count is its event's place in post-order; the root's
      is the number of all records. */
  lemma {:induction false} CountOfEveryRecord(e: Event, count: nat, level: nat)
    ensures CountsAre(Records(e, count), Sizes(e), Levels(e, level), count + level)
    decreases e, 1
  {
    CountOfAllRecords(e.children, count, level + 1);
  }

  lemma {:induction false} CountOfAllRecords(cs: seq<Event>, count: nat, level: nat)
    ensures CountsAre(RecordsAll(cs, count), SizesAll(cs), LevelsAll(cs, level), count + level)
    decreases cs, 0
  {
    if cs != [] {
      CountOfEveryRecord(cs[0], count, level);
      CountOfAllRecords(cs[1..], count + Nodes(cs[0]), level);
    }
  }

  // ------------------------------------------------------------------ depth

  /** The distance from the root of every event, in pre-order. */
  function Levels(e: Event, level: nat): (r: seq<nat>)
    ensures |r| == Nodes(e)
    decreases e
  {
    [level] + LevelsAll(e.children, level + 1)
  }

  function LevelsAll(cs: seq<Event>, level: nat): (r: seq<nat>)
    ensures |r| == NodesAll(cs)
    decreases cs
  {
    if cs == [] then [] else Levels(cs[0], level) + LevelsAll(cs[1..], level)
  }

  /** Byte `i` of `depths`, counted from the root's, modulo 256. */
  ghost predicate DepthsAre(es: seq<Event>, levels: seq<nat>)
    requires |es| == |levels|
  {
    forall i :: 0 <= i < |es| ==> |es[i].data| >= BASE && es[i].data[12] == levels[i] % 256
  }

  /** Every record carries the depth of its event below the root, modulo 256. */
  lemma {:induction false} DepthOfEveryRecord(e: Event, level: nat)
    requires HasData(e)
    ensures Nodes(Stamp(e, level % 256)) == Nodes(e) && DepthsAre(Leaves(Stamp(e, level % 256)), Levels(e, level))
    decreases e, 1
  {
    var d := level % 256;
    assert NextDepth(d) == (level + 1) % 256;
    StampKeepsShape(e, d);
    StampKeepsShapes(e.children, NextDepth(d));
    DepthOfAllRecords(e.children, level + 1);
    DepthsPush(Stamp(e, d).(children := []), level, LeavesAll(StampAll(e.children, NextDepth(d))),
               LevelsAll(e.children, level + 1));
  }

  lemma DepthsPush(root: Event, level: nat, es: seq<Event>, levels: seq<nat>)
    requires |es| == |levels| && DepthsAre(es, levels) && |root.data| >= BASE && root.data[12] == level % 256
    ensures DepthsAre([root] + es, [level] + levels)
  {
  }

  lemma {:induction false} DepthOfAllRecords(cs: seq<Event>, level: nat)
    requires forall c <- cs :: HasData(c)
    ensures NodesAll(StampAll(cs, level % 256)) == NodesAll(cs)
    ensures DepthsAre(LeavesAll(StampAll(cs, level % 256)), LevelsAll(cs, level))
    decreases cs, 0
  {
    StampKeepsShapes(cs, level % 256);
    if cs != [] {
      assert cs[0] in cs && forall c <- cs[1..] :: c in cs;
      DepthOfEveryRecord(cs[0], level);
      DepthOfAllRecords(cs[1..], level);
      assert StampAll(cs, level % 256)[1..] == StampAll(cs[1..], level % 256);
    }
  }
}
