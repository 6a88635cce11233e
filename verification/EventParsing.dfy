/**
 What withBytes makes of any buffer: the records at its start, up to the number
 that the first one announces or to the first place that holds no record.
 */
module EventParsing {
  import opened Numbers
  import opened EventSerialization
  import opened Options

  // ------------------------------------------------------- places in a buffer

  /** Where the data of a record starts: after the header and its attributes. */
  function DataAt(bytes: seq<Byte>, o: nat): nat
    requires o + HEADER < |bytes|
  {
    o + HEADER + Number(bytes[o + 20..o + 24], 8)
  }

  /** The end of the attributes with their length counted a second time, in 32
      bits: from there on withBytes asks for as many bytes as the data takes. */
  function CheckedFrom(bytes: seq<Byte>, o: nat): nat
    requires o + HEADER < |bytes|
  {
    (DataAt(bytes, o) + Number(bytes[o + 20..o + 24], 8)) % 0x1_0000_0000
  }

  /** The header and the fields of the data structure that every type has. */
  predicate HasHeads(bytes: seq<Byte>, o: nat) {
    o + HEADER < |bytes| && DataAt(bytes, o) <= UINT32_MAX && DataAt(bytes, o) + BASE <= |bytes|
  }

  function SizeAt(bytes: seq<Byte>, o: nat): nat
    requires HasHeads(bytes, o)
  {
    Number(bytes[DataAt(bytes, o)..DataAt(bytes, o) + 4], 8)
  }

  function KindAt(bytes: seq<Byte>, o: nat): nat
    requires HasHeads(bytes, o)
  {
    Number(bytes[DataAt(bytes, o) + 4..DataAt(bytes, o) + 8], 8)
  }

  /** No record: the header or the common fields do not fit, the type is unknown,
      the size is too small for the type, or the data runs past the buffer. */
  ghost predicate NoRecordAt(cat: Catalogue, bytes: seq<Byte>, o: nat) {
    || !HasHeads(bytes, o)
    || KindAt(bytes, o) >= cat.typeCount
    || SizeAt(bytes, o) < cat.sizeOf(KindAt(bytes, o))
    || SizeAt(bytes, o) == UINT32_MAX
    || CheckedFrom(bytes, o) <= |bytes| < CheckedFrom(bytes, o) + SizeAt(bytes, o)
  }

  /** The data runs past the buffer, and the check overlooks it. */
  ghost predicate OverrunAt(cat: Catalogue, bytes: seq<Byte>, o: nat) {
    !NoRecordAt(cat, bytes, o) && DataAt(bytes, o) + SizeAt(bytes, o) > |bytes|
  }

  /** Record `r` is at `o`, and the next place is `next`. */
  ghost predicate RecordAt(cat: Catalogue, bytes: seq<Byte>, o: nat, r: Record, next: nat) {
    && !NoRecordAt(cat, bytes, o) && next == DataAt(bytes, o) + SizeAt(bytes, o) <= |bytes|
    && r.event.timeStamp == Number(bytes[o..o + 8], 8) && r.event.senderID == Number(bytes[o + 8..o + 16], 8)
    && r.event.options == Number(bytes[o + 16..o + 20], 8) && r.eventCount == Number(bytes[o + 24..o + 28], 8)
    && r.event.data == bytes[DataAt(bytes, o)..next] && r.event.children == []
  }

  /** Records `rs`, one after the other, lead from `o` to `end`. */
  ghost predicate RunAt(cat: Catalogue, bytes: seq<Byte>, o: nat, rs: seq<Record>, end: nat)
    decreases |rs|
  {
    if rs == [] then o == end
    else exists next: nat :: RecordAt(cat, bytes, o, rs[0], next) && RunAt(cat, bytes, next, rs[1..], end)
  }

  /** A record with attributes is read without them, its data behind them;
      but only if, after the data, there is room for the attributes once more, or
      if they are longer than all the rest of the buffer behind them. */
  lemma AttributesSkipped(cat: Catalogue, bytes: seq<Byte>, o: nat, r: Record, attributes: seq<Byte>)
    requires GoodCatalogue(cat) && ValidRecord(cat, r)
    requires var at := o + HEADER + |attributes|; at + |r.event.data| <= |bytes| && at + |attributes| <= UINT32_MAX
    requires bytes[o..o + HEADER] == HeaderBytes(r, |attributes|)
    requires var at := o + HEADER + |attributes|; bytes[at..at + |r.event.data|] == r.event.data
    ensures var at, n, k := o + HEADER + |attributes|, |r.event.data|, |attributes|;
      && (RecordAt(cat, bytes, o, r, at + n) <==> at + n + k <= |bytes| || at + k > |bytes|)
      && (NoRecordAt(cat, bytes, o) <==> !RecordAt(cat, bytes, o, r, at + n))
  {
    hide NoRecordAt, HeaderBytes, Number, Pow2;
    Pow2Values();
    HeadsAre(cat, bytes, o, r, attributes);
    AdmittedIff(cat, bytes, o, r, |attributes|);
  }

  lemma HeadsAre(cat: Catalogue, bytes: seq<Byte>, o: nat, r: Record, attributes: seq<Byte>)
    requires ValidData(cat, r.event.data) && |attributes| < Pow2(32)
    requires r.event.timeStamp < Pow2(64) && r.event.senderID < Pow2(64) && r.event.options < Pow2(32) && r.eventCount < Pow2(32)
    requires var at := o + HEADER + |attributes|; at + |r.event.data| <= |bytes| && at <= UINT32_MAX
    requires bytes[o..o + HEADER] == HeaderBytes(r, |attributes|)
    requires var at := o + HEADER + |attributes|; bytes[at..at + |r.event.data|] == r.event.data
    ensures HasHeads(bytes, o) && DataAt(bytes, o) == o + HEADER + |attributes|
    ensures SizeAt(bytes, o) == |r.event.data| && KindAt(bytes, o) == TypeField(r.event.data)
    ensures r.event.timeStamp == Number(bytes[o..o + 8], 8) && r.event.senderID == Number(bytes[o + 8..o + 16], 8)
    ensures r.event.options == Number(bytes[o + 16..o + 20], 8) && r.eventCount == Number(bytes[o + 24..o + 28], 8)
  {
    hide HeaderBytes, Number, Pow2;
    var at, data := o + HEADER + |attributes|, r.event.data;
    HeaderRead(bytes, o, r, |attributes|);
    DataRead(bytes, at, data);
  }

  lemma AdmittedIff(cat: Catalogue, bytes: seq<Byte>, o: nat, r: Record, k: nat)
    requires HasHeads(bytes, o) && DataAt(bytes, o) == o + HEADER + k && o + HEADER + 2 * k <= UINT32_MAX
    requires ValidData(cat, r.event.data)
    requires SizeAt(bytes, o) == |r.event.data| && KindAt(bytes, o) == TypeField(r.event.data)
    requires o + HEADER + k + |r.event.data| <= |bytes|
    ensures var at, n := o + HEADER + k, |r.event.data|;
      NoRecordAt(cat, bytes, o) <==> at + k <= |bytes| < at + k + n
  {
  }

  // ------------------------------------------------------- one turn of the loop

  lemma FoundAt(cat: Catalogue, bytes: seq<Byte>, o: nat)
    requires GoodCatalogue(cat)
    ensures Look(cat, bytes, o) == Stop <==> NoRecordAt(cat, bytes, o)
    ensures Look(cat, bytes, o) == Outside <==> OverrunAt(cat, bytes, o)
    ensures o > UINT32_MAX || o >= |bytes| ==> NoRecordAt(cat, bytes, o)
  {
    if HasHeads(bytes, o) {
      assert KindAt(bytes, o) == TypeAt(bytes, DataAt(bytes, o)) && SizeAt(bytes, o) == Get(bytes, DataAt(bytes, o), 4);
      FieldWidth(bytes[DataAt(bytes, o)..DataAt(bytes, o) + 4]);
      Pow2Values();
    }
  }

  lemma RecordIsFound(cat: Catalogue, bytes: seq<Byte>, o: nat, r: Record, next: nat)
    requires GoodCatalogue(cat) && RecordAt(cat, bytes, o, r, next)
    ensures Look(cat, bytes, o) == Found(r.event, r.eventCount, next - |r.event.data|)
    ensures o < |bytes| && o + HEADER + BASE <= next && o + HEADER <= next - |r.event.data| <= UINT32_MAX && |r.event.data| >= BASE
  {
    FoundAt(cat, bytes, o);
  }

  /** No record starts at a place that 32 bits do not reach. */
  lemma RunBeyond(cat: Catalogue, bytes: seq<Byte>, o: nat, rs: seq<Record>, end: nat)
    requires RunAt(cat, bytes, o, rs, end) && o > UINT32_MAX
    ensures rs == [] && NoRecordAt(cat, bytes, end) && !OverrunAt(cat, bytes, end)
  {
    assert NoRecordAt(cat, bytes, o);
  }

  // ---------------------------------------------------------- the whole buffer

  /** How many of the records of a run are read: not more than the first one
      announces; zero announces no end. */
  function ReadOf(rs: seq<Record>): (m: nat)
    ensures m <= |rs| && (rs != [] ==> m > 0)
  {
    if rs != [] && 0 < rs[0].eventCount <= |rs| then rs[0].eventCount else |rs|
  }

  /** The loop with `index` records already read into `parent`. */
  lemma {:induction false} RestRead(cat: Catalogue, bytes: seq<Byte>, o: nat, rs: seq<Record>, end: nat,
                                    index: nat, parent: Event, count: nat)
    requires GoodCatalogue(cat) && Forward(LookIn(cat, bytes), |bytes|)
    requires RunAt(cat, bytes, o, rs, end) && |parent.data| >= BASE
    requires 0 < index <= o && (0 < count ==> index < count)
    ensures var s := Scan(cat, LookIn(cat, bytes), |bytes|, o, index, Some(parent), count);
      if 0 < count <= index + |rs| then s == Parsed(Some(Adopt(cat, parent, Events(rs[..count - index]))))
      else
        && (NoRecordAt(cat, bytes, end) ==> s == Parsed(Some(Adopt(cat, parent, Events(rs)))))
        && (OverrunAt(cat, bytes, end) ==> s == Undetermined)
    decreases |rs|
  {
    hide NoRecordAt, OverrunAt, RecordAt, Look, GoodCatalogue, Forward, MarkCollection;
    if rs == [] {
      FoundAt(cat, bytes, o);
    } else {
      var r, rest := rs[0], rs[1..];
      var next: nat :| RecordAt(cat, bytes, o, r, next) && RunAt(cat, bytes, next, rest, end);
      RecordIsFound(cat, bytes, o, r, next);
      var root, m := AppendChild(cat, parent, r.event), count - index;
      if 0 < count <= index + |rs| {
        assert rs[..m] == [r] + rest[..m - 1];
        AdoptNext(cat, parent, r.event, Events(rest[..m - 1]));
      } else {
        AdoptNext(cat, parent, r.event, Events(rest));
      }
      if count != index + 1 {
        if next <= UINT32_MAX {
          RestRead(cat, bytes, next, rest, end, index + 1, root, count);
        } else {
          RunBeyond(cat, bytes, next, rest, end);
        }
      }
    }
  }

  /** Any buffer that starts with records: they are read up to the announced
      number, or up to the first place that is no record, and the first one gets
      the others as its children. A buffer that does not start with a record
      yields no event. */
  lemma EarlyEnd(cat: Catalogue, bytes: seq<Byte>, rs: seq<Record>, end: nat)
    requires GoodCatalogue(cat) && RunAt(cat, bytes, 0, rs, end)
    requires NoRecordAt(cat, bytes, end) || ReadOf(rs) < |rs| || (rs != [] && rs[0].eventCount == |rs|)
    ensures rs == [] ==> ParsedFrom(cat, bytes) == Parsed(None)
    ensures rs != [] ==> |rs[0].event.data| >= BASE
                         && ParsedFrom(cat, bytes) == Parsed(Some(Adopt(cat, rs[0].event, Events(rs[1..ReadOf(rs)]))))
  {
    FirstTurn(cat, bytes, rs, end);
    assert rs != [] ==> rs[1..|rs|] == rs[1..];
  }

  /** Where the check overlooks that the data runs past the buffer, the outcome
      depends on what lies behind it. */
  lemma OverrunDecides(cat: Catalogue, bytes: seq<Byte>, rs: seq<Record>, end: nat)
    requires GoodCatalogue(cat) && RunAt(cat, bytes, 0, rs, end) && OverrunAt(cat, bytes, end)
    requires rs != [] ==> !(0 < rs[0].eventCount <= |rs|)
    ensures ParsedFrom(cat, bytes) == Undetermined
  {
    FirstTurn(cat, bytes, rs, end);
  }

  lemma FirstTurn(cat: Catalogue, bytes: seq<Byte>, rs: seq<Record>, end: nat)
    requires GoodCatalogue(cat) && RunAt(cat, bytes, 0, rs, end)
    ensures var s := ParsedFrom(cat, bytes);
      if rs == [] then (NoRecordAt(cat, bytes, 0) ==> s == Parsed(None)) && (OverrunAt(cat, bytes, 0) ==> s == Undetermined)
      else
        && |rs[0].event.data| >= BASE
        && if 0 < rs[0].eventCount <= |rs| then s == Parsed(Some(Adopt(cat, rs[0].event, Events(rs[1..rs[0].eventCount]))))
           else
             && (NoRecordAt(cat, bytes, end) ==> s == Parsed(Some(Adopt(cat, rs[0].event, Events(rs[1..])))))
             && (OverrunAt(cat, bytes, end) ==> s == Undetermined)
  {
    hide NoRecordAt, OverrunAt, RecordAt, Look, GoodCatalogue, Forward;
    LooksForward(cat, bytes);
    if rs == [] {
      FoundAt(cat, bytes, 0);
    } else {
      var r, rest := rs[0], rs[1..];
      var next: nat :| RecordAt(cat, bytes, 0, r, next) && RunAt(cat, bytes, next, rest, end);
      RecordIsFound(cat, bytes, 0, r, next);
      if 0 < r.eventCount <= |rs| {
        assert rest[..r.eventCount - 1] == rs[1..r.eventCount];
      }
      if r.eventCount != 1 {
        if next <= UINT32_MAX {
          RestRead(cat, bytes, next, rest, end, 1, r.event, r.eventCount);
        } else {
          RunBeyond(cat, bytes, next, rest, end);
        }
      }
    }
  }
}
