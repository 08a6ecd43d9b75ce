/** The block format of the IP database (records.go): a length-prefixed record
    list, read by a parser that never looks past what it needs. */
module IpRecords {
  import opened GoBytes

  const MAX_RECORDS := 1_000_000
  const MAX_STRING := 0x40_0000

  /** A record; `start` and `end` are 16-byte addresses. */
  datatype Record = Record(family: byte, start: Bytes, end: Bytes, sourceId: nat, category: Bytes,
                           confidence: byte, asn: nat, org: Bytes, country: Bytes, detail: Bytes)

  datatype DecodeError = UnexpectedEnd | TooManyRecords | StringTooLarge

  // ------------------------------------------------------- little endian

  function LE(b: Bytes): nat { if |b| == 0 then 0 else b[0] + 256 * LE(b[1..]) }

  function ToLE(n: nat, width: nat): (b: Bytes)
    ensures |b| == width
  {
    if width == 0 then [] else [n % 256] + ToLE(n / 256, width - 1)
  }

  lemma {:induction false} LEToLE(n: nat, width: nat)
    requires n < Pow2(8 * width)
    ensures LE(ToLE(n, width)) == n
  {
    if width > 0 {
      WithoutLastByte(n, width);
      hide Pow2;
      LEToLE(n / 256, width - 1);
      assert ToLE(n, width)[1..] == ToLE(n / 256, width - 1);
    }
  }

  // --------------------------------------------------------------- layout

  function StringBytes(s: Bytes): Bytes { ToLE(|s|, 4) + s }

  function RecordBytes(r: Record): Bytes {
    [r.family] + (r.start + (r.end + (ToLE(r.sourceId, 2) + (StringBytes(r.category)
      + ([r.confidence] + (ToLE(r.asn, 4) + (StringBytes(r.org) + (StringBytes(r.country) + StringBytes(r.detail)))))))))
  }

  function RecordsBytes(rs: seq<Record>): Bytes {
    if |rs| == 0 then [] else RecordBytes(rs[0]) + RecordsBytes(rs[1..])
  }

  /** A block: the record count, then the records. */
  function BlockBytes(rs: seq<Record>): Bytes { ToLE(|rs|, 4) + RecordsBytes(rs) }

  predicate Storable(r: Record) {
    && |r.start| == 16 && |r.end| == 16 && r.sourceId < 0x1_0000 && r.asn < 0x1_0000_0000
    && |r.category| <= MAX_STRING && |r.org| <= MAX_STRING && |r.country| <= MAX_STRING && |r.detail| <= MAX_STRING
  }

  // --------------------------------------------------------------- parsers

  /** `io.ReadFull` of `n` bytes: what was read and the rest. */
  function ReadBytes(b: Bytes, n: nat): Result<(Bytes, Bytes), DecodeError> {
    if |b| < n then Err(UnexpectedEnd) else Ok((b[..n], b[n..]))
  }

  function ReadString(b: Bytes): Result<(Bytes, Bytes), DecodeError> {
    var (len, rest) :- ReadBytes(b, 4);
    if LE(len) > MAX_STRING then Err(StringTooLarge) else ReadBytes(rest, LE(len))
  }

  function ReadRecord(b: Bytes): Result<(Record, Bytes), DecodeError> {
    var (family, b1) :- ReadBytes(b, 1);
    var (start, b2) :- ReadBytes(b1, 16);
    var (end, b3) :- ReadBytes(b2, 16);
    var (src, b4) :- ReadBytes(b3, 2);
    var (category, b5) :- ReadString(b4);
    var (conf, b6) :- ReadBytes(b5, 1);
    var (asn, b7) :- ReadBytes(b6, 4);
    var (org, b8) :- ReadString(b7);
    var (country, b9) :- ReadString(b8);
    var (detail, b10) :- ReadString(b9);
    Ok((Record(family[0], start, end, LE(src), category, conf[0], LE(asn), org, country, detail), b10))
  }

  function ReadRecords(b: Bytes, count: nat): Result<(seq<Record>, Bytes), DecodeError> {
    if count == 0 then Ok(([], b))
    else
      var (r, rest) :- ReadRecord(b);
      var (rs, last) :- ReadRecords(rest, count - 1);
      Ok(([r] + rs, last))
  }

  function ReadBlock(b: Bytes): Result<(seq<Record>, Bytes), DecodeError> {
    var (count, rest) :- ReadBytes(b, 4);
    if LE(count) > MAX_RECORDS then Err(TooManyRecords) else ReadRecords(rest, LE(count))
  }

  /** `decodeRecords`: bytes after the last record are ignored. */
  function DecodeRecords(b: Bytes): Result<seq<Record>, DecodeError> {
    var (rs, _) :- ReadBlock(b);
    Ok(rs)
  }

  // ------------------------------------------------------------ the reader

  /** `bytes.Reader`: a position that advances through a buffer. */
  class Reader {
    const data: Bytes
    var pos: nat

    ghost predicate Valid()
      reads this
    {
      pos <= |data|
    }

    ghost function Rest(): Bytes
      reads this
      requires Valid()
    {
      data[pos..]
    }

    constructor (data: Bytes)
      ensures Valid() && Rest() == data
    {
      this.data, pos := data, 0;
    }

    /** `io.ReadFull`; on error the whole read has failed. */
    method Read(n: nat) returns (r: Result<Bytes, DecodeError>)
      requires Valid()
      modifies this
      ensures Valid()
      ensures var want := ReadBytes(old(Rest()), n);
              if want.Err? then r == Err(want.error) else r == Ok(want.value.0) && Rest() == want.value.1
      ensures r.Ok? ==> |r.value| == n
    {
      if |data| - pos < n {
        return Err(UnexpectedEnd);
      }
      assert data[pos..][..n] == data[pos..pos + n] && data[pos..][n..] == data[pos + n..];
      r := Ok(data[pos..pos + n]);
      pos := pos + n;
    }

    method ReadStr() returns (r: Result<Bytes, DecodeError>)
      requires Valid()
      modifies this
      ensures Valid()
      ensures var want := ReadString(old(Rest()));
              if want.Err? then r == Err(want.error) else r == Ok(want.value.0) && Rest() == want.value.1
    {
      var len :- Read(4);
      if LE(len) > MAX_STRING {
        return Err(StringTooLarge);
      }
      r := Read(LE(len));
    }

    method ReadRec() returns (r: Result<Record, DecodeError>)
      requires Valid()
      modifies this
      ensures Valid()
      ensures var want := ReadRecord(old(Rest()));
              if want.Err? then r == Err(want.error) else r == Ok(want.value.0) && Rest() == want.value.1
    {
      hide ReadBytes, ReadString, LE;
      var family :- Read(1);
      var start :- Read(16);
      var end :- Read(16);
      var src :- Read(2);
      var category :- ReadStr();
      var conf :- Read(1);
      var asn :- Read(4);
      var org :- ReadStr();
      var country :- ReadStr();
      var detail :- ReadStr();
      return Ok(Record(family[0], start, end, LE(src), category, conf[0], LE(asn), org, country, detail));
    }
  }

  method DecodeRecordList(b: Bytes) returns (r: Result<seq<Record>, DecodeError>)
    ensures r == DecodeRecords(b)
  {
    hide ReadRecord, LE;
    var reader := new Reader(b);
    var len :- reader.Read(4);
    var count := LE(len);
    if count > MAX_RECORDS {
      return Err(TooManyRecords);
    }
    ghost var all := ReadRecords(reader.Rest(), count);
    var out: seq<Record> := [];
    assert forall rest: seq<Record> {:trigger out + rest} :: out + rest == rest;
    for i := 0 to count
      invariant reader.Valid() && fresh(reader)
      invariant var left := ReadRecords(reader.Rest(), count - i);
                if left.Err? then all == Err(left.error) else all == Ok((out + left.value.0, left.value.1))
    {
      var rec :- reader.ReadRec();
      assert forall rest: seq<Record> {:trigger out + [rec] + rest} :: out + ([rec] + rest) == out + [rec] + rest;
      out := out + [rec];
    }
    assert out + [] == out;
    return Ok(out);
  }

  // ------------------------------------------------------------ round trip

  lemma ReadBack(s: Bytes, rest: Bytes)
    ensures ReadBytes(s + rest, |s|) == Ok((s, rest))
  {
    assert (s + rest)[..|s|] == s && (s + rest)[|s|..] == rest;
  }

  lemma ReadBackString(s: Bytes, rest: Bytes)
    requires |s| <= MAX_STRING
    ensures ReadString(StringBytes(s) + rest) == Ok((s, rest))
  {
    Pow2Values();
    LEToLE(|s|, 4);
    hide ReadBytes, LE, ToLE;
    assert StringBytes(s) + rest == ToLE(|s|, 4) + (s + rest);
    ReadBack(ToLE(|s|, 4), s + rest);
    ReadBack(s, rest);
  }

  lemma ReadBackRecord(r: Record, rest: Bytes)
    requires Storable(r)
    ensures ReadRecord(RecordBytes(r) + rest) == Ok((r, rest))
  {
    hide ReadBytes, ReadString, LE, ToLE, StringBytes;
    var t10 := rest;
    var t9 := StringBytes(r.detail) + t10;
    var t8 := StringBytes(r.country) + t9;
    var t7 := StringBytes(r.org) + t8;
    var t6 := ToLE(r.asn, 4) + t7;
    var t5 := [r.confidence] + t6;
    var t4 := StringBytes(r.category) + t5;
    var t3 := ToLE(r.sourceId, 2) + t4;
    var t2 := r.end + t3;
    var t1 := r.start + t2;
    assert RecordBytes(r) + rest == [r.family] + t1;
    ReadBack([r.family], t1);
    ReadBack(r.start, t2);
    ReadBack(r.end, t3);
    ReadBack(ToLE(r.sourceId, 2), t4);
    ReadBackString(r.category, t5);
    ReadBack([r.confidence], t6);
    ReadBack(ToLE(r.asn, 4), t7);
    ReadBackString(r.org, t8);
    ReadBackString(r.country, t9);
    ReadBackString(r.detail, t10);
    Pow2Values();
    LEToLE(r.sourceId, 2);
    LEToLE(r.asn, 4);
  }

  lemma {:induction false} ReadBackRecords(rs: seq<Record>, rest: Bytes)
    requires forall i :: 0 <= i < |rs| ==> Storable(rs[i])
    ensures ReadRecords(RecordsBytes(rs) + rest, |rs|) == Ok((rs, rest))
  {
    hide ReadRecord, RecordBytes, Storable;
    if |rs| == 0 {
      assert RecordsBytes(rs) + rest == rest;
    } else {
      assert RecordsBytes(rs) + rest == RecordBytes(rs[0]) + (RecordsBytes(rs[1..]) + rest);
      ReadBackRecord(rs[0], RecordsBytes(rs[1..]) + rest);
      ReadBackRecords(rs[1..], rest);
      assert [rs[0]] + rs[1..] == rs;
    }
  }

  lemma ReadBackBlock(rs: seq<Record>, rest: Bytes)
    requires |rs| <= MAX_RECORDS && forall i :: 0 <= i < |rs| ==> Storable(rs[i])
    ensures ReadBlock(BlockBytes(rs) + rest) == Ok((rs, rest))
  {
    Pow2Values();
    LEToLE(|rs|, 4);
    hide ReadBytes, LE, ToLE, Storable, RecordsBytes, ReadRecords;
    assert BlockBytes(rs) + rest == ToLE(|rs|, 4) + (RecordsBytes(rs) + rest);
    ReadBack(ToLE(|rs|, 4), RecordsBytes(rs) + rest);
    ReadBackRecords(rs, rest);
  }

  /** Decoding undoes the layout, whatever bytes follow the block. */
  lemma DecodeEncoded(rs: seq<Record>, rest: Bytes)
    requires |rs| <= MAX_RECORDS && forall i :: 0 <= i < |rs| ==> Storable(rs[i])
    ensures DecodeRecords(BlockBytes(rs) + rest) == Ok(rs)
  {
    ReadBackBlock(rs, rest);
  }

  // ------------------------------------------------- what a read looks at

  /** More input changes no successful read: it is left over. */
  lemma MoreBytes(b: Bytes, n: nat, more: Bytes)
    requires ReadBytes(b, n).Ok?
    ensures ReadBytes(b + more, n) == Ok((ReadBytes(b, n).value.0, ReadBytes(b, n).value.1 + more))
  {
    assert (b + more)[..n] == b[..n] && (b + more)[n..] == b[n..] + more;
  }

  lemma MoreString(b: Bytes, more: Bytes)
    requires ReadString(b).Ok?
    ensures ReadString(b + more) == Ok((ReadString(b).value.0, ReadString(b).value.1 + more))
    ensures |b| >= |ReadString(b).value.1| + 4
  {
    hide LE;
    MoreBytes(b, 4, more);
    var (len, rest) := ReadBytes(b, 4).value;
    MoreBytes(rest, LE(len), more);
  }

  lemma MoreRecord(b: Bytes, more: Bytes)
    requires ReadRecord(b).Ok?
    ensures ReadRecord(b + more) == Ok((ReadRecord(b).value.0, ReadRecord(b).value.1 + more))
    ensures |b| >= |ReadRecord(b).value.1| + 56
  {
    assert forall s: Bytes, n: nat :: ReadBytes(s, n).Ok? ==> |s| == |ReadBytes(s, n).value.1| + n;
    hide ReadBytes, ReadString, LE;
    MoreBytes(b, 1, more);
    var b1 := ReadBytes(b, 1).value.1;
    MoreBytes(b1, 16, more);
    var b2 := ReadBytes(b1, 16).value.1;
    MoreBytes(b2, 16, more);
    var b3 := ReadBytes(b2, 16).value.1;
    MoreBytes(b3, 2, more);
    var b4 := ReadBytes(b3, 2).value.1;
    MoreString(b4, more);
    var b5 := ReadString(b4).value.1;
    MoreBytes(b5, 1, more);
    var b6 := ReadBytes(b5, 1).value.1;
    MoreBytes(b6, 4, more);
    var b7 := ReadBytes(b6, 4).value.1;
    MoreString(b7, more);
    var b8 := ReadString(b7).value.1;
    MoreString(b8, more);
    var b9 := ReadString(b8).value.1;
    MoreString(b9, more);
  }

  lemma {:induction false} MoreRecords(b: Bytes, count: nat, more: Bytes)
    requires ReadRecords(b, count).Ok?
    ensures ReadRecords(b + more, count) == Ok((ReadRecords(b, count).value.0, ReadRecords(b, count).value.1 + more))
    ensures |ReadRecords(b, count).value.0| == count
    ensures |b| >= |ReadRecords(b, count).value.1| + 56 * count
    decreases count
  {
    hide ReadRecord;
    if count > 0 {
      MoreRecord(b, more);
      MoreRecords(ReadRecord(b).value.1, count - 1, more);
    }
  }

  lemma MoreBlock(b: Bytes, more: Bytes)
    requires ReadBlock(b).Ok?
    ensures ReadBlock(b + more) == Ok((ReadBlock(b).value.0, ReadBlock(b).value.1 + more))
    ensures |b| >= |ReadBlock(b).value.1| + 4 + 56 * |ReadBlock(b).value.0|
  {
    hide ReadRecords, LE;
    MoreBytes(b, 4, more);
    var (count, rest) := ReadBytes(b, 4).value;
    MoreRecords(rest, LE(count), more);
  }

  /** A count of `n` is believed only of an input of at least 4 + 56n bytes. */
  lemma DecodedNeedsBytes(b: Bytes)
    requires DecodeRecords(b).Ok?
    ensures |b| >= 4 + 56 * |DecodeRecords(b).value|
  {
    MoreBlock(b, []);
  }

  /** Every strict prefix of an encoding is rejected. */
  lemma PrefixRejected(rs: seq<Record>, n: nat)
    requires |rs| <= MAX_RECORDS && forall i :: 0 <= i < |rs| ==> Storable(rs[i])
    requires n < |BlockBytes(rs)|
    ensures DecodeRecords(BlockBytes(rs)[..n]).Err?
  {
    hide BlockBytes, ReadBlock, Storable;
    var all := BlockBytes(rs);
    var p, q := all[..n], all[n..];
    assert p + q == all && all + [] == all;
    ReadBackBlock(rs, []);
    if ReadBlock(p).Ok? {
      MoreBlock(p, q);
      assert false;
    }
  }

  // ---------------------------------------------------- the format, outright

  /** Numbers are little-endian. */
  lemma LittleEndian(a: byte, b: byte, c: byte, d: byte)
    ensures LE([a, b]) == a + 256 * b && LE([a, b, c, d]) == a + 256 * b + 65536 * c + 16777216 * d
  {
    FirstOfLE(a, [b]);
    FirstOfLE(b, []);
    FirstOfLE(a, [b, c, d]);
    FirstOfLE(b, [c, d]);
    FirstOfLE(c, [d]);
    FirstOfLE(d, []);
    assert [a] + [b] == [a, b] && [b] + [] == [b] && [d] + [] == [d];
    assert [a] + [b, c, d] == [a, b, c, d] && [b] + [c, d] == [b, c, d] && [c] + [d] == [c, d];
  }

  lemma FirstOfLE(x: byte, rest: Bytes)
    ensures LE([x] + rest) == x + 256 * LE(rest) && LE([]) == 0
  {
    assert ([x] + rest)[1..] == rest;
  }

  /** A count past a million is refused before anything more is read, and only that. */
  lemma CountIsChecked(count: nat, rest: Bytes)
    requires count < 0x1_0000_0000
    ensures DecodeRecords(ToLE(count, 4) + rest) == Err(TooManyRecords) <==> count > 1_000_000
  {
    Pow2Values();
    LEToLE(count, 4);
    hide LE, ToLE, ReadRecords;
    ReadBack(ToLE(count, 4), rest);
    NeverTooManyInside(count, rest);
  }

  /** So is a string past 4 MiB; any other is read when its bytes are there. */
  lemma LengthIsChecked(len: nat, rest: Bytes)
    requires len < 0x1_0000_0000
    ensures ReadString(ToLE(len, 4) + rest) == Err(StringTooLarge) <==> len > 4 * 1024 * 1024
    ensures ReadString(ToLE(len, 4) + rest).Ok? <==> len <= 4 * 1024 * 1024 && len <= |rest|
  {
    Pow2Values();
    LEToLE(len, 4);
    hide LE, ToLE;
    ReadBack(ToLE(len, 4), rest);
  }

  /** Only the block's count is limited this way: no record read fails so. */
  predicate TooManyInside(count: nat, rest: Bytes) { ReadRecords(rest, count) == Err(TooManyRecords) }

  lemma {:induction false} NeverTooManyInside(count: nat, rest: Bytes)
    ensures !TooManyInside(count, rest)
    decreases count
  {
    hide ReadBytes, ReadString;
    RecordErrors(rest);
    hide ReadRecord;
    if count > 0 && ReadRecord(rest).Ok? {
      NeverTooManyInside(count - 1, ReadRecord(rest).value.1);
    }
  }

  lemma RecordErrors(b: Bytes)
    ensures ReadRecord(b) != Err(TooManyRecords)
  {
    hide LE;
    assert forall s: Bytes, n: nat :: ReadBytes(s, n) != Err(TooManyRecords);
    assert forall s: Bytes :: ReadString(s) != Err(TooManyRecords);
    hide ReadBytes, ReadString;
  }

  /** `f` is in `b`, from byte `i`. */
  predicate At(b: Bytes, i: nat, f: Bytes) { i + |f| <= |b| && b[i..i + |f|] == f }

  /** A string in a block: its length in four bytes, then itself. */
  predicate StringAt(b: Bytes, i: nat, s: Bytes) { At(b, i, ToLE(|s|, 4)) && At(b, i + 4, s) }

  lemma NextField(b: Bytes, pre: Bytes, f: Bytes, tail: Bytes)
    requires b == pre + (f + tail)
    ensures At(b, |pre|, f) && b == (pre + f) + tail && |pre + f| == |pre| + |f|
  {
    assert b[|pre|..|pre| + |f|] == f;
  }

  lemma NextString(b: Bytes, pre: Bytes, s: Bytes, tail: Bytes)
    requires b == pre + (StringBytes(s) + tail)
    ensures StringAt(b, |pre|, s) && b == (pre + StringBytes(s)) + tail && |pre + StringBytes(s)| == |pre| + 4 + |s|
  {
    hide At, ToLE;
    var n := ToLE(|s|, 4);
    assert b == pre + (n + (s + tail));
    NextField(b, pre, n, s + tail);
    NextField(b, pre + n, s, tail);
    assert pre + n + s == pre + StringBytes(s);
  }

  /** Where each field of a record is; numbers are little-endian. */
  lemma RecordLayout(r: Record)
    requires |r.start| == 16 && |r.end| == 16
    ensures var b := RecordBytes(r);
            var c := 39 + |r.category|;
            && |b| == 56 + |r.category| + |r.org| + |r.country| + |r.detail|
            && At(b, 0, [r.family]) && At(b, 1, r.start) && At(b, 17, r.end) && At(b, 33, ToLE(r.sourceId, 2))
            && StringAt(b, 35, r.category)
            && At(b, c, [r.confidence]) && At(b, c + 1, ToLE(r.asn, 4))
            && StringAt(b, c + 5, r.org)
            && StringAt(b, c + 9 + |r.org|, r.country)
            && StringAt(b, c + 13 + |r.org| + |r.country|, r.detail)
  {
    hide At, StringAt, ToLE, StringBytes, RecordBytes;
    var t7 := StringBytes(r.org) + (StringBytes(r.country) + (StringBytes(r.detail) + []));
    RecordInParts(r, t7);
    var b := RecordBytes(r);
    var t5 := [r.confidence] + (ToLE(r.asn, 4) + t7);
    var t4 := StringBytes(r.category) + t5;
    var t3 := ToLE(r.sourceId, 2) + t4;
    var t2 := r.end + t3;
    NextField(b, [], [r.family], r.start + t2);
    var p1 := [] + [r.family];
    NextField(b, p1, r.start, t2);
    var p2 := p1 + r.start;
    NextField(b, p2, r.end, t3);
    var p3 := p2 + r.end;
    NextField(b, p3, ToLE(r.sourceId, 2), t4);
    var p4 := p3 + ToLE(r.sourceId, 2);
    NextString(b, p4, r.category, t5);
    var p5 := p4 + StringBytes(r.category);
    NextField(b, p5, [r.confidence], ToLE(r.asn, 4) + t7);
    var p6 := p5 + [r.confidence];
    NextField(b, p6, ToLE(r.asn, 4), t7);
    var p7 := p6 + ToLE(r.asn, 4);
    NextString(b, p7, r.org, StringBytes(r.country) + (StringBytes(r.detail) + []));
    var p8 := p7 + StringBytes(r.org);
    NextString(b, p8, r.country, StringBytes(r.detail) + []);
    var p9 := p8 + StringBytes(r.country);
    NextString(b, p9, r.detail, []);
  }

  lemma RecordInParts(r: Record, t7: Bytes)
    requires t7 == StringBytes(r.org) + (StringBytes(r.country) + (StringBytes(r.detail) + []))
    ensures RecordBytes(r)
            == [] + ([r.family] + (r.start + (r.end + (ToLE(r.sourceId, 2) + (StringBytes(r.category)
                 + ([r.confidence] + (ToLE(r.asn, 4) + t7)))))))
  {
    hide ToLE, StringBytes;
    assert StringBytes(r.detail) + [] == StringBytes(r.detail);
    NothingInFront(RecordBytes(r));
  }

  lemma NothingInFront(s: Bytes)
    ensures [] + s == s
  {
  }
}
