/** The lookup of one address (db.go): it skips blocks by their bounds, and
    answers as a scan of every record would. */
module IpLookup {
  import opened GoBytes
  import opened IpRecords
  import opened IpRange
  import opened IpScore
  import opened IpEvidence
  import opened Sorting

  /** An index entry with its parsed bounds. */
  datatype Block = Block(family: byte, first: Bytes, max: Bytes, offset: int, compressed: int, uncompressed: int)

  /** An opened database. Decompression and the JSON form of details are parameters. */
  datatype DB = DB(data: Bytes, dataOffset: int, blocks: seq<Block>, sources: seq<Bytes>, asns: map<nat, Bytes>,
                   unzip: Bytes -> Option<Bytes>, rawDetail: Bytes -> Bytes, asnDetail: (nat, Bytes) -> Bytes)

  datatype LookupError = InvalidIP | InvalidSizes | OutsideData | BadFrame | SizeMismatch | BadRecords(why: DecodeError)

  datatype Answer = Answer(ip: Addr, country: Bytes, asn: nat, org: Bytes, score: int, verdict: Bytes,
                           categories: seq<CategoryScore>, evidence: seq<Evidence>)

  const OPENASN := Ascii("openasn")
  const BAD_ASN := Ascii("bad-asn-list")

  // ------------------------------------------------------------ reading blocks

  function ReadDbBlock(db: DB, b: Block): Result<seq<Record>, LookupError> {
    if b.compressed <= 0 || b.compressed > 0x400_0000 || b.uncompressed <= 0 || b.uncompressed > 0x1000_0000 then
      Err(InvalidSizes)
    else
      var start := db.dataOffset + b.offset;
      var end := start + b.compressed;
      if start < 0 || end > |db.data| then Err(OutsideData)
      else
        var raw := db.unzip(db.data[start..end]);
        if raw.None? then Err(BadFrame)
        else if |raw.value| != b.uncompressed then Err(SizeMismatch)
        else
          var records := DecodeRecords(raw.value);
          if records.Err? then Err(BadRecords(records.error)) else Ok(records.value)
  }

  /** The records of `blocks`, or the error of the first that cannot be read. */
  function RecordsOf(db: DB, blocks: seq<Block>): Result<seq<Record>, LookupError> {
    if |blocks| == 0 then Ok([])
    else
      var before :- RecordsOf(db, blocks[..|blocks| - 1]);
      var records :- ReadDbBlock(db, blocks[|blocks| - 1]);
      Ok(before + records)
  }

  method AllRecords(db: DB) returns (r: Result<seq<Record>, LookupError>)
    ensures r == RecordsOf(db, db.blocks)
    ensures forall header, groups, zip {:trigger IsImage(db, header, groups, zip)} ::
              IsImage(db, header, groups, zip) ==> r == Ok(Joined(groups))
  {
    forall header, groups, zip {:trigger IsImage(db, header, groups, zip)} | IsImage(db, header, groups, zip)
      ensures RecordsOf(db, db.blocks) == Ok(Joined(groups))
    {
      ImageReadsBack(db, header, groups, zip);
    }
    hide ReadDbBlock, IsImage, Joined;
    var out: seq<Record> := [];
    for i := 0 to |db.blocks|
      invariant RecordsOf(db, db.blocks[..i]) == Ok(out)
    {
      var records := ReadDbBlock(db, db.blocks[i]);
      assert db.blocks[..i + 1][..i] == db.blocks[..i];
      if records.Err? {
        FirstError(db, db.blocks, i);
        return Err(records.error);
      }
      out := out + records.value;
    }
    assert db.blocks[..|db.blocks|] == db.blocks;
    return Ok(out);
  }

  /** Blocks after the first unreadable one do not matter. */
  lemma {:induction false} FirstError(db: DB, blocks: seq<Block>, i: nat)
    requires i < |blocks| && RecordsOf(db, blocks[..i]).Ok? && ReadDbBlock(db, blocks[i]).Err?
    ensures RecordsOf(db, blocks) == Err(ReadDbBlock(db, blocks[i]).error)
    decreases |blocks|
  {
    hide ReadDbBlock;
    if i < |blocks| - 1 {
      var front := blocks[..|blocks| - 1];
      assert front[..i] == blocks[..i];
      FirstError(db, front, i);
    }
  }

  // --------------------------------------------------- the image of a database

  function Joined(groups: seq<seq<Record>>): seq<Record> {
    if |groups| == 0 then [] else Joined(groups[..|groups| - 1]) + groups[|groups| - 1]
  }

  /** The compressed blocks, end to end. */
  function Packed(groups: seq<seq<Record>>, zip: Bytes -> Bytes): Bytes {
    if |groups| == 0 then [] else Packed(groups[..|groups| - 1], zip) + zip(BlockBytes(groups[|groups| - 1]))
  }

  /** A group of records that fits one block. */
  predicate FitsBlock(rs: seq<Record>, zip: Bytes -> Bytes) {
    && |rs| <= 1_000_000 && (forall i :: 0 <= i < |rs| ==> Storable(rs[i]))
    && |BlockBytes(rs)| <= 256 * 1024 * 1024
    && 0 < |zip(BlockBytes(rs))| <= 64 * 1024 * 1024
  }

  /** `db` is what a builder writes of the groups: a header, and the blocks where
      the index says. */
  ghost predicate IsImage(db: DB, header: Bytes, groups: seq<seq<Record>>, zip: Bytes -> Bytes) {
    && (forall b :: db.unzip(zip(b)) == Some(b))
    && db.dataOffset == |header| && db.data == header + Packed(groups, zip)
    && |db.blocks| == |groups|
    && forall i :: 0 <= i < |groups| ==>
         && FitsBlock(groups[i], zip)
         && db.blocks[i].offset == |Packed(groups[..i], zip)|
         && db.blocks[i].compressed == |zip(BlockBytes(groups[i]))|
         && db.blocks[i].uncompressed == |BlockBytes(groups[i])|
  }

  lemma {:induction false} PackedPrefix(groups: seq<seq<Record>>, zip: Bytes -> Bytes, n: nat)
    requires n <= |groups|
    ensures Packed(groups[..n], zip) <= Packed(groups, zip)
    decreases |groups|
  {
    hide BlockBytes;
    if n < |groups| {
      var front := groups[..|groups| - 1];
      assert front[..n] == groups[..n];
      PackedPrefix(front, zip, n);
    } else {
      assert groups[..n] == groups;
    }
  }

  /** One block is read from its own place. */
  lemma BlockReadsBack(db: DB, header: Bytes, groups: seq<seq<Record>>, zip: Bytes -> Bytes, i: nat)
    requires IsImage(db, header, groups, zip) && i < |groups|
    ensures ReadDbBlock(db, db.blocks[i]) == Ok(groups[i])
  {
    hide Storable, DecodeRecords, BlockBytes, Packed;
    var b := db.blocks[i];
    var raw := BlockBytes(groups[i]);
    var before, piece := Packed(groups[..i], zip), zip(raw);
    PackedMore(groups, zip, i);
    PackedPrefix(groups, zip, i + 1);
    assert before + piece <= Packed(groups, zip);
    SliceOf(header, Packed(groups, zip), before, piece);
    assert |raw| > 0 by {
      BlockHasCount(groups[i]);
    }
    assert FitsBlock(groups[i], zip);
    DecodeEncoded(groups[i], []);
    assert raw + [] == raw;
  }

  lemma BlockHasCount(rs: seq<Record>)
    ensures |BlockBytes(rs)| >= 4
  {
  }

  lemma PackedMore(groups: seq<seq<Record>>, zip: Bytes -> Bytes, i: nat)
    requires i < |groups|
    ensures Packed(groups[..i + 1], zip) == Packed(groups[..i], zip) + zip(BlockBytes(groups[i]))
  {
    hide BlockBytes;
    assert groups[..i + 1][..i] == groups[..i] && groups[..i + 1][i] == groups[i];
  }

  lemma SliceOf(header: Bytes, all: Bytes, before: Bytes, piece: Bytes)
    requires before + piece <= all
    ensures |header| + |before| + |piece| <= |header + all|
    ensures (header + all)[|header| + |before|..|header| + |before| + |piece|] == piece
  {
    assert all == before + piece + all[|before| + |piece|..];
    assert header + all == (header + before) + piece + all[|before| + |piece|..];
  }

  lemma {:induction false} ImagePrefix(db: DB, header: Bytes, groups: seq<seq<Record>>, zip: Bytes -> Bytes, n: nat)
    requires IsImage(db, header, groups, zip) && n <= |groups|
    ensures RecordsOf(db, db.blocks[..n]) == Ok(Joined(groups[..n]))
  {
    hide ReadDbBlock, IsImage;
    assert |db.blocks| == |groups| by {
      SameCount(db, header, groups, zip);
    }
    if n > 0 {
      ImagePrefix(db, header, groups, zip, n - 1);
      BlockReadsBack(db, header, groups, zip, n - 1);
      assert db.blocks[..n][..n - 1] == db.blocks[..n - 1] && groups[..n][..n - 1] == groups[..n - 1];
    }
  }

  lemma SameCount(db: DB, header: Bytes, groups: seq<seq<Record>>, zip: Bytes -> Bytes)
    requires IsImage(db, header, groups, zip)
    ensures |db.blocks| == |groups|
  {
  }

  /** Reading every block of an image gives the records it was built from. */
  lemma ImageReadsBack(db: DB, header: Bytes, groups: seq<seq<Record>>, zip: Bytes -> Bytes)
    requires IsImage(db, header, groups, zip)
    ensures RecordsOf(db, db.blocks) == Ok(Joined(groups))
  {
    hide IsImage, RecordsOf, Joined;
    SameCount(db, header, groups, zip);
    ImagePrefix(db, header, groups, zip, |groups|);
    assert db.blocks[..|groups|] == db.blocks && groups[..|groups|] == groups;
  }

  /** What a block that was read had: sizes within the limits, its bytes inside the
      data, and the size and records it claims. */
  lemma ReadableBlock(db: DB, b: Block)
    requires RecordsOf(db, [b]).Ok?
    ensures 0 < b.compressed <= 67_108_864 && 0 < b.uncompressed <= 268_435_456
    ensures 0 <= db.dataOffset + b.offset && db.dataOffset + b.offset + b.compressed <= |db.data|
    ensures var raw := db.unzip(db.data[db.dataOffset + b.offset..db.dataOffset + b.offset + b.compressed]);
            raw.Some? && |raw.value| == b.uncompressed && DecodeRecords(raw.value) == Ok(RecordsOf(db, [b]).value)
  {
    hide DecodeRecords;
    assert [b][..0] == [];
    assert forall rs: seq<Record> :: [] + rs == rs;
  }

  // ----------------------------------------------------- what a record says

  function SourceName(db: DB, id: nat): Bytes {
    if id < |db.sources| then db.sources[id] else Ascii("source-") + Decimal(id)
  }

  function Report(db: DB, r: Record): Evidence {
    Evidence(SourceName(db, r.sourceId), r.category, r.confidence, true, db.rawDetail(r.detail))
  }

  /** How much a record's AS number is trusted; 0 when it has none. */
  function AsnRank(db: DB, r: Record): nat {
    if r.asn == 0 then 0
    else if SourceName(db, r.sourceId) != OPENASN then 1
    else if Weight(r.category) > 0 then 3
    else 2
  }

  predicate Hit(r: Record, family: byte, key: Bytes) { r.family == family && InRange(key, r.start, r.end) }

  /** The records that hold the address, in order. */
  function Hits(records: seq<Record>, family: byte, key: Bytes): seq<Record> {
    if |records| == 0 then []
    else
      var last := records[|records| - 1];
      Hits(records[..|records| - 1], family, key) + if Hit(last, family, key) then [last] else []
  }

  // ------------------------------------------------ the answer, from the hits

  function HitReports(db: DB, hits: seq<Record>): (r: seq<Evidence>)
    ensures |r| == |hits|
  {
    seq(|hits|, i requires 0 <= i < |hits| => Report(db, hits[i]))
  }

  function HitSources(db: DB, hits: seq<Record>): set<Bytes> { set i | 0 <= i < |hits| :: SourceName(db, hits[i].sourceId) }

  predicate IsFirstCountry(hits: seq<Record>, country: Bytes) {
    if country == [] then forall i :: 0 <= i < |hits| ==> hits[i].country == []
    else exists i :: 0 <= i < |hits| && hits[i].country == country && forall j :: 0 <= j < i ==> hits[j].country == []
  }

  /** `hits[i]` has an AS number, of the greatest rank, and is the first such. */
  predicate BestAsnAt(db: DB, hits: seq<Record>, i: nat)
    requires i < |hits|
  {
    && AsnRank(db, hits[i]) > 0
    && (forall j :: 0 <= j < i ==> AsnRank(db, hits[j]) < AsnRank(db, hits[i]))
    && (forall j :: i < j < |hits| ==> AsnRank(db, hits[j]) <= AsnRank(db, hits[i]))
  }

  ghost predicate IsBestAsn(db: DB, hits: seq<Record>, asn: nat, org: Bytes) {
    if asn == 0 then org == [] && forall i :: 0 <= i < |hits| ==> hits[i].asn == 0
    else exists i :: 0 <= i < |hits| && BestAsnAt(db, hits, i) && hits[i].asn == asn && hits[i].org == org
  }

  function AsnReport(db: DB, asn: nat): Evidence
    requires asn in db.asns
  {
    Evidence(BAD_ASN, Ascii("hosting"), 60, true, db.asnDetail(asn, db.asns[asn]))
  }

  predicate ListedAsn(db: DB, asn: nat) { asn != 0 && asn in db.asns }

  function NoMatch(source: Bytes): Evidence { Evidence(source, [], 0, false, []) }

  /** One entry for every source that reported nothing. */
  function NoMatches(sources: seq<Bytes>, matched: set<Bytes>, asn: nat): seq<Evidence> {
    if |sources| == 0 then []
    else
      var s := sources[|sources| - 1];
      NoMatches(sources[..|sources| - 1], matched, asn)
      + if s in matched || (s == BAD_ASN && asn == 0) then [] else [NoMatch(s)]
  }

  /** The reports of the hits, and the AS list's. */
  function Reports(db: DB, hits: seq<Record>, asn: nat): seq<Evidence> {
    HitReports(db, hits) + if ListedAsn(db, asn) then [AsnReport(db, asn)] else []
  }

  function Matched(db: DB, hits: seq<Record>, asn: nat): set<Bytes> {
    HitSources(db, hits) + if ListedAsn(db, asn) then {BAD_ASN} else {}
  }

  /** The evidence before sorting. */
  function Gathered(db: DB, hits: seq<Record>, asn: nat): seq<Evidence> {
    Firsts(Reports(db, hits, asn)) + NoMatches(db.sources, Matched(db, hits, asn), asn)
  }

  /** Go's `<` on strings. */
  predicate StringLess(a: Bytes, b: Bytes) { Compare(a, b) < 0 }

  predicate EvidenceLess(x: Evidence, y: Evidence) {
    if x.source != y.source then StringLess(x.source, y.source)
    else if x.category != y.category then StringLess(x.category, y.category)
    else x.confidence > y.confidence
  }

  /** `x` is the answer drawn from `hits`, the records that hold `ip`. */
  ghost predicate IsAnswer(db: DB, ip: Addr, hits: seq<Record>, x: Answer) {
    && x.ip == ip
    && IsFirstCountry(hits, x.country)
    && IsBestAsn(db, hits, x.asn, x.org)
    && x.evidence == Sort(Gathered(db, hits, x.asn), EvidenceLess)
    && Scored(x.evidence, x.score, x.verdict, x.categories)
  }

  // ----------------------------------------------------------------- Lookup

  datatype Found = Found(evidence: seq<Evidence>, seen: set<Bytes>, matched: set<Bytes>, country: Bytes,
                         asn: nat, org: Bytes, asnRank: nat)

  const NOTHING := Found([], {}, {}, [], 0, [], 0)

  ghost predicate TracksRank(db: DB, hits: seq<Record>, f: Found) {
    && IsBestAsn(db, hits, f.asn, f.org)
    && (forall i :: 0 <= i < |hits| ==> AsnRank(db, hits[i]) <= f.asnRank)
    && (if f.asnRank == 0 then f.asn == 0
        else f.asn != 0 && exists i :: 0 <= i < |hits| && BestAsnAt(db, hits, i) && AsnRank(db, hits[i]) == f.asnRank
                                       && hits[i].asn == f.asn && hits[i].org == f.org)
  }

  /** The loop's variables after the records `hits`. */
  ghost predicate Summarises(db: DB, hits: seq<Record>, f: Found) {
    && f.evidence == Firsts(HitReports(db, hits))
    && f.seen == Keys(HitReports(db, hits))
    && f.matched == HitSources(db, hits)
    && IsFirstCountry(hits, f.country)
    && TracksRank(db, hits, f)
  }

  /** The body of the record loop, for a record that holds the address. */
  method TakeRecord(db: DB, ghost hits: seq<Record>, f: Found, r: Record) returns (g: Found)
    requires Summarises(db, hits, f)
    ensures Summarises(db, hits + [r], g)
  {
    hide EvidenceKey, Firsts, Keys, Weight, SourceName, IsBestAsn, BestAsnAt, AsnRank, IsFirstCountry, TracksRank;
    g := f;
    assert (hits + [r])[..|hits|] == hits;
    var source := SourceName(db, r.sourceId);
    var ev := Evidence(source, r.category, r.confidence, true, db.rawDetail(r.detail));
    var k := EvidenceKey(ev);
    HitReportsMore(db, hits, r);
    FirstsMore(HitReports(db, hits), ev);
    if k !in g.seen {
      g := g.(seen := g.seen + {k}, evidence := g.evidence + [ev]);
    }
    g := g.(matched := g.matched + {source});
    HitSourcesMore(db, hits, r);
    CountryMore(hits, f.country, r);
    if g.country == [] && r.country != [] {
      g := g.(country := r.country);
    }
    RankMore(db, hits, f, r);
    if r.asn != 0 {
      var rank := 1;
      if source == OPENASN {
        rank := 2;
        if Weight(r.category) > 0 {
          rank := 3;
        }
      }
      assert rank == AsnRank(db, r) by {
        RankValue(db, r);
      }
      if rank > g.asnRank {
        g := g.(asn := r.asn, org := r.org, asnRank := rank);
      }
    } else {
      RankValue(db, r);
    }
    SameRank(db, hits + [r], f.(asn := g.asn, org := g.org, asnRank := g.asnRank), g);
  }

  lemma RankValue(db: DB, r: Record)
    ensures AsnRank(db, r)
            == if r.asn == 0 then 0 else if SourceName(db, r.sourceId) != OPENASN then 1
               else if Weight(r.category) > 0 then 3 else 2
  {
  }

  lemma SameRank(db: DB, hits: seq<Record>, f: Found, g: Found)
    requires TracksRank(db, hits, f) && f.asn == g.asn && f.org == g.org && f.asnRank == g.asnRank
    ensures TracksRank(db, hits, g)
  {
    hide BestAsnAt, IsBestAsn;
  }

  lemma HitReportsMore(db: DB, hits: seq<Record>, r: Record)
    ensures HitReports(db, hits + [r]) == HitReports(db, hits) + [Report(db, r)]
  {
    hide Report;
  }

  lemma HitSourcesMore(db: DB, hits: seq<Record>, r: Record)
    ensures HitSources(db, hits + [r]) == HitSources(db, hits) + {SourceName(db, r.sourceId)}
  {
    hide SourceName;
    var more := hits + [r];
    forall k | k in HitSources(db, hits)
      ensures k in HitSources(db, more)
    {
      var i :| 0 <= i < |hits| && SourceName(db, hits[i].sourceId) == k;
      assert more[i] == hits[i];
    }
    assert more[|hits|] == r;
  }

  lemma CountryMore(hits: seq<Record>, c: Bytes, r: Record)
    requires IsFirstCountry(hits, c)
    ensures IsFirstCountry(hits + [r], if c == [] && r.country != [] then r.country else c)
  {
    var more := hits + [r];
    assert more[|hits|] == r && forall i :: 0 <= i < |hits| ==> more[i] == hits[i];
  }

  lemma RankMore(db: DB, hits: seq<Record>, f: Found, r: Record)
    requires TracksRank(db, hits, f)
    ensures TracksRank(db, hits + [r], if AsnRank(db, r) > f.asnRank then f.(asn := r.asn, org := r.org, asnRank := AsnRank(db, r)) else f)
  {
    hide SourceName, Weight, AsnRank;
    RankValue(db, r);
    var more := hits + [r];
    assert more[|hits|] == r && forall i :: 0 <= i < |hits| ==> more[i] == hits[i];
    if AsnRank(db, r) > f.asnRank {
      assert BestAsnAt(db, more, |hits|);
    } else if f.asnRank > 0 {
      var i :| 0 <= i < |hits| && BestAsnAt(db, hits, i) && AsnRank(db, hits[i]) == f.asnRank
               && hits[i].asn == f.asn && hits[i].org == f.org;
      assert BestAsnAt(db, more, i);
    }
  }

  /** The loop over a block's records. */
  method ScanRecords(db: DB, ghost hits: seq<Record>, f: Found, records: seq<Record>, family: byte, key: Bytes)
    returns (g: Found)
    requires Summarises(db, hits, f)
    ensures Summarises(db, hits + Hits(records, family, key), g)
  {
    hide Summarises, InRange;
    g := f;
    assert hits + [] == hits;
    for i := 0 to |records|
      invariant Summarises(db, hits + Hits(records[..i], family, key), g)
    {
      var r := records[i];
      assert records[..i + 1][..i] == records[..i] && records[..i + 1][i] == r;
      ghost var now := hits + Hits(records[..i], family, key);
      ghost var sofar := Hits(records[..i], family, key);
      assert sofar + [] == sofar && hits + (sofar + [r]) == now + [r];
      if r.family == family && InRange(key, r.start, r.end) {
        g := TakeRecord(db, now, g, r);
      }
    }
    assert records[..|records|] == records;
  }

  /** A block the lookup reads. */
  predicate Visits(b: Block, family: byte, key: Bytes) { b.family == family && InRange(key, b.first, b.max) }

  function Visited(blocks: seq<Block>, family: byte, key: Bytes): seq<Block> {
    if |blocks| == 0 then []
    else
      var last := blocks[|blocks| - 1];
      Visited(blocks[..|blocks| - 1], family, key) + if Visits(last, family, key) then [last] else []
  }

  /** The loop over blocks. */
  method Collect(db: DB, family: byte, key: Bytes) returns (r: Result<Found, LookupError>)
    ensures var read := RecordsOf(db, Visited(db.blocks, family, key));
            if read.Err? then r == Err(read.error) else r.Ok? && Summarises(db, Hits(read.value, family, key), r.value)
  {
    hide Summarises, InRange, ReadDbBlock, Visited, RecordsOf, Hits;
    var f := NOTHING;
    EmptySummary(db, family, key);
    ghost var records: seq<Record> := [];
    for i := 0 to |db.blocks|
      invariant RecordsOf(db, Visited(db.blocks[..i], family, key)) == Ok(records)
      invariant Summarises(db, Hits(records, family, key), f)
    {
      var block := db.blocks[i];
      VisitedMore(db, i, family, key);
      if block.family == family && InRange(key, block.first, block.max) {
        var batch := ReadDbBlock(db, block);
        if batch.Err? {
          FirstUnreadable(db, i, family, key);
          return Err(batch.error);
        }
        f := ScanRecords(db, Hits(records, family, key), f, batch.value, family, key);
        HitsConcat(records, batch.value, family, key);
        records := records + batch.value;
      }
    }
    assert db.blocks[..|db.blocks|] == db.blocks;
    return Ok(f);
  }

  lemma EmptySummary(db: DB, family: byte, key: Bytes)
    ensures Summarises(db, Hits([], family, key), NOTHING)
    ensures RecordsOf(db, Visited([], family, key)) == Ok([])
  {
  }

  lemma {:induction false} VisitedPrefix(blocks: seq<Block>, n: nat, family: byte, key: Bytes)
    requires n <= |blocks|
    ensures Visited(blocks[..n], family, key) <= Visited(blocks, family, key)
    decreases |blocks|
  {
    hide Visits;
    if n < |blocks| {
      var front := blocks[..|blocks| - 1];
      assert front[..n] == blocks[..n];
      VisitedPrefix(front, n, family, key);
    } else {
      assert blocks[..n] == blocks;
    }
  }

  lemma VisitedMore(db: DB, i: nat, family: byte, key: Bytes)
    requires i < |db.blocks|
    ensures !Visits(db.blocks[i], family, key) ==>
              Visited(db.blocks[..i + 1], family, key) == Visited(db.blocks[..i], family, key)
    ensures Visits(db.blocks[i], family, key) && RecordsOf(db, Visited(db.blocks[..i], family, key)).Ok? && ReadDbBlock(db, db.blocks[i]).Ok? ==>
              RecordsOf(db, Visited(db.blocks[..i + 1], family, key))
              == Ok(RecordsOf(db, Visited(db.blocks[..i], family, key)).value + ReadDbBlock(db, db.blocks[i]).value)
  {
    hide Visits, ReadDbBlock;
    var more := db.blocks[..i + 1];
    assert more[..i] == db.blocks[..i] && more[i] == db.blocks[i];
    var visited := Visited(db.blocks[..i], family, key);
    assert (visited + [more[i]])[..|visited|] == visited;
    assert visited + [] == visited;
  }

  lemma FirstUnreadable(db: DB, i: nat, family: byte, key: Bytes)
    requires i < |db.blocks| && Visits(db.blocks[i], family, key)
    requires RecordsOf(db, Visited(db.blocks[..i], family, key)).Ok? && ReadDbBlock(db, db.blocks[i]).Err?
    ensures RecordsOf(db, Visited(db.blocks, family, key)) == Err(ReadDbBlock(db, db.blocks[i]).error)
  {
    hide Visits, ReadDbBlock, RecordsOf;
    var more, all := db.blocks[..i + 1], Visited(db.blocks, family, key);
    assert more[..i] == db.blocks[..i] && more[i] == db.blocks[i];
    var visited := Visited(db.blocks[..i], family, key);
    VisitedPrefix(db.blocks, i + 1, family, key);
    assert visited + [db.blocks[i]] <= all;
    assert all[..|visited|] == visited && all[|visited|] == db.blocks[i];
    FirstError(db, all, |visited|);
  }

  lemma {:induction false} HitsConcat(a: seq<Record>, b: seq<Record>, family: byte, key: Bytes)
    ensures Hits(a + b, family, key) == Hits(a, family, key) + Hits(b, family, key)
  {
    hide Hit;
    if |b| == 0 {
      assert a + b == a;
    } else {
      assert (a + b)[..|a + b| - 1] == a + b[..|b| - 1];
      HitsConcat(a, b[..|b| - 1], family, key);
    }
  }

  /** `Lookup`; `a` is None when the text is not an address. Once the evidence is
      collected it is completed, sorted and scored. */
  method Lookup(db: DB, a: Option<Addr>) returns (r: Result<Answer, LookupError>)
    requires a.Some? ==> ValidAddr(a.value)
    ensures a.None? ==> r == Err(InvalidIP)
    ensures a.Some? ==>
              var (family, key) := AddrBytes(a.value);
              var read := RecordsOf(db, Visited(db.blocks, family, key));
              if read.Err? then r == Err(read.error)
              else r.Ok? && IsAnswer(db, Unmap(a.value), Hits(read.value, family, key), r.value)
  {
    hide Summarises, AddrBytes, RecordsOf, Visited, Hits, Gathered, Confidences, Score, Ranked, Verdict, Sort, EvidenceLess;
    if a.None? {
      return Err(InvalidIP);
    }
    var (family, key) := AddrBytes(a.value);
    var found :- Collect(db, family, key);
    ghost var hits := Hits(RecordsOf(db, Visited(db.blocks, family, key)).value, family, key);
    var evidence := Complete(db, hits, found);
    evidence := Sort(evidence, EvidenceLess);
    var score, verdict, categories := ScoreEvidence(evidence);
    SummaryFacts(db, hits, found);
    return Ok(Answer(Unmap(a.value), found.country, found.asn, found.org, score, verdict, categories, evidence));
  }

  /** What `Lookup` adds once all blocks are read: the AS list's report, and an
      entry for every source without a match. */
  method Complete(db: DB, ghost hits: seq<Record>, found: Found) returns (evidence: seq<Evidence>)
    requires Summarises(db, hits, found)
    ensures evidence == Gathered(db, hits, found.asn)
  {
    hide EvidenceKey, IsFirstCountry, TracksRank, Firsts, Keys, HitReports, HitSources, Ascii;
    var asn := found.asn;
    var matched := found.matched;
    evidence := found.evidence;
    if asn != 0 {
      if asn in db.asns {
        var ev := Evidence(BAD_ASN, Ascii("hosting"), 60, true, db.asnDetail(asn, db.asns[asn]));
        FirstsMore(HitReports(db, hits), ev);
        if EvidenceKey(ev) !in found.seen {
          evidence := evidence + [ev];
        }
        matched := matched + {BAD_ASN};
      }
    }
    ghost var before := evidence;
    assert HitReports(db, hits) + [] == HitReports(db, hits) && found.evidence + [] == found.evidence;
    assert before == Firsts(Reports(db, hits, asn));
    assert before + [] == before;
    for i := 0 to |db.sources|
      invariant evidence == before + NoMatches(db.sources[..i], matched, asn)
    {
      var source := db.sources[i];
      assert db.sources[..i + 1][..i] == db.sources[..i] && db.sources[..i + 1][i] == source;
      ghost var now := NoMatches(db.sources[..i], matched, asn);
      assert now + [] == now && before + (now + [NoMatch(source)]) == before + now + [NoMatch(source)];
      if source in matched {
        continue;
      }
      if source == BAD_ASN && asn == 0 {
        continue;
      }
      evidence := evidence + [NoMatch(source)];
    }
    assert db.sources[..|db.sources|] == db.sources;
    assert matched == Matched(db, hits, asn);
  }

  lemma SummaryFacts(db: DB, hits: seq<Record>, f: Found)
    requires Summarises(db, hits, f)
    ensures IsFirstCountry(hits, f.country) && IsBestAsn(db, hits, f.asn, f.org)
  {
    hide IsFirstCountry;
    RankTracked(db, hits, f);
  }

  lemma RankTracked(db: DB, hits: seq<Record>, f: Found)
    requires TracksRank(db, hits, f)
    ensures IsBestAsn(db, hits, f.asn, f.org)
  {
    hide IsBestAsn;
  }

  /** A record made from a prefix (`prefixRange`). */
  predicate RecordsPrefix(r: Record, p: Prefix) {
    r.family == RangeOf(p).family && r.start == RangeOf(p).start && r.end == RangeOf(p).end
  }

  /** A prefix's record is hit by exactly the addresses of its family in the
      network, when the prefix is no mapped network; and only then. */
  lemma HitsAreTheNetwork(p: Prefix, r: Record)
    requires ValidPrefix(p) && RecordsPrefix(r, p)
    ensures (forall a :: ValidAddr(a) ==>
               (Hit(r, AddrBytes(a).0, AddrBytes(a).1) <==> AddrBytes(a).0 == RangeOf(p).family && Contains(p, a)))
            <==> !MappedNetwork(p)
  {
    hide RangeOf, AddrBytes, Contains, InRange, ValidAddr, ValidPrefix, MappedNetwork;
    RangeIsNetwork(p);
    forall a | ValidAddr(a)
      ensures Hit(r, AddrBytes(a).0, AddrBytes(a).1) <==> AddrBytes(a).0 == RangeOf(p).family && InRangeOf(p, a)
    {
    }
  }

  // -------------------------------------------------- skipping and scanning

  /** The block's index entry bounds its records. */
  predicate BoundsRecords(b: Block, records: seq<Record>) {
    forall i :: 0 <= i < |records| ==>
      && records[i].family == b.family
      && Compare(b.first, records[i].start) <= 0
      && Compare(records[i].end, b.max) <= 0
  }

  predicate Bounded(db: DB, blocks: seq<Block>) {
    forall i :: 0 <= i < |blocks| ==>
      ReadDbBlock(db, blocks[i]).Ok? && BoundsRecords(blocks[i], ReadDbBlock(db, blocks[i]).value)
  }

  lemma {:induction false} CompareLaws(a: Bytes, b: Bytes)
    ensures Compare(a, b) == -Compare(b, a)
    ensures Compare(a, b) == 0 <==> a == b
  {
    if |a| > 0 && |b| > 0 {
      CompareLaws(a[1..], b[1..]);
      assert a == [a[0]] + a[1..] && b == [b[0]] + b[1..];
    }
  }

  lemma {:induction false} CompareTransitive(a: Bytes, b: Bytes, c: Bytes)
    requires Compare(a, b) < 0 && Compare(b, c) <= 0
    ensures Compare(a, c) < 0
  {
    if |a| > 0 && |b| > 0 && |c| > 0 && a[0] == b[0] && b[0] == c[0] {
      CompareTransitive(a[1..], b[1..], c[1..]);
    }
  }

  /** A skipped block holds no hit. */
  lemma {:induction false} SkippedHasNoHit(b: Block, records: seq<Record>, family: byte, key: Bytes)
    requires BoundsRecords(b, records) && !Visits(b, family, key)
    ensures Hits(records, family, key) == []
  {
    hide Compare;
    if |records| > 0 {
      var front, r := records[..|records| - 1], records[|records| - 1];
      SkippedHasNoHit(b, front, family, key);
      if Hit(r, family, key) {
        CompareLaws(key, b.max);
        CompareLaws(key, r.end);
        if Compare(key, b.first) < 0 {
          CompareTransitive(key, b.first, r.start);
        } else {
          CompareLaws(b.max, key);
          CompareLaws(r.end, b.max);
          MaxBelow(r.end, b.max, key);
        }
        assert false;
      }
    }
  }

  lemma MaxBelow(end: Bytes, max: Bytes, key: Bytes)
    requires Compare(end, max) <= 0 && Compare(key, max) > 0
    ensures Compare(key, end) > 0
  {
    hide Compare;
    CompareLaws(key, max);
    CompareLaws(end, max);
    CompareLaws(key, end);
    if end != max {
      CompareTransitive(end, max, key);
    }
  }

  lemma {:induction false} BoundedAreRead(db: DB, blocks: seq<Block>)
    requires Bounded(db, blocks)
    ensures RecordsOf(db, blocks).Ok?
  {
    hide ReadDbBlock, BoundsRecords;
    if |blocks| > 0 {
      var front := blocks[..|blocks| - 1];
      assert forall i :: 0 <= i < |front| ==> front[i] == blocks[i];
      BoundedAreRead(db, front);
    }
  }

  /** Reading only the blocks whose bounds admit the address finds the same
      records, in the same order, as reading all of them. */
  lemma {:induction false} SkippingFindsAll(db: DB, blocks: seq<Block>, family: byte, key: Bytes)
    requires Bounded(db, blocks)
    ensures RecordsOf(db, Visited(blocks, family, key)).Ok? && RecordsOf(db, blocks).Ok?
    ensures Hits(RecordsOf(db, Visited(blocks, family, key)).value, family, key)
            == Hits(RecordsOf(db, blocks).value, family, key)
  {
    hide ReadDbBlock, BoundsRecords, Visits, Hits;
    if |blocks| > 0 {
      var front, b := blocks[..|blocks| - 1], blocks[|blocks| - 1];
      assert forall i :: 0 <= i < |front| ==> front[i] == blocks[i];
      SkippingFindsAll(db, front, family, key);
      var batch := ReadDbBlock(db, b).value;
      var some := Visited(front, family, key);
      HitsConcat(RecordsOf(db, front).value, batch, family, key);
      if Visits(b, family, key) {
        assert (some + [b])[..|some|] == some;
        HitsConcat(RecordsOf(db, some).value, batch, family, key);
      } else {
        assert some + [] == some;
        SkippedHasNoHit(b, batch, family, key);
      }
    }
  }

  /** `Lookup` on a well-indexed database answers from a scan of `AllRecords`. */
  method LookupIsScan(db: DB, a: Addr) returns (r: Result<Answer, LookupError>)
    requires ValidAddr(a) && Bounded(db, db.blocks)
    ensures RecordsOf(db, db.blocks).Ok? && r.Ok?
    ensures IsAnswer(db, Unmap(a), Hits(RecordsOf(db, db.blocks).value, AddrBytes(a).0, AddrBytes(a).1), r.value)
  {
    hide Bounded, AddrBytes, RecordsOf, Visited, Hits, IsAnswer;
    r := Lookup(db, Some(a));
    SkippingFindsAll(db, db.blocks, AddrBytes(a).0, AddrBytes(a).1);
  }

  /** The groups are bounded by their index entries. */
  predicate GroupsBounded(db: DB, groups: seq<seq<Record>>) {
    |db.blocks| == |groups| && forall i :: 0 <= i < |groups| ==> BoundsRecords(db.blocks[i], groups[i])
  }

  lemma ImageIsBounded(db: DB, header: Bytes, groups: seq<seq<Record>>, zip: Bytes -> Bytes)
    requires IsImage(db, header, groups, zip) && GroupsBounded(db, groups)
    ensures Bounded(db, db.blocks)
  {
    hide IsImage, BoundsRecords, ReadDbBlock;
    forall i | 0 <= i < |db.blocks|
      ensures ReadDbBlock(db, db.blocks[i]) == Ok(groups[i])
    {
      BlockReadsBack(db, header, groups, zip, i);
    }
  }

  /** A lookup in an image answers from the records the image was built from. */
  method LookupInImage(db: DB, ghost header: Bytes, ghost groups: seq<seq<Record>>, ghost zip: Bytes -> Bytes, a: Addr)
    returns (r: Result<Answer, LookupError>)
    requires ValidAddr(a) && IsImage(db, header, groups, zip) && GroupsBounded(db, groups)
    ensures r.Ok? && IsAnswer(db, Unmap(a), Hits(Joined(groups), AddrBytes(a).0, AddrBytes(a).1), r.value)
  {
    hide Bounded, AddrBytes, RecordsOf, Hits, IsAnswer, IsImage, GroupsBounded, Joined;
    ImageIsBounded(db, header, groups, zip);
    ImageReadsBack(db, header, groups, zip);
    r := LookupIsScan(db, a);
  }

  // ------------------------------------------------------------- one answer

  lemma BestAsnUnique(db: DB, hits: seq<Record>, asn: nat, org: Bytes, asn': nat, org': Bytes)
    requires IsBestAsn(db, hits, asn, org) && IsBestAsn(db, hits, asn', org')
    ensures asn == asn' && org == org'
  {
    hide SourceName, Weight;
    if asn != 0 && asn' != 0 {
      var i :| 0 <= i < |hits| && BestAsnAt(db, hits, i) && hits[i].asn == asn && hits[i].org == org;
      var j :| 0 <= j < |hits| && BestAsnAt(db, hits, j) && hits[j].asn == asn' && hits[j].org == org';
      assert i == j;
    }
  }

  lemma FirstCountryUnique(hits: seq<Record>, c: Bytes, d: Bytes)
    requires IsFirstCountry(hits, c) && IsFirstCountry(hits, d)
    ensures c == d
  {
    if c != [] && d != [] {
      var i :| 0 <= i < |hits| && hits[i].country == c && forall j :: 0 <= j < i ==> hits[j].country == [];
      var k :| 0 <= k < |hits| && hits[k].country == d && forall j :: 0 <= j < k ==> hits[j].country == [];
      assert i == k;
    }
  }

  /** A lookup has one answer, whatever order Go's maps are walked in. */
  lemma AnswerIsUnique(db: DB, ip: Addr, hits: seq<Record>, x: Answer, y: Answer)
    requires IsAnswer(db, ip, hits, x) && IsAnswer(db, ip, hits, y)
    ensures x == y
  {
    hide IsFirstCountry, IsBestAsn, Gathered, Sort, Confidences, Score, Ranked;
    FirstCountryUnique(hits, x.country, y.country);
    BestAsnUnique(db, hits, x.asn, x.org, y.asn, y.org);
    RankedUnique(x.categories, y.categories, Confidences(x.evidence));
  }

  // --------------------------------------------------------------- evidence

  lemma EvidenceOrder()
    ensures StrictWeak(EvidenceLess)
  {
    hide Compare;
    forall a, b | EvidenceLess(a, b)
      ensures !EvidenceLess(b, a)
    {
      CompareLaws(a.source, b.source);
      CompareLaws(a.category, b.category);
    }
    forall a, b, c | EvidenceLess(a, b)
      ensures EvidenceLess(a, c) || EvidenceLess(c, b)
    {
      LessSplits(a.source, b.source, c.source);
      LessSplits(a.category, b.category, c.category);
      CompareLaws(a.source, b.source);
      CompareLaws(a.source, c.source);
      CompareLaws(a.category, c.category);
      CompareLaws(a.category, b.category);
    }
  }

  lemma LessSplits(a: Bytes, b: Bytes, c: Bytes)
    ensures Compare(a, b) < 0 ==> Compare(a, c) < 0 || Compare(c, b) < 0
  {
    hide Compare;
    CompareLaws(a, c);
    if Compare(a, b) < 0 && Compare(a, c) >= 0 && a != c {
      CompareTransitive(c, a, b);
    }
  }

  /** The evidence of an answer is what was gathered, ordered by source, category
      and falling confidence; equal entries keep their order. */
  lemma EvidenceIsSorted(db: DB, ip: Addr, hits: seq<Record>, x: Answer, e: Evidence)
    requires IsAnswer(db, ip, hits, x)
    ensures Sorted(x.evidence, EvidenceLess)
    ensures multiset(x.evidence) == multiset(Gathered(db, hits, x.asn))
    ensures TiedWith(x.evidence, e, EvidenceLess) == TiedWith(Gathered(db, hits, x.asn), e, EvidenceLess)
  {
    hide Gathered, EvidenceLess, Sort, IsFirstCountry, IsBestAsn, Confidences, Score, Ranked, TiedWith;
    EvidenceOrder();
    SortSorts(Gathered(db, hits, x.asn), EvidenceLess);
    SortIsStable(Gathered(db, hits, x.asn), e, EvidenceLess);
  }

  lemma {:induction false} NoMatchesScoreNothing(ev: seq<Evidence>, sources: seq<Bytes>, matched: set<Bytes>, asn: nat)
    ensures Confidences(ev + NoMatches(sources, matched, asn)) == Confidences(ev)
  {
    hide Confidences;
    if |sources| == 0 {
      assert ev + [] == ev;
    } else {
      var s := sources[|sources| - 1];
      var before := NoMatches(sources[..|sources| - 1], matched, asn);
      NoMatchesScoreNothing(ev, sources[..|sources| - 1], matched, asn);
      NoMatchIsAbsorbed(ev + before, s);
      assert ev + (before + [NoMatch(s)]) == ev + before + [NoMatch(s)];
      assert before + [] == before;
    }
  }

  // ------------------------------------------------------------ the score

  function Names(evs: seq<Evidence>): set<Name> { set i | 0 <= i < |evs| :: NameOf(evs[i]) }

  lemma ReportsAreNamed(db: DB, hits: seq<Record>, asn: nat)
    ensures UnderNames(Reports(db, hits, asn), Names(Reports(db, hits, asn)))
  {
    hide SourceName, Ascii;
    var all := Reports(db, hits, asn);
    forall e | e in all
      ensures IsReport(e) && NameOf(e) in Names(all)
    {
      var i :| 0 <= i < |all| && all[i] == e;
      assert i < |hits| ==> e == Report(db, hits[i]);
    }
  }

  /** An answer scores the kept reports: no-match entries and sorting do not show. */
  lemma ScoreIsOfKept(db: DB, ip: Addr, hits: seq<Record>, x: Answer)
    requires IsAnswer(db, ip, hits, x)
    ensures Confidences(x.evidence) == Confidences(Firsts(Reports(db, hits, x.asn)))
  {
    hide Confidences, Reports, Firsts, Score, EvidenceLess, NoMatches, IsBestAsn, IsFirstCountry, Ranked, Verdict;
    var gathered := Gathered(db, hits, x.asn);
    EvidenceIsSorted(db, ip, hits, x, NoMatch([]));
    assert forall e :: (e in multiset(x.evidence) <==> e in x.evidence) && (e in multiset(gathered) <==> e in gathered);
    SameMembers(x.evidence, gathered);
    NoMatchesScoreNothing(Firsts(Reports(db, hits, x.asn)), db.sources, Matched(db, hits, x.asn), x.asn);
  }

  /** It scores every report of the hits and of the AS list, kept or dropped, when
      none of their names can hide another; for names that can there are reports
      whose score is lost (`DroppingKeepsConfidences`). */
  lemma ScoreIsOfReports(db: DB, ip: Addr, hits: seq<Record>, x: Answer)
    requires IsAnswer(db, ip, hits, x)
    requires forall m, n :: m in Names(Reports(db, hits, x.asn)) && n in Names(Reports(db, hits, x.asn)) ==> !Hides(m, n)
    ensures Confidences(x.evidence) == Confidences(Reports(db, hits, x.asn))
    ensures x.score == Score(Confidences(Reports(db, hits, x.asn)))
  {
    hide Confidences, Reports, Firsts, Score, Names, Hides, Gathered;
    ScoreIsOfKept(db, ip, hits, x);
    ReportsAreNamed(db, hits, x.asn);
    DroppingKeepsConfidences(Names(Reports(db, hits, x.asn)));
  }

  // --------------------------------------------------- every source answers

  lemma {:induction false} NoMatchEntry(sources: seq<Bytes>, matched: set<Bytes>, asn: nat, e: Evidence)
    ensures e in NoMatches(sources, matched, asn)
            <==> e == NoMatch(e.source) && e.source in sources && e.source !in matched && !(e.source == BAD_ASN && asn == 0)
  {
    if |sources| > 0 {
      var front, s := sources[..|sources| - 1], sources[|sources| - 1];
      NoMatchEntry(front, matched, asn, e);
      assert e.source in sources <==> e.source in front || e.source == s;
    }
  }

  /** What an answer's evidence is made of. */
  lemma EvidenceMembers(db: DB, ip: Addr, hits: seq<Record>, x: Answer, e: Evidence)
    requires IsAnswer(db, ip, hits, x)
    ensures e in x.evidence
            <==> e in Firsts(Reports(db, hits, x.asn)) || e in NoMatches(db.sources, Matched(db, hits, x.asn), x.asn)
  {
    hide Report, EvidenceLess, IsBestAsn, IsFirstCountry, Firsts, NoMatches, Reports, Confidences, Ranked, Score;
    var gathered := Gathered(db, hits, x.asn);
    EvidenceIsSorted(db, ip, hits, x, e);
    assert (e in multiset(x.evidence) <==> e in x.evidence) && (e in multiset(gathered) <==> e in gathered);
  }

  /** The sources of the reports are the matched ones. */
  lemma ReportSources(db: DB, hits: seq<Record>, asn: nat)
    ensures forall e :: e in Reports(db, hits, asn) ==> e.matched && e.source in Matched(db, hits, asn)
    ensures forall s :: s in Matched(db, hits, asn) ==> exists e :: e in Reports(db, hits, asn) && e.source == s
  {
    hide SourceName, Ascii;
    var all := Reports(db, hits, asn);
    forall e | e in all
      ensures e.matched && e.source in Matched(db, hits, asn)
    {
      var i :| 0 <= i < |all| && all[i] == e;
      assert i < |hits| ==> e == Report(db, hits[i]);
    }
    forall s | s in Matched(db, hits, asn)
      ensures exists e :: e in all && e.source == s
    {
      if s in HitSources(db, hits) {
        var i :| 0 <= i < |hits| && SourceName(db, hits[i].sourceId) == s;
        assert all[i] in all && all[i].source == s;
      } else {
        assert all[|hits|] in all && all[|hits|].source == s;
      }
    }
  }

  /** A declared source has a no-match entry when none of its records, nor the AS
      list, matched, except the AS list when there is no AS number to look up. It has
      a matched entry when one did, for names that clash within a source at most. */
  lemma SourceIsAccountedFor(db: DB, ip: Addr, hits: seq<Record>, x: Answer, s: Bytes)
    requires IsAnswer(db, ip, hits, x) && s in db.sources
    ensures NoMatch(s) in x.evidence <==> s !in Matched(db, hits, x.asn) && !(s == BAD_ASN && x.asn == 0)
    ensures (exists e :: e in x.evidence && e.source == s && e.matched) ==> s in Matched(db, hits, x.asn)
    ensures (forall m, n :: m in Names(Reports(db, hits, x.asn)) && n in Names(Reports(db, hits, x.asn)) && Clash(m, n) ==>
               m.source == n.source) && s in Matched(db, hits, x.asn) ==>
              exists e :: e in x.evidence && e.source == s && e.matched
  {
    hide NoMatches, Reports, Matched, IsAnswer, Ascii, Firsts, Clash, Names;
    var reports := Reports(db, hits, x.asn);
    ReportSources(db, hits, x.asn);
    KeptAreDistinct(reports);
    forall e
      ensures e in x.evidence
              <==> e in Firsts(reports) || e in NoMatches(db.sources, Matched(db, hits, x.asn), x.asn)
      ensures e in NoMatches(db.sources, Matched(db, hits, x.asn), x.asn) ==> !e.matched
    {
      EvidenceMembers(db, ip, hits, x, e);
      NoMatchEntry(db.sources, Matched(db, hits, x.asn), x.asn, e);
    }
    NoMatchEntry(db.sources, Matched(db, hits, x.asn), x.asn, NoMatch(s));
    if (forall m, n :: m in Names(reports) && n in Names(reports) && Clash(m, n) ==> m.source == n.source)
       && s in Matched(db, hits, x.asn) {
      var e :| e in reports && e.source == s;
      var i :| 0 <= i < |reports| && reports[i] == e;
      ReportsAreNamed(db, hits, x.asn);
      DroppingKeepsSources(Names(reports));
      assert SourceKept(reports, reports[i].source);
      var k :| k in Firsts(reports) && k.source == s;
    }
  }

  // ----------------------------------------------------- the names, outright

  /** A source without a name is numbered. */
  lemma NumberedSource(db: DB)
    requires |db.sources| == 0
    ensures SourceName(db, 0) == Ascii("source-0") && SourceName(db, 7) == Ascii("source-7")
  {
    assert Decimal(0) == [48] && Decimal(7) == [55];
    assert Ascii("source-0") == Ascii("source-") + [48] && Ascii("source-7") == Ascii("source-") + [55];
  }

  /** Whose AS numbers come first: openasn's on records of a weighted category, then
      openasn's others, then anyone's. */
  lemma RankOrder(db: DB, r: Record, s: Record, t: Record)
    requires r.asn != 0 && s.asn != 0 && t.asn != 0
    requires SourceName(db, r.sourceId) == Ascii("openasn") && Weight(r.category) > 0
    requires SourceName(db, s.sourceId) == Ascii("openasn") && Weight(s.category) == 0
    requires SourceName(db, t.sourceId) != Ascii("openasn")
    ensures AsnRank(db, r) > AsnRank(db, s) > AsnRank(db, t) > 0
  {
  }

  /** A listed AS number is reported as hosting by the AS list, at confidence 60,
      unless a hit's report has that key already. */
  lemma ListedAsnIsReported(db: DB, ip: Addr, hits: seq<Record>, x: Answer)
    requires IsAnswer(db, ip, hits, x) && x.asn != 0 && x.asn in db.asns
    ensures var e := Evidence(Ascii("bad-asn-list"), Ascii("hosting"), 60, true, db.asnDetail(x.asn, db.asns[x.asn]));
            e in x.evidence || EvidenceKey(e) in Keys(HitReports(db, hits))
  {
    hide EvidenceKey, Ascii, NoMatches, IsAnswer, Firsts, Keys, HitReports;
    var e := AsnReport(db, x.asn);
    FirstsMore(HitReports(db, hits), e);
    EvidenceMembers(db, ip, hits, x, e);
  }

  /** The AS list alone may be silent: when there is no AS number. */
  lemma SilentSource(db: DB, ip: Addr, hits: seq<Record>, x: Answer, s: Bytes)
    requires IsAnswer(db, ip, hits, x) && s in db.sources && s !in Matched(db, hits, x.asn)
    ensures NoMatch(s) !in x.evidence <==> s == Ascii("bad-asn-list") && x.asn == 0
  {
    hide IsAnswer, Matched, Reports, Clash, Names;
    SourceIsAccountedFor(db, ip, hits, x, s);
  }

  // ------------------------------------------------- the order, spelled out

  /** Earlier evidence has the smaller source, then the smaller category, then the
      greater confidence. */
  lemma EntriesInOrder(db: DB, ip: Addr, hits: seq<Record>, x: Answer, i: nat, j: nat)
    requires IsAnswer(db, ip, hits, x) && i < j < |x.evidence|
    ensures var a, b := x.evidence[i], x.evidence[j];
            && Compare(a.source, b.source) <= 0
            && (a.source == b.source ==> Compare(a.category, b.category) <= 0)
            && (a.source == b.source && a.category == b.category ==> a.confidence >= b.confidence)
  {
    EvidenceIsSorted(db, ip, hits, x, x.evidence[i]);
    hide IsAnswer, Gathered, Compare, TiedWith;
    var a, b := x.evidence[i], x.evidence[j];
    assert !EvidenceLess(b, a);
    CompareLaws(a.source, b.source);
    CompareLaws(b.source, a.source);
    CompareLaws(a.category, b.category);
    CompareLaws(b.category, a.category);
  }

  lemma {:induction false} VisitedConcat(a: seq<Block>, b: seq<Block>, family: byte, key: Bytes)
    ensures Visited(a + b, family, key) == Visited(a, family, key) + Visited(b, family, key)
    decreases |b|
  {
    hide Visits;
    if |b| == 0 {
      assert a + b == a;
    } else {
      var front := b[..|b| - 1];
      assert (a + b)[..|a + b| - 1] == a + front && (a + b)[|a + b| - 1] == b[|b| - 1];
      VisitedConcat(a, front, family, key);
    }
  }

  /** A block is read exactly when it is of the address's family and its bounds
      enclose the address; whatever else is in the index, readable or not. */
  lemma OtherBlocksUnread(pre: seq<Block>, b: Block, post: seq<Block>, family: byte, key: Bytes)
    ensures var rest := Visited(pre, family, key) + Visited(post, family, key);
            if b.family == family && Compare(b.first, key) <= 0 <= Compare(b.max, key)
            then Visited(pre + [b] + post, family, key) == Visited(pre, family, key) + [b] + Visited(post, family, key)
            else Visited(pre + [b] + post, family, key) == rest
  {
    hide Visited, Visits, Compare;
    VisitedConcat(pre + [b], post, family, key);
    VisitedConcat(pre, [b], family, key);
    VisitedOne(b, family, key);
    VisitsWithin(b, family, key);
    assert Visited(pre, family, key) + [] == Visited(pre, family, key);
  }

  lemma VisitedOne(b: Block, family: byte, key: Bytes)
    ensures Visited([b], family, key) == if Visits(b, family, key) then [b] else []
  {
    hide Visits;
    assert [b][..0] == [];
  }

  lemma VisitsWithin(b: Block, family: byte, key: Bytes)
    ensures Visits(b, family, key) <==> b.family == family && Compare(b.first, key) <= 0 <= Compare(b.max, key)
  {
    CompareLaws(b.first, key);
    CompareLaws(b.max, key);
    hide Compare;
  }

  // ------------------------------------------------------- who comes first

  /** The country is that of the first hit that names one. */
  lemma FirstCountry(db: DB, ip: Addr, pre: seq<Record>, r: Record, post: seq<Record>, x: Answer)
    requires IsAnswer(db, ip, pre + [r] + post, x)
    requires (forall i :: 0 <= i < |pre| ==> pre[i].country == []) && r.country != []
    ensures x.country == r.country
  {
    hide IsBestAsn, Gathered, Scored, Sort;
    var hits := pre + [r] + post;
    assert hits[|pre|] == r && forall i :: 0 <= i < |pre| ==> hits[i] == pre[i];
  }

  /** The AS number and its holder are those of the first hit of the best rank. */
  lemma FirstOfBestRank(db: DB, ip: Addr, pre: seq<Record>, r: Record, post: seq<Record>, x: Answer)
    requires IsAnswer(db, ip, pre + [r] + post, x) && r.asn != 0
    requires forall i :: 0 <= i < |pre| ==> AsnRank(db, pre[i]) < AsnRank(db, r)
    requires forall i :: 0 <= i < |post| ==> AsnRank(db, post[i]) <= AsnRank(db, r)
    ensures x.asn == r.asn && x.org == r.org
  {
    RankValue(db, r);
    hide IsFirstCountry, Gathered, Scored, Sort, AsnRank, SourceName, Weight;
    var hits := pre + [r] + post;
    assert hits[|pre|] == r && forall i :: 0 <= i < |pre| ==> hits[i] == pre[i];
    assert forall i :: |pre| < i < |hits| ==> hits[i] == post[i - |pre| - 1];
    assert x.asn != 0;
    var k :| 0 <= k < |hits| && BestAsnAt(db, hits, k) && hits[k].asn == x.asn && hits[k].org == x.org;
    assert k == |pre|;
  }
}
