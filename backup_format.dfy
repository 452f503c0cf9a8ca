/**
 * What update_database reads back from the text save_database writes.
 *
 * save_database writes the bucket marker `#<i>;` once per non-empty bucket,
 * while update_database expects `#<i>;` in front of every word. So a save
 * followed by an update restores the index when every bucket holds at most
 * one word, and otherwise loading stops after the first word of the first
 * bucket holding two or more. With the marker written before every word
 * (SerializeFixed) the round trip holds for every table the index can
 * build. Both directions of reading put nodes at the head of their lists,
 * so reloaded lists come out reversed.
 */
module BackupFormat {
  import opened Wrappers
  import opened Common
  import opened Stdio
  import opened SaveDatabase
  import opened UpdateDatabase

  // ---------------------------------------------------------------- what can be stored

  /** A field `%[^;]` reads back whole after the white space before it: not
      empty, no ';', not starting with white space. */
  predicate FieldOk(s: string) {
    |s| > 0 && NoSemicolon(s) && !IsSpace(s[0])
  }

  /** The word and file names of a node read back, and fit the loader's buffers. */
  predicate EntryStorable(e: WordEntry) {
    && FieldOk(e.word) && |e.word| < WordCapacity
    && forall j :: 0 <= j < |e.occs| ==> FieldOk(e.occs[j].file) && |e.occs[j].file| < FileNameCapacity
  }

  predicate Storable(t: Table) {
    forall i, k :: 0 <= i < |t| && 0 <= k < |t[i].words| ==> EntryStorable(t[i].words[k])
  }

  function Reverse<T>(s: seq<T>): (r: seq<T>)
    ensures |r| == |s|
    ensures forall j :: 0 <= j < |s| ==> r[j] == s[|s| - 1 - j]
  {
    if s == [] then [] else Reverse(s[1..]) + [s[0]]
  }

  /** A word node as reloaded: its subnodes in reverse order. */
  function Reloaded(e: WordEntry): WordEntry {
    e.(occs := Reverse(e.occs))
  }

  /** A bucket's word list as reloaded: reversed, each node reloaded. */
  function ReverseEntries(ws: seq<WordEntry>): (r: seq<WordEntry>)
    ensures |r| == |ws|
    ensures forall j :: 0 <= j < |ws| ==> r[j] == Reloaded(ws[|ws| - 1 - j])
  {
    if ws == [] then [] else ReverseEntries(ws[1..]) + [Reloaded(ws[0])]
  }

  /** The table as a save and a load in the corrected format leave it: the
      buckets init_hashtable numbers, each word list reloaded. */
  function ReloadedTable(t: Table): (r: Table)
    ensures |r| == |t|
    ensures forall j :: 0 <= j < |t| ==> r[j] == Bucket(j, ReverseEntries(t[j].words))
  {
    seq(|t|, j requires 0 <= j < |t| => Bucket(j, ReverseEntries(t[j].words)))
  }

  // ---------------------------------------------------------------- reading one record

  /** ` %[^;]; %d;` reads back a field and a number written after one
      white-space character. */
  lemma ScanFieldText(c: char, name: string, n: int, rest: string)
    requires IsSpace(c) && FieldOk(name)
    ensures ScanField([c] + (name + ";" + (" " + (IntToString(n) + (";" + rest))))) == Scanned(Some(Field(name, n)), rest)
  {
    var r2 := ";" + rest;
    var r1 := IntToString(n) + r2;
    var r0 := " " + r1;
    var f := name + ";" + r0;
    SkipSpaceOne(c, f);
    SkipSpaceNone(f);
    ScanSetField(name, r0);
    SkipSpaceOne(' ', r1);
    SkipSpaceNone(r1);
    ScanIntToString(n, r2);
  }

  /** ` %[^;]; %d;` reads back exactly the pair ` %s; %d;` wrote. */
  lemma ScanPairText(o: Occurrence, rest: string)
    requires FieldOk(o.file)
    ensures ScanPair(OccText(o) + rest) == Scanned(Some(o), rest)
  {
    OccShape(o, rest);
    ScanFieldText(' ', o.file, o.count, rest);
  }

  lemma OccShape(o: Occurrence, rest: string)
    ensures OccText(o) + rest == [' '] + (o.file + ";" + (" " + (IntToString(o.count) + (";" + rest))))
  {
  }

  /** `#%d; %[^;]; %d;` reads back the marker and the head of a word line. */
  lemma ScanHeaderText(i: int, e: WordEntry, rest: string)
    requires FieldOk(e.word)
    ensures ScanHeader(Marker(i) + HeadText(e) + rest) == Some(Header(i, e.word, e.fileCount, rest))
  {
    var f := ['\n'] + (e.word + ";" + (" " + (IntToString(e.fileCount) + (";" + rest))));
    var q := ";" + f;
    HeaderShape(i, e, rest);
    ScanIntToString(i, q);
    ScanFieldText('\n', e.word, e.fileCount, rest);
  }

  lemma HeaderShape(i: int, e: WordEntry, rest: string)
    ensures Marker(i) + HeadText(e) + rest ==
            "#" + (IntToString(i) + (";" + (['\n'] + (e.word + ";" + (" " + (IntToString(e.fileCount) + (";" + rest)))))))
  {
  }

  /** The pairs read one after the other from `s` are `occs`, and the
      stream is left at `rest`. */
  predicate ReadsPairs(s: string, occs: seq<Occurrence>, rest: string)
    decreases |occs|
  {
    if occs == [] then s == rest
    else ScanPair(s).value == Some(occs[0]) && ReadsPairs(ScanPair(s).rest, occs[1..], rest)
  }

  /** The inner loop, given as many pairs to read as it expects, puts them
      in reverse in front of what it had. */
  lemma {:induction false} ParsePairsReads(acc: seq<Occurrence>, s: string, occs: seq<Occurrence>, rest: string)
    requires ReadsPairs(s, occs, rest)
    ensures ParsePairs(acc, s, |occs|) == (Reverse(occs) + acc, rest)
    decreases |occs|
  {
    if occs == [] {
      ReverseNil(acc);
    } else {
      ReadsStep(acc, s, occs, rest, |occs|);
      ParsePairsReads([occs[0]] + acc, ScanPair(s).rest, occs[1..], rest);
      ReverseCons(occs, acc);
    }
  }

  /** Given more pairs to read than the last word line holds, the inner
      loop reads those it holds and stops at the ` #` that ends the text. */
  lemma {:induction false} ParsePairsShort(acc: seq<Occurrence>, s: string, occs: seq<Occurrence>, n: int)
    requires ReadsPairs(s, occs, " #\n") && n > |occs|
    ensures ParsePairs(acc, s, n) == (Reverse(occs) + acc, "")
    decreases |occs|
  {
    if occs == [] {
      ReverseNil(acc);
      PairsStopAtEnd(acc, n);
    } else {
      ReadsStep(acc, s, occs, " #\n", n);
      ParsePairsShort([occs[0]] + acc, ScanPair(s).rest, occs[1..], n - 1);
      ReverseCons(occs, acc);
    }
  }

  /** One pass of the inner loop reads the first of the pairs. */
  lemma ReadsStep(acc: seq<Occurrence>, s: string, occs: seq<Occurrence>, rest: string, n: int)
    requires occs != [] && ReadsPairs(s, occs, rest) && n >= |occs|
    ensures ReadsPairs(ScanPair(s).rest, occs[1..], rest)
    ensures ParsePairs(acc, s, n) == ParsePairs([occs[0]] + acc, ScanPair(s).rest, n - 1)
  {
    PairStep(acc, s, n);
  }

  lemma ReverseNil(acc: seq<Occurrence>)
    ensures Reverse<Occurrence>([]) + acc == acc
  {
  }

  lemma ReverseCons(occs: seq<Occurrence>, acc: seq<Occurrence>)
    requires occs != []
    ensures Reverse(occs) + acc == Reverse(occs[1..]) + ([occs[0]] + acc)
  {
    ConcatAssoc(Reverse(occs[1..]), [occs[0]], acc);
  }

  /** The subnodes save_database writes are read back one by one. */
  lemma {:induction false} ReadsOccsText(occs: seq<Occurrence>, rest: string)
    requires forall j :: 0 <= j < |occs| ==> FieldOk(occs[j].file)
    ensures ReadsPairs(OccsText(occs) + rest, occs, rest)
    decreases |occs|
  {
    if occs == [] {
      assert OccsText(occs) + rest == rest;
    } else {
      var o, tl := occs[0], occs[1..];
      assert occs == [o] + tl;
      OccsTextCons(o, tl);
      ConcatAssoc(OccText(o), OccsText(tl), rest);
      ScanPairText(o, OccsText(tl) + rest);
      ReadsOccsText(tl, rest);
    }
  }

  /** The inner loop reads the written pairs back, in reverse, and then goes
      on with the pairs left to read. */
  lemma ParsePairsText(acc: seq<Occurrence>, occs: seq<Occurrence>, rest: string)
    requires forall j :: 0 <= j < |occs| ==> FieldOk(occs[j].file)
    ensures ParsePairs(acc, OccsText(occs) + rest, |occs|) == (Reverse(occs) + acc, rest)
  {
    ReadsOccsText(occs, rest);
    ParsePairsReads(acc, OccsText(occs) + rest, occs, rest);
  }

  /** ` #\n` after a word line, before the next marker or the end. */
  lemma ScanTrailerText(rest: string)
    requires rest == [] || !IsSpace(rest[0])
    ensures ScanTrailer(" #\n" + rest) == rest
  {
    var t := "#\n" + rest;
    assert " #\n" + rest == [' '] + t;
    SkipSpaceOne(' ', t);
    SkipSpaceNone(t);
    assert t[1..] == ['\n'] + rest;
    SkipSpaceOne('\n', rest);
    SkipSpaceNone(rest);
  }

  lemma EntryShape(i: int, e: WordEntry, rest: string)
    ensures Marker(i) + EntryText(e) + rest == Marker(i) + HeadText(e) + (OccsText(e.occs) + (" #\n" + rest))
  {
  }

  /** A marker and one word line read back as one record. */
  lemma RecordsEntry(i: int, e: WordEntry, rest: string)
    requires EntryStorable(e) && e.fileCount == |e.occs|
    requires rest == [] || !IsSpace(rest[0])
    ensures Records(Marker(i) + EntryText(e) + rest) == [Record(i, Reloaded(e))] + Records(rest)
  {
    var tail := " #\n" + rest;
    var body := OccsText(e.occs) + tail;
    EntryShape(i, e, rest);
    ScanHeaderText(i, e, body);
    ParsePairsText([], e.occs, tail);
    assert Reverse(e.occs) + [] == Reverse(e.occs);
    ScanTrailerText(rest);
  }

  // ---------------------------------------------------------------- reading a run of records

  /** What the loader finds where a record may start: the end of the text or
      a marker. */
  predicate StartsMarker(s: string) {
    s == [] || s[0] == '#'
  }

  /** The records the loader reads for the words of bucket i, in list order. */
  function RecordsOf(i: int, ws: seq<WordEntry>): seq<Record> {
    if ws == [] then [] else [Record(i, Reloaded(ws[0]))] + RecordsOf(i, ws[1..])
  }

  /** The records of buckets lo..hi-1, in bucket order. */
  function AllRecords(t: Table, lo: nat, hi: nat): seq<Record>
    requires lo <= hi <= |t|
    decreases hi - lo
  {
    if lo == hi then [] else RecordsOf(lo, t[lo].words) + AllRecords(t, lo + 1, hi)
  }

  /** Every entry of a list can be stored and has as many subnodes as its file_count. */
  predicate EntriesStorable(ws: seq<WordEntry>) {
    forall k :: 0 <= k < |ws| ==> EntryStorable(ws[k]) && ws[k].fileCount == |ws[k].occs|
  }

  lemma BucketStorable(t: Table, i: nat)
    requires Valid(t) && Storable(t) && i < |t|
    ensures EntriesStorable(t[i].words)
  {
    assert BucketValid(i, t[i]);
  }

  lemma MarkedStart(i: int, ws: seq<WordEntry>, rest: string)
    requires StartsMarker(rest)
    ensures StartsMarker(MarkedEntries(i, ws) + rest)
  {
    if ws != [] {
      assert (MarkedEntries(i, ws) + rest)[0] == Marker(i)[0];
    }
  }

  lemma MarkedCons(i: int, ws: seq<WordEntry>, rest: string)
    requires ws != []
    ensures MarkedEntries(i, ws) + rest == Marker(i) + EntryText(ws[0]) + (MarkedEntries(i, ws[1..]) + rest)
  {
    ConcatAssoc(Marker(i) + EntryText(ws[0]), MarkedEntries(i, ws[1..]), rest);
  }

  /** The words of a bucket written each with its own marker read back as
      one record each, in list order. */
  lemma {:induction false} RecordsMarked(i: int, ws: seq<WordEntry>, rest: string)
    requires EntriesStorable(ws) && StartsMarker(rest)
    ensures Records(MarkedEntries(i, ws) + rest) == RecordsOf(i, ws) + Records(rest)
    decreases |ws|
  {
    if ws == [] {
      assert MarkedEntries(i, ws) + rest == rest;
      assert RecordsOf(i, ws) + Records(rest) == Records(rest);
    } else {
      var tail := MarkedEntries(i, ws[1..]) + rest;
      MarkedStart(i, ws[1..], rest);
      MarkedCons(i, ws, rest);
      assert EntriesStorable(ws[1..]);
      RecordsEntry(i, ws[0], tail);
      RecordsMarked(i, ws[1..], rest);
      RecordsOfCons(i, ws, Records(rest));
    }
  }

  lemma RecordsOfCons(i: int, ws: seq<WordEntry>, rs: seq<Record>)
    requires ws != []
    ensures RecordsOf(i, ws) + rs == [Record(i, Reloaded(ws[0]))] + (RecordsOf(i, ws[1..]) + rs)
  {
    ConcatAssoc([Record(i, Reloaded(ws[0]))], RecordsOf(i, ws[1..]), rs);
  }

  lemma FixedStart(t: Table, lo: nat, hi: nat, rest: string)
    requires lo <= hi <= |t| && StartsMarker(rest)
    ensures StartsMarker(FixedRange(t, lo, hi) + rest)
    decreases hi - lo
  {
    if lo < hi {
      FixedStart(t, lo + 1, hi, rest);
      MarkedStart(lo, t[lo].words, FixedRange(t, lo + 1, hi) + rest);
      ConcatAssoc(MarkedEntries(lo, t[lo].words), FixedRange(t, lo + 1, hi), rest);
    } else {
      assert FixedRange(t, lo, hi) + rest == rest;
    }
  }

  /** Buckets lo..hi-1 in the corrected format read back as their records. */
  lemma {:induction false} RecordsFixed(t: Table, lo: nat, hi: nat, rest: string)
    requires Valid(t) && Storable(t) && lo <= hi <= |t| && StartsMarker(rest)
    ensures Records(FixedRange(t, lo, hi) + rest) == AllRecords(t, lo, hi) + Records(rest)
    decreases hi - lo
  {
    if lo == hi {
      assert FixedRange(t, lo, hi) + rest == rest;
      assert AllRecords(t, lo, hi) + Records(rest) == Records(rest);
    } else {
      var tail := FixedRange(t, lo + 1, hi) + rest;
      FixedStart(t, lo + 1, hi, rest);
      ConcatAssoc(MarkedEntries(lo, t[lo].words), FixedRange(t, lo + 1, hi), rest);
      BucketStorable(t, lo);
      RecordsMarked(lo, t[lo].words, tail);
      RecordsFixed(t, lo + 1, hi, rest);
      ConcatAssoc(RecordsOf(lo, t[lo].words), AllRecords(t, lo + 1, hi), Records(rest));
    }
  }

  lemma RecordsEmpty()
    ensures Records("") == []
  {
    assert ScanHeader("") == None;
  }

  // ---------------------------------------------------------------- applying the records

  lemma AllFitAppend(a: seq<Record>, b: seq<Record>)
    requires AllFit(a) && AllFit(b)
    ensures AllFit(a + b)
  {
    forall k | 0 <= k < |a + b|
      ensures RecordFits((a + b)[k])
    {
      if k >= |a| {
        assert (a + b)[k] == b[k - |a|];
      }
    }
  }

  lemma {:induction false} RecordsOfFit(i: int, ws: seq<WordEntry>)
    requires 0 <= i < BucketCount && EntriesStorable(ws)
    ensures AllFit(RecordsOf(i, ws))
    decreases |ws|
  {
    if ws != [] {
      RecordsOfFit(i, ws[1..]);
      var rs := RecordsOf(i, ws);
      assert rs == [Record(i, Reloaded(ws[0]))] + RecordsOf(i, ws[1..]);
      assert RecordFits(rs[0]);
      AllFitAppend([rs[0]], RecordsOf(i, ws[1..]));
    }
  }

  lemma {:induction false} AllRecordsFit(t: Table, lo: nat, hi: nat)
    requires Valid(t) && Storable(t) && lo <= hi <= |t|
    ensures AllFit(AllRecords(t, lo, hi))
    decreases hi - lo
  {
    if lo < hi {
      BucketStorable(t, lo);
      RecordsOfFit(lo, t[lo].words);
      AllRecordsFit(t, lo + 1, hi);
      AllFitAppend(RecordsOf(lo, t[lo].words), AllRecords(t, lo + 1, hi));
    }
  }

  /** Records are applied one after the other. */
  lemma {:induction false} ApplyAppend(u: Table, a: seq<Record>, b: seq<Record>)
    requires |u| == BucketCount && AllFit(a) && AllFit(b)
    ensures AllFit(a + b)
    ensures ApplyRecords(u, a + b) == ApplyRecords(ApplyRecords(u, a), b)
    decreases |a|
  {
    AllFitAppend(a, b);
    if a == [] {
      assert a + b == b;
    } else {
      assert (a + b)[0] == a[0];
      assert (a + b)[1..] == a[1..] + b;
      assert AllFit(a[1..]);
      ApplyAppend(AddRecord(u, a[0]), a[1..], b);
    }
  }

  /** The records of one bucket's words prepend its reloaded list to bucket i. */
  lemma {:induction false} ApplyRecordsOf(u: Table, i: int, ws: seq<WordEntry>)
    requires |u| == BucketCount && 0 <= i < BucketCount && AllFit(RecordsOf(i, ws))
    ensures ApplyRecords(u, RecordsOf(i, ws)) == u[i := Bucket(u[i].index, ReverseEntries(ws) + u[i].words)]
    decreases |ws|
  {
    var rs := RecordsOf(i, ws);
    if ws == [] {
      assert ReverseEntries(ws) + u[i].words == u[i].words;
      assert Bucket(u[i].index, u[i].words) == u[i];
    } else {
      var m := Reloaded(ws[0]);
      var u1 := AddRecord(u, Record(i, m));
      assert rs[0] == Record(i, m) && rs[1..] == RecordsOf(i, ws[1..]);
      ApplyRecordsOf(u1, i, ws[1..]);
      assert ReverseEntries(ws) == ReverseEntries(ws[1..]) + [m];
      ConcatAssoc(ReverseEntries(ws[1..]), [m], u[i].words);
    }
  }

  /** Bucket j of `u` after the records of buckets lo..hi-1 of `t`. */
  function Fill(u: Table, t: Table, lo: nat, hi: nat): (r: Table)
    requires |u| == |t| == BucketCount
    ensures |r| == BucketCount
  {
    seq(BucketCount, j requires 0 <= j < BucketCount =>
      if lo <= j < hi then Bucket(u[j].index, ReverseEntries(t[j].words) + u[j].words) else u[j])
  }

  lemma {:induction false} ApplyAll(u: Table, t: Table, lo: nat, hi: nat)
    requires |u| == BucketCount && Valid(t) && Storable(t) && lo <= hi <= |t|
    ensures AllFit(AllRecords(t, lo, hi))
    ensures ApplyRecords(u, AllRecords(t, lo, hi)) == Fill(u, t, lo, hi)
    decreases hi - lo
  {
    AllRecordsFit(t, lo, hi);
    if lo == hi {
      assert Fill(u, t, lo, hi) == u;
    } else {
      var a, b := RecordsOf(lo, t[lo].words), AllRecords(t, lo + 1, hi);
      BucketStorable(t, lo);
      RecordsOfFit(lo, t[lo].words);
      AllRecordsFit(t, lo + 1, hi);
      ApplyAppend(u, a, b);
      ApplyRecordsOf(u, lo, t[lo].words);
      var u1 := u[lo := Bucket(u[lo].index, ReverseEntries(t[lo].words) + u[lo].words)];
      ApplyAll(u1, t, lo + 1, hi);
      assert Fill(u1, t, lo + 1, hi) == Fill(u, t, lo, hi);
    }
  }

  // ---------------------------------------------------------------- round trips

  /** In the corrected format every table the index keeps reads back whole:
      the loader stays within its buffers and rebuilds every bucket, with
      every list reversed. */
  lemma LoadSerializeFixed(t: Table)
    requires Valid(t) && Storable(t)
    ensures LoadSafe(SerializeFixed(t))
    ensures Load(SerializeFixed(t)) == ReloadedTable(t)
  {
    RecordsSerializeFixed(t);
    ApplyAll(EmptyTable(), t, 0, BucketCount);
    FillEmpty(t);
  }

  lemma RecordsSerializeFixed(t: Table)
    requires Valid(t) && Storable(t)
    ensures Records(SerializeFixed(t)) == AllRecords(t, 0, BucketCount)
  {
    RecordsFixed(t, 0, BucketCount, "");
    RecordsEmpty();
    assert SerializeFixed(t) + "" == SerializeFixed(t);
    assert AllRecords(t, 0, BucketCount) + [] == AllRecords(t, 0, BucketCount);
  }

  lemma FillEmpty(t: Table)
    requires |t| == BucketCount
    ensures Fill(EmptyTable(), t, 0, BucketCount) == ReloadedTable(t)
  {
    var f, r := Fill(EmptyTable(), t, 0, BucketCount), ReloadedTable(t);
    forall j | 0 <= j < BucketCount
      ensures f[j] == r[j]
    {
      assert ReverseEntries(t[j].words) + [] == ReverseEntries(t[j].words);
    }
  }

  // ---------------------------------------------------------------- the format as written

  /** Each bucket holds at most one word. */
  predicate SingleWords(t: Table) {
    forall i :: 0 <= i < |t| ==> |t[i].words| <= 1
  }

  lemma BucketTextSingle(i: int, ws: seq<WordEntry>)
    requires |ws| <= 1
    ensures BucketText(i, ws) == MarkedEntries(i, ws)
  {
    if |ws| == 1 {
      assert ws[..0] == [] && ws[1..] == [];
      assert EntriesText(ws) == EntryText(ws[0]);
    }
  }

  lemma {:induction false} RangeSingle(t: Table, lo: nat, hi: nat)
    requires lo <= hi <= |t| && forall i :: lo <= i < hi ==> |t[i].words| <= 1
    ensures Range(t, lo, hi) == FixedRange(t, lo, hi)
    decreases hi - lo
  {
    if lo == hi {
      RangeNone(t, lo);
    } else {
      RangeSingle(t, lo + 1, hi);
      RangeCons(t, lo, hi);
    }
  }

  /** An empty range of buckets is the empty text in both formats. */
  lemma RangeNone(t: Table, lo: nat)
    requires lo <= |t|
    ensures Range(t, lo, lo) == "" && FixedRange(t, lo, lo) == ""
  {
  }

  /** A bucket with at most one word, followed by buckets whose two texts
      agree, gives the same text in both formats. */
  lemma RangeCons(t: Table, lo: nat, hi: nat)
    requires lo < hi <= |t|
    requires |t[lo].words| <= 1
    requires Range(t, lo + 1, hi) == FixedRange(t, lo + 1, hi)
    ensures Range(t, lo, hi) == FixedRange(t, lo, hi)
  {
    BucketTextSingle(lo, t[lo].words);
    RangeStep(t, lo, hi);
  }

  /** Both texts of buckets lo..hi-1 start with bucket lo. */
  lemma RangeStep(t: Table, lo: nat, hi: nat)
    requires lo < hi <= |t|
    ensures Range(t, lo, hi) == BucketText(lo, t[lo].words) + Range(t, lo + 1, hi)
    ensures FixedRange(t, lo, hi) == MarkedEntries(lo, t[lo].words) + FixedRange(t, lo + 1, hi)
  {
  }

  /** With at most one word per bucket, one marker per bucket is one marker
      per word: the text save_database writes is the corrected format. */
  lemma SingleWordSerialize(t: Table)
    requires |t| == BucketCount && SingleWords(t)
    ensures Serialize(t) == SerializeFixed(t)
  {
    PrefixIsRange(t, BucketCount);
    RangeSingle(t, 0, BucketCount);
  }

  /** The round trip as written: save_database then update_database rebuilds
      the index when no bucket holds two words. */
  lemma LoadSerialize(t: Table)
    requires Valid(t) && Storable(t) && SingleWords(t)
    ensures LoadSafe(Serialize(t))
    ensures Load(Serialize(t)) == ReloadedTable(t)
  {
    SingleWordSerialize(t);
    LoadSerializeFixed(t);
  }

  lemma {:induction false} RangeSplit(t: Table, lo: nat, mid: nat, hi: nat)
    requires lo <= mid <= hi <= |t|
    ensures Range(t, lo, hi) == Range(t, lo, mid) + Range(t, mid, hi)
    decreases mid - lo
  {
    if lo == mid {
      assert Range(t, lo, mid) + Range(t, mid, hi) == Range(t, mid, hi);
    } else {
      RangeSplit(t, lo + 1, mid, hi);
      ConcatAssoc(BucketText(lo, t[lo].words), Range(t, lo + 1, mid), Range(t, mid, hi));
    }
  }

  /** The text of a non-empty bucket: its marker, its first word's line,
      and then the lines of the other words. */
  lemma BucketTextCons(i: int, ws: seq<WordEntry>, rest: string)
    requires ws != []
    ensures BucketText(i, ws) + rest == Marker(i) + EntryText(ws[0]) + (EntriesText(ws[1..]) + rest)
  {
    assert ws == [ws[0]] + ws[1..];
    EntriesTextCons(ws[0], ws[1..]);
    ConcatAssoc(Marker(i), EntryText(ws[0]), EntriesText(ws[1..]));
    ConcatAssoc(Marker(i) + EntryText(ws[0]), EntriesText(ws[1..]), rest);
  }

  /** The lines of a non-empty word list start with its first word. */
  lemma EntriesTextFirst(ws: seq<WordEntry>, rest: string)
    requires ws != [] && |ws[0].word| > 0
    ensures |EntriesText(ws) + rest| > 0 && (EntriesText(ws) + rest)[0] == ws[0].word[0]
  {
    assert ws == [ws[0]] + ws[1..];
    EntriesTextCons(ws[0], ws[1..]);
    assert EntryText(ws[0])[0] == ws[0].word[0];
  }

  /** Where the first bucket holding two words or more begins, the loader
      reads its first word and then finds the second word's text where a
      marker should be, and stops. */
  lemma RecordsStop(t: Table, i: nat)
    requires Valid(t) && Storable(t) && i < BucketCount
    requires |t[i].words| >= 2 && t[i].words[1].word[0] != '#'
    requires forall j :: 0 <= j < i ==> |t[j].words| <= 1
    ensures Records(Serialize(t)) == AllRecords(t, 0, i) + [Record(i, Reloaded(t[i].words[0]))]
  {
    var ws := t[i].words;
    BucketStorable(t, i);
    var after := Range(t, i + 1, BucketCount);
    var x := EntriesText(ws[1..]) + after;
    var y := Marker(i) + EntryText(ws[0]) + x;
    PrefixIsRange(t, BucketCount);
    RangeSplit(t, 0, i, BucketCount);
    assert Range(t, i, BucketCount) == BucketText(i, ws) + after;
    BucketTextCons(i, ws, after);
    RangeSingle(t, 0, i);
    assert Serialize(t) == FixedRange(t, 0, i) + y;
    EntriesTextFirst(ws[1..], after);
    assert y[0] == '#';
    RecordsFixed(t, 0, i, y);
    RecordsEntry(i, ws[0], x);
    assert ScanHeader(x) == None;
    assert Records(y) == [Record(i, Reloaded(ws[0]))];
  }

  /** The load as written, from the first bucket with two words or more:
      buckets before it come back, that bucket keeps only its first word,
      and its second word and every later bucket are lost. */
  lemma LoadStops(t: Table, i: nat)
    requires Valid(t) && Storable(t) && i < BucketCount
    requires |t[i].words| >= 2 && t[i].words[1].word[0] != '#'
    requires forall j :: 0 <= j < i ==> |t[j].words| <= 1
    ensures LoadSafe(Serialize(t))
    ensures Load(Serialize(t)) == Truncated(t, i)
    ensures FindWord(Load(Serialize(t))[i].words, t[i].words[1].word).None?
  {
    var rs := AllRecords(t, 0, i) + [Record(i, Reloaded(t[i].words[0]))];
    RecordsStop(t, i);
    StopTable(t, i);
    LoadOfRecords(Serialize(t), rs);
    LostWord(t, i);
  }

  /** The table the load as written leaves when bucket i is the first with
      two words or more. */
  function Truncated(t: Table, i: nat): (r: Table)
    requires |t| == BucketCount && i < BucketCount && t[i].words != []
    ensures |r| == BucketCount
  {
    Fill(EmptyTable(), t, 0, i)[i := Bucket(i, [Reloaded(t[i].words[0])])]
  }

  lemma LoadOfRecords(s: string, rs: seq<Record>)
    requires Records(s) == rs && AllFit(rs)
    ensures LoadSafe(s) && Load(s) == ApplyRecords(EmptyTable(), rs)
  {
  }

  lemma StopTable(t: Table, i: nat)
    requires Valid(t) && Storable(t) && i < BucketCount && t[i].words != []
    ensures AllFit(AllRecords(t, 0, i) + [Record(i, Reloaded(t[i].words[0]))])
    ensures ApplyRecords(EmptyTable(), AllRecords(t, 0, i) + [Record(i, Reloaded(t[i].words[0]))]) == Truncated(t, i)
  {
    var r := Record(i, Reloaded(t[i].words[0]));
    BucketStorable(t, i);
    assert RecordFits(r);
    ApplyAll(EmptyTable(), t, 0, i);
    ApplyAppend(EmptyTable(), AllRecords(t, 0, i), [r]);
    var u := Fill(EmptyTable(), t, 0, i);
    ApplyOne(u, r);
    FillAt(t, i);
  }

  lemma ApplyOne(u: Table, r: Record)
    requires |u| == BucketCount && RecordFits(r)
    ensures AllFit([r]) && ApplyRecords(u, [r]) == AddRecord(u, r)
  {
    assert [r][1..] == [];
  }

  /** Bucket i is still empty before the record for it is applied. */
  lemma FillAt(t: Table, i: nat)
    requires |t| == BucketCount && i < BucketCount && t[i].words != []
    ensures AddRecord(Fill(EmptyTable(), t, 0, i), Record(i, Reloaded(t[i].words[0]))) == Truncated(t, i)
  {
    var u := Fill(EmptyTable(), t, 0, i);
    assert u[i] == EmptyTable()[i];
    assert [Reloaded(t[i].words[0])] + [] == [Reloaded(t[i].words[0])];
  }

  lemma LostWord(t: Table, i: nat)
    requires Valid(t) && i < BucketCount && |t[i].words| >= 2
    ensures FindWord(Truncated(t, i)[i].words, t[i].words[1].word).None?
  {
    assert BucketValid(i, t[i]);
    assert t[i].words[0].word != t[i].words[1].word;
  }

  // ---------------------------------------------------------------- what the reloaded index answers

  predicate DistinctWords(ws: seq<WordEntry>) {
    forall j, k :: 0 <= j < k < |ws| ==> ws[j].word != ws[k].word
  }

  predicate DistinctFiles(occs: seq<Occurrence>) {
    forall j, k :: 0 <= j < k < |occs| ==> occs[j].file != occs[k].file
  }

  /** In a list without repeated words, the reversed list finds the same
      node, reloaded. */
  lemma FindReversed(ws: seq<WordEntry>, word: string)
    requires DistinctWords(ws)
    ensures FindWord(ReverseEntries(ws), word).None? <==> FindWord(ws, word).None?
    ensures FindWord(ws, word).Some? ==>
              ReverseEntries(ws)[FindWord(ReverseEntries(ws), word).value] == Reloaded(ws[FindWord(ws, word).value])
  {
    var rs := ReverseEntries(ws);
    var n := |ws|;
    if FindWord(ws, word).Some? {
      var k := FindWord(ws, word).value;
      assert rs[n - 1 - k].word == word;
      var k' := FindWord(rs, word).value;
      assert ws[n - 1 - k'].word == word;
    }
  }

  /** In a list without repeated files, the reversed list records the same
      count for every file. */
  lemma LookupReversed(occs: seq<Occurrence>, file: string)
    requires DistinctFiles(occs)
    ensures Lookup(Reverse(occs), file) == Lookup(occs, file)
  {
    var rs := Reverse(occs);
    var n := |occs|;
    if FindFile(occs, file).Some? {
      var k := FindFile(occs, file).value;
      assert rs[n - 1 - k].file == file;
      var k' := FindFile(rs, file).value;
      assert occs[n - 1 - k'].file == file;
    }
  }

  /** The reloaded table holds, for every word and file, the same count and
      the same file_count as the table that was saved. */
  lemma ReloadedAnswers(t: Table, word: string, file: string)
    requires Valid(t)
    ensures Count(ReloadedTable(t), word, file) == Count(t, word, file)
    ensures Has(ReloadedTable(t), word, file) <==> Has(t, word, file)
    ensures FileCount(ReloadedTable(t), word) == FileCount(t, word)
  {
    var i := GetIndex(word);
    var ws := t[i].words;
    assert BucketValid(i, t[i]);
    FindReversed(ws, word);
    var found := FindWord(ws, word);
    if found.Some? {
      assert EntryValid(ws[found.value]);
      LookupReversed(ws[found.value].occs, file);
    }
  }

  /** The reloaded table is again a well-formed index. */
  lemma ReloadedValid(t: Table)
    requires Valid(t)
    ensures Valid(ReloadedTable(t))
  {
    var r := ReloadedTable(t);
    forall i | 0 <= i < BucketCount
      ensures BucketValid(i, r[i])
    {
      assert BucketValid(i, t[i]);
      ReloadedBucketValid(i, t[i].words);
    }
  }

  lemma ReloadedBucketValid(i: int, ws: seq<WordEntry>)
    requires BucketValid(i, Bucket(i, ws))
    ensures BucketValid(i, Bucket(i, ReverseEntries(ws)))
  {
    var rs := ReverseEntries(ws);
    var n := |ws|;
    forall k | 0 <= k < n
      ensures GetIndex(rs[k].word) == i && EntryValid(rs[k])
    {
      ReloadedEntryValid(ws[n - 1 - k]);
    }
    forall j, k | 0 <= j < k < n
      ensures rs[j].word != rs[k].word
    {
      assert rs[j].word == ws[n - 1 - j].word && rs[k].word == ws[n - 1 - k].word;
    }
  }

  lemma ReloadedEntryValid(m: WordEntry)
    requires EntryValid(m)
    ensures EntryValid(Reloaded(m))
  {
    var rs := Reverse(m.occs);
    var n := |m.occs|;
    forall j, k | 0 <= j < k < n
      ensures rs[j].file != rs[k].file
    {
      assert rs[j] == m.occs[n - 1 - j] && rs[k] == m.occs[n - 1 - k];
    }
    forall j | 0 <= j < n
      ensures rs[j].count >= 1
    {
      assert rs[j] == m.occs[n - 1 - j];
    }
  }

  /** Saving in the corrected format and loading the text back keeps every
      count and file_count of the index. */
  lemma RoundTripAnswers(t: Table, word: string, file: string)
    requires Valid(t) && Storable(t)
    ensures LoadSafe(SerializeFixed(t))
    ensures Count(Load(SerializeFixed(t)), word, file) == Count(t, word, file)
    ensures FileCount(Load(SerializeFixed(t)), word) == FileCount(t, word)
    ensures Valid(Load(SerializeFixed(t)))
  {
    LoadSerializeFixed(t);
    ReloadedAnswers(t, word, file);
    ReloadedValid(t);
  }

  // ---------------------------------------------------------------- a file_count the pairs do not reach

  /** At the end of the text, the ` #` that ends a word line is no pair:
      the inner loop stops there and the stream is used up. */
  lemma PairsStopAtEnd(acc: seq<Occurrence>, n: int)
    requires n > 0
    ensures ParsePairs(acc, " #\n", n) == (acc, "")
  {
    var s, t := " #\n", "#\n";
    assert s[1..] == t && t[1..] == "\n" && t[2..] == "" && t[..2] == t;
    assert Span(t[2..], NonSemicolon) == 0;
    assert Span(t[1..], NonSemicolon) == 1;
    assert Span(t, NonSemicolon) == 2;
    assert ScanSet(t) == Scanned(Some(t), "");
    assert ScanField(s) == Scanned(None, "");
    PairStep(acc, s, n);
  }

  /** A last word line whose header promises more files than it lists is
      read with the header's file_count. */
  lemma RecordsShort(i: int, e: WordEntry)
    requires EntryStorable(e) && e.fileCount > |e.occs|
    ensures Records(Marker(i) + EntryText(e)) == [Record(i, Reloaded(e))]
  {
    var rest: string := [];
    var tail := " #\n" + rest;
    var body := OccsText(e.occs) + tail;
    var text := Marker(i) + EntryText(e) + rest;
    assert text == Marker(i) + EntryText(e);
    EntryShape(i, e, rest);
    ScanHeaderText(i, e, body);
    ReadsOccsText(e.occs, tail);
    assert tail == " #\n";
    ParsePairsShort([], body, e.occs, e.fileCount);
    assert Reverse(e.occs) + [] == Reverse(e.occs);
    TrailerAtEnd();
  }

  lemma TrailerAtEnd()
    ensures ScanTrailer("") == "" && Records("") == []
  {
    RecordsEmpty();
  }

  /** Such a line is loaded as it reads, so the reloaded node breaks
      `file_count == |subnodes|` and the table is no longer a well-formed
      index. */
  lemma FileCountFromHeader(i: int, e: WordEntry)
    requires EntryStorable(e) && e.fileCount > |e.occs| && 0 <= i < BucketCount
    ensures LoadSafe(Marker(i) + EntryText(e))
    ensures Load(Marker(i) + EntryText(e))[i].words == [Reloaded(e)]
    ensures !Valid(Load(Marker(i) + EntryText(e)))
  {
    var text := Marker(i) + EntryText(e);
    var r := Record(i, Reloaded(e));
    RecordsShort(i, e);
    assert RecordFits(r);
    LoadOfRecords(text, [r]);
    ApplyOne(EmptyTable(), r);
    var u := Load(text);
    assert u[i].words == [Reloaded(e)] + [];
    assert !EntryValid(u[i].words[0]);
    assert !BucketValid(i, u[i]);
  }
}
