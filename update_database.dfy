/**
 * update_database.c: rebuild the table from the backup text. A missing
 * backup leaves the table alone; otherwise the table is reset and records
 * are read with `fscanf` while the header `#%d; %[^;]; %d;` converts all
 * three of its fields. Each record's word node is put at the head of its
 * bucket with the header's file_count, and up to file_count
 * ` %[^;]; %d;` pairs are put, each at the head of the word's subnodes;
 * a pair that fails to convert ends that record's pairs. ` #\n` is then
 * skipped.
 */
module UpdateDatabase {
  import opened Wrappers
  import opened Common
  import opened Stdio

  /** The three fields of a record header and the text after it. */
  datatype Header = Header(index: int, word: string, fileCount: int, rest: string)

  /** A field read by `%[^;]` and the number after it. */
  datatype Field = Field(name: string, number: int)

  /** The directives ` %[^;]; %d;` that end both the header and a pair:
      white space, a field up to ';', the ';', white space and a number.
      A final ';' no longer affects fscanf's result and is consumed only
      when present. On failure, the text where the stream is left. */
  function ScanField(s: string): (r: Scanned<Field>)
    ensures |r.rest| <= |s|
    ensures r.value.Some? ==> |r.rest| < |s|
  {
    if |s| > 0 && IsSpace(s[0]) then ScanField(s[1..])
    else
      var name := ScanSet(s);
      if name.value.None? then Scanned(None, name.rest)
      else match Literal(name.rest, ';')
      case None => Scanned(None, name.rest)
      case Some(s1) =>
        var count := ScanInt(s1);
        if count.value.None? then Scanned(None, count.rest)
        else Scanned(Some(Field(name.value.value, count.value.value)), OptionalLiteral(count.rest, ';'))
  }

  /** `fscanf(fp, "#%d; %[^;]; %d;", ...) == 3`: Some exactly when all three
      conversions succeed. */
  function ScanHeader(s: string): (r: Option<Header>)
    ensures r.Some? ==> |r.value.rest| < |s|
  {
    match Literal(s, '#')
    case None => None
    case Some(s1) =>
      var index := ScanInt(s1);
      if index.value.None? then None
      else match Literal(index.rest, ';')
      case None => None
      case Some(s2) =>
        var field := ScanField(s2);
        if field.value.None? then None
        else Some(Header(index.value.value, field.value.value.name, field.value.value.number, field.rest))
  }

  /** `fscanf(fp, " %[^;]; %d;", ...) == 2`, and where the stream is left
      when it is not. */
  function ScanPair(s: string): (r: Scanned<Occurrence>)
    ensures |r.rest| <= |s|
    ensures r.value.Some? ==> |r.rest| < |s|
  {
    var field := ScanField(s);
    if field.value.None? then Scanned(None, field.rest)
    else Scanned(Some(Occurrence(field.value.value.name, field.value.value.number)), field.rest)
  }

  /** The inner loop: at most n pairs, each put in front of `acc`; the first
      pair that fails to convert ends it. */
  function ParsePairs(acc: seq<Occurrence>, s: string, n: int): (r: (seq<Occurrence>, string))
    ensures |r.1| <= |s|
    ensures |r.0| <= |acc| + (if n > 0 then n else 0)
    decreases if n > 0 then n else 0
  {
    if n <= 0 then (acc, s)
    else
      var pair := ScanPair(s);
      match pair.value
      case None => (acc, pair.rest)
      case Some(o) => ParsePairs([o] + acc, pair.rest, n - 1)
  }

  lemma PairStep(acc: seq<Occurrence>, s: string, n: int)
    requires n > 0
    ensures ScanPair(s).value.None? ==> ParsePairs(acc, s, n) == (acc, ScanPair(s).rest)
    ensures ScanPair(s).value.Some? ==>
              ParsePairs(acc, s, n) == ParsePairs([ScanPair(s).value.value] + acc, ScanPair(s).rest, n - 1)
  {
  }

  /** `fscanf(fp, " #\n")`: white space, a '#' if there is one, white space. */
  function ScanTrailer(s: string): (r: string)
    ensures |r| <= |s|
  {
    var t := SkipSpace(s);
    if |t| > 0 && t[0] == '#' then SkipSpace(t[1..]) else t
  }

  /** One loaded word node and the bucket the header named. */
  datatype Record = Record(index: int, entry: WordEntry)

  /** The records the outer loop reads, in file order, until a header fails. */
  function Records(s: string): seq<Record>
    decreases |s|
  {
    match ScanHeader(s)
    case None => []
    case Some(h) =>
      var (occs, after) := ParsePairs([], h.rest, h.fileCount);
      [Record(h.index, WordEntry(h.word, h.fileCount, occs))] + Records(ScanTrailer(after))
  }

  /** What the C code needs of a record not to index outside the table or
      overflow the `word[30]` and `file_name[100]` buffers. */
  predicate RecordFits(r: Record) {
    && 0 <= r.index < BucketCount
    && |r.entry.word| < WordCapacity
    && forall j :: 0 <= j < |r.entry.occs| ==> |r.entry.occs[j].file| < FileNameCapacity
  }

  predicate AllFit(rs: seq<Record>) {
    forall k :: 0 <= k < |rs| ==> RecordFits(rs[k])
  }

  predicate LoadSafe(s: string) {
    AllFit(Records(s))
  }

  /** A record's word node goes to the head of its bucket. */
  function AddRecord(t: Table, r: Record): (u: Table)
    requires |t| == BucketCount && 0 <= r.index < BucketCount
    ensures |u| == BucketCount
  {
    t[r.index := Bucket(t[r.index].index, [r.entry] + t[r.index].words)]
  }

  function ApplyRecords(t: Table, rs: seq<Record>): (u: Table)
    requires |t| == BucketCount && AllFit(rs)
    ensures |u| == BucketCount
    decreases |rs|
  {
    if rs == [] then t else ApplyRecords(AddRecord(t, rs[0]), rs[1..])
  }

  /** The table after update_database reads a backup text. */
  function Load(s: string): (t: Table)
    requires LoadSafe(s)
    ensures |t| == BucketCount
  {
    ApplyRecords(EmptyTable(), Records(s))
  }

  /** update_database. `backup` is the content of backup.txt, None when it
      cannot be opened. */
  method UpdateDatabase(table: array<Bucket>, backup: Option<string>)
    requires table.Length == BucketCount
    requires backup.Some? ==> LoadSafe(backup.value)
    modifies table
    ensures backup.None? ==> table[..] == old(table[..])
    ensures backup.Some? ==> table[..] == Load(backup.value)
  {
    if backup.None? {
      return;
    }
    var text := backup.value;
    InitHashtable(table);
    var rest := text;
    var header := ScanHeader(rest);
    while header.Some?
      invariant header == ScanHeader(rest)
      invariant LoadSafe(rest)
      invariant ApplyRecords(table[..], Records(rest)) == Load(text)
      decreases |rest|
    {
      var h := header.value;
      ghost var start := table[..];
      ghost var parsed := ParsePairs([], h.rest, h.fileCount);
      ghost var record := Record(h.index, WordEntry(h.word, h.fileCount, parsed.0));
      assert Records(rest) == [record] + Records(ScanTrailer(parsed.1));
      assert RecordFits(record);
      var m := NewMainnode(h.word).(fileCount := h.fileCount);
      var b := table[h.index];
      table[h.index] := Bucket(b.index, [m] + b.words);
      var cursor;
      m, cursor := ReadSubnodes(table, h.index, b, m, h.rest);
      assert table[..] == AddRecord(start, record);
      rest := ScanTrailer(cursor);
      header := ScanHeader(rest);
    }
  }

  /** The inner loop of update_database: up to file_count pairs, each put at
      the head of the subnodes of the word node `m`, which heads bucket
      `index` in front of the words of `b`. */
  method ReadSubnodes(table: array<Bucket>, index: int, b: Bucket, m0: WordEntry, s: string)
      returns (m: WordEntry, cursor: string)
    requires 0 <= index < table.Length
    requires table[index] == Bucket(b.index, [m0] + b.words)
    modifies table
    ensures m.word == m0.word && m.fileCount == m0.fileCount
    ensures (m.occs, cursor) == ParsePairs(m0.occs, s, m0.fileCount)
    ensures table[..] == old(table[..])[index := Bucket(b.index, [m] + b.words)]
  {
    ghost var parsed := ParsePairs(m0.occs, s, m0.fileCount);
    m, cursor := m0, s;
    var i := 0;
    assert m0.fileCount - i == m0.fileCount;
    while i < m0.fileCount
      invariant ParsePairs(m.occs, cursor, m0.fileCount - i) == parsed
      invariant m.word == m0.word && m.fileCount == m0.fileCount
      invariant table[..] == old(table[..])[index := Bucket(b.index, [m] + b.words)]
      decreases m0.fileCount - i
    {
      var pair := ScanPair(cursor);
      PairStep(m.occs, cursor, m0.fileCount - i);
      if pair.value.None? {
        cursor := pair.rest;
        break;
      }
      var sub := NewSubnode(pair.value.value.file).(count := pair.value.value.count);
      assert sub == pair.value.value;
      m := m.(occs := [sub] + m.occs);
      table[index] := Bucket(b.index, [m] + b.words);
      cursor := pair.rest;
      i := i + 1;
    }
    assert (m.occs, cursor) == parsed;
  }
}
