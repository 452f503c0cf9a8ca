/**
 * save_database.c: write the table to the backup text. Buckets are visited
 * in order 0..26; a non-empty bucket writes one marker line `#<i>;` and
 * then, for each word of its list, `<word>; <file_count>;`, one
 * ` <file>; <count>;` per subnode and ` #` ending the line. The backup
 * file's contents are the method's result.
 */
module SaveDatabase {
  import opened Common
  import opened Stdio

  /** ` %s; %d;` for one subnode. */
  function OccText(o: Occurrence): string {
    " " + o.file + "; " + IntToString(o.count) + ";"
  }

  /** The subnodes of a word, in list order. */
  function OccsText(occs: seq<Occurrence>): string {
    if occs == [] then "" else OccsText(occs[..|occs| - 1]) + OccText(occs[|occs| - 1])
  }

  /** `%s; %d;` for the word node. */
  function HeadText(m: WordEntry): string {
    m.word + "; " + IntToString(m.fileCount) + ";"
  }

  /** One word's line: its head, its subnodes and the end marker. */
  function EntryText(m: WordEntry): string {
    HeadText(m) + OccsText(m.occs) + " #\n"
  }

  /** The words of a bucket, in list order. */
  function EntriesText(ws: seq<WordEntry>): string {
    if ws == [] then "" else EntriesText(ws[..|ws| - 1]) + EntryText(ws[|ws| - 1])
  }

  /** The bucket marker line `#%d;`. */
  function Marker(i: int): string {
    "#" + IntToString(i) + ";\n"
  }

  /** An empty bucket writes nothing; any other writes one marker and its words. */
  function BucketText(i: int, ws: seq<WordEntry>): string {
    if ws == [] then "" else Marker(i) + EntriesText(ws)
  }

  /** What the first n passes of the bucket loop write. */
  function Prefix(t: Table, n: nat): string
    requires n <= |t|
  {
    if n == 0 then "" else Prefix(t, n - 1) + BucketText(n - 1, t[n - 1].words)
  }

  /** The whole backup text. */
  function Serialize(t: Table): string
    requires |t| == BucketCount
  {
    Prefix(t, BucketCount)
  }

  /** save_database: the loop over the 27 buckets, skipping empty ones. The
      table is only read. */
  method SaveDatabase(table: array<Bucket>) returns (out: string)
    requires table.Length == BucketCount
    ensures out == Serialize(table[..])
  {
    out := "";
    for i := 0 to BucketCount
      invariant out == Prefix(table[..], i)
    {
      var ws := table[i].words;
      if ws == [] {
        assert out + BucketText(i, ws) == out;
        continue;
      }
      ghost var before := out;
      out := WriteBucket(out, i, ws);
      ConcatAssoc(before, Marker(i), EntriesText(ws));
    }
  }

  /** The marker line of a non-empty bucket, then its word list in order. */
  method WriteBucket(out: string, i: int, ws: seq<WordEntry>) returns (r: string)
    ensures r == out + Marker(i) + EntriesText(ws)
  {
    r := out + Marker(i);
    var j := 0;
    while j < |ws|
      invariant 0 <= j <= |ws|
      invariant r == out + Marker(i) + EntriesText(ws[..j])
    {
      r := WriteEntry(r, ws[j]);
      assert ws[..j + 1][..j] == ws[..j];
      ConcatAssoc(out + Marker(i), EntriesText(ws[..j]), EntryText(ws[j]));
      j := j + 1;
    }
    assert ws[..j] == ws;
  }

  /** One word's line: `%s; %d;`, then ` %s; %d;` per subnode, then ` #`. */
  method WriteEntry(out: string, m: WordEntry) returns (r: string)
    ensures r == out + EntryText(m)
  {
    r := out + HeadText(m);
    var k := 0;
    while k < |m.occs|
      invariant 0 <= k <= |m.occs|
      invariant r == out + HeadText(m) + OccsText(m.occs[..k])
    {
      assert m.occs[..k + 1][..k] == m.occs[..k];
      ConcatAssoc(out + HeadText(m), OccsText(m.occs[..k]), OccText(m.occs[k]));
      r := r + OccText(m.occs[k]);
      k := k + 1;
    }
    assert m.occs[..k] == m.occs;
    ConcatAssoc(out, HeadText(m), OccsText(m.occs));
    ConcatAssoc(out, HeadText(m) + OccsText(m.occs), " #\n");
    r := r + " #\n";
  }

  // ---------------------------------------------------------------- the format the loader reads

  /** The backup text with the bucket marker written before every word rather
      than once per bucket, which is the format update_database reads. */
  function SerializeFixed(t: Table): string
    requires |t| == BucketCount
  {
    FixedRange(t, 0, BucketCount)
  }

  /** Buckets lo..hi-1 in the corrected format. */
  function FixedRange(t: Table, lo: nat, hi: nat): string
    requires lo <= hi <= |t|
    decreases hi - lo
  {
    if lo == hi then "" else MarkedEntries(lo, t[lo].words) + FixedRange(t, lo + 1, hi)
  }

  /** Each word of bucket i with its own marker line. */
  function MarkedEntries(i: int, ws: seq<WordEntry>): string {
    if ws == [] then "" else Marker(i) + EntryText(ws[0]) + MarkedEntries(i, ws[1..])
  }

  // ---------------------------------------------------------------- properties

  /** Right-to-left views of the left-to-right definitions, for reading the
      text back from its start. */
  lemma {:induction false} OccsTextCons(o: Occurrence, occs: seq<Occurrence>)
    ensures OccsText([o] + occs) == OccText(o) + OccsText(occs)
    decreases |occs|
  {
    var s := [o] + occs;
    if occs != [] {
      assert s[..|s| - 1] == [o] + occs[..|occs| - 1];
      OccsTextCons(o, occs[..|occs| - 1]);
    } else {
      assert s[..|s| - 1] == [];
    }
  }

  lemma {:induction false} EntriesTextCons(m: WordEntry, ws: seq<WordEntry>)
    ensures EntriesText([m] + ws) == EntryText(m) + EntriesText(ws)
    decreases |ws|
  {
    var s := [m] + ws;
    if ws != [] {
      assert s[..|s| - 1] == [m] + ws[..|ws| - 1];
      EntriesTextCons(m, ws[..|ws| - 1]);
    } else {
      assert s[..|s| - 1] == [];
    }
  }

  /** The text of buckets lo..hi-1. */
  function Range(t: Table, lo: nat, hi: nat): string
    requires lo <= hi <= |t|
    decreases hi - lo
  {
    if lo == hi then "" else BucketText(lo, t[lo].words) + Range(t, lo + 1, hi)
  }

  lemma {:induction false} RangeSnoc(t: Table, lo: nat, hi: nat)
    requires lo < hi <= |t|
    ensures Range(t, lo, hi) == Range(t, lo, hi - 1) + BucketText(hi - 1, t[hi - 1].words)
    decreases hi - lo
  {
    var b, last := BucketText(lo, t[lo].words), BucketText(hi - 1, t[hi - 1].words);
    if lo + 1 < hi {
      RangeSnoc(t, lo + 1, hi);
      ConcatAssoc(b, Range(t, lo + 1, hi - 1), last);
    } else {
      assert b + "" == b && "" + b == b;
    }
  }

  lemma {:induction false} PrefixIsRange(t: Table, n: nat)
    requires n <= |t|
    ensures Prefix(t, n) == Range(t, 0, n)
  {
    if n > 0 {
      PrefixIsRange(t, n - 1);
      RangeSnoc(t, 0, n);
    }
  }

  /** An empty table saves as an empty file, and only an empty table does. */
  lemma SerializeEmpty(t: Table)
    requires |t| == BucketCount
    ensures Serialize(t) == "" <==> forall i :: 0 <= i < |t| ==> t[i].words == []
  {
    PrefixEmpty(t, BucketCount);
  }

  lemma {:induction false} PrefixEmpty(t: Table, n: nat)
    requires n <= |t|
    ensures Prefix(t, n) == "" <==> forall i :: 0 <= i < n ==> t[i].words == []
  {
    if n > 0 {
      PrefixEmpty(t, n - 1);
      if t[n - 1].words != [] {
        assert |Marker(n - 1)| > 0;
      }
    }
  }
}
