/**
 * The inverted index of common.c and inverted_search.h.
 *
 * The table is an array of 27 buckets. Bucket i holds a list of word entries
 * (the "mainnodes"), newest first; every word entry owns a list of occurrences
 * (the "subnodes"): a file name and how many times the word occurs in it.
 * Linked lists become sequences whose element 0 is the list head, and the
 * nodes, which no two lists ever share, become datatype values.
 */
module Common {
  import opened Wrappers

  /** Return codes of the C functions. */
  const Success := 1
  const Failure := 0

  /** 26 letter buckets and one catch-all bucket. */
  const BucketCount := 27
  /** Sizes of the character buffers `word[30]` and `file_name[100]` / `filename[100]`. */
  const WordCapacity := 30
  const FileNameCapacity := 100

  /** A subnode: one file the word occurs in, and how often. */
  datatype Occurrence = Occurrence(file: string, count: int)

  /** A mainnode: a word, its `file_count` and its subnode list (head first). */
  datatype WordEntry = WordEntry(word: string, fileCount: int, occs: seq<Occurrence>)

  /** One cell of `hashtable table[27]`: its index and its word list (head first). */
  datatype Bucket = Bucket(index: int, words: seq<WordEntry>)

  type Table = seq<Bucket>

  // ---------------------------------------------------------------- bucketing

  /** `isalpha` in the C locale. */
  predicate IsAlpha(c: char) {
    'a' <= c <= 'z' || 'A' <= c <= 'Z'
  }

  /** `tolower` in the C locale. */
  function ToLower(c: char): char {
    if 'A' <= c <= 'Z' then (c as int + 32) as char else c
  }

  /** get_index: the bucket of a word, chosen by its first character. */
  function GetIndex(word: string): (i: int)
    ensures 0 <= i < BucketCount
    ensures |word| > 0 && 'a' <= word[0] <= 'z' ==> i == word[0] as int - 'a' as int
    ensures |word| > 0 && 'A' <= word[0] <= 'Z' ==> i == word[0] as int - 'A' as int
    ensures i == 26 <==> |word| == 0 || !IsAlpha(word[0])
  {
    if |word| > 0 && IsAlpha(word[0]) then ToLower(word[0]) as int - 'a' as int else 26
  }

  /** Words whose first letters differ only in case share a bucket. */
  lemma GetIndexIgnoresCase(u: string, v: string)
    requires |u| > 0 && |v| > 0 && 'a' <= u[0] <= 'z' && v[0] as int == u[0] as int - 32
    ensures GetIndex(u) == GetIndex(v) < 26
  {
  }

  // ---------------------------------------------------------------- the table

  /** The table init_hashtable leaves behind. */
  function EmptyTable(): (t: Table)
    ensures |t| == BucketCount
    ensures forall i :: 0 <= i < |t| ==> t[i].index == i && t[i].words == []
  {
    seq(BucketCount, i => Bucket(i, []))
  }

  /** init_hashtable: every bucket i gets index i and an empty word list. */
  method InitHashtable(table: array<Bucket>)
    requires table.Length == BucketCount
    modifies table
    ensures table[..] == EmptyTable()
  {
    for i := 0 to BucketCount
      invariant forall j :: 0 <= j < i ==> table[j] == Bucket(j, [])
    {
      table[i] := Bucket(i, []);
    }
  }

  /** The invariants the insertion path keeps: file_count is the length of the
      subnode list, counts are positive and file names are distinct. */
  ghost predicate EntryValid(m: WordEntry) {
    && m.fileCount == |m.occs|
    && (forall j :: 0 <= j < |m.occs| ==> m.occs[j].count >= 1)
    && (forall j, k :: 0 <= j < k < |m.occs| ==> m.occs[j].file != m.occs[k].file)
  }

  /** Bucket i carries index i, holds only words that hash to i, and no word twice. */
  ghost predicate BucketValid(i: int, b: Bucket) {
    && b.index == i
    && (forall k :: 0 <= k < |b.words| ==> GetIndex(b.words[k].word) == i && EntryValid(b.words[k]))
    && (forall j, k :: 0 <= j < k < |b.words| ==> b.words[j].word != b.words[k].word)
  }

  ghost predicate Valid(t: Table) {
    |t| == BucketCount && forall i :: 0 <= i < |t| ==> BucketValid(i, t[i])
  }

  lemma EmptyTableValid()
    ensures Valid(EmptyTable())
  {
  }

  // ---------------------------------------------------------------- node creation

  /** create_mainnode: a word with no files yet. */
  function NewMainnode(word: string): (m: WordEntry)
    ensures m.word == word && EntryValid(m) && m.occs == []
  {
    WordEntry(word, 0, [])
  }

  /** create_subnode: a file seen once. */
  function NewSubnode(file: string): (o: Occurrence)
    ensures o.file == file && o.count == 1
  {
    Occurrence(file, 1)
  }

  // ---------------------------------------------------------------- lookup

  /** The position of the first word entry equal to `word`, if any. */
  function FindWord(words: seq<WordEntry>, word: string): (r: Option<nat>)
    ensures r.Some? ==> r.value < |words| && words[r.value].word == word
    ensures r.Some? ==> forall j :: 0 <= j < r.value ==> words[j].word != word
    ensures r.None? <==> forall j :: 0 <= j < |words| ==> words[j].word != word
  {
    if words == [] then None
    else if words[0].word == word then Some(0)
    else match FindWord(words[1..], word)
      case None => None
      case Some(k) => Some(k + 1)
  }

  /** search_mainnode: walks the word list and stops at the first exact match. */
  method SearchMainnode(head: seq<WordEntry>, word: string) returns (r: Option<nat>)
    ensures r == FindWord(head, word)
  {
    var k := 0;
    while k < |head|
      invariant 0 <= k <= |head|
      invariant forall j :: 0 <= j < k ==> head[j].word != word
    {
      if head[k].word == word {
        return Some(k);
      }
      k := k + 1;
    }
    return None;
  }

  /** The position of the first subnode for `file`, if any. */
  function FindFile(occs: seq<Occurrence>, file: string): (r: Option<nat>)
    ensures r.Some? ==> r.value < |occs| && occs[r.value].file == file
    ensures r.Some? ==> forall j :: 0 <= j < r.value ==> occs[j].file != file
    ensures r.None? <==> forall j :: 0 <= j < |occs| ==> occs[j].file != file
  {
    if occs == [] then None
    else if occs[0].file == file then Some(0)
    else match FindFile(occs[1..], file)
      case None => None
      case Some(k) => Some(k + 1)
  }

  /** The count a subnode list records for a file, as a partial map. */
  function Lookup(occs: seq<Occurrence>, file: string): Option<int> {
    match FindFile(occs, file)
    case None => None
    case Some(j) => Some(occs[j].count)
  }

  // ---------------------------------------------------------------- insertion

  /** What insert_subnode does to a word entry: count one more sighting in `file`. */
  function AddOccurrence(m: WordEntry, file: string): (r: WordEntry)
    ensures r.word == m.word
  {
    match FindFile(m.occs, file)
    case Some(j) => m.(occs := m.occs[j := m.occs[j].(count := m.occs[j].count + 1)])
    case None => m.(fileCount := m.fileCount + 1, occs := [NewSubnode(file)] + m.occs)
  }

  /** FindFile is unaffected by replacing a subnode with one for the same file. */
  lemma FindFileReplace(occs: seq<Occurrence>, j: nat, o: Occurrence, file: string)
    requires j < |occs| && o.file == occs[j].file
    ensures FindFile(occs[j := o], file) == FindFile(occs, file)
  {
    var r, r' := FindFile(occs, file), FindFile(occs[j := o], file);
    if r.Some? {
      assert occs[j := o][r.value].file == file;
    }
  }

  /** FindFile on a list with a subnode prepended. */
  lemma FindFilePrepend(o: Occurrence, occs: seq<Occurrence>, file: string)
    ensures Lookup([o] + occs, file) ==
              if o.file == file then Some(o.count) else Lookup(occs, file)
  {
    assert ([o] + occs)[1..] == occs;
  }

  /** insert_subnode seen as an update of the partial map file -> count: the
      count for `file` goes up by one (from nothing to 1 for a new file), no
      other file's count changes, file_count grows exactly when a subnode is
      added, and the entry invariants are kept. */
  lemma AddOccurrenceSpec(m: WordEntry, file: string)
    ensures Lookup(AddOccurrence(m, file).occs, file) ==
              Some(match Lookup(m.occs, file) case None => 1 case Some(c) => c + 1)
    ensures forall f :: f != file ==> Lookup(AddOccurrence(m, file).occs, f) == Lookup(m.occs, f)
    ensures AddOccurrence(m, file).fileCount ==
              m.fileCount + (if Lookup(m.occs, file).None? then 1 else 0)
    ensures Lookup(m.occs, file).None? ==> AddOccurrence(m, file).occs == [Occurrence(file, 1)] + m.occs
    ensures Lookup(m.occs, file).Some? ==> |AddOccurrence(m, file).occs| == |m.occs|
    ensures EntryValid(m) ==> EntryValid(AddOccurrence(m, file))
  {
    var r := AddOccurrence(m, file);
    match FindFile(m.occs, file)
    case Some(j) =>
      forall f ensures FindFile(r.occs, f) == FindFile(m.occs, f) {
        FindFileReplace(m.occs, j, r.occs[j], f);
      }
    case None =>
      forall f ensures Lookup(r.occs, f) == if f == file then Some(1) else Lookup(m.occs, f) {
        FindFilePrepend(NewSubnode(file), m.occs, f);
      }
  }

  /** insert_subnode: a found subnode is incremented in place, otherwise a new
      subnode is linked in at the head and file_count goes up by one. */
  method InsertSubnode(m: WordEntry, file: string) returns (r: WordEntry)
    ensures r == AddOccurrence(m, file)
  {
    var k := 0;
    while k < |m.occs|
      invariant 0 <= k <= |m.occs|
      invariant forall j :: 0 <= j < k ==> m.occs[j].file != file
    {
      if m.occs[k].file == file {
        return m.(occs := m.occs[k := m.occs[k].(count := m.occs[k].count + 1)]);
      }
      k := k + 1;
    }
    r := m.(occs := [NewSubnode(file)] + m.occs, fileCount := m.fileCount + 1);
  }

  /** What insert_word does to the table: find or prepend the word's entry in
      its own bucket, then add the sighting to that entry. */
  function Insert(t: Table, word: string, file: string): (r: Table)
    requires |t| == BucketCount
    ensures |r| == BucketCount
    ensures forall i :: 0 <= i < BucketCount && i != GetIndex(word) ==> r[i] == t[i]
    ensures r[GetIndex(word)].index == t[GetIndex(word)].index
    ensures FindWord(r[GetIndex(word)].words, word).Some?
  {
    var i := GetIndex(word);
    var ws := t[i].words;
    match FindWord(ws, word)
    case Some(k) =>
      var m := AddOccurrence(ws[k], file);
      assert ws[k := m][k].word == word;
      t[i := t[i].(words := ws[k := m])]
    case None => t[i := t[i].(words := [AddOccurrence(NewMainnode(word), file)] + ws)]
  }

  /** insert_word. The word and file name are copied into `word[30]` and
      `file_name[100]`, so they must fit. */
  method InsertWord(table: array<Bucket>, word: string, file: string)
    requires table.Length == BucketCount
    requires |word| < WordCapacity && |file| < FileNameCapacity
    modifies table
    ensures table[..] == Insert(old(table[..]), word, file)
  {
    var i := GetIndex(word);
    var found := SearchMainnode(table[i].words, word);
    var k := 0;
    if found.None? {
      table[i] := table[i].(words := [NewMainnode(word)] + table[i].words);
    } else {
      k := found.value;
    }
    var m := InsertSubnode(table[i].words[k], file);
    table[i] := table[i].(words := table[i].words[k := m]);
    assert found.None? ==> table[i].words == [AddOccurrence(NewMainnode(word), file)] + old(table[i].words);
  }

  // ---------------------------------------------------------------- abstract view

  /** The count the table records for (word, file); 0 when there is none. */
  function Count(t: Table, word: string, file: string): int
    requires |t| == BucketCount
  {
    var ws := t[GetIndex(word)].words;
    match FindWord(ws, word)
    case None => 0
    case Some(k) => match Lookup(ws[k].occs, file) case None => 0 case Some(c) => c
  }

  /** Whether the word's entry has a subnode for the file. */
  predicate Has(t: Table, word: string, file: string)
    requires |t| == BucketCount
  {
    var ws := t[GetIndex(word)].words;
    match FindWord(ws, word)
    case None => false
    case Some(k) => Lookup(ws[k].occs, file).Some?
  }

  /** The file_count of the word's entry; 0 when the word is absent. */
  function FileCount(t: Table, word: string): int
    requires |t| == BucketCount
  {
    var ws := t[GetIndex(word)].words;
    match FindWord(ws, word)
    case None => 0
    case Some(k) => ws[k].fileCount
  }

  /** FindWord is unaffected by replacing an entry with one for the same word. */
  lemma FindWordReplace(ws: seq<WordEntry>, k: nat, m: WordEntry, word: string)
    requires k < |ws| && m.word == ws[k].word
    ensures FindWord(ws[k := m], word) == FindWord(ws, word)
  {
    var r, r' := FindWord(ws, word), FindWord(ws[k := m], word);
    if r.Some? {
      assert ws[k := m][r.value].word == word;
    }
  }

  /** FindWord past a prepended entry for a different word. */
  lemma FindWordPrepend(ws: seq<WordEntry>, m: WordEntry, word: string)
    requires m.word != word
    ensures FindWord([m] + ws, word) ==
              match FindWord(ws, word) case None => None case Some(k) => Some(k + 1)
  {
    assert ([m] + ws)[1..] == ws;
  }

  /** insert_word keeps every table invariant: words stay in their own bucket
      and distinct, and every entry keeps file_count equal to its number of
      subnodes, positive counts and distinct file names. */
  lemma InsertPreservesValid(t: Table, word: string, file: string)
    requires Valid(t)
    ensures Valid(Insert(t, word, file))
  {
    var i, r := GetIndex(word), Insert(t, word, file);
    InsertBucketValid(t, word, file);
    forall j | 0 <= j < |r|
      ensures BucketValid(j, r[j])
    {
      if j != i {
        assert r[j] == t[j];
      }
    }
  }

  /** The bucket insert_word changes stays valid. */
  lemma InsertBucketValid(t: Table, word: string, file: string)
    requires Valid(t)
    ensures BucketValid(GetIndex(word), Insert(t, word, file)[GetIndex(word)])
  {
    var i := GetIndex(word);
    assert BucketValid(i, t[i]);
    match FindWord(t[i].words, word)
    case Some(k) =>
      UpdateEntryValid(i, t[i], k, file);
    case None =>
      PrependEntryValid(i, t[i], word, file);
  }

  lemma UpdateEntryValid(i: int, b: Bucket, k: nat, file: string)
    requires BucketValid(i, b) && k < |b.words|
    ensures BucketValid(i, b.(words := b.words[k := AddOccurrence(b.words[k], file)]))
  {
    AddOccurrenceSpec(b.words[k], file);
  }

  lemma PrependEntryValid(i: int, b: Bucket, word: string, file: string)
    requires BucketValid(i, b) && GetIndex(word) == i
    requires forall j :: 0 <= j < |b.words| ==> b.words[j].word != word
    ensures BucketValid(i, b.(words := [AddOccurrence(NewMainnode(word), file)] + b.words))
  {
    AddOccurrenceSpec(NewMainnode(word), file);
    var ws' := [AddOccurrence(NewMainnode(word), file)] + b.words;
    assert forall j :: 1 <= j < |ws'| ==> ws'[j] == b.words[j - 1];
  }

  /** The entry for `w` in the table after inserting `word`: the old entry with
      the new sighting added if `w` is `word`, otherwise the old entry. */
  lemma InsertEntry(t: Table, word: string, file: string, w: string)
    requires |t| == BucketCount
    ensures var ws, ws' := t[GetIndex(w)].words, Insert(t, word, file)[GetIndex(w)].words;
            && FindWord(ws', w).Some? == (FindWord(ws, w).Some? || w == word)
            && (FindWord(ws', w).Some? ==>
                  ws'[FindWord(ws', w).value] ==
                    if w != word then ws[FindWord(ws, w).value]
                    else if FindWord(ws, w).Some? then AddOccurrence(ws[FindWord(ws, w).value], file)
                    else AddOccurrence(NewMainnode(word), file))
  {
    var i := GetIndex(word);
    var ws := t[i].words;
    if GetIndex(w) == i {
      match FindWord(ws, word)
      case Some(k) =>
        FindWordReplace(ws, k, AddOccurrence(ws[k], file), w);
      case None =>
        if w != word {
          FindWordPrepend(ws, AddOccurrence(NewMainnode(word), file), w);
        }
    }
  }

  /** One insertion raises Count by one at (word, file) and nowhere else. */
  lemma InsertCount(t: Table, word: string, file: string, w: string, f: string)
    requires |t| == BucketCount
    ensures Count(Insert(t, word, file), w, f) ==
              Count(t, w, f) + (if w == word && f == file then 1 else 0)
  {
    InsertEntry(t, word, file, w);
    var ws := t[GetIndex(w)].words;
    if w == word {
      match FindWord(ws, w)
      case Some(k) => AddOccurrenceSpec(ws[k], file);
      case None => AddOccurrenceSpec(NewMainnode(word), file);
    }
  }

  /** One insertion adds the subnode (word, file) and no other. */
  lemma InsertHas(t: Table, word: string, file: string, w: string, f: string)
    requires |t| == BucketCount
    ensures Has(Insert(t, word, file), w, f) <==> Has(t, w, f) || (w == word && f == file)
  {
    InsertEntry(t, word, file, w);
    var ws := t[GetIndex(w)].words;
    if w == word {
      match FindWord(ws, w)
      case Some(k) => AddOccurrenceSpec(ws[k], file);
      case None => AddOccurrenceSpec(NewMainnode(word), file);
    }
  }

  /** One insertion raises the word's file_count exactly when the file is new for it. */
  lemma InsertFileCount(t: Table, word: string, file: string, w: string)
    requires |t| == BucketCount
    ensures FileCount(Insert(t, word, file), w) ==
              FileCount(t, w) + (if w == word && !Has(t, word, file) then 1 else 0)
  {
    InsertEntry(t, word, file, w);
    var ws := t[GetIndex(w)].words;
    if w == word {
      match FindWord(ws, w)
      case Some(k) => AddOccurrenceSpec(ws[k], file);
      case None => AddOccurrenceSpec(NewMainnode(word), file);
    }
  }

  // ---------------------------------------------------------------- totals

  function SumBy<T>(s: seq<T>, f: T -> int): int {
    if s == [] then 0 else f(s[0]) + SumBy(s[1..], f)
  }

  lemma {:induction false} SumByUpdate<T>(s: seq<T>, k: nat, v: T, f: T -> int)
    requires k < |s|
    ensures SumBy(s[k := v], f) == SumBy(s, f) - f(s[k]) + f(v)
  {
    if k > 0 {
      assert s[k := v][1..] == s[1..][k - 1 := v];
      SumByUpdate(s[1..], k - 1, v, f);
    }
  }

  lemma SumByPrepend<T>(x: T, s: seq<T>, f: T -> int)
    ensures SumBy([x] + s, f) == f(x) + SumBy(s, f)
  {
    assert ([x] + s)[1..] == s;
  }

  function OccCount(o: Occurrence): int { o.count }
  function EntryTotal(m: WordEntry): int { SumBy(m.occs, OccCount) }
  function BucketTotal(b: Bucket): int { SumBy(b.words, EntryTotal) }

  /** The sum of all counts in the table: the number of word sightings recorded. */
  function Total(t: Table): int { SumBy(t, BucketTotal) }

  lemma AddOccurrenceTotal(m: WordEntry, file: string)
    ensures EntryTotal(AddOccurrence(m, file)) == EntryTotal(m) + 1
  {
    match FindFile(m.occs, file)
    case Some(j) =>
      SumByUpdate(m.occs, j, m.occs[j].(count := m.occs[j].count + 1), OccCount);
    case None =>
      SumByPrepend(NewSubnode(file), m.occs, OccCount);
  }

  /** Each insert_word raises the sum of all counts by exactly one. */
  lemma InsertTotal(t: Table, word: string, file: string)
    requires |t| == BucketCount
    ensures Total(Insert(t, word, file)) == Total(t) + 1
  {
    var i := GetIndex(word);
    var ws := t[i].words;
    match FindWord(ws, word)
    case Some(k) =>
      var m := AddOccurrence(ws[k], file);
      AddOccurrenceTotal(ws[k], file);
      SumByUpdate(ws, k, m, EntryTotal);
      SumByUpdate(t, i, t[i].(words := ws[k := m]), BucketTotal);
    case None =>
      var m := AddOccurrence(NewMainnode(word), file);
      AddOccurrenceTotal(NewMainnode(word), file);
      SumByPrepend(m, ws, EntryTotal);
      SumByUpdate(t, i, t[i].(words := [m] + ws), BucketTotal);
  }

  // ---------------------------------------------------------------- repetition

  /** `n` calls of insert_word with the same word and file. */
  function InsertTimes(t: Table, word: string, file: string, n: nat): (r: Table)
    requires |t| == BucketCount
    ensures |r| == BucketCount
  {
    if n == 0 then t else Insert(InsertTimes(t, word, file, n - 1), word, file)
  }

  /** The table holding only `word`, seen n times in `file`. */
  function Single(word: string, file: string, n: int): (r: Table)
    ensures |r| == BucketCount
  {
    EmptyTable()[GetIndex(word) := Bucket(GetIndex(word), [WordEntry(word, 1, [Occurrence(file, n)])])]
  }

  /** Inserting the same (word, file) n times into an empty table gives one
      word entry with file_count 1 and one subnode of count n. */
  lemma {:induction false} RepeatedInsert(word: string, file: string, n: nat)
    requires n >= 1
    ensures InsertTimes(EmptyTable(), word, file, n) == Single(word, file, n)
  {
    if n > 1 {
      RepeatedInsert(word, file, n - 1);
    }
    InsertTimesStep(word, file, n);
  }

  lemma InsertTimesStep(word: string, file: string, n: nat)
    requires n >= 1
    requires n > 1 ==> InsertTimes(EmptyTable(), word, file, n - 1) == Single(word, file, n - 1)
    ensures InsertTimes(EmptyTable(), word, file, n) == Single(word, file, n)
  {
    if n == 1 {
      InsertFirst(word, file);
    } else {
      InsertAgain(word, file, n - 1);
    }
  }

  /** The first insertion creates the word node with one subnode. */
  lemma InsertFirst(word: string, file: string)
    ensures InsertTimes(EmptyTable(), word, file, 1) == Single(word, file, 1)
  {
    var i := GetIndex(word);
    assert FindWord(EmptyTable()[i].words, word) == None;
    assert FindFile(NewMainnode(word).occs, file) == None;
    var m := WordEntry(word, 1, [Occurrence(file, 1)]);
    assert AddOccurrence(NewMainnode(word), file) == m;
    assert InsertTimes(EmptyTable(), word, file, 1) == Insert(EmptyTable(), word, file);
    assert [m] + EmptyTable()[i].words == [m];
  }

  /** A further insertion raises the count of the one subnode. */
  lemma InsertAgain(word: string, file: string, n: int)
    ensures Insert(Single(word, file, n), word, file) == Single(word, file, n + 1)
  {
    var i := GetIndex(word);
    var t := Single(word, file, n);
    var m := WordEntry(word, 1, [Occurrence(file, n)]);
    assert t[i].words == [m];
    assert FindWord(t[i].words, word) == Some(0);
    assert FindFile(m.occs, file) == Some(0);
    assert AddOccurrence(m, file) == WordEntry(word, 1, [Occurrence(file, n + 1)]);
    assert [m][0 := AddOccurrence(m, file)] == [WordEntry(word, 1, [Occurrence(file, n + 1)])];
  }
}
