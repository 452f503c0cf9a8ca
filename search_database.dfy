/**
 * search_database.c: look a word up in its own bucket and report it. An
 * empty word is refused, a word absent from its bucket is reported as not
 * present, and a present word is reported with its bucket index, its
 * file_count and every subnode in list order. The table is only read; the
 * text printed on the terminal is the method's result.
 */
module SearchDatabase {
  import opened Wrappers
  import opened Common
  import opened Stdio
  import opened CreateDatabase

  /** The three outcomes of a search. Found carries the bucket's index field
      and the word node that matched. */
  datatype Outcome = Invalid | NotFound | Found(index: int, entry: WordEntry)

  /** The lookup: the word's bucket by get_index, then the first node whose
      word equals it exactly. get_index always lies in 0..26, so the range
      guard of the C code has no case of its own here. */
  function Search(t: Table, word: string): (r: Outcome)
    requires |t| == BucketCount
    ensures r.Invalid? <==> word == []
    ensures r.NotFound? <==>
              word != [] && forall k :: 0 <= k < |t[GetIndex(word)].words| ==> t[GetIndex(word)].words[k].word != word
    ensures r.Found? ==> r.index == t[GetIndex(word)].index && r.entry.word == word && r.entry in t[GetIndex(word)].words
  {
    if word == [] then Invalid
    else
      var ws := t[GetIndex(word)].words;
      match FindWord(ws, word)
      case None => NotFound
      case Some(k) => Found(t[GetIndex(word)].index, ws[k])
  }

  // ---------------------------------------------------------------- the report

  /** `%-<width>s` and `%-<width>d`: left-justified, padded with blanks to
      the width, never cut. */
  function PadRight(s: string, width: nat): (r: string)
    ensures |r| == if |s| < width then width else |s|
    ensures r[..|s|] == s
    ensures forall j :: |s| <= j < |r| ==> r[j] == ' '
  {
    if |s| >= width then s else PadRight(s, width - 1) + " "
  }

  /** ` | File:%-15s : %d` for one subnode. */
  function FileText(o: Occurrence): string {
    " | File:" + PadRight(o.file, 15) + " : " + IntToString(o.count)
  }

  /** The subnodes of the found word, in list order. */
  function FilesText(occs: seq<Occurrence>): string {
    if occs == [] then "" else FilesText(occs[..|occs| - 1]) + FileText(occs[|occs| - 1])
  }

  /** `[%-2d]   %-20s %-10d` for the found word. */
  function SummaryText(index: int, m: WordEntry): string {
    "[" + PadRight(IntToString(index), 2) + "]   " + PadRight(m.word, 20) + " " + PadRight(IntToString(m.fileCount), 10)
  }

  /** What search_database prints for each outcome. */
  function Report(r: Outcome, word: string): string {
    match r
    case Invalid => "Please Provide a valid word !\n"
    case NotFound => "Word " + word + " is not present in database.\n"
    case Found(index, m) => SummaryText(index, m) + FilesText(m.occs) + "\n"
  }

  /** search_database. The table is only read. */
  method SearchDatabase(table: array<Bucket>, word: string) returns (out: string)
    requires table.Length == BucketCount
    ensures out == Report(Search(table[..], word), word)
  {
    if word == [] {
      return "Please Provide a valid word !\n";
    }
    var index := GetIndex(word);
    var found := SearchMainnode(table[index].words, word);
    if found.None? {
      return "Word " + word + " is not present in database.\n";
    }
    var m := table[index].words[found.value];
    ghost var head := SummaryText(table[index].index, m);
    out := SummaryText(table[index].index, m);
    var k := 0;
    while k < |m.occs|
      invariant 0 <= k <= |m.occs|
      invariant out == head + FilesText(m.occs[..k])
    {
      FilesTextSnoc(m.occs, k);
      ConcatAssoc(head, FilesText(m.occs[..k]), FileText(m.occs[k]));
      out := out + FileText(m.occs[k]);
      k := k + 1;
    }
    assert m.occs[..k] == m.occs;
    out := out + "\n";
  }

  lemma FilesTextSnoc(occs: seq<Occurrence>, k: nat)
    requires k < |occs|
    ensures FilesText(occs[..k + 1]) == FilesText(occs[..k]) + FileText(occs[k])
  {
    assert occs[..k + 1][..k] == occs[..k];
  }

  // ---------------------------------------------------------------- properties

  /** A found word reports the counts the index holds: the file_count, and
      for every file the count of its subnode; a word not found has none. */
  lemma SearchAgrees(t: Table, word: string, file: string)
    requires |t| == BucketCount
    ensures Search(t, word).Found? ==>
              && FileCount(t, word) == Search(t, word).entry.fileCount
              && Count(t, word, file) == (match Lookup(Search(t, word).entry.occs, file) case None => 0 case Some(c) => c)
              && (Has(t, word, file) <==> Lookup(Search(t, word).entry.occs, file).Some?)
    ensures Search(t, word).NotFound? ==>
              FileCount(t, word) == 0 && Count(t, word, file) == 0 && !Has(t, word, file)
  {
  }

  /** A word the index holds a subnode for is found, and reports that
      subnode. */
  lemma SearchFindsIndexed(t: Table, word: string, file: string)
    requires |t| == BucketCount && word != [] && Has(t, word, file)
    ensures Search(t, word).Found?
    ensures Lookup(Search(t, word).entry.occs, file).Some?
  {
  }

  /** After insert_word, the word is found and reports one more occurrence
      in the file. */
  lemma SearchAfterInsert(t: Table, word: string, file: string)
    requires |t| == BucketCount && word != []
    ensures Search(Insert(t, word, file), word).Found?
    ensures Lookup(Search(Insert(t, word, file), word).entry.occs, file) == Some(Count(t, word, file) + 1)
  {
    InsertCount(t, word, file, word, file);
    InsertHas(t, word, file, word, file);
    SearchAgrees(Insert(t, word, file), word, file);
  }

  /** After create_database over a list without repeated names, a word read
      from some file is found, reports for every listed file the number of
      times the word was read from it, and reports as file_count the number
      of listed files it was read from. */
  lemma SearchAfterBuild(files: seq<string>, fs: FileSystem, word: string, file: string)
    requires Distinct(files) && word != []
    requires file in files && Contains(fs, file, word)
    ensures Search(Build(EmptyTable(), files, fs), word).Found?
    ensures Search(Build(EmptyTable(), files, fs), word).entry.fileCount == FilesContaining(files, fs, word)
    ensures Lookup(Search(Build(EmptyTable(), files, fs), word).entry.occs, file) == Some(Occurrences(fs, file, word))
  {
    var t := Build(EmptyTable(), files, fs);
    BuildFromEmpty(files, fs, word, file);
    BuildCount(EmptyTable(), files, fs, word, file);
    EmptyTableHasNothing(word, file);
    SearchAgrees(t, word, file);
  }

  /** After create_database from an empty table, a non-empty word is found
      exactly when some listed file that can be opened contains it, so a
      word read from no listed file is reported as not found. */
  lemma SearchFoundAfterBuild(files: seq<string>, fs: FileSystem, word: string)
    requires word != []
    ensures Search(Build(EmptyTable(), files, fs), word).Found? <==>
              exists f :: f in files && Contains(fs, f, word)
    ensures Search(Build(EmptyTable(), files, fs), word).NotFound? <==>
              forall f :: f in files ==> !Contains(fs, f, word)
  {
    BuildFinds(EmptyTable(), files, fs, word);
    assert FindWord(EmptyTable()[GetIndex(word)].words, word) == None;
  }

  /** Matching is exact: "Cat" and "cat" share bucket 2 and stay two words,
      each with only its own file. */
  lemma SearchIsCaseSensitive(lower: string, upper: string, a: string, b: string)
    requires lower == "cat" && upper == "Cat" && a == "a.txt" && b == "b.txt"
    ensures var t := Insert(Insert(EmptyTable(), lower, a), upper, b);
            && GetIndex(lower) == GetIndex(upper) == 2
            && Search(t, lower).Found? && Search(t, upper).Found?
            && Lookup(Search(t, lower).entry.occs, a) == Some(1) && Lookup(Search(t, lower).entry.occs, b).None?
            && Lookup(Search(t, upper).entry.occs, b) == Some(1) && Lookup(Search(t, upper).entry.occs, a).None?
  {
    var t0 := EmptyTable();
    var t1 := Insert(t0, lower, a);
    var t := Insert(t1, upper, b);
    assert lower != upper && a != b;
    forall w, f | w in {lower, upper} && f in {a, b}
      ensures Count(t, w, f) == (if (w, f) == (lower, a) || (w, f) == (upper, b) then 1 else 0)
      ensures Has(t, w, f) <==> (w, f) == (lower, a) || (w, f) == (upper, b)
    {
      EmptyTableHasNothing(w, f);
      InsertCount(t0, lower, a, w, f);
      InsertHas(t0, lower, a, w, f);
      InsertCount(t1, upper, b, w, f);
      InsertHas(t1, upper, b, w, f);
    }
    SearchAgrees(t, lower, a);
    SearchAgrees(t, lower, b);
    SearchAgrees(t, upper, a);
    SearchAgrees(t, upper, b);
  }
}
