/**
 * create_database.c: read every file of the list, in list order, word by
 * word with `fscanf("%49s")`, and pass each word with the file's name to
 * insert_word. The file system is a map from names to contents; a name that
 * is absent or maps to None cannot be opened.
 */
module CreateDatabase {
  import opened Wrappers
  import opened Common
  import opened Stdio

  type FileSystem = map<string, Option<string>>

  /** fopen(name, "r") followed by reading the whole file. */
  function Open(fs: FileSystem, name: string): Option<string> {
    if name in fs then fs[name] else None
  }

  // ---------------------------------------------------------------- tokens

  /** The words `fscanf(fp, "%49s", word)` returns, in read order, until EOF. */
  function Tokens(s: string): seq<string>
    decreases |s|
  {
    match ScanToken(s)
    case None => []
    case Some((tok, rest)) => [tok] + Tokens(rest)
  }

  /** Every token is what one `%49s` conversion can produce. */
  lemma {:induction false} TokensAreWords(s: string)
    ensures forall k :: 0 <= k < |Tokens(s)| ==> IsWord(Tokens(s)[k])
    decreases |s|
  {
    var r := ScanToken(s);
    if r.Some? {
      var (tok, rest) := r.value;
      ScanTokenSpec(s, tok, rest);
      TokensAreWords(rest);
      WordsCons(Tokens(s), tok, Tokens(rest));
    }
  }

  lemma WordsCons(ts: seq<string>, tok: string, tail: seq<string>)
    requires ts == [tok] + tail && IsWord(tok)
    requires forall k :: 0 <= k < |tail| ==> IsWord(tail[k])
    ensures forall k :: 0 <= k < |ts| ==> IsWord(ts[k])
  {
  }

  /** What one `%49s` conversion can produce: 1 to 49 non-white-space characters. */
  predicate IsWord(w: string) {
    0 < |w| <= TokenWidth && forall j :: 0 <= j < |w| ==> !IsSpace(w[j])
  }

  /** The characters of a text that are not white space, in order. */
  function NonSpace(s: string): string {
    if s == [] then [] else (if IsSpace(s[0]) then [] else [s[0]]) + NonSpace(s[1..])
  }

  function Concat(ss: seq<string>): string {
    if ss == [] then [] else ss[0] + Concat(ss[1..])
  }

  lemma {:induction false} NonSpaceAppend(a: string, b: string)
    ensures NonSpace(a + b) == NonSpace(a) + NonSpace(b)
  {
    if a != [] {
      assert (a + b)[1..] == a[1..] + b;
      NonSpaceAppend(a[1..], b);
    } else {
      assert a + b == b;
    }
  }

  lemma {:induction false} NonSpaceOfSpaces(s: string)
    requires forall j :: 0 <= j < |s| ==> IsSpace(s[j])
    ensures NonSpace(s) == []
  {
    if s != [] {
      NonSpaceOfSpaces(s[1..]);
    }
  }

  lemma {:induction false} NonSpaceOfWord(s: string)
    requires forall j :: 0 <= j < |s| ==> !IsSpace(s[j])
    ensures NonSpace(s) == s
  {
    if s != [] {
      NonSpaceOfWord(s[1..]);
      assert s == [s[0]] + s[1..];
    }
  }

  /** The tokens, put back together, are exactly the text without its white
      space: nothing is lost and nothing is read twice, whatever the length
      of a run (a run longer than 49 characters is cut into several tokens). */
  lemma {:induction false} TokensCoverText(s: string)
    ensures Concat(Tokens(s)) == NonSpace(s)
    decreases |s|
  {
    NonSpaceSkip(s);
    var r := ScanToken(s);
    if r.Some? {
      var (tok, rest) := r.value;
      ScanTokenSpec(s, tok, rest);
      TokensCoverText(rest);
      NonSpaceAppend(tok, rest);
      NonSpaceOfWord(tok);
      var ts := Tokens(s);
      assert ts == [tok] + Tokens(rest);
      assert ts[1..] == Tokens(rest);
    }
  }

  /** The white space a token read skips holds no other character. */
  lemma NonSpaceSkip(s: string)
    ensures NonSpace(SkipSpace(s)) == NonSpace(s)
  {
    var t := SkipSpace(s);
    SkipSpaceSpec(s);
    var lead := s[..|s| - |t|];
    assert s == lead + t;
    NonSpaceAppend(lead, t);
    NonSpaceOfSpaces(lead);
  }

  /** A text with no character other than white space has no token, and a
      text with some other character has at least one. */
  lemma BlankText(s: string)
    ensures Tokens(s) == [] <==> forall j :: 0 <= j < |s| ==> IsSpace(s[j])
  {
    var t := SkipSpace(s);
    SkipSpaceSpec(s);
    if t != [] {
      assert s[|s| - |t|] == t[0];
    }
  }

  /** A run of non-white-space characters read as one token: a run shorter
      than 49 characters must end at white space or at the end of the text,
      while exactly 49 characters are taken whatever follows. */
  lemma TokensCons(w: string, rest: string)
    requires 0 < |w| <= TokenWidth
    requires forall j :: 0 <= j < |w| ==> !IsSpace(w[j])
    requires |w| == TokenWidth || rest == [] || IsSpace(rest[0])
    ensures Tokens(w + rest) == [w] + Tokens(rest)
  {
    var s := w + rest;
    SkipSpaceNone(s);
    SpanRun(w, rest);
    assert s[..|w|] == w && s[|w|..] == rest;
  }

  lemma {:induction false} SpanRun(w: string, rest: string)
    requires forall j :: 0 <= j < |w| ==> !IsSpace(w[j])
    ensures Span(w + rest, NonWhite) >= |w|
    ensures rest == [] || IsSpace(rest[0]) ==> Span(w + rest, NonWhite) == |w|
  {
    if w != [] {
      assert (w + rest)[1..] == w[1..] + rest;
      SpanRun(w[1..], rest);
    } else {
      assert w + rest == rest;
    }
  }

  /** Leading white space does not change the tokens. */
  lemma TokensSpace(c: char, s: string)
    requires IsSpace(c)
    ensures Tokens([c] + s) == Tokens(s)
  {
    SkipSpaceOne(c, s);
  }

  // ---------------------------------------------------------------- the build

  /** insert_word for every word, in order, tagged with one file name. */
  function InsertAll(t: Table, words: seq<string>, file: string): (r: Table)
    requires |t| == BucketCount
    ensures |r| == BucketCount
    decreases |words|
  {
    if words == [] then t else InsertAll(Insert(t, words[0], file), words[1..], file)
  }

  /** One pass of the outer loop: a file that cannot be opened leaves the table alone. */
  function IndexFile(t: Table, fs: FileSystem, file: string): (r: Table)
    requires |t| == BucketCount
    ensures |r| == BucketCount
  {
    match Open(fs, file)
    case None => t
    case Some(text) => InsertAll(t, Tokens(text), file)
  }

  /** The table after create_database: the files in list order. */
  function Build(t: Table, files: seq<string>, fs: FileSystem): (r: Table)
    requires |t| == BucketCount
    ensures |r| == BucketCount
    decreases |files|
  {
    if files == [] then t else Build(IndexFile(t, fs, files[0]), files[1..], fs)
  }

  /** What create_database needs of its input for the copies into the
      `word[30]` and `file_name[100]` buffers to fit. */
  ghost predicate Fits(files: seq<string>, fs: FileSystem) {
    forall f :: f in files ==>
      && |f| < FileNameCapacity
      && (Open(fs, f).Some? ==> forall w :: w in Tokens(Open(fs, f).value) ==> |w| < WordCapacity)
  }

  /** create_database: the outer loop walks the file list, the inner loop
      reads one word at a time and inserts it. */
  method CreateDatabase(table: array<Bucket>, files: seq<string>, fs: FileSystem)
    requires table.Length == BucketCount
    requires Fits(files, fs)
    modifies table
    ensures table[..] == Build(old(table[..]), files, fs)
  {
    var k := 0;
    while k < |files|
      invariant 0 <= k <= |files|
      invariant Build(table[..], files[k..], fs) == Build(old(table[..]), files, fs)
    {
      var name := files[k];
      assert files[k..] == [name] + files[k + 1..];
      var content := Open(fs, name);
      if content.None? {
        k := k + 1;
        continue;
      }
      IndexWords(table, content.value, name);
      k := k + 1;
    }
  }

  /** The inner loop of create_database: `fscanf("%49s")` until EOF, each
      word inserted with the file's name. */
  method IndexWords(table: array<Bucket>, text: string, name: string)
    requires table.Length == BucketCount
    requires |name| < FileNameCapacity
    requires forall w :: w in Tokens(text) ==> |w| < WordCapacity
    modifies table
    ensures table[..] == InsertAll(old(table[..]), Tokens(text), name)
  {
    var rest := text;
    var next := ScanToken(rest);
    while next.Some?
      invariant next == ScanToken(rest)
      invariant InsertAll(table[..], Tokens(rest), name) == InsertAll(old(table[..]), Tokens(text), name)
      invariant forall w :: w in Tokens(rest) ==> |w| < WordCapacity
      decreases |rest|
    {
      var (word, after) := next.value;
      assert Tokens(rest) == [word] + Tokens(after);
      InsertWord(table, word, name);
      rest := after;
      next := ScanToken(rest);
    }
  }

  // ---------------------------------------------------------------- what the build records

  /** How often `word` occurs among the words read from `file`; 0 for a file
      that cannot be opened. */
  function Occurrences(fs: FileSystem, file: string, word: string): nat {
    match Open(fs, file)
    case None => 0
    case Some(text) => multiset(Tokens(text))[word]
  }

  /** Whether `word` is among the words read from `file`. */
  predicate Contains(fs: FileSystem, file: string, word: string) {
    Open(fs, file).Some? && word in Tokens(Open(fs, file).value)
  }

  /** The number of files of the list that can be content and contain `word`. */
  function FilesContaining(files: seq<string>, fs: FileSystem, word: string): nat {
    if files == [] then 0
    else (if Contains(fs, files[0], word) then 1 else 0) + FilesContaining(files[1..], fs, word)
  }

  predicate Distinct(files: seq<string>) {
    forall i, j :: 0 <= i < j < |files| ==> files[i] != files[j]
  }

  /** Inserting a file's words adds their multiplicities to that file's counts
      and to nothing else, adds a subnode for each word met, and raises a
      word's file_count once, at its first sighting in a file new to it. */
  lemma {:induction false} InsertAllCount(t: Table, words: seq<string>, file: string, w: string, f: string)
    requires |t| == BucketCount
    ensures Count(InsertAll(t, words, file), w, f) ==
              Count(t, w, f) + (if f == file then multiset(words)[w] else 0)
    decreases |words|
  {
    if words != [] {
      var t' := Insert(t, words[0], file);
      InsertAllCount(t', words[1..], file, w, f);
      InsertCount(t, words[0], file, w, f);
      HeadTail(words, w);
    }
  }

  lemma {:induction false} InsertAllHas(t: Table, words: seq<string>, file: string, w: string, f: string)
    requires |t| == BucketCount
    ensures Has(InsertAll(t, words, file), w, f) <==> Has(t, w, f) || (f == file && w in words)
    decreases |words|
  {
    if words != [] {
      var t' := Insert(t, words[0], file);
      InsertAllHas(t', words[1..], file, w, f);
      InsertHas(t, words[0], file, w, f);
      HeadTail(words, w);
    }
  }

  lemma {:induction false} InsertAllFileCount(t: Table, words: seq<string>, file: string, w: string)
    requires |t| == BucketCount
    ensures FileCount(InsertAll(t, words, file), w) ==
              FileCount(t, w) + (if w in words && !Has(t, w, file) then 1 else 0)
    decreases |words|
  {
    if words != [] {
      InsertAllFileCount(Insert(t, words[0], file), words[1..], file, w);
      InsertAllFileCountStep(t, words, file, w);
    }
  }

  /** One word inserted ahead of the rest of the file's words. */
  lemma InsertAllFileCountStep(t: Table, words: seq<string>, file: string, w: string)
    requires |t| == BucketCount && words != []
    requires var t' := Insert(t, words[0], file);
      FileCount(InsertAll(t', words[1..], file), w) ==
        FileCount(t', w) + (if w in words[1..] && !Has(t', w, file) then 1 else 0)
    ensures FileCount(InsertAll(t, words, file), w) ==
              FileCount(t, w) + (if w in words && !Has(t, w, file) then 1 else 0)
  {
    var w0, rest := words[0], words[1..];
    var t' := Insert(t, w0, file);
    InsertHas(t, w0, file, w, file);
    InsertFileCount(t, w0, file, w);
    assert InsertAll(t, words, file) == InsertAll(t', rest, file);
    HeadTail(words, w);
  }

  /** After a file's words are inserted, a word has a node in its bucket
      exactly when it had one before or is among those words. */
  lemma {:induction false} InsertAllFinds(t: Table, words: seq<string>, file: string, w: string)
    requires |t| == BucketCount
    ensures FindWord(InsertAll(t, words, file)[GetIndex(w)].words, w).Some? <==>
              FindWord(t[GetIndex(w)].words, w).Some? || w in words
    decreases |words|
  {
    if words != [] {
      InsertAllFinds(Insert(t, words[0], file), words[1..], file, w);
      InsertEntry(t, words[0], file, w);
      HeadTail(words, w);
    }
  }

  lemma {:induction false} InsertAllValid(t: Table, words: seq<string>, file: string)
    requires Valid(t)
    ensures Valid(InsertAll(t, words, file))
    decreases |words|
  {
    if words != [] {
      InsertPreservesValid(t, words[0], file);
      InsertAllValid(Insert(t, words[0], file), words[1..], file);
    }
  }

  /** The build keeps every table invariant. */
  lemma {:induction false} BuildValid(t: Table, files: seq<string>, fs: FileSystem)
    requires Valid(t)
    ensures Valid(Build(t, files, fs))
    decreases |files|
  {
    if files != [] {
      if Open(fs, files[0]).Some? {
        InsertAllValid(t, Tokens(Open(fs, files[0]).value), files[0]);
      }
      BuildValid(IndexFile(t, fs, files[0]), files[1..], fs);
    }
  }

  /** Over a list of distinct files, the build adds to the count of (w, f)
      the number of times f contains w, and records f under w exactly when
      f can be content and contains w. */
  lemma {:induction false} BuildCount(t: Table, files: seq<string>, fs: FileSystem, w: string, f: string)
    requires |t| == BucketCount && Distinct(files)
    ensures Count(Build(t, files, fs), w, f) ==
              Count(t, w, f) + (if f in files then Occurrences(fs, f, w) else 0)
    ensures Has(Build(t, files, fs), w, f) <==> Has(t, w, f) || (f in files && Contains(fs, f, w))
    decreases |files|
  {
    if files != [] {
      var g := files[0];
      var t' := IndexFile(t, fs, g);
      if Open(fs, g).Some? {
        InsertAllCount(t, Tokens(Open(fs, g).value), g, w, f);
        InsertAllHas(t, Tokens(Open(fs, g).value), g, w, f);
      }
      assert Distinct(files[1..]);
      BuildCount(t', files[1..], fs, w, f);
      assert files == [g] + files[1..];
      assert g == f ==> f !in files[1..];
    }
  }

  /** Over a list of distinct files none of which is yet recorded under w,
      the build raises w's file_count by the number of files that contain w. */
  lemma {:induction false} BuildFileCount(t: Table, files: seq<string>, fs: FileSystem, w: string)
    requires |t| == BucketCount && Distinct(files)
    requires forall f :: f in files ==> !Has(t, w, f)
    ensures FileCount(Build(t, files, fs), w) == FileCount(t, w) + FilesContaining(files, fs, w)
    decreases |files|
  {
    if files != [] {
      var g := files[0];
      var t' := IndexFile(t, fs, g);
      if Open(fs, g).Some? {
        var words := Tokens(Open(fs, g).value);
        InsertAllFileCount(t, words, g, w);
        forall f | f in files[1..] ensures !Has(t', w, f) {
          InsertAllHas(t, words, g, w, f);
        }
      }
      assert Distinct(files[1..]);
      BuildFileCount(t', files[1..], fs, w);
    }
  }

  /** After a build, a word has a node in its bucket exactly when it had one
      before or some listed file that can be opened contains it. */
  lemma {:induction false} BuildFinds(t: Table, files: seq<string>, fs: FileSystem, w: string)
    requires |t| == BucketCount
    ensures FindWord(Build(t, files, fs)[GetIndex(w)].words, w).Some? <==>
              FindWord(t[GetIndex(w)].words, w).Some? || exists f :: f in files && Contains(fs, f, w)
    decreases |files|
  {
    if files != [] {
      IndexFileFinds(t, fs, files[0], w);
      BuildFinds(IndexFile(t, fs, files[0]), files[1..], fs, w);
      SomeFileContains(files, fs, w);
    }
  }

  lemma IndexFileFinds(t: Table, fs: FileSystem, file: string, w: string)
    requires |t| == BucketCount
    ensures FindWord(IndexFile(t, fs, file)[GetIndex(w)].words, w).Some? <==>
              FindWord(t[GetIndex(w)].words, w).Some? || Contains(fs, file, w)
  {
    if Open(fs, file).Some? {
      InsertAllFinds(t, Tokens(Open(fs, file).value), file, w);
    }
  }

  lemma SomeFileContains(files: seq<string>, fs: FileSystem, w: string)
    requires files != []
    ensures (exists f :: f in files && Contains(fs, f, w)) <==>
              Contains(fs, files[0], w) || exists f :: f in files[1..] && Contains(fs, f, w)
  {
    if exists f :: f in files && Contains(fs, f, w) {
      var f :| f in files && Contains(fs, f, w);
      HeadTail(files, f);
    }
  }

  lemma EmptyTableHasNothing(w: string, f: string)
    ensures Count(EmptyTable(), w, f) == 0 && FileCount(EmptyTable(), w) == 0
    ensures !Has(EmptyTable(), w, f)
  {
    assert FindWord(EmptyTable()[GetIndex(w)].words, w) == None;
  }

  /** The index built from an empty table over a list of distinct files: the
      count of (w, f) is the number of times the words of f include w, and
      the file_count of w is the number of readable files containing w. */
  lemma BuildFromEmpty(files: seq<string>, fs: FileSystem, w: string, f: string)
    requires Distinct(files)
    ensures Valid(Build(EmptyTable(), files, fs))
    ensures Count(Build(EmptyTable(), files, fs), w, f) ==
              if f in files then Occurrences(fs, f, w) else 0
    ensures FileCount(Build(EmptyTable(), files, fs), w) == FilesContaining(files, fs, w)
  {
    EmptyTableValid();
    BuildValid(EmptyTable(), files, fs);
    EmptyTableHasNothing(w, f);
    BuildCount(EmptyTable(), files, fs, w, f);
    forall g | g in files ensures !Has(EmptyTable(), w, g) {
      EmptyTableHasNothing(w, g);
    }
    BuildFileCount(EmptyTable(), files, fs, w);
  }

  /** A file holding only white space contributes nothing. */
  lemma BlankFileAddsNothing(t: Table, fs: FileSystem, file: string)
    requires |t| == BucketCount
    requires Open(fs, file).Some?
    requires forall j :: 0 <= j < |Open(fs, file).value| ==> IsSpace(Open(fs, file).value[j])
    ensures IndexFile(t, fs, file) == t
  {
    BlankText(Open(fs, file).value);
  }

  /** A word followed by the rest of a text, after one separating space. */
  lemma TokensWordSpace(t: string, w: string, c: char, s: string)
    requires IsWord(w) && IsSpace(c) && t == w + ([c] + s)
    ensures Tokens(t) == [w] + Tokens(s)
  {
    TokensCons(w, [c] + s);
    TokensSpace(c, s);
  }

  lemma TokensWord(w: string)
    requires IsWord(w)
    ensures Tokens(w) == [w]
  {
    TokensCons(w, "");
    assert w + "" == w;
    assert SkipSpace("") == "";
  }

  /** "cat dog cat" reads as three words and "dog" as one. */
  lemma ExampleTokens(text: string, cat: string, dog: string)
    requires text == "cat dog cat" && cat == "cat" && dog == "dog"
    ensures Tokens(text) == [cat, dog, cat]
    ensures Tokens(dog) == [dog]
  {
    assert IsWord(cat) && IsWord(dog);
    TokensWord(cat);
    TokensWord(dog);
    var sp := ' ';
    var tail := dog + ([sp] + cat);
    TokensWordSpace(tail, dog, sp, cat);
    assert Tokens(tail) == [dog, cat];
    ExampleText(text, cat, dog, sp);
    TokensWordSpace(text, cat, sp, tail);
    assert Tokens(text) == [cat, dog, cat];
  }

  lemma ExampleText(text: string, cat: string, dog: string, sp: char)
    requires text == "cat dog cat" && cat == "cat" && dog == "dog" && sp == ' '
    ensures text == cat + ([sp] + (dog + ([sp] + cat)))
  {
  }

  /** a.txt = "cat dog cat" and b.txt = "dog": cat is recorded once, under
      a.txt with count 2; dog twice, with count 1 under each file. */
  lemma WorkedExample(fs: FileSystem, a: string, b: string, cat: string, dog: string)
    requires a == "a.txt" && b == "b.txt" && cat == "cat" && dog == "dog"
    requires fs == map[a := Some("cat dog cat"), b := Some(dog)]
    ensures var t := Build(EmptyTable(), [a, b], fs);
            && Count(t, cat, a) == 2 && Count(t, cat, b) == 0
            && FileCount(t, cat) == 1
            && Count(t, dog, a) == 1 && Count(t, dog, b) == 1
            && FileCount(t, dog) == 2
  {
    ExampleFiles(fs, a, b, cat, dog);
    BuildTwo(fs, a, b, cat);
    BuildTwo(fs, a, b, dog);
  }

  /** The build over two different files, for one word. */
  lemma BuildTwo(fs: FileSystem, a: string, b: string, w: string)
    requires a != b
    ensures var t := Build(EmptyTable(), [a, b], fs);
            && Count(t, w, a) == Occurrences(fs, a, w) && Count(t, w, b) == Occurrences(fs, b, w)
            && FileCount(t, w) == (if Contains(fs, a, w) then 1 else 0) + (if Contains(fs, b, w) then 1 else 0)
  {
    var files := [a, b];
    assert Distinct(files);
    BuildFromEmpty(files, fs, w, a);
    BuildFromEmpty(files, fs, w, b);
    FilesContainingTwo(a, b, fs, w);
  }

  /** What the two example files hold. */
  lemma ExampleFiles(fs: FileSystem, a: string, b: string, cat: string, dog: string)
    requires a == "a.txt" && b == "b.txt" && cat == "cat" && dog == "dog"
    requires fs == map[a := Some("cat dog cat"), b := Some(dog)]
    ensures Occurrences(fs, a, cat) == 2 && Occurrences(fs, b, cat) == 0
    ensures Occurrences(fs, a, dog) == 1 && Occurrences(fs, b, dog) == 1
    ensures Contains(fs, a, cat) && !Contains(fs, b, cat)
    ensures Contains(fs, a, dog) && Contains(fs, b, dog)
  {
    ExampleTokens(fs[a].value, cat, dog);
    assert Open(fs, a) == Some(fs[a].value) && Open(fs, b) == Some(dog);
    assert multiset([cat, dog, cat])[cat] == 2 && multiset([cat, dog, cat])[dog] == 1;
    assert multiset([dog])[cat] == 0 && multiset([dog])[dog] == 1;
  }

  lemma FilesContainingTwo(a: string, b: string, fs: FileSystem, w: string)
    ensures FilesContaining([a, b], fs, w) ==
              (if Contains(fs, a, w) then 1 else 0) + (if Contains(fs, b, w) then 1 else 0)
  {
    var files := [a, b];
    assert files[1..] == [b] && files[1..][1..] == [];
    assert FilesContaining(files[1..][1..], fs, w) == 0;
  }
}
