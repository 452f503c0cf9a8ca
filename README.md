# Inverted search index — a Dafny model

This project models the core of a small C inverted index. A hash table of
27 buckets, chosen by the first letter of a word (26 for anything that does
not start with a letter), holds a list of word nodes. Each word node holds a
`file_count` and a list of subnodes, each pairing a file name with the
number of times the word was read from that file. The model covers the
following:

- insertion into the table (`common.c`);
- building the index from a list of files (`create_database.c`);
- writing the table to the backup text (`save_database.c`);
- reading the backup text back with `fscanf` (`update_database.c`);
- looking a word up and printing its entry (`search_database.c`);
- building the list of files from the command line (`createSLL.c`);
- the `.txt` check on the arguments (`validate.c`);
- the flags of the menu loop (`main.c`).

Modules, one per file:

| file | module | models |
|---|---|---|
| wrappers.dfy | Wrappers | `Option`, for NULL and failure results |
| stdio.dfy | Stdio | the `fscanf` directives used (`%49s`, `%d`, `%[^;]`, white space, literals) and `%d` printing |
| common.dfy | Common | the `SUCCESS`/`FAILURE` codes, the buffer sizes, the table, `get_index`, `init_hashtable`, node creation, `search_mainnode`, `insert_subnode`, `insert_word` |
| create_database.dfy | CreateDatabase | the token stream of a file and `create_database` |
| save_database.dfy | SaveDatabase | the backup text and `save_database` |
| update_database.dfy | UpdateDatabase | the backup parser and `update_database` |
| backup_format.dfy | BackupFormat | what a save followed by a load gives |
| search_database.dfy | SearchDatabase | `search_database` and its report |
| create_sll.dfy | CreateSll | `is_duplicate_file`, `create_file_linked_list` |
| validate.dfy | Validate | `check_txt_file`, `validate` |
| menu.dfy | Menu | start-up and the flag transitions of `main` |

Representation choices:

- The table is an `array<Bucket>` of length 27. Each linked list becomes a
  `seq` whose element 0 is the head. Head insertion is `[x] + s` and tail
  insertion is `s + [x]`.
- Every method that changes the table states its new contents as a function
  of the old ones (`table[..] == Insert(old(table[..]), word, file)`).
  Lemmas then state what those functions mean.
- The files a run can read form a `map<string, Option<string>>`. A missing
  key or `None` means `fopen` fails.
- Text that `save_database` and `search_database` print is the string their
  method returns.
- `backup.txt` is handed to `update_database` as an `Option<string>`.
- The menu's input is a sequence of choices.

The description of the backup format says that loading a saved index gives
back the same index. The code does not keep that promise, and the model
follows the code (see Findings).

## Model

| member | source | states |
|---|---|---|
| Common.GetIndex | common.c:48-53 | the bucket is in 0..26; a first letter a–z or A–Z gives its place in the alphabet, whatever its case; 26 exactly for an empty word or a first character that is not a letter |
| Common.GetIndexIgnoresCase | common.c:50-51 | a lower-case word and one whose first letter is the same letter in upper case share a letter bucket |
| Common.InitHashtable | common.c:23-30 | afterwards bucket i has index i and no words, for every i |
| Common.EmptyTableValid | common.c:23-30 | the reset table satisfies the table invariant (words in their own bucket, distinct words, distinct files, `file_count` equal to the number of subnodes, counts at least 1) |
| Common.NewMainnode | common.c:72-87 | a new word node holds the word, no subnodes and `file_count` 0 |
| Common.NewSubnode | common.c:105-119 | a new subnode holds the file name and a count of exactly 1 |
| Common.FindWord | common.c:137-146 | the position found holds the word exactly, no earlier node does, and nothing is found exactly when no node holds the word |
| Common.SearchMainnode | common.c:137-146 | the traversal returns that first exact match and changes nothing |
| Common.FindFile | common.c:165-175 | the first subnode of the file, and none exactly when no subnode names it |
| Common.AddOccurrenceSpec | common.c:163-182 | a file already present gets its count raised by 1 and `file_count` and the other files stay as they were; a new file is put at the head with count 1 and `file_count` rises by 1; the node invariant is kept |
| Common.InsertSubnode | common.c:163-182 | the method computes exactly that update of the word node |
| Common.Insert | common.c:199-214 | only bucket `get_index(word)` changes, its index field is kept, and the word is in it afterwards |
| Common.InsertWord | common.c:199-214 | the table after the call is the old table with that insertion applied, and nothing else changes |
| Common.InsertPreservesValid | common.c:199-214 | insertion keeps the table invariant: a new word is added only when absent, so words stay distinct and in their own bucket |
| Common.InsertEntry | common.c:199-214 | the node found for any word after an insertion is the old one, updated for the inserted word and file, or a new node when the word was absent |
| Common.InsertCount | common.c:163-214 | inserting (word, file) raises the count of exactly that pair by 1 and leaves every other pair's count alone |
| Common.InsertHas | common.c:163-214 | a pair has a subnode after an insertion exactly when it had one before or it is the pair inserted |
| Common.InsertFileCount | common.c:163-214 | `file_count` of the inserted word rises by 1 exactly when the file was new for it; other words keep theirs |
| Common.InsertTotal | common.c:171-181 | each insertion raises the sum of all counts in the table by exactly 1 |
| Common.RepeatedInsert | common.c:167-181 | inserting the same pair n ≥ 1 times into the empty table gives one word node with `file_count` 1 and one subnode of count n, in its own bucket |
| Stdio.ScanTokenSpec | create_database.c:48 | `%49s` skips white space and reads 1 to 49 characters that are not white space, ending at white space, at the end of the text or at the width limit |
| Stdio.ScanIntToString | update_database.c:44 | `%d` reads back exactly the number `%d` printed, stopping at the first non-digit |
| Stdio.ScanSetField | update_database.c:44 | `%[^;]` reads back a non-empty field free of ';' and stops at the ';' |
| CreateDatabase.TokensAreWords | create_database.c:48 | every word read from a file has 1 to 49 characters and no white space |
| CreateDatabase.TokensCoverText | create_database.c:48 | the words read, joined, are exactly the characters of the file that are not white space, so a run longer than 49 characters becomes several consecutive words and nothing is lost |
| CreateDatabase.BlankText | create_database.c:48 | no word is read exactly when the text is all white space |
| CreateDatabase.BlankFileAddsNothing | create_database.c:48 | a file of white space leaves the table as it was |
| CreateDatabase.CreateDatabase | create_database.c:32-59 | the table after the call is the old one with the files indexed in list order; a file that does not open is skipped and the loop goes on |
| CreateDatabase.IndexWords | create_database.c:47-52 | the words of one file are inserted in reading order, each with that file's name |
| CreateDatabase.InsertAllCount | create_database.c:48-52 | inserting a file's words raises the count of (w, file) by the number of times w is among them, and no other pair changes |
| CreateDatabase.InsertAllHas | create_database.c:48-52 | after a file's words are inserted, a pair has a subnode exactly when it had one or the file's words include w |
| CreateDatabase.InsertAllFileCount | create_database.c:48-52 | a file's words raise `file_count` of w by 1 when w is among them and the file was not yet recorded under w, else by 0 |
| CreateDatabase.InsertAllFinds | create_database.c:48-52 | after a file's words are inserted, a word has a node exactly when it had one before or is among those words |
| CreateDatabase.InsertAllValid | create_database.c:48-52 | inserting a file's words keeps the table invariant |
| CreateDatabase.BuildValid | create_database.c:37-56 | building over any file list keeps the table invariant |
| CreateDatabase.BuildCount | create_database.c:37-56 | over distinct files, the count of (w, f) rises by the number of times f's words include w (0 when f does not open), and a subnode exists exactly when it did before or f contains w |
| CreateDatabase.BuildFileCount | create_database.c:37-56 | over distinct files not yet recorded under w, `file_count` of w rises by the number of those files that contain w |
| CreateDatabase.BuildFinds | create_database.c:37-56 | after a build, a word has a node exactly when it had one before or some listed file that opens contains it |
| CreateDatabase.BuildFromEmpty | create_database.c:37-56 | from the empty table, count(w, f) is the number of times f's words include w, and `file_count` of w is the number of listed files that contain it |
| CreateDatabase.WorkedExample | create_database.c:37-56 | a.txt = "cat dog cat" and b.txt = "dog" give cat → {a.txt: 2} with `file_count` 1 and dog → {a.txt: 1, b.txt: 1} with `file_count` 2 |
| SaveDatabase.SaveDatabase | save_database.c:26-70 | the text written is the backup text of the table, and the table is only read |
| SaveDatabase.WriteBucket | save_database.c:44-64 | a non-empty bucket writes its one marker line and then its words in list order |
| SaveDatabase.WriteEntry | save_database.c:48-62 | a word writes its header, one pair per subnode in list order, then ` #` and a newline |
| SaveDatabase.PrefixIsRange | save_database.c:36-65 | the text after the first n buckets is buckets 0..n-1 in ascending order, each contributing its marker and words or nothing |
| SaveDatabase.SerializeEmpty | save_database.c:36-42 | the backup text is empty exactly when every bucket is empty |
| UpdateDatabase.UpdateDatabase | update_database.c:28-74 | with no backup the table is untouched; otherwise it is reset and then holds exactly what the records of the text give |
| UpdateDatabase.ReadSubnodes | update_database.c:53-67 | the inner loop puts at most `file_count` pairs at the head of the word's subnodes with their parsed counts, stops at the first pair that does not convert, and changes only that bucket |
| BackupFormat.ScanPairText | update_database.c:59 | ` %[^;]; %d;` reads back a pair exactly as save wrote it |
| BackupFormat.ScanHeaderText | update_database.c:44 | `#%d; %[^;]; %d;` reads back a marker followed by a word header: the bucket, the word and `file_count` |
| BackupFormat.ParsePairsReads | update_database.c:57-67 | reading the pairs of a word gives them in reverse order, in front of what was read before |
| BackupFormat.ParsePairsText | update_database.c:57-67 | the pairs save wrote for a word are read back, reversed |
| BackupFormat.ScanTrailerText | update_database.c:69 | ` #\n` consumes the end of a word's line and the white space after it |
| BackupFormat.RecordsEntry | update_database.c:44-69 | a marker and a word line load as one record holding the word, `file_count` and its subnodes reversed, and loading goes on after it |
| BackupFormat.RecordsMarked | update_database.c:44-69 | words each preceded by a marker load as one record each, in order |
| BackupFormat.LoadSerializeFixed | update_database.c:44-70 | loading the text with a marker before every word gives back the table with every word list and subnode list reversed |
| BackupFormat.ReloadedAnswers | update_database.c:50-66 | reversing the lists changes no count, no subnode membership and no `file_count` |
| BackupFormat.ReloadedValid | update_database.c:50-66 | the reversed table keeps the table invariant |
| BackupFormat.RoundTripAnswers | update_database.c:44-70 | after a save with a marker before every word and a load, every count and `file_count` is what it was and the table invariant holds |
| BackupFormat.SingleWordSerialize | save_database.c:44 | when no bucket holds two words, the text as saved is the text with a marker before every word |
| BackupFormat.LoadSerialize | update_database.c:44-69 | when no bucket holds two words, loading the text as saved gives back the table with every subnode list reversed |
| BackupFormat.RecordsStop | update_database.c:44 | loading the text as saved yields the words before the first bucket with two words, then that bucket's first word, and nothing after, provided that bucket's second word does not start with '#' |
| BackupFormat.LoadStops | save_database.c:44 | loading the text as saved gives the table cut off after the first word of the first bucket with two words |
| BackupFormat.LostWord | save_database.c:44 | the second word of that bucket is missing from the loaded table |
| BackupFormat.PairsStopAtEnd | update_database.c:57-60 | when the text ends before `file_count` pairs were read, the inner loop stops and keeps what it read |
| BackupFormat.RecordsShort | update_database.c:57-60 | the last word line of the text, with fewer pairs than its `file_count`, still loads as one record |
| BackupFormat.FileCountFromHeader | update_database.c:47-60 | `file_count` is taken from the header, not counted: the last word line of the text, when its `file_count` exceeds its pairs, loads with that count, and the loaded table breaks the table invariant |
| SearchDatabase.Search | search_database.c:27-47 | an empty word is invalid; a word absent from bucket `get_index(word)` is not found; otherwise the result is a node of that bucket holding the word, with the bucket's index |
| SearchDatabase.PadRight | search_database.c:50-53 | `%-Ns` pads with blanks on the right up to the width and never cuts |
| SearchDatabase.SearchDatabase | search_database.c:27-66 | the printed text is the report of the search outcome: the invalid-word message, the not-present message, or the summary and every subnode in list order; the table is only read |
| SearchDatabase.SearchAgrees | search_database.c:42-63 | a found word reports the `file_count` and, for every file, the count the index holds; a word not found has no counts |
| SearchDatabase.SearchFindsIndexed | search_database.c:35-42 | a word with a subnode for a file is found in the bucket search looks in, and reports that file |
| SearchDatabase.SearchAfterInsert | search_database.c:35-42 | after `insert_word`, the word is found and reports the file's previous count plus 1 |
| SearchDatabase.SearchFoundAfterBuild | search_database.c:42-47 | after a build from the empty table, a non-empty word is found exactly when some listed file contains it, and reported not present exactly when none does |
| SearchDatabase.SearchAfterBuild | search_database.c:42-63 | after a build over distinct files, a word some file contains is found, with `file_count` the number of files containing it and each file's count the number of times it was read there |
| SearchDatabase.SearchIsCaseSensitive | search_database.c:42 | "cat" and "Cat" share bucket 2 and stay two entries, each reporting only its own file |
| CreateSll.IsDuplicateFile | createSLL.c:21-35 | FAILURE exactly when the list already holds the name, SUCCESS exactly when it does not |
| CreateSll.ProgramNameIgnored | createSLL.c:116 | the loop starts at `argv[1]`: command lines that differ only in the program name build the same list, the list built from the names after it |
| CreateSll.CreateFileLinkedList | createSLL.c:112-160 | the list built is the arguments, in order, that open, are not empty and are not yet listed; every name fits `filename[100]` |
| CreateSll.FileListMembers | createSLL.c:118-134 | a name is listed exactly when it is an argument whose file opens and is not empty |
| CreateSll.FileListDistinct | createSLL.c:130-134 | the list never holds a name twice |
| CreateSll.FileListOrder | createSLL.c:137-154 | listed names are arguments, and their first positions among the arguments increase along the list, so the first of a repeated name wins |
| CreateSll.FileListEmpty | createSLL.c:114-159 | the list is empty exactly when no argument opens and is non-empty |
| CreateSll.ExampleList | createSLL.c:116-157 | `./a.out a.txt e.txt m.txt a.txt b.txt` with e.txt empty and m.txt missing lists a.txt then b.txt |
| Validate.LastDot | validate.c:21 | the position of the last '.', and none exactly when there is no '.' |
| Validate.CheckTxtFileSuffix | validate.c:19-28 | `check_txt_file` succeeds exactly when the name ends in ".txt" |
| Validate.CheckTxtFileExamples | validate.c:21-22 | "a.TXT", "a.txt.bak" and "readme" fail; "a.b.txt" and ".txt" pass |
| Validate.ValidateIgnoresNames | validate.c:46-64 | `validate` fails only for an empty argument vector, and its result does not depend on the names |
| Validate.ValidateAcceptsOtherExtensions | validate.c:55-63 | `./a.out notes.md` passes validation and notes.md is listed for indexing, although it fails the extension check |
| Validate.IntendedListsOnlyTxt | validate.c:46-64 | with the check the header comment describes, at least one name is given and every listed file ends in ".txt" |
| Menu.StartupReachesMenu | main.c:74-87 | the menu is reached exactly when some argument after the program name opens and is not empty; it then works on a list without repeats holding exactly those arguments |
| Menu.StartupIgnoresProgramName | main.c:74-87 | whether the menu is reached, and with which file list, does not depend on `argv[0]` |
| Menu.MenuLoop | main.c:92-187 | the loop reads choices up to and including the first 6 (or to the end of input), and its flags and actions are those of that run |
| Menu.StepSpec | main.c:108-185 | flags only rise; create acts exactly on choice 1 with `created_flag` 0; update acts exactly on choice 5 with both flags 0; only those two change flags; choices 2–4 act exactly when `db_flag` is set; an invalid choice changes nothing; the loop ends exactly on 6 |
| Menu.RunSpec | main.c:66-71 | over any run the flags only go from 0 to 1 and `db_flag` stays equal to "created or updated" |
| Menu.AtMostOnce | main.c:111-175 | create and update each act at most once in a session, and neither acts again once created |
| Menu.CreateAfterUpdate | main.c:112-124 | choices 5 then 1 run update and then create, leaving all three flags set |
| Menu.IntendedExclusive | main.c:117 | with the guard as intended, a session never both creates and loads the database |

## Left out

- display_database.c is not part of this model. It only prints the table, walking it the way save does.
- Terminal output is left out: the menu text, the success and error messages of create, save, update and validate, and `scanf` of the choice. The only printed text modelled is search's report.
- Menu.MenuLoop: the choices are a finite sequence and the loop stops when it runs out. In C, a failed `scanf` leaves `choice` as it was, so the loop may repeat forever or use an uninitialised value. Non-numeric input is not modelled.
- Menu: the flags and the action each choice takes are modelled. The work of each action is modelled in its own module, and the menu does not thread the table through them.
- The word search reads with `%49s` from the terminal is left out; SearchDatabase.Search takes any string.
- File-system calls become data. `fopen`/`fseek`/`ftell` in `check_file_exists` and `check_empty_file` become the file map, and the FILE that `check_file_exists` leaks is not modelled. `fclose` is not modelled anywhere.
- save_database.c:30-34 goes on writing after `fopen` fails; the model returns the text and has no failing open.
- The `malloc` failure paths (common.c:75-79, common.c:108-112) are left out; allocation always succeeds.
- Buffer overflows are preconditions, not behaviour:
  - Common.InsertWord requires a word under 30 characters and a file name under 100 (`word[30]`, `file_name[100]`);
  - CreateDatabase.CreateDatabase requires that every word read fits (`Fits`), because a `%49s` token can be copied into `word[30]`;
  - UpdateDatabase.UpdateDatabase requires that every record fits (`LoadSafe`): the bucket index is in 0..26, the word is under 30 characters and file names are under 100;
  - CreateSll.CreateFileLinkedList requires names under 100 characters.
- `isalpha` and `tolower` are modelled for ASCII only; locale-dependent letters and negative `char` values are not.
- Text is taken to be ASCII without NUL bytes, so one `char` of the model is one byte of the C code. The model does not capture three things that follow from multi-byte characters or NUL bytes:
  - `%49s` counting 49 bytes, and possibly splitting a multi-byte character;
  - the buffer limits in Common.InsertWord, CreateDatabase.Fits, UpdateDatabase.LoadSafe and CreateSll.NamesFit counting bytes rather than characters;
  - `strcpy` and `strcmp` stopping at a NUL byte inside a word.
- Integer counts are unbounded; `int` overflow of a count is not modelled.
- Linked lists become sequences, so aliasing is not modelled. The walk to the tail in `create_file_linked_list` becomes an append.
- SearchDatabase.Search has no branch for the range guard at search_database.c:36-39, because `get_index` always lies in 0..26 (Common.GetIndex).
- BackupFormat.LoadStops: stated for a table whose second word in the first two-word bucket does not start with '#'. Such a word cannot sit in a letter bucket, and what the loader does with one in bucket 26 is not modelled.
- BackupFormat.RecordsStop: stated under the same condition as BackupFormat.LoadStops. A second word starting with '#' is read by `#%d; %[^;]; %d;` as a new header: the line `#3; 1; 7; 4; #` of the word "#3" loads as bucket 3, word "1", file_count 7, so loading does not stop there. That case is not modelled.
- BackupFormat.LoadSerialize and BackupFormat.RoundTripAnswers: stated for tables whose names are not empty, hold no ';' and do not start with white space. The backup format cannot carry such names back.
- Memory is never freed, so deallocation is not modelled.

## Findings

| source | as written | input that shows it | evidently intended | confidence | as-written member | corrected member |
|---|---|---|---|---|---|---|
| save_database.c:44 | the marker `#i;` is written once per non-empty bucket, but update_database.c:44 needs a marker before every word, so loading stops after the first word of a bucket holding two words | a table whose bucket 0 holds "ant" and "apple": after save and update only "ant" remains, and nothing of later buckets | a marker before every word, so that a load gives back every word and count | high; not executed | BackupFormat.LoadStops | BackupFormat.LoadSerializeFixed |
| main.c:117 | the second guard of case 1 tests `updated_flag == 1 && created_flag == 1`, which cannot hold after the test at main.c:112, so create runs after an update | choices 5 then 1 | create refused once the database was loaded, as the comment at main.c:71 says | medium; not executed | Menu.CreateAfterUpdate | Menu.IntendedExclusive |
| validate.c:48-63 | FAILURE only when `argc < 1`, which never happens, and a name that fails `check_txt_file` is skipped without effect on the result or the file list | `./a.out notes.md` | FAILURE when no file is given or a name is not a .txt file, as the comment at validate.c:44 says | medium; not executed | Validate.ValidateAcceptsOtherExtensions | Validate.IntendedListsOnlyTxt |
