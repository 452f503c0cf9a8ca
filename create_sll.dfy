/**
 * createSLL.c: the list of files to index, built from the command-line
 * arguments after the program name. An argument joins the list when the
 * file opens, is not empty and is not yet in the list; it is appended at
 * the tail. The filenode list becomes a sequence whose element 0 is the
 * head; the file system is the one create_database reads.
 */
module CreateSll {
  import opened Wrappers
  import opened Common
  import opened CreateDatabase

  /** is_duplicate_file: FAILURE when a node already holds exactly this name,
      SUCCESS otherwise. */
  function IsDuplicateFile(list: seq<string>, name: string): (r: int)
    ensures r == Failure <==> name in list
    ensures r == Success <==> name !in list
  {
    if list == [] then Success
    else if list[0] == name then Failure
    else IsDuplicateFile(list[1..], name)
  }

  /** check_file_exists: the file opens for reading. */
  predicate FileExists(fs: FileSystem, name: string) {
    Open(fs, name).Some?
  }

  /** check_empty_file: the file opens and its size is not zero. */
  predicate NonEmptyFile(fs: FileSystem, name: string) {
    Open(fs, name).Some? && Open(fs, name).value != ""
  }

  /** The two checks that depend on the file alone. */
  predicate Usable(fs: FileSystem, name: string) {
    FileExists(fs, name) && NonEmptyFile(fs, name)
  }

  /** The arguments the loop looks at: argv[1] .. argv[argc - 1]. */
  function Arguments(args: seq<string>): seq<string> {
    if |args| == 0 then [] else args[1..]
  }

  /** The list after the loop has looked at `names`, in order. */
  function FileList(names: seq<string>, fs: FileSystem): seq<string>
    decreases |names|
  {
    if names == [] then []
    else
      var list := FileList(names[..|names| - 1], fs);
      var name := names[|names| - 1];
      if Usable(fs, name) && IsDuplicateFile(list, name) == Success then list + [name] else list
  }

  /** `strcpy` into `filename[100]`: every name that can join the list fits. */
  predicate NamesFit(args: seq<string>, fs: FileSystem) {
    forall i :: 1 <= i < |args| && Usable(fs, args[i]) ==> |args[i]| < FileNameCapacity
  }

  /** create_file_linked_list. Each surviving argument is appended at the
      tail of the list. */
  method CreateFileLinkedList(args: seq<string>, fs: FileSystem) returns (list: seq<string>)
    requires NamesFit(args, fs)
    ensures list == FileList(Arguments(args), fs)
    ensures forall k :: 0 <= k < |list| ==> |list[k]| < FileNameCapacity
  {
    list := [];
    if |args| == 0 {
      return;
    }
    var names := args[1..];
    var i := 1;
    while i < |args|
      invariant 1 <= i <= |args|
      invariant list == FileList(names[..i - 1], fs)
      invariant forall k :: 0 <= k < |list| ==> |list[k]| < FileNameCapacity
    {
      assert names[..i][..i - 1] == names[..i - 1];
      if !FileExists(fs, args[i]) {
        i := i + 1;
        continue;
      }
      if !NonEmptyFile(fs, args[i]) {
        i := i + 1;
        continue;
      }
      if IsDuplicateFile(list, args[i]) == Failure {
        i := i + 1;
        continue;
      }
      list := list + [args[i]];
      i := i + 1;
    }
    assert names[..i - 1] == names;
  }

  // ---------------------------------------------------------------- properties

  /** argv[0] is never looked at: two command lines that differ only in the
      program name build the same list. */
  lemma ProgramNameIgnored(p: string, q: string, names: seq<string>, fs: FileSystem)
    ensures FileList(Arguments([p] + names), fs) == FileList(Arguments([q] + names), fs)
    ensures FileList(Arguments([p] + names), fs) == FileList(names, fs)
  {
    assert ([p] + names)[1..] == names;
    assert ([q] + names)[1..] == names;
  }

  /** The position of the first occurrence of a name. */
  function First(names: seq<string>, name: string): (r: nat)
    requires name in names
    ensures r < |names| && names[r] == name
    ensures forall j :: 0 <= j < r ==> names[j] != name
  {
    if names[0] == name then 0 else 1 + First(names[1..], name)
  }

  /** A name is in the list exactly when it is among the arguments and its
      file opens and is not empty. */
  lemma {:induction false} FileListMembers(names: seq<string>, fs: FileSystem, name: string)
    ensures name in FileList(names, fs) <==> name in names && Usable(fs, name)
    decreases |names|
  {
    if names != [] {
      var init := names[..|names| - 1];
      FileListMembers(init, fs, name);
      assert names == init + [names[|names| - 1]];
    }
  }

  /** The list never holds a name twice. */
  lemma {:induction false} FileListDistinct(names: seq<string>, fs: FileSystem)
    ensures Distinct(FileList(names, fs))
    decreases |names|
  {
    if names != [] {
      FileListDistinct(names[..|names| - 1], fs);
    }
  }

  /** The list keeps the order of the arguments, and a repeated name sits
      where it first appeared: the first occurrences of its names come in
      increasing order. */
  lemma {:induction false} FileListOrder(names: seq<string>, fs: FileSystem)
    ensures forall x :: x in FileList(names, fs) ==> x in names
    ensures forall j, k :: 0 <= j < k < |FileList(names, fs)| ==>
              First(names, FileList(names, fs)[j]) < First(names, FileList(names, fs)[k])
    decreases |names|
  {
    if names != [] {
      var n := |names|;
      var init := names[..n - 1];
      var prev := FileList(init, fs);
      FileListOrder(init, fs);
      forall x | x in prev
        ensures First(names, x) == First(init, x)
      {
        FirstPrefix(init, names, x);
      }
      var last := names[n - 1];
      if Usable(fs, last) && IsDuplicateFile(prev, last) == Success {
        FileListMembers(init, fs, last);
        assert last !in init;
        assert First(names, last) == n - 1;
      }
    }
  }

  /** The first occurrence of a name in a prefix is its first occurrence in
      the whole sequence. */
  lemma FirstPrefix(init: seq<string>, names: seq<string>, x: string)
    requires x in init && |init| <= |names| && init == names[..|init|]
    ensures First(names, x) == First(init, x)
  {
    var p, q := First(init, x), First(names, x);
    assert names[p] == x;
  }

  /** The list is empty exactly when no argument can be indexed. */
  lemma FileListEmpty(names: seq<string>, fs: FileSystem)
    ensures FileList(names, fs) == [] <==> forall k :: 0 <= k < |names| ==> !Usable(fs, names[k])
  {
    if FileList(names, fs) == [] {
      forall k | 0 <= k < |names|
        ensures !Usable(fs, names[k])
      {
        FileListMembers(names, fs, names[k]);
      }
    } else {
      FileListMembers(names, fs, FileList(names, fs)[0]);
    }
  }

  /** ./a.out a.txt e.txt m.txt a.txt b.txt, where e.txt is empty and
      m.txt is missing, lists a.txt then b.txt. */
  lemma ExampleList(args: seq<string>, fs: FileSystem, a: string, b: string, e: string, m: string)
    requires a == "a.txt" && b == "b.txt" && e == "e.txt" && m == "m.txt"
    requires args == ["./a.out", a, e, m, a, b]
    requires fs == map[a := Some("cat"), b := Some("dog"), e := Some("")]
    ensures FileList(Arguments(args), fs) == [a, b]
  {
    var names := Arguments(args);
    assert Usable(fs, a) && Usable(fs, b) && !Usable(fs, e) && !Usable(fs, m);
    assert names[..1] == [a] && names[..2] == [a, e] && names[..3] == [a, e, m];
    assert names[..4] == [a, e, m, a] && names[..4][..3] == names[..3];
    assert names[..3][..2] == names[..2] && names[..2][..1] == names[..1] && names[..1][..0] == [];
    assert FileList(names[..1], fs) == [a];
    assert FileList(names[..2], fs) == [a];
    assert FileList(names[..3], fs) == [a];
    assert FileList(names[..4], fs) == [a];
    assert names[..5][..4] == names[..4];
  }
}
