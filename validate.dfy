/**
 * validate.c: the checks on the command-line arguments. check_txt_file
 * accepts a name whose text from the last '.' on is exactly ".txt";
 * validate refuses only an empty argument vector and otherwise succeeds,
 * whatever check_txt_file says about the names.
 */
module Validate {
  import opened Wrappers
  import opened Common
  import opened CreateDatabase
  import opened CreateSll

  /** strrchr(s, '.'): the position of the last '.', if any. */
  function LastDot(s: string): (r: Option<nat>)
    ensures r.Some? ==> r.value < |s| && s[r.value] == '.'
    ensures r.Some? ==> forall j :: r.value < j < |s| ==> s[j] != '.'
    ensures r.None? <==> forall j :: 0 <= j < |s| ==> s[j] != '.'
  {
    if s == [] then None
    else if s[|s| - 1] == '.' then Some(|s| - 1)
    else LastDot(s[..|s| - 1])
  }

  /** check_txt_file: SUCCESS when there is a '.' and the text from the last
      one to the end is exactly ".txt", compared case by case. */
  function CheckTxtFile(name: string): (r: int)
    ensures r == Success || r == Failure
  {
    var dot := LastDot(name);
    if dot.None? || name[dot.value..] != ".txt" then Failure else Success
  }

  /** The plain reading of "ends in .txt". */
  predicate HasTxtSuffix(name: string) {
    |name| >= 4 && name[|name| - 4..] == ".txt"
  }

  /** Taking the last '.' and comparing the rest with ".txt" accepts exactly
      the names that end in ".txt". */
  lemma CheckTxtFileSuffix(name: string)
    ensures CheckTxtFile(name) == Success <==> HasTxtSuffix(name)
  {
    var dot := LastDot(name);
    var n := |name|;
    if HasTxtSuffix(name) {
      assert name[n - 4] == '.' && name[n - 3] == 't' && name[n - 2] == 'x' && name[n - 1] == 't';
      assert dot.value == n - 4;
    }
    if CheckTxtFile(name) == Success {
      assert |name[dot.value..]| == 4;
    }
  }

  /** The extension is compared case by case and taken from the last '.':
      "a.TXT" and "a.txt.bak" fail, "a.b.txt" and ".txt" pass, and a name
      with no '.' fails. */
  lemma CheckTxtFileExamples(upper: string, bak: string, two: string, bare: string, none: string)
    requires upper == "a.TXT" && bak == "a.txt.bak" && two == "a.b.txt" && bare == ".txt" && none == "readme"
    ensures CheckTxtFile(upper) == Failure && CheckTxtFile(bak) == Failure
    ensures CheckTxtFile(two) == Success && CheckTxtFile(bare) == Success
    ensures CheckTxtFile(none) == Failure
  {
    CheckTxtFileSuffix(upper);
    CheckTxtFileSuffix(bak);
    CheckTxtFileSuffix(two);
    CheckTxtFileSuffix(bare);
    CheckTxtFileSuffix(none);
    assert upper[1..] == ".TXT" && bak[5..] == ".bak" && two[3..] == ".txt" && bare[0..] == ".txt";
    assert LastDot(none).None?;
  }

  /** validate as written: FAILURE only for an empty argument vector. The
      loop over the names calls check_txt_file and goes on whatever it
      returns, so it has no effect on the result. */
  function Validate(args: seq<string>): (r: int)
    ensures r == Success || r == Failure
  {
    if |args| < 1 then Failure else Success
  }

  /** As written, the result does not depend on the names: the program name
      alone passes, and so do names that fail the extension check. */
  lemma ValidateIgnoresNames(args: seq<string>)
    ensures Validate(args) == Failure <==> args == []
    ensures |args| >= 1 ==> Validate(args) == Validate(args[..1])
  {
  }

  /** A name without the extension is listed for indexing: `./a.out notes.md`
      passes validate, and notes.md, when it opens and is not empty, joins
      the file list. */
  lemma ValidateAcceptsOtherExtensions(args: seq<string>, fs: FileSystem, prog: string, notes: string)
    requires prog == "./a.out" && notes == "notes.md" && args == [prog, notes]
    requires Usable(fs, notes)
    ensures CheckTxtFile(notes) == Failure
    ensures Validate(args) == Success && notes in FileList(Arguments(args), fs)
  {
    CheckTxtFileSuffix(notes);
    assert notes[4..] == "s.md";
    FileListMembers(Arguments(args), fs, notes);
    assert Arguments(args) == [notes];
  }

  /** What the comment above validate promises: FAILURE when no file name is
      given or when a name fails the extension check. */
  function ValidateIntended(args: seq<string>): (r: int)
    ensures r == Success || r == Failure
  {
    if |args| < 2 then Failure
    else if exists k :: 1 <= k < |args| && CheckTxtFile(args[k]) == Failure then Failure
    else Success
  }

  /** With the intended check, every file that reaches the list ends in
      ".txt", and at least one name was given. */
  lemma IntendedListsOnlyTxt(args: seq<string>, fs: FileSystem)
    requires ValidateIntended(args) == Success
    ensures |Arguments(args)| >= 1
    ensures forall x :: x in FileList(Arguments(args), fs) ==> HasTxtSuffix(x)
  {
    forall x | x in FileList(Arguments(args), fs)
      ensures HasTxtSuffix(x)
    {
      FileListMembers(Arguments(args), fs, x);
      var k :| 0 <= k < |Arguments(args)| && Arguments(args)[k] == x;
      assert args[k + 1] == x;
      CheckTxtFileSuffix(x);
    }
  }
}
