/**
 * main.c: the start-up checks and the menu loop. The menu is reached only
 * when validate succeeds and the file list is not empty. In the loop each
 * choice may set the flags db_flag, created_flag and updated_flag, which
 * decide whether the next choices act or are refused. The work a choice
 * does (create, display, search, save, update) is modelled in the modules
 * of those operations; here each choice yields the action it takes.
 */
module Menu {
  import opened Wrappers
  import opened Common
  import opened CreateDatabase
  import opened CreateSll
  import opened Validate

  /** The three flags of main, all 0 at start. */
  datatype Flags = Flags(db: bool, created: bool, updated: bool)

  const Initial := Flags(false, false, false)

  /** What a choice does: run one of the five operations, end the loop,
      refuse with an error message, or report an invalid choice. */
  datatype Action = Create | Display | Search | Save | Update | Exit | Refused | Unknown

  // ---------------------------------------------------------------- start-up

  /** The file list the menu works on, or None when main returns before the
      menu: validation fails or no argument survives. */
  function Startup(args: seq<string>, fs: FileSystem): Option<seq<string>> {
    if Validate.Validate(args) == Failure then None
    else
      var list := FileList(Arguments(args), fs);
      if list == [] then None else Some(list)
  }

  /** The menu is reached exactly when some argument after the program name
      opens and is not empty, and then it works on a list without repeats
      holding exactly those arguments. */
  lemma StartupReachesMenu(args: seq<string>, fs: FileSystem)
    ensures Startup(args, fs).Some? <==> exists k :: 1 <= k < |args| && Usable(fs, args[k])
    ensures Startup(args, fs).Some? ==>
              && Distinct(Startup(args, fs).value)
              && forall x :: x in Startup(args, fs).value <==> x in Arguments(args) && Usable(fs, x)
  {
    var names := Arguments(args);
    FileListEmpty(names, fs);
    FileListDistinct(names, fs);
    forall x
      ensures x in FileList(names, fs) <==> x in names && Usable(fs, x)
    {
      FileListMembers(names, fs, x);
    }
    if exists k :: 1 <= k < |args| && Usable(fs, args[k]) {
      var k :| 1 <= k < |args| && Usable(fs, args[k]);
      assert names[k - 1] == args[k];
    }
  }

  /** Whether the menu is reached, and with which list, does not depend on
      the program name argv[0]. */
  lemma StartupIgnoresProgramName(p: string, q: string, names: seq<string>, fs: FileSystem)
    ensures Startup([p] + names, fs) == Startup([q] + names, fs)
  {
    ProgramNameIgnored(p, q, names, fs);
  }

  // ---------------------------------------------------------------- the loop

  /** One pass of the switch in main, as written. */
  function Step(f: Flags, choice: int): (Flags, Action) {
    if choice == 1 then
      if f.created then (f, Refused)
      else if f.updated && f.created then (f, Refused)
      else (f.(db := true, created := true), Create)
    else if choice == 2 then (f, if f.db then Display else Refused)
    else if choice == 3 then (f, if f.db then Search else Refused)
    else if choice == 4 then (f, if f.db then Save else Refused)
    else if choice == 5 then
      if f.updated then (f, Refused)
      else if f.created then (f, Refused)
      else (f.(db := true, updated := true), Update)
    else if choice == 6 then (f, Exit)
    else (f, Unknown)
  }

  /** The flags after a run of choices. */
  function Run(f: Flags, choices: seq<int>): Flags
    decreases |choices|
  {
    if choices == [] then f else Run(Step(f, choices[0]).0, choices[1..])
  }

  /** The actions a run of choices takes, in order. */
  function Actions(f: Flags, choices: seq<int>): (r: seq<Action>)
    ensures |r| == |choices|
    decreases |choices|
  {
    if choices == [] then [] else [Step(f, choices[0]).1] + Actions(Step(f, choices[0]).0, choices[1..])
  }

  /** The do-while loop of main over the choices read, ending right after the
      first 6 or when the input ends. */
  method MenuLoop(choices: seq<int>) returns (flags: Flags, actions: seq<Action>, read: nat)
    ensures read <= |choices|
    ensures read == |choices| || (read > 0 && choices[read - 1] == 6)
    ensures forall j :: 0 <= j < read - 1 ==> choices[j] != 6
    ensures flags == Run(Initial, choices[..read])
    ensures actions == Actions(Initial, choices[..read])
  {
    flags, actions, read := Initial, [], 0;
    var done := false;
    while !done && read < |choices|
      invariant read <= |choices|
      invariant done ==> read > 0 && choices[read - 1] == 6
      invariant forall j :: 0 <= j < read - (if done then 1 else 0) ==> choices[j] != 6
      invariant Run(Initial, choices[..read]) == flags
      invariant Actions(Initial, choices[..read]) == actions
    {
      var choice := choices[read];
      var step := Step(flags, choice);
      RunSnoc(Initial, choices[..read], choice);
      assert choices[..read + 1] == choices[..read] + [choice];
      flags := step.0;
      actions := actions + [step.1];
      read := read + 1;
      done := choice == 6;
    }
  }

  lemma {:induction false} RunSnoc(f: Flags, choices: seq<int>, c: int)
    ensures Run(f, choices + [c]) == Step(Run(f, choices), c).0
    ensures Actions(f, choices + [c]) == Actions(f, choices) + [Step(Run(f, choices), c).1]
    decreases |choices|
  {
    if choices == [] {
      assert [c][1..] == [];
    } else {
      assert (choices + [c])[0] == choices[0];
      assert (choices + [c])[1..] == choices[1..] + [c];
      RunSnoc(Step(f, choices[0]).0, choices[1..], c);
    }
  }

  // ---------------------------------------------------------------- properties

  /** db_flag is set exactly when the database was created or loaded. */
  predicate Consistent(f: Flags) {
    f.db == (f.created || f.updated)
  }

  /** Flags only go from 0 to 1. */
  predicate Below(f: Flags, g: Flags) {
    (f.db ==> g.db) && (f.created ==> g.created) && (f.updated ==> g.updated)
  }

  /** What each choice does to the flags and which action it takes. */
  lemma StepSpec(f: Flags, c: int)
    ensures Below(f, Step(f, c).0)
    ensures Consistent(f) ==> Consistent(Step(f, c).0)
    ensures Step(f, c).1 == Create <==> c == 1 && !f.created
    ensures Step(f, c).1 == Update <==> c == 5 && !f.updated && !f.created
    ensures Step(f, c).0 != f ==> Step(f, c).1 in {Create, Update}
    ensures c in {2, 3, 4} ==> (Step(f, c).1 != Refused <==> f.db)
    ensures c !in {1, 2, 3, 4, 5, 6} ==> Step(f, c) == (f, Unknown)
    ensures Step(f, c).1 == Exit <==> c == 6
  {
  }

  /** Over any run the flags only rise and stay consistent. */
  lemma {:induction false} RunSpec(f: Flags, choices: seq<int>)
    ensures Below(f, Run(f, choices))
    ensures Consistent(f) ==> Consistent(Run(f, choices))
    decreases |choices|
  {
    if choices != [] {
      StepSpec(f, choices[0]);
      RunSpec(Step(f, choices[0]).0, choices[1..]);
    }
  }

  /** Create and update each run at most once in a session. */
  lemma {:induction false} AtMostOnce(f: Flags, choices: seq<int>)
    ensures f.created ==> Create !in Actions(f, choices)
    ensures f.updated || f.created ==> Update !in Actions(f, choices)
    ensures multiset(Actions(f, choices))[Create] <= 1
    ensures multiset(Actions(f, choices))[Update] <= 1
    decreases |choices|
  {
    if choices != [] {
      var g := Step(f, choices[0]).0;
      StepSpec(f, choices[0]);
      AtMostOnce(g, choices[1..]);
      assert Actions(f, choices) == [Step(f, choices[0]).1] + Actions(g, choices[1..]);
    }
  }

  /** As written, create still runs after an update: the second guard of
      case 1 repeats created_flag, which the first guard has just found 0. */
  lemma CreateAfterUpdate()
    ensures Actions(Initial, [5, 1]) == [Update, Create]
    ensures Run(Initial, [5, 1]) == Flags(true, true, true)
  {
    assert [5, 1][1..] == [1];
  }

  /** Case 1 as its guard evidently means it: refused once created_flag or
      updated_flag is set. */
  function StepIntended(f: Flags, choice: int): (Flags, Action) {
    if choice == 1 && f.updated then (f, Refused) else Step(f, choice)
  }

  function RunIntended(f: Flags, choices: seq<int>): Flags
    decreases |choices|
  {
    if choices == [] then f else RunIntended(StepIntended(f, choices[0]).0, choices[1..])
  }

  /** With the intended guard, the database is either created or loaded in a
      session, never both. */
  lemma {:induction false} IntendedExclusive(f: Flags, choices: seq<int>)
    requires !(f.created && f.updated)
    ensures !(RunIntended(f, choices).created && RunIntended(f, choices).updated)
    decreases |choices|
  {
    if choices != [] {
      IntendedExclusive(StepIntended(f, choices[0]).0, choices[1..]);
    }
  }
}
