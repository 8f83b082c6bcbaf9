/**
 * The session object: the keyed collection, the id counter, the loader of
 * the persisted file, the store operations and the command interpreter.
 */
module Lab {
  import opened Wrappers
  import opened Numbers
  import opened Entities
  import opened Codec
  import opened Store
  import opened Console
  import opened Protocol

  /** What opening a script path yields. */
  datatype ScriptFile =
    | NotReadable            // the path is not readable
    | NotOpenable            // readable, but it cannot be opened as a file (a directory, say)
    | Script(lines: seq<string>)

  /**
   * Everything the session takes from its surroundings: the library text
   * formats, the two regular-expression splits, the clock, the file system's
   * answer for script paths and whether the save file can be opened.
   */
  datatype Env = Env(
    formats: Formats,
    splitFields: string -> seq<string>,  // line.split(" *, *")
    tokenize: string -> seq<string>,     // line.split(" +")
    clock: nat -> Date,                  // the n-th reading of new Date(), counting from 0
    script: string -> ScriptFile,
    saveWritable: bool)

  /** An exception nothing catches, which ends the whole program. */
  datatype Crash =
    | InputEnded       // a field was read after the last input line
    | CategoryMissing  // the category filter met a record without category
    | StackExhausted   // scripts nested deeper than the stack allows

  datatype Flow = Continue | Exit | Crashed(reason: Crash)

  class PivoLab {
    var marines: map<int, Marine>
    var maxid: int
    /** Whether `++maxid` has ever wrapped around. */
    ghost var overflowed: bool
    /** How many times `readMarine` has read the clock so far. */
    var clockReads: nat

    /** Keys and ids are Java longs. */
    ghost predicate Valid()
      reads this
    {
      SessionValid(Snapshot())
    }

    /** No record carries an id above the counter, so the next authored id is fresh. */
    ghost predicate IdsBounded()
      reads this
    {
      forall k :: k in marines ==> marines[k].id <= maxid
    }

    constructor ()
      ensures Valid() && IdsBounded() && !overflowed
      ensures marines == map[] && maxid == 0 && clockReads == 0
    {
      marines := map[];
      maxid := 0;
      overflowed := false;
      clockReads := 0;
    }

    /**
     * `readFile`: put the entry of every line up to the first empty one into
     * the collection, then seed the counter with the largest id present. A
     * line that does not decode stops the load; the entries put before it
     * stay and the counter is not reseeded.
     */
    method ReadFile(env: Env, lines: seq<string>) returns (err: Option<DecodeError>)
      requires Valid()
      modifies this`marines, this`maxid
      ensures Valid()
      ensures var loaded := LoadLines(env.formats, env.splitFields, lines);
              marines == PutAll(old(marines), loaded.entries) && err == loaded.error
      ensures err.None? ==> IsMaxId(marines, maxid) && IdsBounded()
      ensures err.Some? ==> maxid == old(maxid)
    {
      var pos := 0;
      ghost var done: seq<(int, Marine)> := [];
      while pos < |lines| && lines[pos] != ""
        invariant 0 <= pos <= |lines|
        invariant Valid() && maxid == old(maxid)
        invariant LoadedSoFar(env.formats, env.splitFields, lines, pos, done)
        invariant marines == PutAll(old(marines), done)
        decreases |lines| - pos
      {
        var decoded := DecodeFields(env.formats, env.splitFields(lines[pos]));
        if decoded.Failure? {
          LoadHalts(env.formats, env.splitFields, lines, pos, done, Some(decoded.error));
          return Some(decoded.error);
        }
        LoadAdvance(env.formats, env.splitFields, lines, pos, done, decoded.value);
        PutAllSnoc(old(marines), done, decoded.value);
        Insert(decoded.value.0, decoded.value.1);
        done := done + [decoded.value];
        pos := pos + 1;
      }
      LoadHalts(env.formats, env.splitFields, lines, pos, done, None);
      maxid := MaxId(marines);
      err := None;
    }

    method Insert(key: int, m: Marine)
      requires Valid() && InLong(key) && InLong(m.id)
      modifies this`marines
      ensures Valid()
      ensures marines == old(marines)[key := m]
    {
      marines := marines[key := m];
    }

    /** `update`: matches records by id, not by key, so it rewrites zero, one or several entries. */
    method Update(id: int, m: Marine)
      requires Valid() && InLong(id)
      modifies this`marines
      ensures Valid()
      ensures marines == UpdatedById(old(marines), id, m)
    {
      var updated := m.(id := id);
      var pending := marines.Keys;
      ghost var orig := marines;
      while pending != {}
        invariant pending <= orig.Keys && marines.Keys == orig.Keys
        invariant forall k :: k in orig ==>
                    marines[k] == if k !in pending && orig[k].id == id then updated else orig[k]
        decreases pending
      {
        NonEmptyKeys(pending);
        var k :| k in pending;
        if marines[k].id == id {
          marines := marines[k := updated];
        }
        pending := pending - {k};
      }
      assert marines.Keys == UpdatedById(orig, id, m).Keys;
      assert forall k :: k in marines ==> marines[k] == UpdatedById(orig, id, m)[k];
    }

    method RemoveKey(key: int)
      requires Valid()
      modifies this`marines
      ensures Valid()
      ensures marines == old(marines) - {key}
    {
      marines := marines - {key};
    }

    method Clear()
      requires Valid()
      modifies this`marines
      ensures Valid()
      ensures marines == map[]
    {
      marines := map[];
    }

    /** `removeLower`: visits every key and removes the entries strictly less healthy than `t`. */
    method RemoveLower(t: Marine)
      requires Valid()
      modifies this`marines
      ensures Valid()
      ensures marines == RemovedLower(old(marines), t.health)
    {
      var pending := marines.Keys;
      ghost var orig := marines;
      while pending != {}
        invariant pending <= orig.Keys
        invariant forall k :: k in marines <==> k in orig && (k in pending || !(orig[k].health < t.health))
        invariant forall k :: k in marines ==> marines[k] == orig[k]
        decreases pending
      {
        NonEmptyKeys(pending);
        var k :| k in pending;
        if marines[k].health < t.health {
          marines := marines - {k};
        }
        pending := pending - {k};
      }
      assert forall k :: k in marines <==> k in orig && !(orig[k].health < t.health);
      assert marines.Keys == RemovedLower(orig, t.health).Keys;
      assert forall k :: k in marines ==> marines[k] == RemovedLower(orig, t.health)[k];
    }

    /** `replaceIfLower`: the caller has checked that `key` is present. */
    method ReplaceIfLower(key: int, m: Marine)
      requires Valid() && key in marines && InLong(m.id)
      modifies this`marines
      ensures Valid()
      ensures marines == ReplacedIfLower(old(marines), key, m)
    {
      if m.health < marines[key].health {
        marines := marines[key := m];
      }
    }

    /** `removeLowerKey`: visits every key and removes those strictly below `key`. */
    method RemoveLowerKey(key: int)
      requires Valid()
      modifies this`marines
      ensures Valid()
      ensures marines == RemovedLowerKey(old(marines), key)
    {
      var pending := marines.Keys;
      ghost var orig := marines;
      while pending != {}
        invariant pending <= orig.Keys
        invariant forall k :: k in marines <==> k in orig && (k in pending || !(k < key))
        invariant forall k :: k in marines ==> marines[k] == orig[k]
        decreases pending
      {
        NonEmptyKeys(pending);
        var k :| k in pending;
        if k < key {
          marines := marines - {k};
        }
        pending := pending - {k};
      }
      assert forall k :: k in marines <==> k in orig && !(k < key);
      assert marines.Keys == RemovedLowerKey(orig, key).Keys;
      assert forall k :: k in marines ==> marines[k] == RemovedLowerKey(orig, key)[k];
    }

    /** The session as a value: the collection, the counter, whether it wrapped and the clock readings. */
    ghost function Snapshot(): Session
      reads this
    {
      Session(marines, maxid, overflowed, clockReads)
    }

    /**
     * What every command keeps: a wrap-around of the counter is never undone;
     * until one happens, no id exceeds the counter and the counter only grows.
     */
    twostate predicate Keeps()
      reads this
    {
      && (old(overflowed) ==> overflowed)
      && (old(IdsBounded()) && !overflowed ==> IdsBounded())
      && (!overflowed ==> old(maxid) <= maxid)
    }

    /**
     * `readMarine`: read the fields of a new record and stamp it with
     * `++maxid` and a fresh clock reading.
     */
    method ReadMarine(env: Env, lines: seq<string>, pos: nat) returns (r: FieldsResult)
      requires Valid() && pos <= |lines|
      modifies this`maxid, this`overflowed, this`clockReads
      ensures Valid()
      ensures r.Built? <==> NextRecord(env, lines, pos, old(maxid), old(clockReads)).Some?
      ensures r.Built? ==> NextRecord(env, lines, pos, old(maxid), old(clockReads)) == Some((r.marine, r.next))
      ensures ReadDone(env, old(Snapshot()), Snapshot(), lines, pos, if r.Built? then r.next else |lines|)
    {
      ghost var built := NextRecord(env, lines, pos, maxid, clockReads);
      var id := Inc64(maxid);
      r := ReadFields(env.formats, lines, pos, id, env.clock(clockReads));
      assert r.Built? <==> built.Some?;
      assert r.Built? ==> built == Some((r.marine, r.next));
      Stamp(r.Built?, r.FieldsExhausted? && r.dated);
    }

    /** The bookkeeping of `readMarine`: `++maxid` once a record is built, and one more clock reading once it was taken. */
    method Stamp(built: bool, dated: bool)
      requires Valid()
      modifies this`maxid, this`overflowed, this`clockReads
      ensures Valid()
      ensures built ==> maxid == Inc64(old(maxid)) && overflowed == (old(overflowed) || old(maxid) == MaxLong)
      ensures !built ==> maxid == old(maxid) && overflowed == old(overflowed)
      ensures clockReads == old(clockReads) + (if built || dated then 1 else 0)
    {
      if built || dated {
        clockReads := clockReads + 1;
      }
      if built {
        overflowed := overflowed || maxid == MaxLong;
        maxid := Inc64(maxid);
      }
    }

    method CmdInsert(env: Env, args: seq<string>, lines: seq<string>, pos: nat) returns (next: nat, out: seq<Output>)
      requires Valid() && pos <= |lines|
      modifies this
      ensures Valid() && pos <= next <= |lines| && Keeps()
      ensures InsertDone(env, old(Snapshot()), Snapshot(), args, lines, pos, next, out)
    {
      var check := InsertArg(args, marines);
      if check.Reject? {
        return pos, [Message(check.message)];
      }
      var r := ReadMarine(env, lines, pos);
      if r.FieldsExhausted? {
        return |lines|, r.out + [Message("invalid key")];
      }
      Insert(check.value, r.marine);
      next, out := r.next, r.out;
    }

    method CmdUpdate(env: Env, args: seq<string>, lines: seq<string>, pos: nat) returns (next: nat, out: seq<Output>)
      requires Valid() && pos <= |lines|
      modifies this
      ensures Valid() && pos <= next <= |lines| && Keeps()
      ensures UpdateDone(env, old(Snapshot()), Snapshot(), args, lines, pos, next, out)
    {
      var check := UpdateArg(args, marines);
      if check.Reject? {
        return pos, [Message(check.message)];
      }
      var r := ReadMarine(env, lines, pos);
      if r.FieldsExhausted? {
        return |lines|, r.out + [Message("invalid id")];
      }
      Update(check.value, r.marine);
      next, out := r.next, r.out;
    }

    method CmdRemoveKey(args: seq<string>, pos: nat) returns (next: nat, out: seq<Output>)
      requires Valid()
      modifies this`marines
      ensures Valid() && Keeps()
      ensures RemoveKeyDone(old(Snapshot()), Snapshot(), args, pos, next, out)
    {
      var check := PresentKeyArg("remove_key", args, marines);
      if check.Reject? {
        return pos, [Message(check.message)];
      }
      RemoveKey(check.value);
      next, out := pos, [];
    }

    method CmdReplaceIfLower(env: Env, args: seq<string>, lines: seq<string>, pos: nat) returns (next: nat, out: seq<Output>)
      requires Valid() && pos <= |lines|
      modifies this
      ensures Valid() && pos <= next <= |lines| && Keeps()
      ensures ReplaceIfLowerDone(env, old(Snapshot()), Snapshot(), args, lines, pos, next, out)
    {
      var check := PresentKeyArg("replace_if_lower", args, marines);
      if check.Reject? {
        return pos, [Message(check.message)];
      }
      var r := ReadMarine(env, lines, pos);
      if r.FieldsExhausted? {
        return |lines|, r.out + [Message("invalid key")];
      }
      ReplaceIfLower(check.value, r.marine);
      ReplaceIfLowerEffect(old(marines), check.value, r.marine);
      next, out := r.next, r.out;
    }

    method CmdRemoveLowerKey(args: seq<string>, pos: nat) returns (next: nat, out: seq<Output>)
      requires Valid()
      modifies this`marines
      ensures Valid() && Keeps()
      ensures RemoveLowerKeyDone(old(Snapshot()), Snapshot(), args, pos, next, out)
    {
      var check := RemoveLowerKeyArg(args);
      if check.Reject? {
        return pos, [Message(check.message)];
      }
      RemoveLowerKey(check.value);
      next, out := pos, [];
    }

    method CmdRemoveLower(env: Env, args: seq<string>, lines: seq<string>, pos: nat) returns (next: nat, out: seq<Output>, flow: Flow)
      requires Valid() && pos <= |lines|
      modifies this
      ensures Valid() && pos <= next <= |lines| && Keeps()
      ensures RemoveLowerDone(env, old(Snapshot()), Snapshot(), args, lines, pos, next, out, flow)
    {
      if |args| > 1 {
        return pos, [Message("remove_lower doesn't take any same-line arguments")], Continue;
      }
      var r := ReadMarine(env, lines, pos);
      if r.FieldsExhausted? {
        return |lines|, r.out, Crashed(InputEnded);
      }
      RemoveLower(r.marine);
      next, out, flow := r.next, r.out, Continue;
    }

    /** `execute_script <path>`: runs the script's lines with the same session, as a nested loop. */
    method CmdExecuteScript(env: Env, args: seq<string>, depth: nat) returns (out: seq<Output>, flow: Flow)
      requires Valid()
      modifies this
      ensures Valid() && Keeps()
      ensures ScriptDone(env, old(Snapshot()), Snapshot(), args, depth, out, flow)
      decreases depth, 0
    {
      if |args| == 1 {
        return [Message("file required")], Continue;
      } else if |args| != 2 {
        return [Message("execute_script only takes 1 argument")], Continue;
      }
      match env.script(args[1])
      case NotReadable =>
        out, flow := [Message("file not readable")], Continue;
      case NotOpenable =>
        out, flow := [Message("file not found")], Continue;
      case Script(scriptLines) =>
        if depth == 0 {
          out, flow := [], Crashed(StackExhausted);
        } else {
          var crash;
          ghost var trace;
          out, crash, trace := Interact(env, scriptLines, depth - 1);
          flow := if crash.Some? then Crashed(crash.value) else Continue;
        }
    }

    /** Runs one of the commands named by `Changes`. */
    method Change(env: Env, args: seq<string>, lines: seq<string>, pos: nat, depth: nat) returns (next: nat, out: seq<Output>, flow: Flow)
      requires Valid() && pos <= |lines| && |args| > 0 && Changes(args[0])
      modifies this
      ensures Valid() && pos <= next <= |lines| && Keeps()
      ensures Changed(env, old(Snapshot()), Snapshot(), args, lines, pos, depth, next, out, flow)
      decreases depth, 1
    {
      var command := args[0];
      next, out, flow := pos, [], Continue;
      if command == "insert" {
        next, out := CmdInsert(env, args, lines, pos);
      } else if command == "update" {
        next, out := CmdUpdate(env, args, lines, pos);
      } else if command == "remove_key" {
        next, out := CmdRemoveKey(args, pos);
      } else if command == "clear" {
        Clear();
      } else if command == "execute_script" {
        out, flow := CmdExecuteScript(env, args, depth);
      } else if command == "remove_lower" {
        next, out, flow := CmdRemoveLower(env, args, lines, pos);
      } else if command == "replace_if_lower" {
        next, out := CmdReplaceIfLower(env, args, lines, pos);
      } else {
        next, out := CmdRemoveLowerKey(args, pos);
      }
    }

    /**
     * One command line of `interact`; `pos` indexes the line after it. The
     * commands are told apart by name, so the order of the tests is immaterial.
     */
    method Execute(env: Env, line: string, lines: seq<string>, pos: nat, depth: nat) returns (next: nat, out: seq<Output>, flow: Flow)
      requires Valid() && pos <= |lines|
      modifies this
      ensures Valid() && pos <= next <= |lines| && Keeps()
      ensures Dispatched(env, old(Snapshot()), Snapshot(), env.tokenize(line), lines, pos, depth, next, out, flow)
      ensures flow == Exit <==> IsExitLine(env, line)
      decreases depth, 2
    {
      var args := env.tokenize(line);
      next, out, flow := pos, [], Continue;
      if |args| == 0 {
        return;
      }
      if Changes(args[0]) {
        next, out, flow := Change(env, args, lines, pos, depth);
      } else {
        next, out, flow := Query(env, args, lines, pos);
      }
    }

    /** Runs one of the commands that only print; it changes nothing. */
    method Query(env: Env, args: seq<string>, lines: seq<string>, pos: nat) returns (next: nat, out: seq<Output>, flow: Flow)
      requires Valid() && pos <= |lines| && |args| > 0 && !Changes(args[0])
      ensures pos <= next <= |lines|
      ensures Queried(env, Snapshot(), Snapshot(), args, lines, pos, next, out, flow)
    {
      var command := args[0];
      next, out, flow := pos, [], Continue;
      if command == "help" {
        out := [HelpText];
      } else if command == "info" {
        out := [InfoText(|marines|)];
      } else if command == "show" {
        out := [Listing(marines)];
      } else if command == "save" {
        if env.saveWritable {
          out := [SaveFile(SaveLines(env.formats, marines))];
        } else {
          out := [Message("problem with save file")];
        }
      } else if command == "exit" {
        flow := Exit;
      } else if command == "group_counting_by_creation_date" {
        out := [Groups(GroupCountingByCreationDate(marines))];
      } else if command == "filter_greater_than_category" {
        next, out, flow := FilterCommand(args, lines, pos, marines);
      } else if command == "print_ascending" {
        var sorted := SortByHealth(marines);
        out := [Ascending(sorted)];
      } else {
        out := [Message("unknown command")];
      }
    }

    /** One pass of the loop of `interact`: runs the command line at `at`, then any lines the command reads after it. */
    method RunLine(env: Env, lines: seq<string>, at: nat, depth: nat) returns (next: nat, out: seq<Output>, flow: Flow, ghost step: Step)
      requires Valid() && at < |lines|
      modifies this
      ensures Valid() && Keeps()
      ensures step == Step(Snapshot(), next, out, flow) && at < next <= |lines|
      ensures StepFollows(env, lines, depth, old(Snapshot()), at, step)
      ensures flow == Exit <==> IsExitLine(env, lines[at])
      decreases depth, 3
    {
      next, out, flow := Execute(env, lines[at], lines, at + 1, depth);
      step := Step(Snapshot(), next, out, flow);
    }

    /**
     * `interact`: print the prompt, then run the lines one command at a time,
     * printing the prompt again after each, until the lines run out, `exit`
     * or an exception nothing catches. Scripts run through the same loop one
     * `depth` lower. `trace` holds one step per command line run.
     */
    method Interact(env: Env, lines: seq<string>, depth: nat) returns (out: seq<Output>, crash: Option<Crash>, ghost trace: seq<Step>)
      requires Valid()
      modifies this
      ensures Valid() && Keeps()
      ensures Ran(env, old(Snapshot()), lines, depth, trace, Snapshot(), out, crash)
      ensures |out| > 0 && out[0] == Prompt("> ")
      ensures lines == [] ==> out == [Prompt("> ")] && crash == None && Snapshot() == old(Snapshot())
      decreases depth, 4
    {
      out := [Prompt("> ")];
      crash := None;
      trace := [];
      var pos := 0;
      while pos < |lines|
        invariant pos == Start(trace, |trace|) <= |lines|
        invariant Valid() && Keeps()
        invariant Running(env, old(Snapshot()), lines, depth, trace, Snapshot(), out)
        invariant crash == None
        decreases |lines| - pos
      {
        var next, o, flow, step := RunLine(env, lines, pos, depth);
        StepsExtend(env, old(Snapshot()), lines, depth, trace, step);
        RunningStep(env, old(Snapshot()), lines, depth, trace, out, step);
        trace := trace + [step];
        out := out + o;
        pos := next;
        if flow == Exit {
          return;
        }
        if flow.Crashed? {
          crash := Some(flow.reason);
          return;
        }
        out := out + [Prompt("> ")];
      }
      RunningEnds(env, old(Snapshot()), lines, depth, trace, Snapshot(), out);
    }
  }

  /**
   * The record `readMarine` builds from the lines at `pos` when the counter
   * stands at `maxid` and the clock has been read `clockReads` times, with
   * the next unread line.
   */
  ghost function NextRecord(env: Env, lines: seq<string>, pos: nat, maxid: int, clockReads: nat): Option<(Marine, nat)>
    requires InLong(maxid) && pos <= |lines|
  {
    BuildRecord(env.formats, lines, pos, Inc64(maxid), env.clock(clockReads))
  }

  /** The commands that may change the session; the others only print. */
  predicate Changes(command: string)
  {
    || command == "insert" || command == "update" || command == "remove_key" || command == "clear"
    || command == "execute_script" || command == "remove_lower" || command == "replace_if_lower"
    || command == "remove_lower_key"
  }

  /** The argument check of `insert`: a long key that is not present yet. */
  function InsertArg(args: seq<string>, ms: map<int, Marine>): (r: ArgCheck<int>)
    ensures r.Accept? ==> InLong(r.value) && r.value !in ms
    ensures r.Reject? && |args| == 2 && ParseLong(args[1]).Some? ==> ParseLong(args[1]).value in ms
  {
    SimpleSingleArg(args, ParseLong, (k: int) => k !in ms, "insert", "key", "key already present")
  }

  /** The argument check of `update`: a long that is the id of some record. */
  function UpdateArg(args: seq<string>, ms: map<int, Marine>): (r: ArgCheck<int>)
    ensures r.Accept? ==> InLong(r.value) && exists k :: k in ms && ms[k].id == r.value
    ensures r.Reject? && |args| == 2 && ParseLong(args[1]).Some? ==> forall k :: k in ms ==> ms[k].id != ParseLong(args[1]).value
  {
    SimpleSingleArg(args, ParseLong, (id: int) => exists k :: k in ms && ms[k].id == id, "update", "id", "id not found")
  }

  /** The argument check shared by `remove_key` and `replace_if_lower`: a long that is a present key. */
  function PresentKeyArg(command: string, args: seq<string>, ms: map<int, Marine>): (r: ArgCheck<int>)
    ensures r.Accept? ==> |args| == 2 && Some(r.value) == ParseLong(args[1]) && r.value in ms
    ensures r.Reject? && |args| == 2 && ParseLong(args[1]).Some? ==> ParseLong(args[1]).value !in ms
  {
    SimpleSingleArg(args, ParseLong, (k: int) => k in ms, command, "key", "key not found")
  }

  /** The argument check of `remove_lower_key`: any long. */
  function RemoveLowerKeyArg(args: seq<string>): (r: ArgCheck<int>)
    ensures r.Accept? <==> |args| == 2 && ParseLong(args[1]).Some?
    ensures r.Accept? ==> Some(r.value) == ParseLong(args[1])
  {
    SimpleSingleArg(args, ParseLong, Always, "remove_lower_key", "key", "")
  }

  /**
   * The outcome of `filter_greater_than_category`: it takes no same-line
   * argument, reads the threshold category from the next lines (an empty line
   * is not accepted) and lists the entries of a higher category; a record
   * without category ends the program.
   */
  predicate FilterDone(args: seq<string>, lines: seq<string>, pos: nat, ms: map<int, Marine>,
                       next: nat, out: seq<Output>, flow: Flow)
    requires pos <= |lines|
  {
    if |args| > 1 then
      flow == Continue && next == pos &&
      out == [Message("filter_greater_than_category doesn't take any same-line arguments")]
    else match Field(lines, pos, ParseCategory, Always, false)
      case None => flow == Crashed(InputEnded) && next == |lines|
      case Some(read) =>
        && next == read.1
        && read.0.Some?
        && (match FilterGreaterThanCategory(ms, read.0.value)
            case Failure(_) => flow == Crashed(CategoryMissing)
            case Success(selected) => flow == Continue && |out| > 0 && out[|out| - 1] == Filtered(selected))
  }

  method FilterCommand(args: seq<string>, lines: seq<string>, pos: nat, ms: map<int, Marine>)
    returns (next: nat, out: seq<Output>, flow: Flow)
    requires pos <= |lines|
    ensures pos <= next <= |lines|
    ensures FilterDone(args, lines, pos, ms, next, out, flow)
    ensures flow == Crashed(CategoryMissing) ==> exists k :: k in ms && ms[k].category.None?
  {
    if |args| > 1 {
      return pos, [Message("filter_greater_than_category doesn't take any same-line arguments")], Continue;
    }
    var r := ReadObject(lines, pos, ParseCategory, Always,
                        "Enter category (one of [" + CategoryChoices() + "]): ", "invalid category", false);
    if r.Exhausted? {
      return |lines|, r.out, Crashed(InputEnded);
    }
    var c := r.value.value;
    match FilterGreaterThanCategory(ms, c)
    case Failure(_) =>
      next, out, flow := r.next, r.out, Crashed(CategoryMissing);
    case Success(selected) =>
      next, out, flow := r.next, r.out + [Filtered(selected)], Continue;
  }

  /** The session's state as a value: the collection, the counter, whether it wrapped and the clock readings. */
  datatype Session = Session(marines: map<int, Marine>, maxid: int, overflowed: bool, clockReads: nat)

  /** Keys and ids are Java longs. */
  predicate SessionValid(s: Session)
  {
    InLong(s.maxid) && forall k :: k in s.marines ==> InLong(k) && InLong(s.marines[k].id)
  }

  /**
   * The counter, the clock and the next unread line after `readMarine`:
   * the counter moves only when a record is built, the clock is read once
   * the coordinates are in, and running out leaves nothing unread.
   */
  ghost predicate ReadDone(env: Env, s0: Session, s1: Session, lines: seq<string>, pos: nat, next: nat)
    requires InLong(s0.maxid) && pos <= |lines|
  {
    match NextRecord(env, lines, pos, s0.maxid, s0.clockReads)
    case Some(built) =>
      && s1.maxid == Inc64(s0.maxid) && built.0.id == s1.maxid
      && s1.overflowed == (s0.overflowed || s0.maxid == MaxLong)
      && s1.clockReads == s0.clockReads + 1
      && next == built.1
    case None =>
      && s1.maxid == s0.maxid && s1.overflowed == s0.overflowed
      && s1.clockReads == s0.clockReads + (if ReadHead(env.formats, lines, pos).Some? then 1 else 0)
      && next == |lines|
  }

  /** The outcome of `insert <key>`: only a key that is not present yet gets the new record. */
  ghost predicate InsertDone(env: Env, s0: Session, s1: Session, args: seq<string>, lines: seq<string>, pos: nat,
                             next: nat, out: seq<Output>)
    requires SessionValid(s0) && pos <= |lines|
  {
    match InsertArg(args, s0.marines)
    case Reject(message) => s1 == s0 && next == pos && out == [Message(message)]
    case Accept(key) =>
      && ReadDone(env, s0, s1, lines, pos, next)
      && (match NextRecord(env, lines, pos, s0.maxid, s0.clockReads)
          case Some(built) => s1.marines == s0.marines[key := built.0]
          case None => s1.marines == s0.marines && |out| > 0 && out[|out| - 1] == Message("invalid key"))
  }

  /** The outcome of `update <id>`: the id must belong to some record; every record with that id is replaced. */
  ghost predicate UpdateDone(env: Env, s0: Session, s1: Session, args: seq<string>, lines: seq<string>, pos: nat,
                             next: nat, out: seq<Output>)
    requires SessionValid(s0) && pos <= |lines|
  {
    match UpdateArg(args, s0.marines)
    case Reject(message) => s1 == s0 && next == pos && out == [Message(message)]
    case Accept(id) =>
      && ReadDone(env, s0, s1, lines, pos, next)
      && (match NextRecord(env, lines, pos, s0.maxid, s0.clockReads)
          case Some(built) => s1.marines == UpdatedById(s0.marines, id, built.0)
          case None => s1.marines == s0.marines && |out| > 0 && out[|out| - 1] == Message("invalid id"))
  }

  /** The outcome of `remove_key <key>`: only a present key is removed, silently. */
  predicate RemoveKeyDone(s0: Session, s1: Session, args: seq<string>, pos: nat, next: nat, out: seq<Output>)
  {
    && next == pos
    && (match PresentKeyArg("remove_key", args, s0.marines)
        case Reject(message) => s1 == s0 && out == [Message(message)]
        case Accept(key) => s1 == s0.(marines := s0.marines - {key}) && out == [])
  }

  /** The outcome of `replace_if_lower <key>`: only a present key, and only by a strictly less healthy record. */
  ghost predicate ReplaceIfLowerDone(env: Env, s0: Session, s1: Session, args: seq<string>, lines: seq<string>, pos: nat,
                                     next: nat, out: seq<Output>)
    requires SessionValid(s0) && pos <= |lines|
  {
    match PresentKeyArg("replace_if_lower", args, s0.marines)
    case Reject(message) => s1 == s0 && next == pos && out == [Message(message)]
    case Accept(key) =>
      && ReadDone(env, s0, s1, lines, pos, next)
      && (match NextRecord(env, lines, pos, s0.maxid, s0.clockReads)
          case Some(built) => s1.marines == ReplacedIfLower(s0.marines, key, built.0)
          case None => s1.marines == s0.marines && |out| > 0 && out[|out| - 1] == Message("invalid key"))
  }

  /** The outcome of `remove_lower_key <key>`: every key is accepted and nothing is printed. */
  predicate RemoveLowerKeyDone(s0: Session, s1: Session, args: seq<string>, pos: nat, next: nat, out: seq<Output>)
  {
    && next == pos
    && (match RemoveLowerKeyArg(args)
        case Reject(message) => s1 == s0 && out == [Message(message)]
        case Accept(key) => s1 == s0.(marines := RemovedLowerKey(s0.marines, key)) && out == [])
  }

  /**
   * The outcome of `remove_lower`: it takes no same-line argument and reads
   * the threshold record from the following lines; running out of lines
   * there is not caught.
   */
  ghost predicate RemoveLowerDone(env: Env, s0: Session, s1: Session, args: seq<string>, lines: seq<string>, pos: nat,
                                  next: nat, out: seq<Output>, flow: Flow)
    requires SessionValid(s0) && pos <= |lines|
  {
    if |args| > 1 then
      s1 == s0 && next == pos && flow == Continue &&
      out == [Message("remove_lower doesn't take any same-line arguments")]
    else
      && ReadDone(env, s0, s1, lines, pos, next)
      && (match NextRecord(env, lines, pos, s0.maxid, s0.clockReads)
          case Some(built) => s1.marines == RemovedLower(s0.marines, built.0.health) && flow == Continue
          case None => s1.marines == s0.marines && flow == Crashed(InputEnded))
  }

  /**
   * The outcome of `execute_script <path>`: the argument and file errors,
   * the stack running out when scripts nest too deep, and otherwise a run
   * of the script's lines one level down, which never exits the caller's loop.
   */
  ghost predicate ScriptDone(env: Env, s0: Session, s1: Session, args: seq<string>, depth: nat, out: seq<Output>, flow: Flow)
    decreases depth, 0
  {
    if |args| == 1 then s1 == s0 && flow == Continue && out == [Message("file required")]
    else if |args| != 2 then s1 == s0 && flow == Continue && out == [Message("execute_script only takes 1 argument")]
    else match env.script(args[1])
      case NotReadable => s1 == s0 && flow == Continue && out == [Message("file not readable")]
      case NotOpenable => s1 == s0 && flow == Continue && out == [Message("file not found")]
      case Script(scriptLines) =>
        if depth == 0 then s1 == s0 && flow == Crashed(StackExhausted) && out == []
        else
          && flow != Exit
          && ScriptRan(env, s0, scriptLines, depth - 1, s1, out, if flow.Crashed? then Some(flow.reason) else None)
  }

  /** Some run of `interact` over the script's lines leads from `s0` to `s1` printing `out`. */
  ghost predicate ScriptRan(env: Env, s0: Session, lines: seq<string>, depth: nat, s1: Session, out: seq<Output>, crash: Option<Crash>)
    decreases depth, 6
  {
    exists trace :: Ran(env, s0, lines, depth, trace, s1, out, crash)
  }

  /** A command that only prints: nothing changes and no further line is read. */
  predicate Quiet(s0: Session, s1: Session, pos: nat, next: nat, flow: Flow)
  {
    s1 == s0 && next == pos && flow == Continue
  }

  /** The outcome of one of the commands that may change the session, by its name. */
  ghost predicate Changed(env: Env, s0: Session, s1: Session, args: seq<string>, lines: seq<string>, pos: nat, depth: nat,
                          next: nat, out: seq<Output>, flow: Flow)
    requires SessionValid(s0) && pos <= |lines| && |args| > 0
    decreases depth, 1
  {
    var command := args[0];
    if command == "insert" then InsertDone(env, s0, s1, args, lines, pos, next, out) && flow == Continue
    else if command == "update" then UpdateDone(env, s0, s1, args, lines, pos, next, out) && flow == Continue
    else if command == "remove_key" then RemoveKeyDone(s0, s1, args, pos, next, out) && flow == Continue
    else if command == "clear" then s1 == s0.(marines := map[]) && next == pos && out == [] && flow == Continue
    else if command == "execute_script" then ScriptDone(env, s0, s1, args, depth, out, flow) && next == pos
    else if command == "remove_lower" then RemoveLowerDone(env, s0, s1, args, lines, pos, next, out, flow)
    else if command == "replace_if_lower" then ReplaceIfLowerDone(env, s0, s1, args, lines, pos, next, out) && flow == Continue
    else RemoveLowerKeyDone(s0, s1, args, pos, next, out) && flow == Continue
  }

  /** The outcome of one command line, by its first token. */
  ghost predicate Dispatched(env: Env, s0: Session, s1: Session, args: seq<string>, lines: seq<string>, pos: nat, depth: nat,
                             next: nat, out: seq<Output>, flow: Flow)
    requires SessionValid(s0) && pos <= |lines|
    decreases depth, 2
  {
    if args == [] then Quiet(s0, s1, pos, next, flow) && out == []
    else if Changes(args[0]) then Changed(env, s0, s1, args, lines, pos, depth, next, out, flow)
    else Queried(env, s0, s1, args, lines, pos, next, out, flow)
  }

  /** The outcome of one of the commands that only print, by its name; any other name is unknown. */
  predicate Queried(env: Env, s0: Session, s1: Session, args: seq<string>, lines: seq<string>, pos: nat,
                    next: nat, out: seq<Output>, flow: Flow)
    requires pos <= |lines| && |args| > 0
  {
    var command := args[0];
    if command == "help" then Quiet(s0, s1, pos, next, flow) && out == [HelpText]
    else if command == "info" then Quiet(s0, s1, pos, next, flow) && out == [InfoText(|s0.marines|)]
    else if command == "show" then Quiet(s0, s1, pos, next, flow) && out == [Listing(s0.marines)]
    else if command == "save" then
      Quiet(s0, s1, pos, next, flow) &&
      out == [if env.saveWritable then SaveFile(SaveLines(env.formats, s0.marines)) else Message("problem with save file")]
    else if command == "exit" then s1 == s0 && next == pos && out == [] && flow == Exit
    else if command == "group_counting_by_creation_date" then
      Quiet(s0, s1, pos, next, flow) && out == [Groups(GroupCountingByCreationDate(s0.marines))]
    else if command == "filter_greater_than_category" then
      s1 == s0 && FilterDone(args, lines, pos, s0.marines, next, out, flow)
    else if command == "print_ascending" then
      Quiet(s0, s1, pos, next, flow) && |out| == 1 && out[0].Ascending? && SortedListing(out[0].sorted, s0.marines)
    else Quiet(s0, s1, pos, next, flow) && out == [Message("unknown command")]
  }

  /** One command line run by `interact`: the session after it, the line after those it read, what it printed and how the loop goes on. */
  datatype Step = Step(after: Session, next: nat, out: seq<Output>, flow: Flow)

  /** The line the `i`-th step of a run starts at: the first one, or the one after what the step before it read. */
  function Start(trace: seq<Step>, i: nat): nat
    requires i <= |trace|
  {
    if i == 0 then 0 else trace[i - 1].next
  }

  /** The session the `i`-th step of a run starts from. */
  function Before(s0: Session, trace: seq<Step>, i: nat): Session
    requires i <= |trace|
  {
    if i == 0 then s0 else trace[i - 1].after
  }

  /** What the steps print: each step's output, followed by the prompt unless the step ended the loop. */
  function Printed(trace: seq<Step>): seq<Output>
  {
    if trace == [] then []
    else
      var last := trace[|trace| - 1];
      Printed(trace[..|trace| - 1]) + last.out + (if last.flow == Continue then [Prompt("> ")] else [])
  }

  /** A step runs the command line at `pos` from `before`: its outcome is the dispatch of that line's tokens. */
  ghost predicate StepFollows(env: Env, lines: seq<string>, depth: nat, before: Session, pos: nat, step: Step)
    decreases depth, 3
  {
    && pos < |lines| && SessionValid(before)
    && Dispatched(env, before, step.after, env.tokenize(lines[pos]), lines, pos + 1, depth, step.next, step.out, step.flow)
  }

  /** Every step starts where the one before it stopped, from the session it left. */
  ghost predicate StepsFollow(env: Env, s0: Session, lines: seq<string>, depth: nat, trace: seq<Step>)
    decreases depth, 4, |trace|
  {
    || trace == []
    || (&& StepsFollow(env, s0, lines, depth, trace[..|trace| - 1])
        && StepFollows(env, lines, depth, Before(s0, trace, |trace| - 1), Start(trace, |trace| - 1), trace[|trace| - 1]))
  }

  /** Every step reads its command line and possibly more, never past the last line. */
  predicate Advances(lines: seq<string>, trace: seq<Step>)
  {
    forall i {:trigger Start(trace, i)} :: 0 <= i < |trace| ==> Start(trace, i) < trace[i].next <= |lines|
  }

  /** A command line whose first token is `exit`. */
  predicate IsExitLine(env: Env, line: string)
  {
    var args := env.tokenize(line);
    |args| > 0 && args[0] == "exit"
  }

  /** Exactly the steps that run an `exit` line end the loop by exiting. */
  predicate ExitsOnExit(env: Env, lines: seq<string>, trace: seq<Step>)
  {
    forall i {:trigger Start(trace, i)} :: 0 <= i < |trace| && Start(trace, i) < |lines| ==>
      (trace[i].flow == Exit <==> IsExitLine(env, lines[Start(trace, i)]))
  }

  /**
   * A whole run of `interact` over `lines` from `s0`: the steps follow one
   * another, the loop goes on exactly after a step that continues and leaves
   * lines, it ends in `s1`, the prompt opens the output and follows every
   * step that continues, and the run ends in a crash exactly when its last
   * step does.
   */
  ghost predicate Ran(env: Env, s0: Session, lines: seq<string>, depth: nat, trace: seq<Step>,
                      s1: Session, out: seq<Output>, crash: Option<Crash>)
    decreases depth, 5
  {
    && StepsFollow(env, s0, lines, depth, trace)
    && Advances(lines, trace) && ExitsOnExit(env, lines, trace)
    && (forall i :: 0 <= i < |trace| - 1 ==> trace[i].flow == Continue)
    && (Start(trace, |trace|) == |lines| || (trace != [] && trace[|trace| - 1].flow != Continue))
    && s1 == Before(s0, trace, |trace|)
    && out == [Prompt("> ")] + Printed(trace)
    && crash == (if trace != [] && trace[|trace| - 1].flow.Crashed? then Some(trace[|trace| - 1].flow.reason) else None)
  }

  /** A run of `interact` still under way: every step so far continued, they left the session at `s` and printed `out`. */
  ghost predicate Running(env: Env, s0: Session, lines: seq<string>, depth: nat, trace: seq<Step>, s: Session, out: seq<Output>)
  {
    && StepsFollow(env, s0, lines, depth, trace)
    && Advances(lines, trace) && ExitsOnExit(env, lines, trace)
    && (forall i :: 0 <= i < |trace| ==> trace[i].flow == Continue)
    && s == Before(s0, trace, |trace|)
    && out == [Prompt("> ")] + Printed(trace)
  }

  /**
   * One more pass of the loop: a step that continues keeps the run under way
   * and prints the prompt after its output; one that exits or crashes ends it.
   */
  lemma RunningStep(env: Env, s0: Session, lines: seq<string>, depth: nat, trace: seq<Step>, out: seq<Output>, step: Step)
    requires Running(env, s0, lines, depth, trace, Before(s0, trace, |trace|), out)
    requires StepsFollow(env, s0, lines, depth, trace + [step])
    requires Start(trace, |trace|) < step.next <= |lines|
    requires step.flow == Exit <==> IsExitLine(env, lines[Start(trace, |trace|)])
    ensures step.flow == Continue ==>
              Running(env, s0, lines, depth, trace + [step], step.after, out + step.out + [Prompt("> ")])
    ensures step.flow != Continue ==>
              Ran(env, s0, lines, depth, trace + [step], step.after, out + step.out,
                  if step.flow.Crashed? then Some(step.flow.reason) else None)
  {
    var longer := trace + [step];
    assert longer[..|trace|] == trace;
    assert Printed(longer) == Printed(trace) + step.out + (if step.flow == Continue then [Prompt("> ")] else []);
    assert Advances(lines, longer) by {
      forall i | 0 <= i < |longer|
        ensures Start(longer, i) < longer[i].next <= |lines|
      {
        if i < |trace| {
          assert longer[i] == trace[i] && Start(longer, i) == Start(trace, i);
        }
      }
    }
    assert ExitsOnExit(env, lines, longer) by {
      forall i | 0 <= i < |longer| && Start(longer, i) < |lines|
        ensures longer[i].flow == Exit <==> IsExitLine(env, lines[Start(longer, i)])
      {
        if i < |trace| {
          assert longer[i] == trace[i] && Start(longer, i) == Start(trace, i);
        }
      }
    }
    assert forall i :: 0 <= i < |trace| ==> longer[i] == trace[i];
  }

  /** The loop stops once the lines run out; the run then ends without a crash. */
  lemma RunningEnds(env: Env, s0: Session, lines: seq<string>, depth: nat, trace: seq<Step>, s: Session, out: seq<Output>)
    requires Running(env, s0, lines, depth, trace, s, out)
    requires Start(trace, |trace|) == |lines|
    ensures Ran(env, s0, lines, depth, trace, s, out, None)
  {
  }

  /** A step that follows the last one extends the run. */
  lemma StepsExtend(env: Env, s0: Session, lines: seq<string>, depth: nat, trace: seq<Step>, step: Step)
    requires StepsFollow(env, s0, lines, depth, trace)
    requires StepFollows(env, lines, depth, Before(s0, trace, |trace|), Start(trace, |trace|), step)
    ensures StepsFollow(env, s0, lines, depth, trace + [step])
  {
    var longer := trace + [step];
    assert longer[..|trace|] == trace && longer[|trace|] == step;
    assert Before(s0, longer, |trace|) == Before(s0, trace, |trace|) && Start(longer, |trace|) == Start(trace, |trace|);
  }

  /** The steps of a run read the lines in order: each starts past the start of every earlier one. */
  lemma {:induction false} StartsAscend(lines: seq<string>, trace: seq<Step>, i: nat, j: nat)
    requires Advances(lines, trace)
    requires i < j <= |trace|
    ensures Start(trace, i) < Start(trace, j)
    decreases j - i
  {
    if i < j - 1 {
      StartsAscend(lines, trace, i, j - 1);
    }
  }

  /** The `i`-th step starts at line `i` or later. */
  lemma {:induction false} StartsNoLess(lines: seq<string>, trace: seq<Step>, i: nat)
    requires Advances(lines, trace)
    requires i <= |trace|
    ensures i <= Start(trace, i)
  {
    if i > 0 {
      StartsNoLess(lines, trace, i - 1);
    }
  }

  /** A run takes no more steps than there are lines. */
  lemma RanWithinLines(env: Env, s0: Session, lines: seq<string>, depth: nat, trace: seq<Step>,
                       s1: Session, out: seq<Output>, crash: Option<Crash>)
    requires Ran(env, s0, lines, depth, trace, s1, out, crash)
    ensures |trace| <= |lines|
  {
    StartsNoLess(lines, trace, |trace|);
  }

  /** An `exit` line ends the run: only the last step can be one, and nothing is printed after it. */
  lemma ExitEndsRun(env: Env, s0: Session, lines: seq<string>, depth: nat, trace: seq<Step>,
                    s1: Session, out: seq<Output>, crash: Option<Crash>, i: nat)
    requires Ran(env, s0, lines, depth, trace, s1, out, crash)
    requires i < |trace| && Start(trace, i) < |lines|
    requires IsExitLine(env, lines[Start(trace, i)])
    ensures i == |trace| - 1 && crash == None && s1 == trace[i].after
    ensures out == [Prompt("> ")] + Printed(trace[..i]) + trace[i].out
  {
    assert trace[..|trace| - 1] == trace[..i];
  }

  /** With no lines the run takes no step: only the prompt is printed and nothing changes. */
  lemma RanOnNoLines(env: Env, s0: Session, depth: nat, trace: seq<Step>,
                     s1: Session, out: seq<Output>, crash: Option<Crash>)
    requires Ran(env, s0, [], depth, trace, s1, out, crash)
    ensures trace == [] && s1 == s0 && out == [Prompt("> ")] && crash == None
  {
  }
}
