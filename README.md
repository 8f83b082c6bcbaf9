# PivoLab, modelled in Dafny

PivoLab is a console program that keeps a collection of space-marine records
in memory, keyed by a long integer. At start-up it loads the collection from a
text file with one record per line: twelve comma-separated fields, with the
literal `null` standing for an absent category, chapter or world. It then reads
commands line by line:

- `insert`, `update`, `remove_key`, `clear`, `remove_lower`, `replace_if_lower`
  and `remove_lower_key` edit the collection;
- `show`, `info`, `group_counting_by_creation_date`,
  `filter_greater_than_category` and `print_ascending` query it;
- `save` writes the collection back in the file format;
- `execute_script` runs the commands of another file through the same loop.

A command that needs a new record asks for it field by field and repeats each
question until the answer is acceptable. Every record it builds gets the next
value of a session-wide id counter.

The model follows the single class `PivoLab` (src/PivoLab.java), in eight modules:

- `Wrappers`: `Option` and `Result`.
- `Numbers`: Java `long` text as `Long.parseLong` and `Long.toString` treat it,
  and the wrap-around of `++` on a `long`.
- `Entities`: the record, its parts and the three enumerations, with their
  names and `valueOf` parsing.
- `Codec`: the twelve-field encoding written by `save`, its decoding, and the
  load loop of `readFile`.
- `Store`: the store operations as functions on maps, with their properties.
  It also holds the method that seeds the id counter and the sort behind
  `print_ascending`.
- `Console`: the values standing for what the program prints.
- `Protocol`: `simpleSingleArg`, the `readObject` retry loop, and the
  field-by-field reading of a record.
- `Lab`: the class `PivoLab`. Its fields are `marines`, `maxid` and the count of clock readings. It holds
  `readFile`, the store methods as in-place updates, `readMarine`, one method
  per command, and the `interact` loop.

The console is a sequence of input lines consumed by index. What the program
prints is a sequence of `Output` values. These have to come from outside the
model and are passed in as parameters (`Env` and `Formats`):

- the Java library's text forms of doubles, floats and dates;
- the two regular-expression splits;
- the clock;
- the file system's answer for a script path;
- whether the save file can be opened.

The invariant the session keeps is `PivoLab.Valid()`: every key, every id and
the counter are Java longs. `PivoLab.IdsBounded()` says that no id is above the
counter. It holds after a successful load and is kept by every command as long
as the counter has not wrapped around; the ghost field `overflowed` records
whether it has.

## Model

| member | source | states |
|---|---|---|
| Numbers.Inc64 | src/PivoLab.java:390 | `++maxid` on a Java long stays a long: MAX_VALUE wraps to MIN_VALUE |
| Numbers.ParseLong | src/PivoLab.java:31-32 | a text that parses is non-empty and denotes a value in the range of a long |
| Numbers.ParseShowLong | src/PivoLab.java:150 | the decimal text `save` writes for a long key or id parses back to the same long |
| Entities.Ordinal | src/PivoLab.java:448 | a category's ordinal is its position in the declaration order |
| Entities.ParseCategory | src/PivoLab.java:42 | `valueOf` accepts exactly the constant names, and gives back the constant of that name |
| Entities.ParseWeapon | src/PivoLab.java:44 | `valueOf` accepts exactly the weapon names, and gives back the constant of that name |
| Entities.ParseMeleeWeapon | src/PivoLab.java:45 | `valueOf` accepts exactly the melee weapon names, and gives back the constant of that name |
| Entities.NamesAreNotSentinel | src/PivoLab.java:154 | no category name is the `null` sentinel, so an absent category and a present one never share a field text |
| Codec.EncodeFields | src/PivoLab.java:149-158 | `save` writes twelve fields; field 7 is `null` exactly for an absent category; fields 10 and 11 are `null` for an absent chapter, and field 11 is `null` for an absent world |
| Codec.DecodeFields | src/PivoLab.java:27-59 | a field count other than twelve is rejected with that count; with twelve fields the line decodes exactly when every field the loader parses parses, and otherwise the error names the first field that does not, all earlier ones parsing; a decoded record holds the parsed key, id, coordinates, date, health, category, weapon and melee weapon, the name is field 2, the category is absent exactly when field 7 is `null`, the chapter exactly when field 10 is `null`, and a present chapter's world exactly when field 11 is `null` |
| Codec.WorldIgnoredWithoutChapter | src/PivoLab.java:47-58 | when field 10 is `null`, field 11 does not affect the decoded result |
| Codec.Reloaded | src/PivoLab.java:19 | a record after save and reload differs from the original at most in its creation date, which becomes the date its printed `dd-MM-yy` day parses to |
| Codec.RoundTripToDay | src/PivoLab.java:27-59 | decoding the fields `save` writes for a record gives back the same key and the same record except that the creation date is cut to its `dd-MM-yy` day (line 152 formats it, line 36 parses it), provided the double and float formats read back what they print and no chapter text is `null` |
| Codec.RoundTrip | src/PivoLab.java:27-59 | for a record whose creation date is already the start of its day, decoding the fields `save` writes gives back exactly the same key and record |
| Codec.EncodedScalarsParse | src/PivoLab.java:149-158 | each field `save` writes for a long key and id parses back to the value it was written from, with double and float formats that read back what they print; the date field parses as the printed day does |
| Codec.EncodedKindsParse | src/PivoLab.java:154-155 | the category, weapon and melee weapon fields `save` writes parse back with `valueOf` to the record's own constants, an absent category being written as `null` |
| Codec.SentinelChapterNameLost | src/PivoLab.java:156 | a chapter named `null` comes back as an absent chapter after save and decode |
| Codec.DecodeScenarioLine | src/PivoLab.java:27-59 | the fields `1, 1, Bob, 0.0, 1.0, 01-01-20, 10.0, PRIMARIS, BOLTER, CHAINSWORD, Ultramarines, Macragge` decode to key 1, id 1, health 10, category PRIMARIS and chapter Ultramarines of Macragge |
| Codec.LoadLines | src/PivoLab.java:26-61 | the load never yields more entries than there are lines, and every loaded key and id is a long |
| Codec.LoadStopsAtEmptyLine | src/PivoLab.java:26 | lines after the first empty line do not affect the load |
| Codec.LoadRejectsWrongFieldCount | src/PivoLab.java:27-30 | a line before any empty line that does not split into twelve fields makes the load fail |
| Codec.EncodeLineNonEmpty | src/PivoLab.java:150 | no line `save` writes is empty, so none of them ends a later load early |
| Codec.SaveThenLoad | src/PivoLab.java:149-158 | loading the lines `save` writes for a sequence of restorable entries gives back, without error and in the same order, the same keys with each record's date cut to its day |
| Codec.PutAllAgreeing | src/PivoLab.java:59 | putting entries that agree with a collection yields that collection restricted to their keys |
| Codec.ReloadedPutAll | src/PivoLab.java:59 | putting the reloaded entries of a listing of every entry of a collection yields that collection with each record reloaded |
| Codec.ReloadedDays | src/PivoLab.java:19 | a collection whose creation dates are already days, such as one just loaded, is unchanged by reloading |
| Codec.SaveRestores | src/PivoLab.java:21-62 | loading the lines `save` writes for a listing of every entry of a collection restores its keys without error, each record with its creation date cut to its day; when every date is already a day, it gives back exactly that collection |
| Codec.SaveLines | src/PivoLab.java:147-160 | `save` writes one non-empty line for each key of the collection and no other |
| Store.UpdateEffect | src/PivoLab.java:405-410 | `update` keeps the key set; every record with the given id becomes the new record carrying that id; every other record is unchanged |
| Store.UpdateIdempotent | src/PivoLab.java:405-410 | updating twice with the same id and record is the same as updating once |
| Store.InsertThenRemove | src/PivoLab.java:401-403 | inserting at an absent key and then removing that key restores the collection |
| Store.RemoveLowerEffect | src/PivoLab.java:420-424 | exactly the entries with health at least the threshold remain, unchanged |
| Store.RemoveLowerIdempotent | src/PivoLab.java:420-424 | removing the less healthy records twice with the same threshold is the same as once |
| Store.RemoveLowerKeyEffect | src/PivoLab.java:432-436 | exactly the keys not below the threshold remain, with their records |
| Store.RemoveLowerKeyScenario | src/PivoLab.java:432-436 | on keys 1, 3, 5 and 7, a threshold of 5 leaves keys 5 and 7 |
| Store.ReplaceIfLowerEffect | src/PivoLab.java:426-430 | the key set is kept; the record at the key becomes the new one exactly when that one is strictly less healthy, so its health never increases; no other entry changes |
| Store.RemoveLowerAsWritten | src/PivoLab.java:420-424 | as written, the stream removal leaves the filtered collection and then reports a concurrent modification if anything was removed |
| Store.RemoveLowerAsWrittenThrows | src/PivoLab.java:421-423 | as written, one record below the threshold is enough for `remove_lower` to throw |
| Store.RemoveLowerKeyAsWritten | src/PivoLab.java:432-436 | as written, the stream removal leaves the filtered collection and then reports a concurrent modification if anything was removed |
| Store.RemoveLowerKeyAsWrittenThrows | src/PivoLab.java:433-435 | as written, one key below the threshold is enough for `remove_lower_key` to throw |
| Store.RemoveLowerAsWrittenCompletes | src/PivoLab.java:420-424 | as written, `removeLower` leaves the collection as it was and raises nothing when no record is below the threshold |
| Store.RemoveLowerKeyAsWrittenCompletes | src/PivoLab.java:432-436 | as written, `removeLowerKey` leaves the collection as it was and raises nothing when no key is below the threshold |
| Store.GroupCountingByCreationDate | src/PivoLab.java:438-444 | there is one group per creation date present in the collection, and every group count is positive |
| Store.GroupCountsSumToSize | src/PivoLab.java:438-441 | the group counts add up to the number of entries |
| Store.FilterGreaterThanCategory | src/PivoLab.java:446-450 | the query fails exactly when some record has no category |
| Store.FilterEffect | src/PivoLab.java:446-450 | when every record has a category, exactly the entries of a strictly higher ordinal are selected, unchanged, and none of the given category |
| Store.FilterAntitone | src/PivoLab.java:448 | raising the threshold category can only shrink the selection |
| Store.FilterWithNullCategoryFails | src/PivoLab.java:448 | one record without category makes the query fail whatever the threshold |
| Store.MaxId | src/PivoLab.java:62 | the counter is seeded with 0 for an empty collection, and otherwise with an id present in it that no id exceeds |
| Store.SortByHealth | src/PivoLab.java:452-456 | `print_ascending` lists every entry of the collection exactly once, unchanged, with health non-decreasing |
| Protocol.SimpleSingleArg | src/PivoLab.java:78-98 | one token prints `<arg> required`; more than two print `<command> only takes 1 same-line argument`; an argument that does not parse prints `invalid <arg>`; an invalid one prints the command's message; the action runs exactly when there are two tokens, the argument parses and is valid, and then with the parsed value |
| Protocol.FirstAccepted | src/PivoLab.java:284-297 | the loop stops at the first line from the start that is acceptable, every earlier one being refused; none is found only when no remaining line is acceptable |
| Protocol.Field | src/PivoLab.java:283-298 | what one `readObject` call gives: a value and the line after the accepted one, no value exactly when empty input is allowed and that line is empty, otherwise the parse of that line, which is valid |
| Protocol.ReadObject | src/PivoLab.java:283-298 | the loop succeeds exactly when `Field` gives a value, and then with that value and next line; it stops at the first acceptable line, gives no value exactly when empty input is allowed and the line is empty, and otherwise a value that parsed and is valid; every earlier line was refused and printed the prompt and the error; when no line is acceptable the input runs out |
| Protocol.ParseYesNo | src/PivoLab.java:359-371 | the chapter question accepts exactly `y` (yes) and `n` (no) |
| Protocol.ReadHead | src/PivoLab.java:301-321 | name, x and y are read in that order; the name is non-empty and at least three lines are read |
| Protocol.KindsSpec | src/PivoLab.java:325-357 | health, category, weapon type and melee weapon are read in that order; the health is positive and at least four lines are read |
| Protocol.ReadChapter | src/PivoLab.java:373-389 | a chapter is read exactly when one was asked for, with a non-empty name and then an optional world |
| Protocol.ChapterStep | src/PivoLab.java:359-389 | the yes/no question is read before any chapter question |
| Protocol.TailSpec | src/PivoLab.java:325-389 | after the creation date at least five lines are read, the health is positive and a chapter has a non-empty name |
| Protocol.BuildRecord | src/PivoLab.java:300-392 | a built record read at least eight lines after its name and coordinates, and carries the given id and creation date, a non-empty name, positive health and, when it has a chapter, a non-empty chapter name |
| Protocol.HeadFromLines | src/PivoLab.java:301-321 | the name read is one of the lines read, and each coordinate is the `Double.parseDouble` of one |
| Protocol.KindsFromLines | src/PivoLab.java:325-357 | the health, category and weapons read are each the parse of one of the lines read; an absent category was an empty line |
| Protocol.ChapterFromLines | src/PivoLab.java:359-389 | a chapter is added exactly after a `y` line and omitted after an `n` line, and its name is one of the lines read |
| Protocol.BuiltHeadFromLines | src/PivoLab.java:300-321 | the name of a built record is one of the lines read for it, and each coordinate the parse of one |
| Protocol.BuiltKindsFromLines | src/PivoLab.java:325-357 | the health, category, weapon type and melee weapon of a built record are each the parse of one of the lines read for it; an absent category was an empty line |
| Protocol.BuiltChapterFromLines | src/PivoLab.java:359-391 | a built record has a chapter exactly after a `y` answer among the lines read, none after an `n`, and a chapter name is one of the lines read |
| Protocol.ReadFields | src/PivoLab.java:300-392 | the reads build a record exactly when `BuildRecord` does, and then that record and next line; when the input runs out, the creation date was taken exactly when name and coordinates had been read |
| Protocol.ReadTail | src/PivoLab.java:325-389 | the reads after the creation date succeed exactly when `TailSpec` does, with its values |
| Protocol.ReadKinds | src/PivoLab.java:325-357 | the health, category and weapon reads succeed exactly when `KindsSpec` does, with its values |
| Protocol.ReadChapterFields | src/PivoLab.java:373-389 | the chapter reads succeed exactly when `ReadChapter` does, with its values |
| Lab.PivoLab.constructor | src/PivoLab.java:13-17 | a new session has an empty collection and a counter at 0 |
| Lab.PivoLab.ReadFile | src/PivoLab.java:21-62 | the collection receives the loaded entries in order, and the error is the load's error; after a complete load the counter is the largest id (0 for none) and bounds every id; after a failed load the counter is unchanged |
| Lab.PivoLab.Insert | src/PivoLab.java:401-403 | the entry is put at the key |
| Lab.PivoLab.Update | src/PivoLab.java:405-410 | the collection becomes its update by id, keeping `Valid` |
| Lab.PivoLab.RemoveKey | src/PivoLab.java:412-414 | the key is removed |
| Lab.PivoLab.Clear | src/PivoLab.java:416-418 | the collection becomes empty |
| Lab.PivoLab.RemoveLower | src/PivoLab.java:420-424 | the loop over the keys leaves exactly the entries that are not less healthy than the threshold |
| Lab.PivoLab.ReplaceIfLower | src/PivoLab.java:426-430 | the entry at a present key is replaced only by a strictly less healthy record |
| Lab.PivoLab.RemoveLowerKey | src/PivoLab.java:432-436 | the loop over the keys leaves exactly the keys not below the threshold |
| Lab.PivoLab.ReadMarine | src/PivoLab.java:300-392 | the record built is `BuildRecord` of the lines with id `++maxid` and the next clock reading; a built record moves the counter by exactly one, wrapping at the top of the long range, and uses one clock reading; when the input runs out the counter is unchanged, the clock was read exactly when the coordinates were in, and every line is consumed |
| Lab.PivoLab.Stamp | src/PivoLab.java:323-390 | `++maxid` happens once a record is built, and the clock is read once the coordinates are in |
| Lab.PivoLab.CmdInsert | src/PivoLab.java:116-124 | a refused argument prints its message and changes nothing; for an absent long key the record read is put at that key; when the input runs out nothing is put and `invalid key` is printed last; the counter and clock move as `readMarine` says |
| Lab.PivoLab.CmdUpdate | src/PivoLab.java:125-133 | a refused argument prints its message and changes nothing; for an id some record has, the collection becomes its update by that id with the record read; when the input runs out nothing changes and `invalid id` is printed last |
| Lab.PivoLab.CmdRemoveKey | src/PivoLab.java:134-142 | a refused argument prints its message and changes nothing; a present key is removed and nothing is printed; no other line is read and the counter does not move |
| Lab.PivoLab.CmdReplaceIfLower | src/PivoLab.java:197-205 | a refused argument prints its message and changes nothing; for a present key the collection becomes `ReplacedIfLower` of the key and the record read; when the input runs out nothing changes and `invalid key` is printed last |
| Lab.PivoLab.CmdRemoveLowerKey | src/PivoLab.java:206-214 | a refused argument prints its message and changes nothing; any long key removes exactly the keys below it; no other line is read |
| Lab.PivoLab.CmdRemoveLower | src/PivoLab.java:189-196 | a same-line argument is refused with its message and changes nothing; otherwise the collection becomes its removal below the health of the record read; input running out while reading it ends the program with the collection unchanged |
| Lab.PivoLab.CmdExecuteScript | src/PivoLab.java:164-185 | a missing or extra argument, an unreadable path and an unopenable file each print their message and change nothing; a script nested deeper than the stack allows ends the program; a script that runs is a run of the interaction loop over the script's lines one level deeper (`ScriptRan`), from the current session to the new one, with exactly that run's output, and a crash inside it ends the program; an `exit` in the script never makes the outer loop exit |
| Lab.PivoLab.Execute | src/PivoLab.java:103-240 | a command yields `Exit` exactly when its first token is `exit`; a line without tokens changes nothing and prints nothing; the commands that may change the session have the outcome `Change` states, the others the outcome `Query` states |
| Lab.PivoLab.Query | src/PivoLab.java:107-240 | `help`, `info`, `show`, `save`, `group_counting_by_creation_date`, `filter_greater_than_category`, `print_ascending`, `exit` and unknown commands change nothing; all but the filter read no further line, and each prints its value (`unknown command` for an unknown one, the save lines or `problem with save file`, a sorted listing of every entry); the filter has the outcome `FilterCommand` states |
| Lab.PivoLab.Change | src/PivoLab.java:116-214 | each command that may change the session has the outcome its own method states, and `clear` empties the collection and prints nothing |
| Lab.PivoLab.RunLine | src/PivoLab.java:103-241 | one turn of the loop: the line at the position is tokenized and dispatched, the step consumes it and any lines the command reads, and it exits exactly on an `exit` line |
| Lab.PivoLab.Interact | src/PivoLab.java:100-243 | the session is a run (`Ran`) over the input lines: each step dispatches the line where the previous one stopped, from the session the previous one left; every step but the last continues; the loop stops at the first `exit`, at the first crash, or when the input is used up; the output is the prompt, then each step's output followed by a prompt after every continuing step; the crash is the last step's; every run keeps `Valid`, never undoes a wrap-around, and until one happens keeps every id within the counter and only moves the counter forward |
| Lab.RunningStep | src/PivoLab.java:102-241 | one more step extends a run in progress: a continuing step adds its output and the prompt, and an `exit` or a crash ends the run with that step's output and no prompt |
| Lab.RunningEnds | src/PivoLab.java:102 | a run in progress whose steps have used up the input is a finished run without crash |
| Lab.StepsExtend | src/PivoLab.java:102-104 | a step dispatched from where the last one stopped, from the session it left, extends the chain of steps |
| Lab.StartsAscend | src/PivoLab.java:102-104 | each step starts strictly after the one before it: later steps start at later lines |
| Lab.StartsNoLess | src/PivoLab.java:102-104 | the i-th step starts at line i or later |
| Lab.RanWithinLines | src/PivoLab.java:102-104 | a run never has more steps than there are input lines |
| Lab.ExitEndsRun | src/PivoLab.java:186-188 | a step that reads an `exit` line is the last step of the run, ends it without crash, leaves the session that step left, and no prompt is printed after it |
| Lab.RanOnNoLines | src/PivoLab.java:101-102 | with no input the run has no step, leaves the session as it was, prints only the prompt and does not crash |
| Lab.FilterCommand | src/PivoLab.java:218-233 | a same-line argument is refused and no line is read; otherwise the threshold is the category `Field` reads from the next lines, running out of them ends the program, a record without category ends it too, and else the listing printed last is the query for that category |
| Lab.InsertArg | src/PivoLab.java:116-123 | the `insert` argument is accepted only as a long key not yet present, and a parsed key is refused only when present |
| Lab.UpdateArg | src/PivoLab.java:125-132 | the `update` argument is accepted only as a long that is some record's id, and a parsed id is refused only when no record has it |
| Lab.PresentKeyArg | src/PivoLab.java:134-141 | the argument of `remove_key` (and, at lines 197-204, of `replace_if_lower`) is accepted only as the parsed long when it is a present key, and a parsed key is refused only when absent |
| Lab.RemoveLowerKeyArg | src/PivoLab.java:206-213 | the `remove_lower_key` argument is accepted exactly when it is a single long, and then as that long |

## Left out

- Console and file I/O: the character reader of the save file, the `Scanner`s, and the `FileInputStream` and `PrintWriter` objects are not modelled. Input is a sequence of lines; output is a sequence of `Output` values.
- `help`, `info`, `show`, `printMarine` and the group and listing print formats: the model produces `HelpText`, `InfoText(size)`, `Listing`, `Groups`, `Filtered`, `Ascending` and `SaveFile` values, not their text.
- Java floating point and dates (`Double.parseDouble`, `Double.toString`, `Float.parseFloat`, `Float.toString`, `SimpleDateFormat("dd-MM-yy")`): these are parameters (`Formats`). Health and coordinates are `real`, so NaN, infinities and float rounding are not modelled. The round-trip lemmas assume the double and float formats read back what they print, and that the date text written reads back as some date. `dd-MM-yy` keeps only the day, so a reloaded record gets the date its day parses to (`Codec.Reloaded`), and only a collection whose dates are already days comes back exactly.
- `new Date()`: the clock is the parameter `Env.clock`, whose n-th reading of the session is `Env.clock(n)`; the class field `clockReads` counts the readings. `readMarine` takes one per record, right after the y coordinate, as the source does. How far apart in time the readings are is not modelled.
- Regular-expression splitting (`" *, *"` and `" +"`) is a parameter of the model. That includes Java's dropping of trailing empty strings. The save/load lemmas assume that splitting a saved line gives back its twelve fields. That fails when the name, chapter name or world contains a comma, or spaces next to a comma, and when the world is empty or only spaces: the split then drops the trailing empty field and the load sees eleven fields. Those records are outside the lemmas.
- HashMap iteration order: the collection is a `map`; `save`, `show` and the groups are unordered values. `print_ascending` is ordered only by health, and ties come in whatever order the sort leaves them.
- The `save` command's `PrintWriter` is never flushed or closed in the source. Data still in its buffer when the program ends never reaches the file. The model treats the lines as written.
- `filterGreaterThanCategory` as written prints the matching records it meets before it reaches a record without category and throws. The model prints nothing in that case; it only ends the session.
- Script nesting: `execute_script` recursion is bounded by the `depth` parameter. Running out of depth is the `StackExhausted` crash that stands for Java's stack overflow. The real stack depth is not modelled.
- `Files.isReadable` and opening a directory: the file system's answer is the parameter `Env.script`.
- The enumeration constants: `AstartesCategory`, `Weapon`, `MeleeWeapon`, `SpaceMarine` and `Chapter` are not part of this model's sources. They are declared with four categories, four weapons and three melee weapons in upper-case names. Their counts and names are assumed, but every property is stated for any constant.
- `update` stores the same record object under every matching key, and it changes that object's id in place. The model stores equal values, so sharing between keys is not modelled.
- `Long.parseLong` is modelled for ASCII digits only; Java also accepts other Unicode digits.
- src/Main.java is startup glue. It calls `interact` with two arguments and catches `PivoFileException`. The class it drives takes one argument and throws `IllegalArgumentException` on a bad line. The model follows src/PivoLab.java: there is no quiet flag, and every prompt is printed, in scripts too.
- `help` and `info` text, the unused line counter of `readFile`, and src/PivoFileException.java (never thrown) are not modelled.
- Lab.PivoLab.RemoveLower: models the intended filter rather than the exception thrown after the removals (see Findings).
- Lab.PivoLab.RemoveLowerKey: models the intended filter rather than the exception raised after the removals, which `simpleSingleArg` catches (see Findings).
- Lab.PivoLab.Interact: a ghost trace of steps witnesses the run. A script's run is stated as some such trace existing (`Lab.ScriptRan`), not as a trace the outer run records.
- Lab.PivoLab.CmdRemoveLowerKey: models the intended removal with no message. As written, the exception raised after the removals is caught by `simpleSingleArg` and prints `invalid key` (see Findings).
- Lab.PivoLab.CmdInsert: states the collection and the counter, and that `invalid key` is printed last when the input runs out, but not the prompts and retry messages printed while the record is read.
- Lab.PivoLab.CmdUpdate: does not state the prompts printed while the record is read (see Lab.PivoLab.CmdInsert).
- Lab.PivoLab.CmdReplaceIfLower: does not state the prompts printed while the record is read (see Lab.PivoLab.CmdInsert).
- Lab.PivoLab.CmdRemoveLower: does not state the prompts printed while the record is read (see Lab.PivoLab.CmdInsert).
- Lab.FilterCommand: states the listing printed last, not the prompts and retry messages before it.

## Findings

| source | as written | input that shows it | evidently intended | confidence | as-written member | corrected member |
|---|---|---|---|---|---|---|
| src/PivoLab.java:421-423 | `removeLower` removes from the map while a stream walks its `keySet()`. The walk completes, then `ConcurrentModificationException` is thrown, and `interact` does not catch it. | `remove_lower` with a threshold record healthier than some stored record | every less healthy record is removed and the session goes on | medium, not executed | Store.RemoveLowerAsWrittenThrows | Lab.PivoLab.RemoveLower |
| src/PivoLab.java:433-435 | `removeLowerKey` removes from the map while a stream walks its `keySet()`, with the same exception after the walk. It runs as the action of `simpleSingleArg` (src/PivoLab.java:86-96), which catches it and prints `invalid key`; the session goes on. | `remove_lower_key 5` on keys 1, 3, 5 and 7 | the keys below the threshold are removed and nothing is printed | medium, not executed | Store.RemoveLowerKeyAsWrittenThrows | Lab.PivoLab.RemoveLowerKey |
