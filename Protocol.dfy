/**
 * The argument and field protocol of the interpreter: the check of a
 * command's single same-line argument, the retry loop that reads one field,
 * and the field-by-field reading of a new record.
 */
module Protocol {
  import opened Wrappers
  import opened Entities
  import opened Codec
  import opened Console

  datatype ArgCheck<T> = Reject(message: string) | Accept(value: T)

  /**
   * `simpleSingleArg`: the diagnostic to print, or the parsed argument the
   * command's action runs with. With no token at all, reading the argument
   * fails and is reported like a parse failure.
   */
  function SimpleSingleArg<T>(args: seq<string>, parse: string -> Option<T>, isValid: T -> bool,
                              commandName: string, argName: string, validityError: string): (r: ArgCheck<T>)
    ensures |args| == 1 ==> r == Reject(argName + " required")
    ensures |args| > 2 ==> r == Reject(commandName + " only takes 1 same-line argument")
    ensures |args| == 0 ==> r == Reject("invalid " + argName)
    ensures |args| == 2 && parse(args[1]).None? ==> r == Reject("invalid " + argName)
    ensures |args| == 2 && parse(args[1]).Some? && !isValid(parse(args[1]).value) ==> r == Reject(validityError)
    ensures r.Accept? <==> |args| == 2 && parse(args[1]).Some? && isValid(parse(args[1]).value)
    ensures r.Accept? ==> parse(args[1]) == Some(r.value)
  {
    if |args| == 1 then Reject(argName + " required")
    else if |args| > 2 then Reject(commandName + " only takes 1 same-line argument")
    else if |args| == 0 then Reject("invalid " + argName)
    else
      match parse(args[1])
      case None => Reject("invalid " + argName)
      case Some(t) => if isValid(t) then Accept(t) else Reject(validityError)
  }

  /** `readObject`'s outcome: the value and the index of the next unread line, or the end of input. */
  datatype ReadResult<T> = Read(value: Option<T>, next: nat, out: seq<Output>) | Exhausted(out: seq<Output>)

  /** Whether `readObject` stops at `line`. */
  predicate Accepts<T>(conv: string -> Option<T>, isValid: T -> bool, canBeEmpty: bool, line: string)
  {
    (canBeEmpty && line == "") || (conv(line).Some? && isValid(conv(line).value))
  }

  /** The output of `n` refused lines: each prompt followed by the error message. */
  function Retries(prompt: string, error: string, n: nat): seq<Output>
  {
    if n == 0 then [] else Retries(prompt, error, n - 1) + [Prompt(prompt), Message(error)]
  }

  /** The index of the line `readObject` stops at when it starts at `pos`; none when it refuses every remaining line. */
  function FirstAccepted<T>(lines: seq<string>, pos: nat, conv: string -> Option<T>, isValid: T -> bool,
                            canBeEmpty: bool): (r: Option<nat>)
    requires pos <= |lines|
    ensures r.Some? ==> pos <= r.value < |lines| && Accepts(conv, isValid, canBeEmpty, lines[r.value])
    ensures r.Some? ==> forall j :: pos <= j < r.value ==> !Accepts(conv, isValid, canBeEmpty, lines[j])
    ensures r.None? ==> forall j :: pos <= j < |lines| ==> !Accepts(conv, isValid, canBeEmpty, lines[j])
    decreases |lines| - pos
  {
    if pos == |lines| then None
    else if Accepts(conv, isValid, canBeEmpty, lines[pos]) then Some(pos)
    else FirstAccepted(lines, pos + 1, conv, isValid, canBeEmpty)
  }

  /**
   * One field read by `readObject`: its value (none for an allowed empty line)
   * and the index of the next unread line, or none when the input runs out.
   */
  function Field<T>(lines: seq<string>, pos: nat, conv: string -> Option<T>, isValid: T -> bool,
                    canBeEmpty: bool): (r: Option<(Option<T>, nat)>)
    requires pos <= |lines|
    ensures r.Some? ==> pos < r.value.1 <= |lines|
    ensures r.Some? ==> (r.value.0.None? <==> canBeEmpty && lines[r.value.1 - 1] == "")
    ensures r.Some? && r.value.0.Some? ==> conv(lines[r.value.1 - 1]) == r.value.0 && isValid(r.value.0.value)
  {
    match FirstAccepted(lines, pos, conv, isValid, canBeEmpty)
    case None => None
    case Some(j) => Some((if canBeEmpty && lines[j] == "" then None else conv(lines[j]), j + 1))
  }

  /**
   * `readObject`: prompt, read a line, and stop at the first line that is
   * empty when that is allowed (giving no value) or that converts to a valid
   * value; every other line prints the error and the loop starts over. Reading
   * past the last line is the end of input.
   */
  method ReadObject<T>(lines: seq<string>, pos: nat, conv: string -> Option<T>, isValid: T -> bool,
                       prompt: string, error: string, canBeEmpty: bool) returns (r: ReadResult<T>)
    requires pos <= |lines|
    ensures r.Read? ==> pos < r.next <= |lines|
    ensures r.Read? ==> Accepts(conv, isValid, canBeEmpty, lines[r.next - 1])
    ensures r.Read? ==> (r.value.None? <==> canBeEmpty && lines[r.next - 1] == "")
    ensures r.Read? && r.value.Some? ==> conv(lines[r.next - 1]) == r.value && isValid(r.value.value)
    ensures r.Read? ==> forall j :: pos <= j < r.next - 1 ==> !Accepts(conv, isValid, canBeEmpty, lines[j])
    ensures r.Read? ==> r.out == Retries(prompt, error, r.next - 1 - pos) + [Prompt(prompt)]
    ensures r.Exhausted? ==> forall j :: pos <= j < |lines| ==> !Accepts(conv, isValid, canBeEmpty, lines[j])
    ensures r.Exhausted? ==> r.out == Retries(prompt, error, |lines| - pos) + [Prompt(prompt)]
    ensures r.Read? <==> Field(lines, pos, conv, isValid, canBeEmpty).Some?
    ensures r.Read? ==> Field(lines, pos, conv, isValid, canBeEmpty) == Some((r.value, r.next))
  {
    var i := pos;
    var out: seq<Output> := [];
    while i < |lines|
      invariant pos <= i <= |lines|
      invariant forall j :: pos <= j < i ==> !Accepts(conv, isValid, canBeEmpty, lines[j])
      invariant out == Retries(prompt, error, i - pos)
      invariant FirstAccepted(lines, pos, conv, isValid, canBeEmpty) == FirstAccepted(lines, i, conv, isValid, canBeEmpty)
      decreases |lines| - i
    {
      out := out + [Prompt(prompt)];
      var line := lines[i];
      i := i + 1;
      if canBeEmpty && line == "" {
        return Read(None, i, out);
      }
      var t := conv(line);
      if t.Some? && isValid(t.value) {
        return Read(t, i, out);
      }
      out := out + [Message(error)];
    }
    r := Exhausted(out + [Prompt(prompt)]);
  }

  /** The constant names of an enumeration, comma-separated, as the prompts list them. */
  function CategoryChoices(): string
  {
    Join(seq(|Categories|, i requires 0 <= i < |Categories| => CategoryName(Categories[i])), ", ")
  }

  function WeaponChoices(): string
  {
    Join(seq(|Weapons|, i requires 0 <= i < |Weapons| => WeaponName(Weapons[i])), ", ")
  }

  function MeleeWeaponChoices(): string
  {
    Join(seq(|MeleeWeapons|, i requires 0 <= i < |MeleeWeapons| => MeleeWeaponName(MeleeWeapons[i])), ", ")
  }

  /** The answer to the chapter question: exactly `y` or `n`. */
  function ParseYesNo(s: string): (r: Option<bool>)
    ensures r == Some(true) <==> s == "y"
    ensures r == Some(false) <==> s == "n"
  {
    if s == "y" then Some(true) else if s == "n" then Some(false) else None
  }

  /** The conversions and checks `readMarine` hands to `readObject`. */
  function Text(s: string): Option<string>
  {
    Some(s)
  }

  predicate NonEmpty(s: string)
  {
    s != ""
  }

  predicate Positive(h: real)
  {
    h > 0.0
  }

  predicate Always<T>(t: T)
  {
    true
  }

  /** The name and coordinates `readMarine` reads before it takes the creation date, and the next unread line. */
  function ReadHead(f: Formats, lines: seq<string>, pos: nat): (r: Option<(string, Coordinates, nat)>)
    requires pos <= |lines|
    ensures r.Some? ==> pos + 3 <= r.value.2 <= |lines| && r.value.0 != ""
  {
    var name := Field(lines, pos, Text, NonEmpty, false);
    if name.None? then None
    else
      var x := Field(lines, name.value.1, f.parseDouble, Always, false);
      if x.None? then None
      else
        var y := Field(lines, x.value.1, f.parseDouble, Always, false);
        if y.None? then None
        else Some((name.value.0.value, Coordinates(x.value.0.value, y.value.0.value), y.value.1))
  }

  /** The chapter questions: none when the answer was `n`, otherwise a name and an optional world. */
  function ReadChapter(lines: seq<string>, pos: nat, wanted: bool): (r: Option<(Option<Chapter>, nat)>)
    requires pos <= |lines|
    ensures r.Some? ==> pos <= r.value.1 <= |lines|
    ensures r.Some? ==> (r.value.0.Some? <==> wanted)
    ensures r.Some? && r.value.0.Some? ==> r.value.0.value.name != "" && pos + 2 <= r.value.1
  {
    if !wanted then Some((None, pos))
    else
      var name := Field(lines, pos, Text, NonEmpty, false);
      if name.None? then None
      else
        var world := Field(lines, name.value.1, Text, Always, true);
        if world.None? then None
        else Some((Some(Chapter(name.value.0.value, world.value.0)), world.value.1))
  }

  /** Health, category and the two weapons, as `readMarine` reads them after taking the creation date, and the next unread line. */
  function KindsSpec(f: Formats, lines: seq<string>, pos: nat): (r: Option<(real, Option<Category>, Weapon, MeleeWeapon, nat)>)
    requires pos <= |lines|
    ensures r.Some? ==> pos + 4 <= r.value.4 <= |lines| && r.value.0 > 0.0
  {
    var health := Field(lines, pos, f.parseFloat, Positive, false);
    if health.None? then None
    else
      var category := Field(lines, health.value.1, ParseCategory, Always, true);
      if category.None? then None
      else
        var weapon := Field(lines, category.value.1, ParseWeapon, Always, false);
        if weapon.None? then None
        else
          var melee := Field(lines, weapon.value.1, ParseMeleeWeapon, Always, false);
          if melee.None? then None
          else Some((health.value.0.value, category.value.0, weapon.value.0.value, melee.value.0.value, melee.value.1))
  }

  /** The fields `readMarine` reads after taking the creation date, ending with the chapter questions. */
  function TailSpec(f: Formats, lines: seq<string>, pos: nat): (r: Option<(real, Option<Category>, Weapon, MeleeWeapon, Option<Chapter>, nat)>)
    requires pos <= |lines|
    ensures r.Some? ==> pos + 5 <= r.value.5 <= |lines| && r.value.0 > 0.0
    ensures r.Some? && r.value.4.Some? ==> r.value.4.value.name != ""
  {
    var kinds := KindsSpec(f, lines, pos);
    if kinds.None? then None
    else
      var (health, category, weapon, melee, next) := kinds.value;
      var chapter := ChapterStep(lines, next);
      if chapter.None? then None
      else Some((health, category, weapon, melee, chapter.value.0, chapter.value.1))
  }

  /**
   * The record `readMarine` builds from the lines it reads at `pos`, stamped
   * with `id` and `date`, and the next unread line; none when the input runs
   * out first.
   */
  function BuildRecord(f: Formats, lines: seq<string>, pos: nat, id: int, date: Date): (r: Option<(Marine, nat)>)
    requires pos <= |lines|
    ensures r.Some? ==> ReadHead(f, lines, pos).Some?
    ensures r.Some? ==> pos + 8 <= r.value.1 <= |lines|
    ensures r.Some? ==> r.value.0.id == id && r.value.0.creationDate == date
    ensures r.Some? ==> r.value.0.name != "" && r.value.0.health > 0.0
    ensures r.Some? && r.value.0.chapter.Some? ==> r.value.0.chapter.value.name != ""
  {
    var head := ReadHead(f, lines, pos);
    if head.None? then None
    else
      var tail := TailSpec(f, lines, head.value.2);
      if tail.None? then None
      else
        var (health, category, weapon, melee, chapter, next) := tail.value;
        Some((Marine(id, head.value.0, head.value.1, date, health, category, weapon, melee, chapter), next))
  }

  /** How a built record is put together from the head, the kinds and the chapter questions. */
  lemma BuildRecordParts(f: Formats, lines: seq<string>, pos: nat, id: int, date: Date)
    requires pos <= |lines| && BuildRecord(f, lines, pos, id, date).Some?
    ensures ReadHead(f, lines, pos).Some?
    ensures var head := ReadHead(f, lines, pos).value;
            && KindsSpec(f, lines, head.2).Some?
            && var kinds := KindsSpec(f, lines, head.2).value;
               && ChapterStep(lines, kinds.4).Some?
               && var chapter := ChapterStep(lines, kinds.4).value;
                  && BuildRecord(f, lines, pos, id, date).value
                     == (Marine(id, head.0, head.1, date, kinds.0, kinds.1, kinds.2, kinds.3, chapter.0), chapter.1)
  {
    var head := ReadHead(f, lines, pos).value;
    assert TailSpec(f, lines, head.2).Some?;
  }

  /** The name of a built record is one of the lines read for it, and each coordinate the parse of one. */
  lemma BuiltHeadFromLines(f: Formats, lines: seq<string>, pos: nat, id: int, date: Date)
    requires pos <= |lines| && BuildRecord(f, lines, pos, id, date).Some?
    ensures var (m, next) := BuildRecord(f, lines, pos, id, date).value;
            && (exists j :: pos <= j < next && lines[j] == m.name)
            && (exists j :: pos <= j < next && f.parseDouble(lines[j]) == Some(m.coordinates.x))
            && (exists j :: pos <= j < next && f.parseDouble(lines[j]) == Some(m.coordinates.y))
  {
    BuildRecordParts(f, lines, pos, id, date);
    var (m, next) := BuildRecord(f, lines, pos, id, date).value;
    var head := ReadHead(f, lines, pos).value;
    var kinds := KindsSpec(f, lines, head.2).value;
    assert m.name == head.0 && m.coordinates == head.1 && head.2 <= next;
    HeadFromLines(f, lines, pos);
    var jn :| pos <= jn < head.2 && lines[jn] == m.name;
    var jx :| pos <= jx < head.2 && f.parseDouble(lines[jx]) == Some(m.coordinates.x);
    var jy :| pos <= jy < head.2 && f.parseDouble(lines[jy]) == Some(m.coordinates.y);
  }

  /**
   * The health, category and weapons of a built record are each the parse of
   * one of the lines read for it; an absent category was an empty line.
   */
  lemma BuiltKindsFromLines(f: Formats, lines: seq<string>, pos: nat, id: int, date: Date)
    requires pos <= |lines| && BuildRecord(f, lines, pos, id, date).Some?
    ensures var (m, next) := BuildRecord(f, lines, pos, id, date).value;
            && (exists j :: pos <= j < next && f.parseFloat(lines[j]) == Some(m.health))
            && (m.category.None? ==> exists j :: pos <= j < next && lines[j] == "")
            && (m.category.Some? ==> exists j :: pos <= j < next && ParseCategory(lines[j]) == m.category)
            && (exists j :: pos <= j < next && ParseWeapon(lines[j]) == Some(m.weaponType))
            && (exists j :: pos <= j < next && ParseMeleeWeapon(lines[j]) == Some(m.meleeWeapon))
  {
    BuildRecordParts(f, lines, pos, id, date);
    var (m, next) := BuildRecord(f, lines, pos, id, date).value;
    var head := ReadHead(f, lines, pos).value;
    var kinds := KindsSpec(f, lines, head.2).value;
    assert (m.health, m.category, m.weaponType, m.meleeWeapon) == (kinds.0, kinds.1, kinds.2, kinds.3);
    KindsFromLines(f, lines, head.2, pos, next);
  }

  /** The chapter of a built record is present exactly as a `y` answer was read, and its name is one of the lines read. */
  lemma BuiltChapterFromLines(f: Formats, lines: seq<string>, pos: nat, id: int, date: Date)
    requires pos <= |lines| && BuildRecord(f, lines, pos, id, date).Some?
    ensures var (m, next) := BuildRecord(f, lines, pos, id, date).value;
            && (m.chapter.None? ==> exists j :: pos <= j < next && lines[j] == "n")
            && (m.chapter.Some? ==> exists j :: pos <= j < next && lines[j] == "y")
            && (m.chapter.Some? ==> exists j :: pos <= j < next && lines[j] == m.chapter.value.name)
  {
    BuildRecordParts(f, lines, pos, id, date);
    var (m, next) := BuildRecord(f, lines, pos, id, date).value;
    var head := ReadHead(f, lines, pos).value;
    var kinds := KindsSpec(f, lines, head.2).value;
    var chapter := ChapterStep(lines, kinds.4).value;
    assert (m.chapter, next) == chapter;
    ChapterFromLines(lines, kinds.4);
    var ja :| kinds.4 <= ja < next && lines[ja] == (if m.chapter.None? then "n" else "y");
    if m.chapter.Some? {
      var jt :| kinds.4 <= jt < next && lines[jt] == m.chapter.value.name;
    }
  }

  /** The yes/no question and then the chapter questions, as `TailSpec` reads them after the kinds. */
  function ChapterStep(lines: seq<string>, pos: nat): (r: Option<(Option<Chapter>, nat)>)
    requires pos <= |lines|
    ensures r.Some? ==> pos < r.value.1 <= |lines|
  {
    var answer := Field(lines, pos, ParseYesNo, Always, false);
    if answer.None? then None
    else ReadChapter(lines, answer.value.1, answer.value.0.value)
  }

  /** The field-by-field origin of what `ReadHead` reads. */
  lemma HeadFromLines(f: Formats, lines: seq<string>, pos: nat)
    requires pos <= |lines| && ReadHead(f, lines, pos).Some?
    ensures var (name, coordinates, next) := ReadHead(f, lines, pos).value;
            && (exists j :: pos <= j < next && lines[j] == name)
            && (exists j :: pos <= j < next && f.parseDouble(lines[j]) == Some(coordinates.x))
            && (exists j :: pos <= j < next && f.parseDouble(lines[j]) == Some(coordinates.y))
  {
    var name := Field(lines, pos, Text, NonEmpty, false).value;
    var x := Field(lines, name.1, f.parseDouble, Always, false).value;
    var y := Field(lines, x.1, f.parseDouble, Always, false).value;
    assert Text(lines[name.1 - 1]) == name.0;
    assert f.parseDouble(lines[x.1 - 1]) == x.0;
    assert f.parseDouble(lines[y.1 - 1]) == y.0;
  }

  /** The field-by-field origin of what `ChapterStep` reads: the answer line, and the chapter name when one is added. */
  lemma ChapterFromLines(lines: seq<string>, pos: nat)
    requires pos <= |lines| && ChapterStep(lines, pos).Some?
    ensures var (chapter, next) := ChapterStep(lines, pos).value;
            && (exists j :: pos <= j < next && lines[j] == (if chapter.None? then "n" else "y"))
            && (chapter.Some? ==> exists j :: pos <= j < next && lines[j] == chapter.value.name)
  {
    var answer := Field(lines, pos, ParseYesNo, Always, false).value;
    var (chapter, next) := ChapterStep(lines, pos).value;
    assert ParseYesNo(lines[answer.1 - 1]) == answer.0;
    assert chapter.Some? == answer.0.value;
    assert lines[answer.1 - 1] == (if chapter.None? then "n" else "y");
    if chapter.Some? {
      var name := Field(lines, answer.1, Text, NonEmpty, false).value;
      assert Text(lines[name.1 - 1]) == name.0;
    }
  }

  /** The field-by-field origin of what `KindsSpec` reads, within any range of lines around the ones it reads. */
  lemma KindsFromLines(f: Formats, lines: seq<string>, pos: nat, lo: nat, hi: nat)
    requires pos <= |lines| && KindsSpec(f, lines, pos).Some?
    requires lo <= pos && KindsSpec(f, lines, pos).value.4 <= hi
    ensures var (health, category, weapon, melee, next) := KindsSpec(f, lines, pos).value;
            && (exists j :: lo <= j < hi && j < |lines| && f.parseFloat(lines[j]) == Some(health))
            && (category.None? ==> exists j :: lo <= j < hi && j < |lines| && lines[j] == "")
            && (category.Some? ==> exists j :: lo <= j < hi && j < |lines| && ParseCategory(lines[j]) == category)
            && (exists j :: lo <= j < hi && j < |lines| && ParseWeapon(lines[j]) == Some(weapon))
            && (exists j :: lo <= j < hi && j < |lines| && ParseMeleeWeapon(lines[j]) == Some(melee))
  {
    var (health, category, weapon, melee, next) := KindsSpec(f, lines, pos).value;
    var h := Field(lines, pos, f.parseFloat, Positive, false).value;
    var c := Field(lines, h.1, ParseCategory, Always, true).value;
    var w := Field(lines, c.1, ParseWeapon, Always, false).value;
    var mw := Field(lines, w.1, ParseMeleeWeapon, Always, false).value;
    assert f.parseFloat(lines[h.1 - 1]) == Some(health);
    assert category.None? ==> lines[c.1 - 1] == "";
    assert category.Some? ==> ParseCategory(lines[c.1 - 1]) == category;
    assert ParseWeapon(lines[w.1 - 1]) == Some(weapon);
    assert ParseMeleeWeapon(lines[mw.1 - 1]) == Some(melee);
  }


  /**
   * The field reads of `readMarine`, in order: name, x, y, health, category
   * (empty for none), weapon type, melee weapon, whether to add a chapter and,
   * if so, its name and world (empty for none). When the input runs out,
   * `dated` says whether the creation date had been taken, as it is after y.
   */
  datatype FieldsResult = Built(marine: Marine, next: nat, out: seq<Output>) | FieldsExhausted(out: seq<Output>, dated: bool)

  method ReadFields(f: Formats, lines: seq<string>, pos: nat, id: int, date: Date) returns (r: FieldsResult)
    requires pos <= |lines|
    ensures r.Built? <==> BuildRecord(f, lines, pos, id, date).Some?
    ensures r.Built? ==> BuildRecord(f, lines, pos, id, date) == Some((r.marine, r.next))
    ensures r.FieldsExhausted? ==> (r.dated <==> ReadHead(f, lines, pos).Some?)
    ensures r.Built? ==> pos + 8 <= r.next <= |lines|
    ensures r.Built? ==> r.marine.id == id && r.marine.creationDate == date
    ensures r.Built? ==> r.marine.name != "" && r.marine.health > 0.0
    ensures r.Built? && r.marine.chapter.Some? ==> r.marine.chapter.value.name != ""
  {
    var name := ReadObject(lines, pos, Text, NonEmpty, "Enter name: ", "name can't be empty", false);
    if name.Exhausted? {
      return FieldsExhausted(name.out, false);
    }
    var out := name.out;
    var x := ReadObject(lines, name.next, f.parseDouble, Always,
                        "Enter x coordinate: ", "not a valid coordinate", false);
    if x.Exhausted? {
      return FieldsExhausted(out + x.out, false);
    }
    out := out + x.out;
    var y := ReadObject(lines, x.next, f.parseDouble, Always,
                        "Enter y coordinate: ", "not a valid coordinate", false);
    if y.Exhausted? {
      return FieldsExhausted(out + y.out, false);
    }
    out := out + y.out;
    assert ReadHead(f, lines, pos) == Some((name.value.value, Coordinates(x.value.value, y.value.value), y.next));
    var rest := ReadTail(f, lines, y.next);
    if rest.TailExhausted? {
      return FieldsExhausted(out + rest.out, true);
    }
    var m := Marine(id, name.value.value, Coordinates(x.value.value, y.value.value), date,
                    rest.health, rest.category, rest.weapon, rest.melee, rest.chapter);
    r := Built(m, rest.next, out + rest.out);
  }

  /** The fields `readMarine` reads after taking the creation date. */
  datatype TailResult =
    | Tail(health: real, category: Option<Category>, weapon: Weapon, melee: MeleeWeapon,
           chapter: Option<Chapter>, next: nat, out: seq<Output>)
    | TailExhausted(out: seq<Output>)

  method ReadTail(f: Formats, lines: seq<string>, pos: nat) returns (r: TailResult)
    requires pos <= |lines|
    ensures r.Tail? <==> TailSpec(f, lines, pos).Some?
    ensures r.Tail? ==> TailSpec(f, lines, pos) == Some((r.health, r.category, r.weapon, r.melee, r.chapter, r.next))
  {
    var kinds := ReadKinds(f, lines, pos);
    if kinds.KindsExhausted? {
      return TailExhausted(kinds.out);
    }
    var out := kinds.out;
    var needChapter := ReadObject(lines, kinds.next, ParseYesNo, Always,
                                  "Do you want to add a chapter (y/n): ", "enter 'y' or 'n'", false);
    if needChapter.Exhausted? {
      return TailExhausted(out + needChapter.out);
    }
    out := out + needChapter.out;
    var chapter := ReadChapterFields(lines, needChapter.next, needChapter.value.value);
    if chapter.ChapterExhausted? {
      return TailExhausted(out + chapter.out);
    }
    r := Tail(kinds.health, kinds.category, kinds.weapon, kinds.melee, chapter.chapter, chapter.next, out + chapter.out);
  }

  datatype KindsResult =
    | Kinds(health: real, category: Option<Category>, weapon: Weapon, melee: MeleeWeapon, next: nat, out: seq<Output>)
    | KindsExhausted(out: seq<Output>)

  method ReadKinds(f: Formats, lines: seq<string>, pos: nat) returns (r: KindsResult)
    requires pos <= |lines|
    ensures r.Kinds? <==> KindsSpec(f, lines, pos).Some?
    ensures r.Kinds? ==> KindsSpec(f, lines, pos) == Some((r.health, r.category, r.weapon, r.melee, r.next))
  {
    var health := ReadObject(lines, pos, f.parseFloat, Positive,
                             "Enter health (must be >0): ", "not a valid health value", false);
    if health.Exhausted? {
      return KindsExhausted(health.out);
    }
    var out := health.out;
    var category := ReadObject(lines, health.next, ParseCategory, Always,
                               "Enter a category (one of [" + CategoryChoices() + "]) or leave empty: ",
                               "not a valid category", true);
    if category.Exhausted? {
      return KindsExhausted(out + category.out);
    }
    out := out + category.out;
    var weapon := ReadObject(lines, category.next, ParseWeapon, Always,
                             "Enter a weapong type (one of [" + WeaponChoices() + "]): ",
                             "not a valid weapon type", false);
    if weapon.Exhausted? {
      return KindsExhausted(out + weapon.out);
    }
    out := out + weapon.out;
    var melee := ReadObject(lines, weapon.next, ParseMeleeWeapon, Always,
                            "Enter a melee weapon type (one of [" + MeleeWeaponChoices() + "]): ",
                            "not a valid melee weapon type", false);
    if melee.Exhausted? {
      return KindsExhausted(out + melee.out);
    }
    r := Kinds(health.value.value, category.value, weapon.value.value, melee.value.value, melee.next, out + melee.out);
  }

  datatype ChapterResult = ChapterRead(chapter: Option<Chapter>, next: nat, out: seq<Output>) | ChapterExhausted(out: seq<Output>)

  /** The chapter questions: only when a chapter is wanted, its name and then its world (empty for none). */
  method ReadChapterFields(lines: seq<string>, pos: nat, wanted: bool) returns (r: ChapterResult)
    requires pos <= |lines|
    ensures r.ChapterRead? <==> ReadChapter(lines, pos, wanted).Some?
    ensures r.ChapterRead? ==> ReadChapter(lines, pos, wanted) == Some((r.chapter, r.next))
  {
    if !wanted {
      return ChapterRead(None, pos, []);
    }
    var name := ReadObject(lines, pos, Text, NonEmpty, "Enter chapter name: ", "chapter name can't be empty", false);
    if name.Exhausted? {
      return ChapterExhausted(name.out);
    }
    var world := ReadObject(lines, name.next, Text, Always, "Enter world name or leave empty: ", "", true);
    if world.Exhausted? {
      return ChapterExhausted(name.out + world.out);
    }
    r := ChapterRead(Some(Chapter(name.value.value, world.value)), world.next, name.out + world.out);
  }
}
