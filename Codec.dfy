/**
 * The persisted text format: one record per line, twelve positional fields
 * (key, id, name, x, y, creationDate, health, category, weaponType,
 * meleeWeapon, chapterName, chapterWorld), with the literal `null` standing
 * for an absent category, chapter or world.
 */
module Codec {
  import opened Wrappers
  import opened Numbers
  import opened Entities

  /**
   * The Java library text formats the codec relies on, taken as parameters:
   * `Double.parseDouble` / `Double.toString`, `Float.parseFloat` /
   * `Float.toString` and the `dd-MM-yy` date format.
   */
  datatype Formats = Formats(
    parseDouble: string -> Option<real>,
    showDouble: real -> string,
    parseFloat: string -> Option<real>,
    showFloat: real -> string,
    parseDate: string -> Option<Date>,
    showDate: Date -> string)

  /** Why a line of the file was refused; `index` is the 0-based field position. */
  datatype DecodeError = WrongFieldCount(count: nat) | InvalidField(index: nat)

  const FieldCount: nat := 12
  const Sentinel: string := "null"

  /** The twelve fields written for one entry by `save`, in file order. */
  function EncodeFields(f: Formats, key: int, m: Marine): (r: seq<string>)
    ensures |r| == FieldCount
    ensures m.category.None? <==> r[7] == Sentinel
    ensures m.chapter.None? ==> r[10] == Sentinel && r[11] == Sentinel
    ensures m.chapter.Some? && m.chapter.value.world.None? ==> r[11] == Sentinel
  {
    [ ShowLong(key), ShowLong(m.id), m.name,
      f.showDouble(m.coordinates.x), f.showDouble(m.coordinates.y),
      f.showDate(m.creationDate), f.showFloat(m.health),
      (match m.category case None => Sentinel case Some(c) => CategoryName(c)),
      WeaponName(m.weaponType), MeleeWeaponName(m.meleeWeapon),
      (match m.chapter case None => Sentinel case Some(ch) => ch.name),
      (match m.chapter
       case None => Sentinel
       case Some(ch) => match ch.world case None => Sentinel case Some(w) => w) ]
  }

  /** `String.join(sep, fields)`. */
  function Join(fields: seq<string>, sep: string): string
  {
    if fields == [] then ""
    else if |fields| == 1 then fields[0]
    else fields[0] + sep + Join(fields[1..], sep)
  }

  /** The line `save` writes for one entry. */
  function EncodeLine(f: Formats, key: int, m: Marine): string
  {
    Join(EncodeFields(f, key, m), ", ")
  }

  /** Whether field `i` of a twelve-field line can be read as the loader reads it. */
  predicate FieldDecodes(f: Formats, fields: seq<string>, i: nat)
    requires |fields| == FieldCount && i < FieldCount
  {
    if i == 0 || i == 1 then ParseLong(fields[i]).Some?
    else if i == 3 || i == 4 then f.parseDouble(fields[i]).Some?
    else if i == 5 then f.parseDate(fields[i]).Some?
    else if i == 6 then f.parseFloat(fields[i]).Some?
    else if i == 7 then fields[i] == Sentinel || ParseCategory(fields[i]).Some?
    else if i == 8 then ParseWeapon(fields[i]).Some?
    else if i == 9 then ParseMeleeWeapon(fields[i]).Some?
    else true
  }

  /**
   * One line of the file, already split into fields, decoded into its key and
   * record. The scalar fields are parsed in the order the loader reads them;
   * the first that does not parse names the error.
   */
  function DecodeFields(f: Formats, fields: seq<string>): (r: Result<(int, Marine), DecodeError>)
    ensures |fields| != FieldCount ==> r == Failure(WrongFieldCount(|fields|))
    ensures r.Success? ==> |fields| == FieldCount
    ensures r.Success? ==> Some(r.value.0) == ParseLong(fields[0]) && Some(r.value.1.id) == ParseLong(fields[1])
    ensures r.Success? ==> r.value.1.name == fields[2]
    ensures r.Success? ==> (r.value.1.category.None? <==> fields[7] == Sentinel)
    ensures r.Success? ==> (r.value.1.chapter.None? <==> fields[10] == Sentinel)
    ensures r.Success? && r.value.1.chapter.Some? ==>
              r.value.1.chapter.value.name == fields[10] &&
              (r.value.1.chapter.value.world.None? <==> fields[11] == Sentinel) &&
              (r.value.1.chapter.value.world.Some? ==> r.value.1.chapter.value.world.value == fields[11])
    ensures |fields| == FieldCount ==> (r.Success? <==> forall i :: 0 <= i < FieldCount ==> FieldDecodes(f, fields, i))
    ensures |fields| == FieldCount && r.Failure? ==>
              && r.error.InvalidField? && r.error.index < FieldCount
              && !FieldDecodes(f, fields, r.error.index)
              && forall i :: 0 <= i < r.error.index ==> FieldDecodes(f, fields, i)
    ensures r.Success? ==>
              && Some(r.value.1.coordinates.x) == f.parseDouble(fields[3])
              && Some(r.value.1.coordinates.y) == f.parseDouble(fields[4])
              && Some(r.value.1.creationDate) == f.parseDate(fields[5])
              && Some(r.value.1.health) == f.parseFloat(fields[6])
              && (r.value.1.category.Some? ==> r.value.1.category == ParseCategory(fields[7]))
              && Some(r.value.1.weaponType) == ParseWeapon(fields[8])
              && Some(r.value.1.meleeWeapon) == ParseMeleeWeapon(fields[9])
  {
    if |fields| != FieldCount then Failure(WrongFieldCount(|fields|))
    else if ParseLong(fields[0]).None? then assert !FieldDecodes(f, fields, 0); Failure(InvalidField(0))
    else if ParseLong(fields[1]).None? then assert !FieldDecodes(f, fields, 1); Failure(InvalidField(1))
    else if f.parseDouble(fields[3]).None? then assert !FieldDecodes(f, fields, 3); Failure(InvalidField(3))
    else if f.parseDouble(fields[4]).None? then assert !FieldDecodes(f, fields, 4); Failure(InvalidField(4))
    else if f.parseDate(fields[5]).None? then assert !FieldDecodes(f, fields, 5); Failure(InvalidField(5))
    else if f.parseFloat(fields[6]).None? then assert !FieldDecodes(f, fields, 6); Failure(InvalidField(6))
    else if fields[7] != Sentinel && ParseCategory(fields[7]).None? then assert !FieldDecodes(f, fields, 7); Failure(InvalidField(7))
    else if ParseWeapon(fields[8]).None? then assert !FieldDecodes(f, fields, 8); Failure(InvalidField(8))
    else if ParseMeleeWeapon(fields[9]).None? then assert !FieldDecodes(f, fields, 9); Failure(InvalidField(9))
    else
      var category := if fields[7] == Sentinel then None else ParseCategory(fields[7]);
      var chapter :=
        if fields[10] == Sentinel then None
        else Some(Chapter(fields[10], if fields[11] == Sentinel then None else Some(fields[11])));
      var m := Marine(ParseLong(fields[1]).value, fields[2],
                      Coordinates(f.parseDouble(fields[3]).value, f.parseDouble(fields[4]).value),
                      f.parseDate(fields[5]).value, f.parseFloat(fields[6]).value,
                      category, ParseWeapon(fields[8]).value, ParseMeleeWeapon(fields[9]).value,
                      chapter);
      Success((ParseLong(fields[0]).value, m))
  }

  /** When the chapter name is the sentinel, the world field is not consulted at all. */
  lemma WorldIgnoredWithoutChapter(f: Formats, fields: seq<string>, w: string)
    requires |fields| == FieldCount && fields[10] == Sentinel
    ensures DecodeFields(f, fields[11 := w]) == DecodeFields(f, fields)
  {
    var g := fields[11 := w];
    assert forall i :: 0 <= i < 11 ==> g[i] == fields[i];
  }

  /** The library formats give back the coordinates and the health of `m` that they print. */
  predicate NumbersSurvive(f: Formats, m: Marine)
  {
    && f.parseDouble(f.showDouble(m.coordinates.x)) == Some(m.coordinates.x)
    && f.parseDouble(f.showDouble(m.coordinates.y)) == Some(m.coordinates.y)
    && f.parseFloat(f.showFloat(m.health)) == Some(m.health)
  }

  /**
   * The date text `save` writes reads back as some date. The `dd-MM-yy`
   * pattern keeps only the day, so that date is the start of the day, not
   * the instant written unless it was already one.
   */
  predicate DateReadsBack(f: Formats, d: Date)
  {
    f.parseDate(f.showDate(d)).Some?
  }

  /** The library formats give back each scalar of `m` that they print, the creation date included. */
  predicate ScalarsSurvive(f: Formats, m: Marine)
  {
    NumbersSurvive(f, m) && f.parseDate(f.showDate(m.creationDate)) == Some(m.creationDate)
  }

  /** `m` as a save and reload gives it back: its creation date becomes the one its printed day parses to. */
  function Reloaded(f: Formats, m: Marine): (r: Marine)
    ensures r.(creationDate := m.creationDate) == m
    ensures DateReadsBack(f, m.creationDate) ==> Some(r.creationDate) == f.parseDate(f.showDate(m.creationDate))
  {
    match f.parseDate(f.showDate(m.creationDate))
    case Some(day) => m.(creationDate := day)
    case None => m
  }

  /** No optional text field of `m` is spelled like the sentinel. */
  predicate SentinelFree(m: Marine)
  {
    m.chapter.Some? ==> m.chapter.value.name != Sentinel && m.chapter.value.world != Some(Sentinel)
  }

  /**
   * Decoding the fields `save` writes gives back the same key and record,
   * except that the creation date comes back as the day it was printed as.
   */
  lemma RoundTripToDay(f: Formats, key: int, m: Marine)
    requires InLong(key) && InLong(m.id)
    requires NumbersSurvive(f, m) && DateReadsBack(f, m.creationDate) && SentinelFree(m)
    ensures DecodeFields(f, EncodeFields(f, key, m)) == Success((key, Reloaded(f, m)))
  {
    var fs := EncodeFields(f, key, m);
    EncodedScalarsParse(f, key, m);
    var r := DecodeFields(f, fs);
    assert r.Success?;
    assert r.value.1 == Reloaded(f, m);
  }

  /** For a record whose date is the start of its day, decoding the fields `save` writes gives back the same key and record. */
  lemma RoundTrip(f: Formats, key: int, m: Marine)
    requires InLong(key) && InLong(m.id)
    requires ScalarsSurvive(f, m) && SentinelFree(m)
    ensures DecodeFields(f, EncodeFields(f, key, m)) == Success((key, m))
  {
    RoundTripToDay(f, key, m);
  }

  /** Every field that `save` writes for a long key and id, with surviving numbers, parses back to what was written. */
  lemma EncodedScalarsParse(f: Formats, key: int, m: Marine)
    requires InLong(key) && InLong(m.id) && NumbersSurvive(f, m)
    ensures var fs := EncodeFields(f, key, m);
            && ParseLong(fs[0]) == Some(key) && ParseLong(fs[1]) == Some(m.id) && fs[2] == m.name
            && f.parseDouble(fs[3]) == Some(m.coordinates.x) && f.parseDouble(fs[4]) == Some(m.coordinates.y)
            && f.parseDate(fs[5]) == f.parseDate(f.showDate(m.creationDate)) && f.parseFloat(fs[6]) == Some(m.health)
            && (fs[7] == Sentinel || ParseCategory(fs[7]) == m.category)
            && ParseWeapon(fs[8]) == Some(m.weaponType) && ParseMeleeWeapon(fs[9]) == Some(m.meleeWeapon)
  {
    ParseShowLong(key);
    ParseShowLong(m.id);
    var fs := EncodeFields(f, key, m);
    assert fs[0] == ShowLong(key) && fs[1] == ShowLong(m.id);
    assert fs[3] == f.showDouble(m.coordinates.x) && fs[4] == f.showDouble(m.coordinates.y);
    assert fs[5] == f.showDate(m.creationDate) && fs[6] == f.showFloat(m.health);
    EncodedKindsParse(f, key, m);
  }

  /** The category, weapon and melee weapon fields that `save` writes parse back to the record's own. */
  lemma EncodedKindsParse(f: Formats, key: int, m: Marine)
    ensures var fs := EncodeFields(f, key, m);
            && (fs[7] == Sentinel || ParseCategory(fs[7]) == m.category)
            && ParseWeapon(fs[8]) == Some(m.weaponType) && ParseMeleeWeapon(fs[9]) == Some(m.meleeWeapon)
  {
    var fs := EncodeFields(f, key, m);
    if m.category.Some? {
      assert fs[7] == CategoryName(m.category.value);
    }
    assert fs[8] == WeaponName(m.weaponType) && fs[9] == MeleeWeaponName(m.meleeWeapon);
    assert ParseWeapon(fs[8]) == Some(m.weaponType);
    assert ParseMeleeWeapon(fs[9]) == Some(m.meleeWeapon);
  }

  /** A chapter whose name is the literal `null` does not survive a save and reload: it comes back absent. */
  lemma SentinelChapterNameLost(f: Formats, key: int, m: Marine)
    requires InLong(key) && InLong(m.id) && ScalarsSurvive(f, m)
    requires m.chapter.Some? && m.chapter.value.name == Sentinel
    ensures DecodeFields(f, EncodeFields(f, key, m)) == Success((key, m.(chapter := None)))
  {
    var fs := EncodeFields(f, key, m);
    EncodedScalarsParse(f, key, m);
    var r := DecodeFields(f, fs);
    assert r.Success?;
    assert r.value.1 == m.(chapter := None);
  }

  /**
   * A typical saved line, split into its fields, decodes into key 1 holding
   * id 1, category PRIMARIS and chapter Ultramarines of Macragge.
   */
  lemma DecodeScenarioLine(f: Formats)
    requires f.parseDouble("0.0") == Some(0.0) && f.parseDouble("1.0") == Some(1.0)
    requires f.parseFloat("10.0") == Some(10.0) && f.parseDate("01-01-20").Some?
    ensures var r := DecodeFields(f, ["1", "1", "Bob", "0.0", "1.0", "01-01-20", "10.0",
                                      "PRIMARIS", "BOLTER", "CHAINSWORD", "Ultramarines", "Macragge"]);
            && r.Success? && r.value.0 == 1 && r.value.1.id == 1 && r.value.1.health == 10.0
            && r.value.1.category == Some(Primaris)
            && r.value.1.chapter == Some(Chapter("Ultramarines", Some("Macragge")))
  {
    assert ParseLong("1") == Some(1) by {
      assert DigitsValue("1") == 1 by { assert "1"[..0] == []; }
    }
  }

  /** The outcome of reading the file: the entries read, and the error that stopped the load, if any. */
  datatype Loaded = Loaded(entries: seq<(int, Marine)>, error: Option<DecodeError>)

  /**
   * The load loop: decode line after line until the first empty line (or the
   * end of the file, where the reader also yields an empty line); the first
   * line that fails to decode stops the load with its error.
   */
  function LoadLines(f: Formats, split: string -> seq<string>, lines: seq<string>): (r: Loaded)
    ensures |r.entries| <= |lines|
    ensures forall i :: 0 <= i < |r.entries| ==> InLong(r.entries[i].0) && InLong(r.entries[i].1.id)
    decreases |lines|
  {
    if lines == [] || lines[0] == "" then Loaded([], None)
    else
      match DecodeFields(f, split(lines[0]))
      case Failure(e) => Loaded([], Some(e))
      case Success(entry) =>
        var rest := LoadLines(f, split, lines[1..]);
        Loaded([entry] + rest.entries, rest.error)
  }

  /** Everything after an empty line is ignored. */
  lemma {:induction false} LoadStopsAtEmptyLine(f: Formats, split: string -> seq<string>, lines: seq<string>, i: nat)
    requires i < |lines| && lines[i] == ""
    ensures LoadLines(f, split, lines) == LoadLines(f, split, lines[..i])
    decreases i
  {
    if i > 0 && lines[0] != "" {
      LoadStopsAtEmptyLine(f, split, lines[1..], i - 1);
      assert lines[1..][..i - 1] == lines[..i][1..];
    }
  }

  /** A line, reached before any empty line, whose split is not twelve fields aborts the whole load. */
  lemma {:induction false} LoadRejectsWrongFieldCount(f: Formats, split: string -> seq<string>, lines: seq<string>, i: nat)
    requires i < |lines| && forall j :: 0 <= j <= i ==> lines[j] != ""
    requires |split(lines[i])| != FieldCount
    ensures LoadLines(f, split, lines).error.Some?
    decreases i
  {
    if i > 0 && DecodeFields(f, split(lines[0])).Success? {
      LoadRejectsWrongFieldCount(f, split, lines[1..], i - 1);
    }
  }

  /** `map.put` of every entry in order: a later entry for the same key wins. */
  function PutAll(ms: map<int, Marine>, entries: seq<(int, Marine)>): map<int, Marine>
    decreases |entries|
  {
    if entries == [] then ms
    else
      var last := entries[|entries| - 1];
      PutAll(ms, entries[..|entries| - 1])[last.0 := last.1]
  }
  /** One step of the load loop: a non-empty line whose fields decode contributes its entry. */
  lemma LoadStepDecoded(f: Formats, split: string -> seq<string>, lines: seq<string>, pos: nat, entry: (int, Marine))
    requires pos < |lines| && lines[pos] != ""
    requires DecodeFields(f, split(lines[pos])) == Success(entry)
    ensures LoadLines(f, split, lines[pos..]) ==
            Loaded([entry] + LoadLines(f, split, lines[pos + 1..]).entries, LoadLines(f, split, lines[pos + 1..]).error)
  {
    assert lines[pos..][0] == lines[pos] && lines[pos..][1..] == lines[pos + 1..];
  }

  /** A non-empty line whose fields do not decode stops the load with that error. */
  lemma LoadStepFailed(f: Formats, split: string -> seq<string>, lines: seq<string>, pos: nat, e: DecodeError)
    requires pos < |lines| && lines[pos] != ""
    requires DecodeFields(f, split(lines[pos])) == Failure(e)
    ensures LoadLines(f, split, lines[pos..]) == Loaded([], Some(e))
  {
    assert lines[pos..][0] == lines[pos];
  }

  /** The load loop ends at the end of the lines or at an empty line. */
  lemma LoadStepEnd(f: Formats, split: string -> seq<string>, lines: seq<string>, pos: nat)
    requires pos <= |lines|
    requires pos == |lines| || lines[pos] == ""
    ensures LoadLines(f, split, lines[pos..]) == Loaded([], None)
  {
    if pos < |lines| {
      assert lines[pos..][0] == lines[pos];
    }
  }

  /** The load loop's invariant: the entries done so far, followed by the load of the remaining lines, are the whole load. */
  ghost predicate LoadedSoFar(f: Formats, split: string -> seq<string>, lines: seq<string>, pos: nat, done: seq<(int, Marine)>)
    requires pos <= |lines|
  {
    var rest := LoadLines(f, split, lines[pos..]);
    LoadLines(f, split, lines) == Loaded(done + rest.entries, rest.error)
  }

  lemma LoadAdvance(f: Formats, split: string -> seq<string>, lines: seq<string>, pos: nat,
                    done: seq<(int, Marine)>, entry: (int, Marine))
    requires pos < |lines| && lines[pos] != ""
    requires DecodeFields(f, split(lines[pos])) == Success(entry)
    requires LoadedSoFar(f, split, lines, pos, done)
    ensures LoadedSoFar(f, split, lines, pos + 1, done + [entry])
  {
    LoadStepDecoded(f, split, lines, pos, entry);
    var after := LoadLines(f, split, lines[pos + 1..]);
    assert done + ([entry] + after.entries) == (done + [entry]) + after.entries;
  }

  lemma LoadHalts(f: Formats, split: string -> seq<string>, lines: seq<string>, pos: nat,
                  done: seq<(int, Marine)>, e: Option<DecodeError>)
    requires pos <= |lines| && LoadedSoFar(f, split, lines, pos, done)
    requires pos == |lines| || lines[pos] == "" || DecodeFields(f, split(lines[pos])).Failure?
    requires e == if pos < |lines| && lines[pos] != "" then Some(DecodeFields(f, split(lines[pos])).error) else None
    ensures LoadLines(f, split, lines) == Loaded(done, e)
  {
    if pos < |lines| && lines[pos] != "" {
      LoadStepFailed(f, split, lines, pos, DecodeFields(f, split(lines[pos])).error);
    } else {
      LoadStepEnd(f, split, lines, pos);
    }
    assert done + [] == done;
  }

  lemma PutAllSnoc(ms: map<int, Marine>, entries: seq<(int, Marine)>, e: (int, Marine))
    ensures PutAll(ms, entries + [e]) == PutAll(ms, entries)[e.0 := e.1]
  {
    assert (entries + [e])[..|entries|] == entries;
  }
  /** The line `save` writes for each key of `ms`; the order of the lines is the map's iteration order, which is left open. */
  function SaveLines(f: Formats, ms: map<int, Marine>): (r: map<int, string>)
    ensures r.Keys == ms.Keys
    ensures forall k :: k in r ==> r[k] != ""
  {
    forall k | k in ms ensures EncodeLine(f, k, ms[k]) != "" {
      EncodeLineNonEmpty(f, k, ms[k]);
    }
    map k | k in ms :: EncodeLine(f, k, ms[k])
  }

  /** The lines of a save file that lists `entries` in this order. */
  function EncodeLines(f: Formats, entries: seq<(int, Marine)>): (r: seq<string>)
    ensures |r| == |entries|
    ensures forall i :: 0 <= i < |entries| ==> r[i] == EncodeLine(f, entries[i].0, entries[i].1)
  {
    if entries == [] then [] else [EncodeLine(f, entries[0].0, entries[0].1)] + EncodeLines(f, entries[1..])
  }

  /** Every saved line holds at least one separator, so none of them ends the load early. */
  lemma EncodeLineNonEmpty(f: Formats, key: int, m: Marine)
    ensures EncodeLine(f, key, m) != ""
  {
    var fs := EncodeFields(f, key, m);
    assert |Join(fs, ", ")| >= |fs[0] + ", "|;
  }

  /** An entry that survives `save` followed by `readFile`, up to its date, given a `split` that undoes the joining. */
  predicate Restorable(f: Formats, split: string -> seq<string>, e: (int, Marine))
  {
    && InLong(e.0) && InLong(e.1.id)
    && NumbersSurvive(f, e.1) && DateReadsBack(f, e.1.creationDate) && SentinelFree(e.1)
    && split(EncodeLine(f, e.0, e.1)) == EncodeFields(f, e.0, e.1)
  }

  /** The entries as a save and reload gives them back: the same keys, each record `Reloaded`. */
  function ReloadedEntries(f: Formats, entries: seq<(int, Marine)>): (r: seq<(int, Marine)>)
    ensures |r| == |entries|
    ensures forall i :: 0 <= i < |r| ==> r[i] == (entries[i].0, Reloaded(f, entries[i].1))
  {
    if entries == [] then [] else [(entries[0].0, Reloaded(f, entries[0].1))] + ReloadedEntries(f, entries[1..])
  }

  /**
   * Loading the lines `save` writes gives back the same keys in the same
   * order without error, each record with its date cut to its day.
   */
  lemma {:induction false} SaveThenLoad(f: Formats, split: string -> seq<string>, entries: seq<(int, Marine)>)
    requires forall i :: 0 <= i < |entries| ==> Restorable(f, split, entries[i])
    ensures LoadLines(f, split, EncodeLines(f, entries)) == Loaded(ReloadedEntries(f, entries), None)
    decreases |entries|
  {
    if entries != [] {
      var e := entries[0];
      assert Restorable(f, split, e);
      RoundTripToDay(f, e.0, e.1);
      EncodeLineNonEmpty(f, e.0, e.1);
      SaveThenLoad(f, split, entries[1..]);
      assert EncodeLines(f, entries)[1..] == EncodeLines(f, entries[1..]);
    }
  }

  function EntryKeys(entries: seq<(int, Marine)>): set<int>
  {
    set i | 0 <= i < |entries| :: entries[i].0
  }

  /** Putting entries that agree with `ms` yields `ms` restricted to their keys. */
  lemma {:induction false} PutAllAgreeing(entries: seq<(int, Marine)>, ms: map<int, Marine>)
    requires forall i :: 0 <= i < |entries| ==> entries[i].0 in ms && ms[entries[i].0] == entries[i].1
    ensures PutAll(map[], entries) == map k | k in ms && k in EntryKeys(entries) :: ms[k]
    decreases |entries|
  {
    if entries != [] {
      var init := entries[..|entries| - 1];
      var last := entries[|entries| - 1];
      PutAllAgreeing(init, ms);
      assert EntryKeys(entries) == EntryKeys(init) + {last.0} by {
        forall k | k in EntryKeys(entries) ensures k in EntryKeys(init) + {last.0} {
          var i :| 0 <= i < |entries| && entries[i].0 == k;
          if i < |init| {
            assert init[i] == entries[i];
          }
        }
        forall k | k in EntryKeys(init) ensures k in EntryKeys(entries) {
          var i :| 0 <= i < |init| && init[i].0 == k;
          assert entries[i] == init[i];
        }
      }
    }
  }

  /** Reloading a listing of `ms` gives a listing of `ms` reloaded, with the same keys. */
  lemma ReloadedListing(f: Formats, ms: map<int, Marine>, entries: seq<(int, Marine)>)
    requires forall i :: 0 <= i < |entries| ==> entries[i].0 in ms && ms[entries[i].0] == entries[i].1
    ensures var back := map k | k in ms :: Reloaded(f, ms[k]);
            var reloaded := ReloadedEntries(f, entries);
            && (forall i :: 0 <= i < |reloaded| ==> reloaded[i].0 in back && back[reloaded[i].0] == reloaded[i].1)
            && EntryKeys(reloaded) == EntryKeys(entries)
  {
    var reloaded := ReloadedEntries(f, entries);
    forall k | k in EntryKeys(entries) ensures k in EntryKeys(reloaded) {
      var i :| 0 <= i < |entries| && entries[i].0 == k;
      assert reloaded[i].0 == k;
    }
  }

  /**
   * `readFile` of the lines `save` wrote for a listing of `ms` restores the
   * keys of `ms`, each record with its date cut to its day; a collection
   * whose dates are already days, such as one just loaded, comes back exactly.
   */
  lemma SaveRestores(f: Formats, split: string -> seq<string>, ms: map<int, Marine>, entries: seq<(int, Marine)>)
    requires forall i :: 0 <= i < |entries| ==> entries[i].0 in ms && ms[entries[i].0] == entries[i].1
    requires ms.Keys <= EntryKeys(entries)
    requires forall i :: 0 <= i < |entries| ==> Restorable(f, split, entries[i])
    ensures var loaded := LoadLines(f, split, EncodeLines(f, entries));
            loaded.error == None && PutAll(map[], loaded.entries) == map k | k in ms :: Reloaded(f, ms[k])
    ensures (forall k :: k in ms ==> ScalarsSurvive(f, ms[k])) ==>
              PutAll(map[], LoadLines(f, split, EncodeLines(f, entries)).entries) == ms
  {
    SaveThenLoad(f, split, entries);
    ReloadedPutAll(f, ms, entries);
    if forall k :: k in ms ==> ScalarsSurvive(f, ms[k]) {
      ReloadedDays(f, ms);
    }
  }

  /** Putting the reloaded entries of a complete listing of `ms` yields `ms` reloaded. */
  lemma ReloadedPutAll(f: Formats, ms: map<int, Marine>, entries: seq<(int, Marine)>)
    requires forall i :: 0 <= i < |entries| ==> entries[i].0 in ms && ms[entries[i].0] == entries[i].1
    requires ms.Keys <= EntryKeys(entries)
    ensures PutAll(map[], ReloadedEntries(f, entries)) == map k | k in ms :: Reloaded(f, ms[k])
  {
    var back := map k | k in ms :: Reloaded(f, ms[k]);
    ReloadedListing(f, ms, entries);
    PutAllAgreeing(ReloadedEntries(f, entries), back);
    assert (map k | k in back && k in EntryKeys(ReloadedEntries(f, entries)) :: back[k]) == back;
  }

  /** A collection whose dates are already days reloads as itself. */
  lemma ReloadedDays(f: Formats, ms: map<int, Marine>)
    requires forall k :: k in ms ==> ScalarsSurvive(f, ms[k])
    ensures (map k | k in ms :: Reloaded(f, ms[k])) == ms
  {
    forall k | k in ms ensures Reloaded(f, ms[k]) == ms[k] {
      assert f.parseDate(f.showDate(ms[k].creationDate)) == Some(ms[k].creationDate);
    }
  }
}
