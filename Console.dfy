/** What the interpreter emits, one event per print. */
module Console {
  import opened Entities

  datatype Output =
    | Prompt(text: string)                 // a `print` without a line break: "> " or a field prompt
    | Message(text: string)                // one diagnostic line
    | HelpText                             // the fixed `help` listing
    | InfoText(size: nat)                  // `info`: type, date placeholder, number of elements
    | Listing(entries: map<int, Marine>)   // `show`, in the map's own order
    | Groups(counts: map<Date, nat>)       // `group_counting_by_creation_date`
    | Filtered(entries: map<int, Marine>)  // `filter_greater_than_category`
    | Ascending(sorted: seq<(int, Marine)>) // `print_ascending`
    | SaveFile(lines: map<int, string>)    // `save`: the line written for each key
}
