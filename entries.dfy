/** The headers and query parameters of a request are Python mappings from
    name to value. Here each is the sequence of its entries in the mapping's
    iteration order, which is what `sorted` sees and what decides the order of
    entries that tie on the sort key. */
module Entries {
  import opened Options

  /** One item of a mapping; None stands for a missing (`None`) value. */
  datatype Entry = Entry(name: string, value: Option<string>)

  /** The sort key `ord(name[0])`. Python fails on an empty name; -1 stands in
      for that case so the key is total, and NamesNonEmpty keeps it unused. */
  function FirstOrd(name: string): int {
    if name == [] then -1 else name[0] as int
  }

  function EntryKey(e: Entry): int {
    FirstOrd(e.name)
  }

  /** What the signer needs of its caller: no empty names, on which the sort key fails. */
  predicate NamesNonEmpty(es: seq<Entry>) {
    forall i | 0 <= i < |es| :: es[i].name != []
  }

  /** `v or ''`. */
  function ValueOrEmpty(e: Entry): string {
    e.value.GetOr("")
  }
}
