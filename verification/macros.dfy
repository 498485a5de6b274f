/** The generic parts of the `enum_all!` and `value_enum!` macros (src/fmt/macros.rs).

    A value enum is a closed list of variants, each with a name (as `Debug` prints
    it) and a stable integer code; the first variant is the default and has code 0.
    The macros are stated here once, over a variant's table row, and each concrete
    enum in the `Fmt` module instantiates them. */
module Macros {
  import opened RustStr

  /** One variant of a value enum: its name and its code. */
  datatype Entry = Entry(name: string, code: nat)

  /** "Name = code", as `summarize_values` writes each variant. */
  function EntryText(e: Entry): string {
    e.name + " = " + Decimal(e.code)
  }

  /** Each entry as `name = code`, in table order. */
  function Texts(entries: seq<Entry>): seq<string> {
    seq(|entries|, i requires 0 <= i < |entries| => EntryText(entries[i]))
  }

  /** `summarize_values`: every variant's text, in order, separated by ", ". */
  function Summarize(entries: seq<Entry>): (r: string)
    ensures r == Join(Texts(entries), ", ")
    decreases |entries|
  {
    if |entries| == 0 then []
    else if |entries| == 1 then EntryText(entries[0])
    else
      assert Texts(entries)[1..] == Texts(entries[1..]);
      EntryText(entries[0]) + ", " + Summarize(entries[1..])
  }

  /** The summary of two lists is the two summaries with one separator between them:
      no separator is doubled, leads or trails. */
  lemma {:induction false} SummarizeAppend(a: seq<Entry>, b: seq<Entry>)
    requires |a| > 0 && |b| > 0
    ensures Summarize(a + b) == Summarize(a) + ", " + Summarize(b)
    decreases |a|
  {
    if |a| == 1 {
      assert (a + b)[1..] == b;
    } else {
      assert (a + b)[1..] == a[1..] + b;
      SummarizeAppend(a[1..], b);
    }
  }

  /** Codes strictly increase along the table. */
  predicate Ascending(entries: seq<Entry>) {
    forall i :: 0 < i < |entries| ==> entries[i - 1].code < entries[i].code
  }

  /** In an ascending table a later code is always larger, so no code repeats. */
  lemma {:induction false} AscendingDistinct(entries: seq<Entry>, i: nat, j: nat)
    requires Ascending(entries) && i < j < |entries|
    ensures entries[i].code < entries[j].code
    decreases j - i
  {
    if i + 1 < j {
      AscendingDistinct(entries, i + 1, j);
    }
  }

  /** The shape every `value_enum!` table has: the default variant first, with code 0,
      then strictly increasing codes. */
  predicate ValueTable(entries: seq<Entry>) {
    && |entries| > 0
    && entries[0].code == 0
    && Ascending(entries)
  }

  /** In a value table only the default variant has code 0. */
  lemma ZeroOnlyDefault(entries: seq<Entry>, i: nat)
    requires ValueTable(entries) && i < |entries|
    ensures entries[i].code == 0 <==> i == 0
  {
    if i > 0 {
      AscendingDistinct(entries, 0, i);
    }
  }
}
