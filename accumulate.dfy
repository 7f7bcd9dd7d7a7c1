/** The list-building loop both formatters use for authors, affiliations and
    keywords: start from some text, append each item followed by the
    separator, then drop the last separator if the text is longer than it. */
module Accumulate {
  import opened Text

  /** Each item followed by the separator, in order. */
  function Terminated(items: seq<string>, sep: string): string
    decreases |items|
  {
    if items == [] then "" else Terminated(items[..|items| - 1], sep) + items[|items| - 1] + sep
  }

  /** `s[:-len(sep)]` when `len(s) > len(sep)`, `s` otherwise. */
  function DropSeparator(s: string, sep: string): string {
    if |s| > |sep| then s[..|s| - |sep|] else s
  }

  /** The loop itself. */
  method AppendEach(start: string, items: seq<string>, sep: string) returns (r: string)
    ensures r == DropSeparator(start + Terminated(items, sep), sep)
  {
    r := start;
    var i := 0;
    while i < |items|
      invariant 0 <= i <= |items|
      invariant r == start + Terminated(items[..i], sep)
    {
      assert items[..i + 1][..i] == items[..i];
      r := r + items[i] + sep;
      i := i + 1;
    }
    TakeAll(items);
    if |r| > |sep| {
      r := r[..|r| - |sep|];
    }
  }

  /** Items each followed by the separator are the joined items plus one
      trailing separator. */
  lemma {:induction false} TerminatedIsJoin(items: seq<string>, sep: string)
    requires items != []
    ensures Terminated(items, sep) == Join(items, sep) + sep
    decreases |items|
  {
    var n := |items|;
    if n > 1 {
      TerminatedIsJoin(items[..n - 1], sep);
      JoinSnoc(items[..n - 1], items[n - 1], sep);
      assert items[..n - 1] + [items[n - 1]] == items;
    } else {
      assert items[..0] == [];
    }
  }

  /** What the loop yields: the items joined by the separator after `start`,
      unless everything is empty, and `start` with its last `|sep|`
      characters cut when there are no items. */
  lemma AppendEachResult(start: string, items: seq<string>, sep: string)
    ensures items != [] && |start + Join(items, sep)| > 0 ==>
              DropSeparator(start + Terminated(items, sep), sep) == start + Join(items, sep)
    ensures items == [] ==> DropSeparator(start + Terminated(items, sep), sep) == DropSeparator(start, sep)
  {
    if items != [] {
      TerminatedIsJoin(items, sep);
      assert start + Terminated(items, sep) == (start + Join(items, sep)) + sep;
    } else {
      assert start + Terminated(items, sep) == start;
    }
  }
}
