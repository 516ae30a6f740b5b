/** `build_proverb`: "For want of a nail ..." built from a list of items. */
module Proverb {
  import opened Ascii

  function WantLine(f: string, s: string): string {
    "For want of a " + f + " the " + s + " was lost."
  }

  function FinalLine(first: string): string {
    "And all for the want of a " + first + "."
  }

  /** One line per consecutive pair of items, as the `zip`/`map` chain builds them. */
  function PairLines(list: seq<string>): (lines: seq<string>)
    ensures |list| >= 1 ==> |lines| == |list| - 1
    ensures forall i :: 0 <= i < |list| - 1 ==> lines[i] == WantLine(list[i], list[i + 1])
  {
    if |list| < 2 then [] else [WantLine(list[0], list[1])] + PairLines(list[1..])
  }

  function Lines(list: seq<string>): (lines: seq<string>)
    requires list != []
  {
    PairLines(list) + [FinalLine(list[0])]
  }

  function BuildProverb(list: seq<string>): (r: string)
    ensures list == [] ==> r == ""
  {
    if list == [] then "" else Join(Lines(list), "\n")
  }

  /**
   * n items give n lines: splitting the proverb at its newlines gives one
   * "For want of ..." line per consecutive pair and a final "And all for ..."
   * line, when no item contains a newline.
   */
  lemma ProverbLines(list: seq<string>)
    requires list != []
    requires forall item <- list :: '\n' !in item
    ensures var lines := Split(BuildProverb(list), c => c == '\n');
      && |lines| == |list|
      && (forall i :: 0 <= i < |list| - 1 ==> lines[i] == WantLine(list[i], list[i + 1]))
      && lines[|list| - 1] == FinalLine(list[0])
  {
    var lines := Lines(list);
    assert forall i :: 0 <= i < |list| - 1 ==> '\n' !in lines[i] by {
      forall i | 0 <= i < |list| - 1 ensures '\n' !in lines[i] {
        assert '\n' !in list[i] && '\n' !in list[i + 1];
      }
    }
    assert '\n' !in lines[|list| - 1];
    assert forall p <- lines, c <- p :: c != '\n';
    SplitJoin(lines, '\n', c => c == '\n');
  }
}
