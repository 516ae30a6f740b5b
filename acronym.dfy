/** Acronym: the first letter of every word part, plus camelCase capitals. */
module Acronym {
  import opened Ascii

  /** Whether position `i` of a part contributes a letter: the first position always does,
    * a later one when it is an uppercase letter directly followed by a lowercase one. */
  predicate Emits(w: string, i: nat) {
    i == 0 || (i + 1 < |w| && IsUpper(w[i]) && IsLower(w[i + 1]))
  }

  /** The letters contributed by positions `i..` of a part. */
  function CamelFrom(w: string, i: nat): string
    requires i <= |w|
    decreases |w| - i
  {
    if i == |w| then []
    else (if Emits(w, i) then [ToUpper(w[i])] else []) + CamelFrom(w, i + 1)
  }

  function Camel(w: string): string {
    CamelFrom(w, 0)
  }

  /** `abbreviate_camel_case`: one pass over the part with a one-character lookahead. */
  method AbbreviateCamelCase(w: string) returns (uppers: string)
    ensures uppers == Camel(w)
  {
    uppers := [];
    var idx := 0;
    while idx < |w|
      invariant idx <= |w|
      invariant uppers + CamelFrom(w, idx) == Camel(w)
    {
      var c := w[idx];
      ghost var emitted := uppers + (if Emits(w, idx) then [ToUpper(c)] else []);
      assert emitted + CamelFrom(w, idx + 1) == Camel(w) by {
        CamelStep(w, idx, uppers);
      }
      if idx == 0 {
        uppers := uppers + [ToUpper(c)];
      } else if idx + 1 < |w| {
        var next := w[idx + 1];
        if IsUpper(c) && IsLower(next) {
          uppers := uppers + [ToUpper(c)];
        }
      }
      assert uppers == emitted;
      idx := idx + 1;
    }
  }

  lemma CamelStep(w: string, idx: nat, prefix: string)
    requires idx < |w|
    ensures prefix + CamelFrom(w, idx)
      == (prefix + (if Emits(w, idx) then [ToUpper(w[idx])] else [])) + CamelFrom(w, idx + 1)
  {
  }

  /** The shape of a part's letters: none for an empty part, otherwise the uppercased first
    * character followed by capitals only, and never the last character of a longer part. */
  lemma CamelShape(w: string)
    ensures w == [] ==> Camel(w) == []
    ensures w != [] ==> |Camel(w)| >= 1 && Camel(w)[0] == ToUpper(w[0])
    ensures forall k :: 1 <= k < |Camel(w)| ==> IsUpper(Camel(w)[k])
    ensures |w| >= 2 ==> |Camel(w)| < |w|
  {
    if w != [] {
      CamelFromCapitals(w, 1);
      assert Camel(w) == [ToUpper(w[0])] + CamelFrom(w, 1);
    }
  }

  lemma {:induction false} CamelFromCapitals(w: string, i: nat)
    requires 1 <= i <= |w|
    ensures forall k :: 0 <= k < |CamelFrom(w, i)| ==> IsUpper(CamelFrom(w, i)[k])
    ensures i < |w| ==> |CamelFrom(w, i)| < |w| - i
    decreases |w| - i
  {
    if i < |w| {
      CamelFromCapitals(w, i + 1);
    }
  }

  /** A part with no capital after its first character contributes exactly its first character. */
  lemma PlainPart(w: string)
    requires w != []
    requires forall k :: 1 <= k < |w| ==> !IsUpper(w[k])
    ensures Camel(w) == [ToUpper(w[0])]
  {
    PlainFrom(w, 1);
  }

  lemma {:induction false} PlainFrom(w: string, i: nat)
    requires 1 <= i <= |w|
    requires forall k :: 1 <= k < |w| ==> !IsUpper(w[k])
    ensures CamelFrom(w, i) == []
    decreases |w| - i
  {
    if i < |w| {
      PlainFrom(w, i + 1);
    }
  }

  /** The number of leading `_`. */
  function Leading(w: string): (n: nat)
    ensures n <= |w|
    ensures forall k :: 0 <= k < n ==> w[k] == '_'
    ensures n < |w| ==> w[n] != '_'
  {
    if w == [] || w[0] != '_' then 0 else 1 + Leading(w[1..])
  }

  /** The number of trailing `_`. */
  function Trailing(w: string): (n: nat)
    ensures n <= |w|
    ensures forall k :: |w| - n <= k < |w| ==> w[k] == '_'
    ensures n < |w| ==> w[|w| - 1 - n] != '_'
  {
    if w == [] || w[|w| - 1] != '_' then 0 else 1 + Trailing(w[..|w| - 1])
  }

  /** `trim_matches('_')`: the part between the leading and the trailing underscores. */
  function TrimUnderscores(w: string): (r: string)
    ensures r == [] || (r[0] != '_' && r[|r| - 1] != '_')
    ensures Leading(w) == |w| ==> r == []
    ensures Leading(w) < |w| ==> Leading(w) < |w| - Trailing(w) && r == w[Leading(w)..|w| - Trailing(w)]
  {
    var i := Leading(w);
    if i == |w| then [] else
      assert w[i] != '_';
      w[i..|w| - Trailing(w)]
  }

  /** The parts of a phrase: whitespace-separated words, trimmed of `_`, split at every `-`
    * (empty parts are kept, as `split('-')` keeps them). */
  function Parts(words: seq<string>): seq<string> {
    if words == [] then []
    else Split(TrimUnderscores(words[0]), c => c == '-') + Parts(words[1..])
  }

  function CamelAll(parts: seq<string>): string {
    if parts == [] then [] else Camel(parts[0]) + CamelAll(parts[1..])
  }

  /** `abbreviate`. */
  function Abbreviate(phrase: string): string {
    CamelAll(Parts(Words(phrase, IsWhitespace)))
  }

  /** The uppercased first characters of the non-empty parts. */
  function Initials(parts: seq<string>): string {
    if parts == [] then []
    else (if parts[0] == [] then [] else [ToUpper(parts[0][0])]) + Initials(parts[1..])
  }

  /** Without camelCase capitals, an acronym is the initials of its parts; empty parts
    * contribute nothing. */
  lemma {:induction false} PlainPhrase(parts: seq<string>)
    requires forall p <- parts, k :: 1 <= k < |p| ==> !IsUpper(p[k])
    ensures CamelAll(parts) == Initials(parts)
  {
    if parts != [] {
      if parts[0] != [] {
        PlainPart(parts[0]);
      }
      PlainPhrase(parts[1..]);
    }
  }

  lemma Examples()
    ensures Camel("HyperText") == "HT"
    ensures Camel("PHP") == "P"
    ensures Camel("") == ""
  {
    HyperText();
    Php();
  }

  lemma HyperText()
    ensures Camel("HyperText") == "HT"
  {
    var w := "HyperText";
    assert CamelFrom(w, 6) == [];
    assert CamelFrom(w, 5) == ['T'];
    assert CamelFrom(w, 1) == ['T'];
  }

  lemma Php()
    ensures Camel("PHP") == "P"
  {
    var w := "PHP";
    assert CamelFrom(w, 1) == [];
  }
}
