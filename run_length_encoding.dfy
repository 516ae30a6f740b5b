/** Run-length encoding: every maximal run of one character becomes its length (omitted when 1)
  * followed by the character. */
module RunLengthEncoding {
  import opened Ascii

  /** A run: a character and how many times it repeats. */
  datatype Run = Run(c: char, count: nat)

  /** The maximal runs of a string, built from left to right. */
  function Runs(s: string): (runs: seq<Run>)
    ensures s == [] <==> runs == []
    ensures runs != [] ==> runs[|runs| - 1].c == s[|s| - 1]
  {
    if s == [] then [] else Extend(Runs(s[..|s| - 1]), s[|s| - 1])
  }

  /** One more character: it lengthens the last run when it repeats that run's character and
    * starts a new run otherwise. */
  function Extend(runs: seq<Run>, c: char): (r: seq<Run>)
    ensures r != [] && r[|r| - 1].c == c
  {
    if runs != [] && runs[|runs| - 1].c == c then runs[..|runs| - 1] + [Run(c, runs[|runs| - 1].count + 1)]
    else runs + [Run(c, 1)]
  }

  lemma RunsSnoc(s: string, c: char)
    ensures Runs(s + [c]) == Extend(Runs(s), c)
  {
    assert (s + [c])[..|s|] == s;
  }

  /** Every run is non-empty and adjacent runs hold different characters. */
  predicate Maximal(runs: seq<Run>) {
    (forall k :: 0 <= k < |runs| ==> runs[k].count >= 1)
    && forall k :: 0 < k < |runs| ==> runs[k - 1].c != runs[k].c
  }

  function Repeat(c: char, n: nat): (r: string)
    ensures |r| == n && forall i :: 0 <= i < n ==> r[i] == c
  {
    seq(n, _ => c)
  }

  /** The string the runs stand for. */
  function Expand(runs: seq<Run>): string {
    if runs == [] then [] else Repeat(runs[0].c, runs[0].count) + Expand(runs[1..])
  }

  /** Decimal digits of `n`, most significant first (`to_string`). */
  function NatToString(n: nat): (r: string)
    ensures r != [] && forall c <- r :: IsDigit(c)
  {
    if n < 10 then [DigitChar(n)] else NatToString(n / 10) + [DigitChar(n % 10)]
  }

  /** How one run is written: the count when above 1, then the character. */
  function Piece(run: Run): string {
    (if run.count > 1 then NatToString(run.count) else []) + [run.c]
  }

  function Render(runs: seq<Run>): string {
    if runs == [] then [] else Piece(runs[0]) + Render(runs[1..])
  }

  lemma {:induction false} RenderSnoc(runs: seq<Run>, run: Run)
    ensures Render(runs + [run]) == Render(runs) + Piece(run)
  {
    if runs == [] {
      assert runs + [run] == [run];
    } else {
      assert (runs + [run])[1..] == runs[1..] + [run];
      RenderSnoc(runs[1..], run);
    }
  }

  lemma {:induction false} ExpandSnoc(runs: seq<Run>, run: Run)
    ensures Expand(runs + [run]) == Expand(runs) + Repeat(run.c, run.count)
  {
    if runs == [] {
      assert runs + [run] == [run];
    } else {
      assert (runs + [run])[1..] == runs[1..] + [run];
      ExpandSnoc(runs[1..], run);
    }
  }

  lemma ExtendSame(done: seq<Run>, c: char, counter: nat)
    ensures Extend(done + [Run(c, counter)], c) == done + [Run(c, counter + 1)]
  {
    assert (done + [Run(c, counter)])[..|done|] == done;
  }

  lemma ExtendOther(done: seq<Run>, run: Run, c: char)
    requires run.c != c
    ensures Extend(done + [run], c) == done + [run] + [Run(c, 1)]
  {
  }

  /** Extending maximal runs keeps them maximal. */
  lemma ExtendMaximal(runs: seq<Run>, c: char)
    requires Maximal(runs)
    ensures Maximal(Extend(runs, c))
  {
  }

  /** The runs are maximal. */
  lemma {:induction false} RunsMaximal(s: string)
    ensures Maximal(Runs(s))
  {
    if s != [] {
      RunsMaximal(s[..|s| - 1]);
      ExtendMaximal(Runs(s[..|s| - 1]), s[|s| - 1]);
    }
  }

  /** Extending runs appends the character to what they stand for. */
  lemma ExpandExtend(runs: seq<Run>, c: char)
    ensures Expand(Extend(runs, c)) == Expand(runs) + [c]
  {
    if runs != [] && runs[|runs| - 1].c == c {
      var last := runs[|runs| - 1];
      var init := runs[..|runs| - 1];
      assert runs == init + [last];
      ExpandSnoc(init, last);
      ExpandSnoc(init, Run(c, last.count + 1));
      assert Repeat(c, last.count + 1) == Repeat(c, last.count) + [c];
    } else {
      ExpandSnoc(runs, Run(c, 1));
      assert Repeat(c, 1) == [c];
    }
  }

  /** The runs spell the string out again. */
  lemma {:induction false} RunsExpand(s: string)
    ensures Expand(Runs(s)) == s
  {
    if s != [] {
      var prefix, c := s[..|s| - 1], s[|s| - 1];
      RunsExpand(prefix);
      ExpandExtend(Runs(prefix), c);
      assert s == prefix + [c];
    }
  }

  /** `encode`: a pending character and its count; a different character writes the pending
    * run out. */
  method Encode(source: string) returns (result: string)
    ensures result == Render(Runs(source))
  {
    if source == [] {
      return [];
    }
    result := [];
    var counter := 1;
    var c := source[0];
    ghost var done: seq<Run> := [];
    assert source[..1] == [c];
    var i := 1;
    while i < |source|
      invariant 1 <= i <= |source|
      invariant Runs(source[..i]) == done + [Run(c, counter)]
      invariant result == Render(done)
    {
      var next := source[i];
      assert source[..i + 1] == source[..i] + [next];
      RunsSnoc(source[..i], next);
      if next == c {
        ExtendSame(done, c, counter);
        counter := counter + 1;
      } else {
        ExtendOther(done, Run(c, counter), next);
        RenderSnoc(done, Run(c, counter));
        result := WriteRun(result, c, counter);
        done := done + [Run(c, counter)];
        counter := 1;
        c := next;
      }
      i := i + 1;
    }
    RenderSnoc(done, Run(c, counter));
    result := WriteRun(result, c, counter);
    assert source[..i] == source;
  }

  /** Writing out one run: its count when above 1, then its character. */
  method WriteRun(result: string, c: char, counter: nat) returns (r: string)
    ensures r == result + Piece(Run(c, counter))
  {
    r := result;
    if counter > 1 {
      r := r + NatToString(counter);
    }
    r := r + [c];
  }

  /** Decoding with a pending count: digits accumulate into it, any other character is written
    * that many times (once when no count is pending). */
  function DecodeFrom(s: string, counter: nat): string {
    if s == [] then []
    else if IsDigit(s[0]) then DecodeFrom(s[1..], counter * 10 + DigitValue(s[0]))
    else (if counter == 0 then [s[0]] else Repeat(s[0], counter)) + DecodeFrom(s[1..], 0)
  }

  /** Every count in `s`, read on from the pending `counter`, stays within `u32`: the
    * accumulation `counter * 10 + digit` panics on overflow. */
  predicate CountsFit(s: string, counter: nat) {
    s == [] ||
    if IsDigit(s[0]) then
      counter * 10 + DigitValue(s[0]) <= 0xFFFF_FFFF && CountsFit(s[1..], counter * 10 + DigitValue(s[0]))
    else CountsFit(s[1..], 0)
  }

  /** `decode`, for inputs whose counts do not overflow its `u32` counter. */
  method Decode(source: string) returns (result: string)
    requires CountsFit(source, 0)
    ensures result == DecodeFrom(source, 0)
  {
    if source == [] {
      return [];
    }
    result := [];
    var counter: nat := 0;
    var i := 0;
    while i < |source|
      invariant i <= |source|
      invariant result + DecodeFrom(source[i..], counter) == DecodeFrom(source, 0)
      invariant CountsFit(source[i..], counter) && counter <= 0xFFFF_FFFF
    {
      var c := source[i];
      assert source[i..][1..] == source[i + 1..];
      if IsDigit(c) {
        counter := counter * 10 + DigitValue(c);
      } else {
        if counter == 0 {
          result := result + [c];
        } else {
          result := result + Repeat(c, counter);
        }
        counter := 0;
      }
      i := i + 1;
    }
  }

  /** A written count is read back as that count. */
  lemma {:induction false} ReadCount(n: nat, rest: string)
    ensures DecodeFrom(NatToString(n) + rest, 0) == DecodeFrom(rest, n)
  {
    var d := DigitChar(n % 10);
    if n < 10 {
      assert (NatToString(n) + rest)[1..] == rest;
    } else {
      assert NatToString(n) + rest == NatToString(n / 10) + ([d] + rest);
      ReadCount(n / 10, [d] + rest);
      assert ([d] + rest)[1..] == rest;
    }
  }

  /** Decoding what the runs render gives the string they stand for, provided no run holds a
    * digit. */
  lemma {:induction false} DecodeRender(runs: seq<Run>)
    requires forall k :: 0 <= k < |runs| ==> runs[k].count >= 1 && !IsDigit(runs[k].c)
    ensures DecodeFrom(Render(runs), 0) == Expand(runs)
  {
    if runs != [] {
      var run, rest := runs[0], Render(runs[1..]);
      DecodeRender(runs[1..]);
      if run.count > 1 {
        assert Render(runs) == NatToString(run.count) + ([run.c] + rest);
        ReadCount(run.count, [run.c] + rest);
        assert ([run.c] + rest)[1..] == rest;
      } else {
        assert Render(runs) == [run.c] + rest;
        assert Repeat(run.c, 1) == [run.c];
      }
    }
  }

  /** `decode(encode(s)) == s` for every string without digits. */
  lemma RoundTrip(s: string)
    requires forall c <- s :: !IsDigit(c)
    ensures DecodeFrom(Render(Runs(s)), 0) == s
  {
    RunsMaximal(s);
    RunsExpand(s);
    RunsChars(s);
    DecodeRender(Runs(s));
  }

  /** A written count that fits in `u32` keeps every partial count of `decode` within it. */
  lemma {:induction false} ReadCountFits(n: nat, rest: string)
    requires n <= 0xFFFF_FFFF && CountsFit(rest, n)
    ensures CountsFit(NatToString(n) + rest, 0)
  {
    var d := DigitChar(n % 10);
    if n < 10 {
      assert (NatToString(n) + rest)[1..] == rest;
    } else {
      assert NatToString(n) + rest == NatToString(n / 10) + ([d] + rest);
      assert ([d] + rest)[1..] == rest;
      ReadCountFits(n / 10, [d] + rest);
    }
  }

  /** Rendered runs of at most `u32::MAX` characters each decode without overflow. */
  lemma {:induction false} RenderFits(runs: seq<Run>)
    requires forall k :: 0 <= k < |runs| ==> runs[k].count <= 0xFFFF_FFFF && !IsDigit(runs[k].c)
    ensures CountsFit(Render(runs), 0)
  {
    if runs != [] {
      var run, rest := runs[0], Render(runs[1..]);
      RenderFits(runs[1..]);
      assert ([run.c] + rest)[1..] == rest;
      if run.count > 1 {
        assert Render(runs) == NatToString(run.count) + ([run.c] + rest);
        ReadCountFits(run.count, [run.c] + rest);
      } else {
        assert Render(runs) == [run.c] + rest;
      }
    }
  }

  /** No run is longer than the string the runs stand for. */
  lemma {:induction false} CountAtMostLength(runs: seq<Run>, k: nat)
    requires k < |runs|
    ensures runs[k].count <= |Expand(runs)|
  {
    if k > 0 {
      CountAtMostLength(runs[1..], k - 1);
    }
  }

  /** `decode` accepts whatever `encode` writes for a digit-free string of at most
    * `u32::MAX` characters. */
  lemma EncodedFits(s: string)
    requires forall c <- s :: !IsDigit(c)
    requires |s| <= 0xFFFF_FFFF
    ensures CountsFit(Render(Runs(s)), 0)
  {
    var runs := Runs(s);
    RunsExpand(s);
    RunsChars(s);
    forall k | 0 <= k < |runs| ensures runs[k].count <= 0xFFFF_FFFF {
      CountAtMostLength(runs, k);
    }
    RenderFits(runs);
  }

  lemma {:induction false} RunsChars(s: string)
    ensures forall k :: 0 <= k < |Runs(s)| ==> Runs(s)[k].c in s
  {
    if s != [] {
      var prefix := s[..|s| - 1];
      RunsChars(prefix);
      assert forall c <- prefix :: c in s;
      var prev := Runs(prefix);
      var r := Runs(s);
      forall k | 0 <= k < |r| ensures r[k].c in s {
        if k < |r| - 1 {
          assert r[k].c == prev[k].c;
        }
      }
    }
  }
}
