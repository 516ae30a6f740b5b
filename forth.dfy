/** A small Forth: integers on a stack, eight built-in words held in a word table, and
  * user-defined words whose bodies are resolved against the table as it stood when they
  * were defined. */
module Forth {
  import opened Wrappers
  import Ascii
  import Arith

  datatype Error = DivisionByZero | StackUnderflow | UnknownWord | InvalidWord

  datatype Token = Colon | Semicolon | Plus | Minus | Mul | Div | Dup | Drop | Swap | Over
                 | ValueT(value: int) | Word(name: string)

  // ---- Reading tokens ----

  /** The range of `i32`, the type of the stack's values and of literals. */
  const I32Min: int := -0x8000_0000
  const I32Max: int := 0x7fff_ffff

  predicate AllDigits(s: string) {
    forall i :: 0 <= i < |s| ==> Ascii.IsDigit(s[i])
  }

  /** The value of a string of decimal digits. */
  function DigitsValue(s: string): nat
    requires AllDigits(s)
  {
    if s == [] then 0 else DigitsValue(s[..|s| - 1]) * 10 + Ascii.DigitValue(s[|s| - 1])
  }

  /** `str::parse::<i32>`: an optional `+` or `-`, at least one digit and nothing else, and
    * a value within the range of `i32`. */
  function ParseI32(s: string): (r: Option<int>)
    ensures r.Some? ==> I32Min <= r.value <= I32Max
    ensures r.Some? ==> s != [] && (Ascii.IsDigit(s[0]) || s[0] == '+' || s[0] == '-')
  {
    var signed := s != [] && (s[0] == '+' || s[0] == '-');
    var digits := if signed then s[1..] else s;
    if digits == [] || !AllDigits(digits) then None
    else
      var magnitude: int := DigitsValue(digits);
      var v := if signed && s[0] == '-' then -magnitude else magnitude;
      if I32Min <= v <= I32Max then Some(v) else None
  }

  /** `Token::from_str`: a number first, then `:` and `;`, and anything else is a word,
    * lower-cased; the built-in operators are words too. */
  function FromStr(s: string): (t: Token)
    ensures t.Colon? || t.Semicolon? || t.ValueT? || t.Word?
    ensures t.ValueT? <==> ParseI32(s).Some?
    ensures t.Word? ==> |t.name| == |s| && forall i :: 0 <= i < |s| ==> !Ascii.IsUpper(t.name[i])
  {
    match ParseI32(s)
    case Some(v) => ValueT(v)
    case None => if s == ":" then Colon else if s == ";" then Semicolon else Word(Ascii.Lower(s))
  }

  /** `Token::word`: the name of a word token; anything else cannot name a definition. */
  function WordName(t: Token): (r: Result<string, Error>)
    ensures r.Ok? <==> t.Word?
    ensures r.Ok? ==> r.value == t.name
    ensures r.Err? ==> r.error == InvalidWord
  {
    match t
    case Word(w) => Ok(w)
    case _ => Err(InvalidWord)
  }

  /** The tokens of an input: `split_ascii_whitespace`, then `Token::from_str` on each. */
  function Tokens(input: string): (ts: seq<Token>)
    ensures forall k :: 0 <= k < |ts| ==> ts[k].Colon? || ts[k].Semicolon? || ts[k].ValueT? || ts[k].Word?
  {
    var ws := Ascii.Words(input, Ascii.IsAsciiWhitespace);
    seq(|ws|, i requires 0 <= i < |ws| => FromStr(ws[i]))
  }

  /** The decimal digits of `n`, as `to_string` writes them. */
  function ShowNat(n: nat): (r: string)
    ensures r != [] && AllDigits(r)
  {
    if n < 10 then [Ascii.DigitChar(n)] else ShowNat(n / 10) + [Ascii.DigitChar(n % 10)]
  }

  /** `to_string` of an integer. */
  function Show(v: int): string {
    if v < 0 then "-" + ShowNat(-v) else ShowNat(v)
  }

  lemma {:induction false} ShowNatValue(n: nat)
    ensures DigitsValue(ShowNat(n)) == n
  {
    if n >= 10 {
      var s := ShowNat(n);
      ShowNatValue(n / 10);
      assert s[..|s| - 1] == ShowNat(n / 10);
    }
  }

  lemma LowerKeepsDigits(s: string)
    requires forall i :: 0 <= i < |s| ==> !Ascii.IsUpper(s[i])
    ensures Ascii.Lower(s) == s
  {
  }

  /** A number written out reads back as that number when it fits an `i32`, and as a word
    * spelled the same when it does not. */
  lemma FromStrShow(v: int)
    ensures FromStr(Show(v)) == if I32Min <= v <= I32Max then ValueT(v) else Word(Show(v))
  {
    var s := Show(v);
    if v < 0 {
      ShowNatValue(-v);
      assert s[0] == '-' && s[1..] == ShowNat(-v);
    } else {
      ShowNatValue(v);
      assert !Ascii.IsDigit('+') && !Ascii.IsDigit('-');
      assert s[0] != '+' && s[0] != '-';
    }
    assert s != ":" && s != ";";
    LowerKeepsDigits(s);
  }

  lemma LowerTwice(s: string)
    ensures Ascii.Lower(Ascii.Lower(s)) == Ascii.Lower(s)
  {
  }

  /** A word containing a letter is a word whatever its case: `DUP`, `Dup` and `dup` are the
    * same token. */
  lemma WordsIgnoreCase(s: string, k: nat)
    requires k < |s| && Ascii.IsAlpha(s[k])
    ensures FromStr(s) == Word(Ascii.Lower(s))
    ensures FromStr(Ascii.Lower(s)) == FromStr(s)
  {
    var l := Ascii.Lower(s);
    LowerTwice(s);
    assert Ascii.IsAlpha(l[k]);
    NotANumber(s, k);
    NotANumber(l, k);
    assert s[k] != ':' && s[k] != ';' && l[k] != ':' && l[k] != ';';
  }

  /** A string with a letter in it is not a number. */
  lemma NotANumber(s: string, k: nat)
    requires k < |s| && Ascii.IsAlpha(s[k])
    ensures ParseI32(s).None?
  {
    var signed := s != [] && (s[0] == '+' || s[0] == '-');
    var digits := if signed then s[1..] else s;
    if signed {
      assert k > 0 && digits[k - 1] == s[k];
    } else {
      assert digits[k] == s[k];
    }
  }

  // ---- Evaluating one token ----

  /** Why evaluation stopped: an error the source reports, or a token `Token::eval` does not
    * implement (a `:` inside a word's body), on which the source panics. */
  datatype Stop = Failed(error: Error) | Unimplemented

  /** A stack after some evaluation, and whether it stopped early. */
  datatype Effect = Effect(stack: seq<int>, stop: Option<Stop>)

  /** The tokens `Token::eval` implements: the primitives and the literals. */
  predicate Evaluable(t: Token) {
    !(t.Colon? || t.Semicolon? || t.Word?)
  }

  /** The operands a token takes off the stack. */
  function Arity(t: Token): nat {
    match t
    case ValueT(_) => 0
    case Dup => 1
    case Drop => 1
    case _ => 2
  }

  /** How much a token grows the stack when it succeeds. */
  function Growth(t: Token): int {
    match t
    case ValueT(_) => 1
    case Dup => 1
    case Over => 1
    case Swap => 0
    case _ => -1
  }

  function Binary(t: Token, x1: int, x2: int): int
    requires t.Plus? || t.Minus? || t.Mul?
  {
    match t
    case Plus => x1 + x2
    case Minus => x1 - x2
    case Mul => x1 * x2
  }

  /** What `Token::eval` does to a stack: the right operand is popped first, then the left;
    * popping an empty stack is an underflow, and what was popped is not put back; a zero
    * divisor is reported once the divisor alone is popped. */
  function Apply(t: Token, s: seq<int>): Effect {
    var n := |s|;
    var underflow := Effect([], Some(Failed(StackUnderflow)));
    match t
    case ValueT(v) => Effect(s + [v], None)
    case Dup => if n < 1 then underflow else Effect(s + [s[n - 1]], None)
    case Drop => if n < 1 then underflow else Effect(s[..n - 1], None)
    case Swap => if n < 2 then underflow else Effect(s[..n - 2] + [s[n - 1], s[n - 2]], None)
    case Over => if n < 2 then underflow else Effect(s + [s[n - 2]], None)
    case Div =>
      if n < 1 then underflow
      else if s[n - 1] == 0 then Effect(s[..n - 1], Some(Failed(DivisionByZero)))
      else if n < 2 then underflow
      else Effect(s[..n - 2] + [Arith.TruncDiv(s[n - 2], s[n - 1])], None)
    case Plus => if n < 2 then underflow else Effect(s[..n - 2] + [Binary(t, s[n - 2], s[n - 1])], None)
    case Minus => if n < 2 then underflow else Effect(s[..n - 2] + [Binary(t, s[n - 2], s[n - 1])], None)
    case Mul => if n < 2 then underflow else Effect(s[..n - 2] + [Binary(t, s[n - 2], s[n - 1])], None)
    case _ => Effect(s, Some(Unimplemented))
  }

  /** An evaluable token fails with an underflow exactly when the stack holds fewer values
    * than it takes (a zero divisor alone is a division by zero instead), and the underflow
    * leaves the stack empty. */
  lemma ApplyUnderflow(t: Token, s: seq<int>)
    requires Evaluable(t)
    ensures Apply(t, s).stop == Some(Failed(StackUnderflow)) <==>
      |s| < Arity(t) && !(t.Div? && |s| == 1 && s[0] == 0)
    ensures Apply(t, s).stop == Some(Failed(StackUnderflow)) ==> Apply(t, s).stack == []
  {
  }

  /** Division by zero is reported when the divisor on top is zero, and only the divisor
    * has been taken off. */
  lemma ApplyDivisionByZero(t: Token, s: seq<int>)
    requires Evaluable(t)
    ensures Apply(t, s).stop == Some(Failed(DivisionByZero)) <==> t.Div? && |s| >= 1 && s[|s| - 1] == 0
    ensures Apply(t, s).stop == Some(Failed(DivisionByZero)) ==> Apply(t, s).stack == s[..|s| - 1]
  {
  }

  /** A token that succeeds changes the stack's height by its growth and leaves the values
    * below its operands alone. */
  lemma ApplyHeight(t: Token, s: seq<int>)
    requires Evaluable(t) && Apply(t, s).stop.None?
    ensures |s| >= Arity(t)
    ensures |Apply(t, s).stack| == |s| + Growth(t)
    ensures Apply(t, s).stack[..|s| - Arity(t)] == s[..|s| - Arity(t)]
  {
    var r := Apply(t, s).stack;
    var n := |s|;
    match t
    case ValueT(_) => assert r[..n] == s;
    case Dup => assert r[..n - 1] == s[..n - 1];
    case Over => assert r[..n - 2] == s[..n - 2];
    case _ =>
  }

  /** Only a token's operands matter: the values below them are carried through. */
  lemma ApplyBelow(t: Token, below: seq<int>, s: seq<int>)
    requires Evaluable(t) && Apply(t, s).stop.None?
    ensures Apply(t, below + s) == Effect(below + Apply(t, s).stack, None)
  {
    var n, m := |s|, |below + s|;
    var bs := below + s;
    ApplyHeight(t, s);
    if n >= 1 {
      assert bs[m - 1] == s[n - 1];
    }
    if n >= 2 {
      assert bs[m - 2] == s[n - 2];
    }
    match t
    case ValueT(v) => assert bs + [v] == below + (s + [v]);
    case Dup => assert bs + [s[n - 1]] == below + (s + [s[n - 1]]);
    case Over => assert bs + [s[n - 2]] == below + (s + [s[n - 2]]);
    case Drop => KeepBelow(below, s, 1, []);
    case Swap => KeepBelow(below, s, 2, [s[n - 1], s[n - 2]]);
    case Div => KeepBelow(below, s, 2, [Arith.TruncDiv(s[n - 2], s[n - 1])]);
    case Plus => KeepBelow(below, s, 2, [Binary(t, s[n - 2], s[n - 1])]);
    case Minus => KeepBelow(below, s, 2, [Binary(t, s[n - 2], s[n - 1])]);
    case Mul => KeepBelow(below, s, 2, [Binary(t, s[n - 2], s[n - 1])]);
  }

  /** Replacing the top `k` values of `below + s` is replacing them in `s`. */
  lemma KeepBelow(below: seq<int>, s: seq<int>, k: nat, top: seq<int>)
    requires k <= |s|
    ensures (below + s)[..|below + s| - k] + top == below + (s[..|s| - k] + top)
  {
    assert (below + s)[..|below + s| - k] == below + s[..|s| - k];
  }

  /** Tokens evaluated one after another, stopping at the first that stops. */
  function EvalAll(ts: seq<Token>, s: seq<int>): Effect {
    if ts == [] then Effect(s, None)
    else
      var e := Apply(ts[0], s);
      if e.stop.Some? then e else EvalAll(ts[1..], e.stack)
  }

  /** Evaluating two runs of tokens in a row is evaluating the first, then, unless it
    * stopped, the second. */
  lemma {:induction false} EvalAllAppend(a: seq<Token>, b: seq<Token>, s: seq<int>)
    ensures EvalAll(a + b, s) ==
      (var e := EvalAll(a, s); if e.stop.Some? then e else EvalAll(b, e.stack))
  {
    if a == [] {
      assert a + b == b;
    } else {
      assert (a + b)[0] == a[0] && (a + b)[1..] == a[1..] + b;
      var e := Apply(a[0], s);
      if e.stop.None? {
        EvalAllAppend(a[1..], b, e.stack);
      }
    }
  }

  // ---- The word table ----

  /** One entry of the table: a name and the tokens of its body. */
  datatype WordDef = WordDef(name: string, def: seq<Token>)

  /** The latest entry named `name`, as `rposition` finds it. */
  function Lookup(words: seq<WordDef>, name: string): (r: Option<nat>)
    ensures r.Some? ==> r.value < |words| && words[r.value].name == name
    ensures r.Some? ==> forall j :: r.value < j < |words| ==> words[j].name != name
    ensures r.None? <==> forall j :: 0 <= j < |words| ==> words[j].name != name
  {
    if words == [] then None
    else if words[|words| - 1].name == name then Some(|words| - 1)
    else Lookup(words[..|words| - 1], name)
  }

  /** A backward scan that stops at `pos` finds what `Lookup` finds. */
  lemma LookupFrom(words: seq<WordDef>, name: string, pos: nat)
    requires pos <= |words|
    requires forall j :: pos <= j < |words| ==> words[j].name != name
    requires pos > 0 ==> words[pos - 1].name == name
    ensures Lookup(words, name) == if pos == 0 then None else Some(pos - 1)
  {
    var r := Lookup(words, name);
    if pos > 0 {
      assert r.Some?;
    }
  }

  /** Every word in `body` names an entry of `words`. */
  predicate Resolvable(words: seq<WordDef>, body: seq<Token>) {
    forall k :: 0 <= k < |body| && body[k].Word? ==> Lookup(words, body[k].name).Some?
  }

  /** Every entry's body refers only to entries before it, as `add_word` ensures. */
  predicate WellFormed(words: seq<WordDef>) {
    forall i :: 0 <= i < |words| ==> Resolvable(words[..i], words[i].def)
  }

  /** The tokens entry `i` runs: its body, with every word replaced by the tokens of the
    * latest entry of that name before `i`. */
  function Expand(words: seq<WordDef>, i: nat): (r: seq<Token>)
    requires i < |words|
    ensures forall k :: 0 <= k < |r| ==> !r[k].Word?
    decreases i, 1
  {
    Unfold(words, i, words[i].def)
  }

  /** The tokens of `body`, with words resolved among the first `limit` entries. */
  function Unfold(words: seq<WordDef>, limit: nat, body: seq<Token>): (r: seq<Token>)
    requires limit <= |words|
    ensures forall k :: 0 <= k < |r| ==> !r[k].Word?
    decreases limit, 0, |body|
  {
    if body == [] then []
    else Resolve(words, limit, body[0]) + Unfold(words, limit, body[1..])
  }

  /** The tokens one token of a body stands for: a word is replaced by the tokens of the
    * latest entry of its name among the first `limit` entries. */
  function Resolve(words: seq<WordDef>, limit: nat, t: Token): (r: seq<Token>)
    requires limit <= |words|
    ensures forall k :: 0 <= k < |r| ==> !r[k].Word?
    decreases limit, 0, 0
  {
    match t
    case Word(w) => (match Lookup(words[..limit], w)
      case Some(j) => Expand(words, j)
      case None => [])
    case _ => [t]
  }

  /** Entries added later never change what an earlier entry runs: a body is resolved when
    * it is defined. */
  lemma {:induction false} ExpandPrefix(words: seq<WordDef>, extra: seq<WordDef>, i: nat)
    requires i < |words|
    ensures Expand(words + extra, i) == Expand(words, i)
    decreases i, 1
  {
    assert (words + extra)[i] == words[i];
    UnfoldPrefix(words, extra, i, words[i].def);
  }

  lemma {:induction false} UnfoldPrefix(words: seq<WordDef>, extra: seq<WordDef>, limit: nat, body: seq<Token>)
    requires limit <= |words|
    ensures Unfold(words + extra, limit, body) == Unfold(words, limit, body)
    decreases limit, 0, |body|
  {
    if body != [] {
      assert (words + extra)[..limit] == words[..limit];
      if body[0].Word? {
        var found := Lookup(words[..limit], body[0].name);
        if found.Some? {
          ExpandPrefix(words, extra, found.value);
        }
      }
      UnfoldPrefix(words, extra, limit, body[1..]);
    }
  }

  /** A body's tokens unfold piece by piece. */
  lemma {:induction false} UnfoldAppend(words: seq<WordDef>, limit: nat, a: seq<Token>, b: seq<Token>)
    requires limit <= |words|
    ensures Unfold(words, limit, a + b) == Unfold(words, limit, a) + Unfold(words, limit, b)
  {
    if a == [] {
      assert a + b == b;
    } else {
      assert (a + b)[0] == a[0] && (a + b)[1..] == a[1..] + b;
      UnfoldAppend(words, limit, a[1..], b);
    }
  }

  /** Unfolding one more token of a body appends what that token stands for. */
  lemma UnfoldStep(words: seq<WordDef>, limit: nat, body: seq<Token>, k: nat)
    requires limit <= |words| && k < |body|
    ensures Unfold(words, limit, body[..k + 1]) == Unfold(words, limit, body[..k]) + Resolve(words, limit, body[k])
  {
    UnfoldAppend(words, limit, body[..k], [body[k]]);
    assert body[..k + 1] == body[..k] + [body[k]];
    assert Unfold(words, limit, [body[k]][1..]) == [];
  }

  /** A new entry is found by its name, and an entry whose body is resolvable keeps the
    * table well formed. */
  lemma AppendWord(words: seq<WordDef>, name: string, body: seq<Token>)
    requires WellFormed(words) && Resolvable(words, body)
    ensures Lookup(words + [WordDef(name, body)], name) == Some(|words|)
    ensures WellFormed(words + [WordDef(name, body)])
  {
    var words' := words + [WordDef(name, body)];
    forall i | 0 <= i < |words'|
      ensures Resolvable(words'[..i], words'[i].def)
    {
      KeepsEntry(words, WordDef(name, body), i);
    }
  }

  lemma KeepsEntry(words: seq<WordDef>, d: WordDef, i: nat)
    requires WellFormed(words) && Resolvable(words, d.def) && i <= |words|
    ensures Resolvable((words + [d])[..i], (words + [d])[i].def)
  {
    if i < |words| {
      assert (words + [d])[..i] == words[..i];
      assert Resolvable(words[..i], words[i].def);
    } else {
      assert (words + [d])[..i] == words;
    }
  }

  /** Adding the next built-in word to the first `k` gives the first `k + 1`. */
  lemma Seeded(before: seq<WordDef>, k: nat)
    requires k < |Builtins()| && before == Builtins()[..k]
    ensures Resolvable(before, Builtins()[k].def)
    ensures before + [Builtins()[k]] == Builtins()[..k + 1]
  {
  }

  /** The table `Forth::new` starts from: the eight built-in words. */
  function Builtins(): seq<WordDef> {
    [WordDef("+", [Plus]), WordDef("-", [Minus]), WordDef("*", [Mul]), WordDef("/", [Div]),
     WordDef("dup", [Dup]), WordDef("drop", [Drop]), WordDef("swap", [Swap]), WordDef("over", [Over])]
  }

  /** The built-in names are all different. */
  lemma BuiltinNamesDiffer()
    ensures forall i, j :: 0 <= i < j < |Builtins()| ==> Builtins()[i].name != Builtins()[j].name
  {
    var b := Builtins();
    forall i, j | 0 <= i < j < |b|
      ensures b[i].name != b[j].name
    {
      if (i < 4 && j >= 4) || i == 4 {
        assert |b[i].name| < |b[j].name|;
      } else {
        assert b[i].name[0] != b[j].name[0];
      }
    }
  }

  /** Each built-in word is found by its name and runs its one primitive. */
  lemma BuiltinsRun()
    ensures WellFormed(Builtins())
    ensures forall k :: 0 <= k < |Builtins()| ==>
      Lookup(Builtins(), Builtins()[k].name) == Some(k) && Expand(Builtins(), k) == Builtins()[k].def
  {
    var b := Builtins();
    BuiltinNamesDiffer();
    forall k | 0 <= k < |b|
      ensures Lookup(b, b[k].name) == Some(k) && Expand(b, k) == b[k].def
    {
      var p := b[k].def[0];
      assert b[k].def == [p] && !p.Word?;
      assert [p][1..] == [];
      assert Unfold(b, k, [p]) == [p] + Unfold(b, k, []);
    }
  }

  // ---- Running an input ----

  /** `collect_word_definition`, reading from `from`: a word to define, then the body up to
    * the first `;`, and the index just past it. */
  function Define(ts: seq<Token>, from: nat): (r: Result<(string, seq<Token>, nat), Error>)
    requires from <= |ts|
    ensures r.Err? ==> r.error == InvalidWord
    ensures r.Ok? ==> from < r.value.2 <= |ts| && ts[from] == Word(r.value.0) && ts[r.value.2 - 1] == Semicolon
    ensures r.Ok? ==> r.value.1 == ts[from + 1..r.value.2 - 1] && Semicolon !in r.value.1
    ensures r.Err? <==> from == |ts| || !ts[from].Word? || Semicolon !in ts[from + 1..]
  {
    if from == |ts| || !ts[from].Word? then Err(InvalidWord)
    else match FirstSemicolon(ts, from + 1)
      case None => Err(InvalidWord)
      case Some(k) => Ok((ts[from].name, ts[from + 1..k], k + 1))
  }

  /** The first `;` at or after `from`. */
  function FirstSemicolon(ts: seq<Token>, from: nat): (r: Option<nat>)
    requires from <= |ts|
    ensures r.Some? ==> from <= r.value < |ts| && ts[r.value] == Semicolon && Semicolon !in ts[from..r.value]
    ensures r.None? <==> Semicolon !in ts[from..]
    decreases |ts| - from
  {
    if from == |ts| then None
    else if ts[from] == Semicolon then Some(from)
    else
      var r := FirstSemicolon(ts, from + 1);
      assert ts[from..] == [ts[from]] + ts[from + 1..];
      assert r.Some? ==> ts[from..r.value] == [ts[from]] + ts[from + 1..r.value];
      r
  }

  /** The table, the stack and how the run ended. */
  datatype Outcome = Outcome(words: seq<WordDef>, stack: seq<int>, stop: Option<Stop>)

  /** `Forth::eval` from token `i` on: a `:` defines a word (refused when its body names an
    * unknown word), a stray `;` is invalid, a word runs the tokens of its latest entry, and
    * a literal is pushed; the first error ends the run with the table and stack as they
    * then are. */
  function Run(words: seq<WordDef>, s: seq<int>, ts: seq<Token>, i: nat): Outcome
    requires i <= |ts|
    decreases |ts| - i
  {
    if i == |ts| then Outcome(words, s, None)
    else match ts[i]
      case Colon =>
        (match Define(ts, i + 1)
          case Err(e) => Outcome(words, s, Some(Failed(e)))
          case Ok((name, body, next)) =>
            if Resolvable(words, body) then Run(words + [WordDef(name, body)], s, ts, next)
            else Outcome(words, s, Some(Failed(UnknownWord))))
      case Semicolon => Outcome(words, s, Some(Failed(InvalidWord)))
      case Word(w) =>
        (match Lookup(words, w)
          case None => Outcome(words, s, Some(Failed(UnknownWord)))
          case Some(j) =>
            var e := EvalAll(Expand(words, j), s);
            if e.stop.Some? then Outcome(words, e.stack, e.stop) else Run(words, e.stack, ts, i + 1))
      case t =>
        var e := Apply(t, s);
        if e.stop.Some? then Outcome(words, e.stack, e.stop) else Run(words, e.stack, ts, i + 1)
  }

  /** One step of a run at a `:`. */
  lemma RunDefines(words: seq<WordDef>, s: seq<int>, ts: seq<Token>, i: nat)
    requires i < |ts| && ts[i] == Colon && Define(ts, i + 1).Ok?
    ensures var (name, body, next) := Define(ts, i + 1).value;
      Run(words, s, ts, i) ==
        if Resolvable(words, body) then Run(words + [WordDef(name, body)], s, ts, next)
        else Outcome(words, s, Some(Failed(UnknownWord)))
  {
  }

  /** One step of a run at a defined word. */
  lemma RunCalls(words: seq<WordDef>, s: seq<int>, ts: seq<Token>, i: nat, j: nat)
    requires i < |ts| && ts[i].Word? && Lookup(words, ts[i].name) == Some(j)
    ensures var e := EvalAll(Expand(words, j), s);
      Run(words, s, ts, i) ==
        if e.stop.Some? then Outcome(words, e.stack, e.stop) else Run(words, e.stack, ts, i + 1)
  {
  }

  /** A run only adds entries to the table, and keeps it well formed. */
  lemma {:induction false} RunGrowsTable(words: seq<WordDef>, s: seq<int>, ts: seq<Token>, i: nat)
    requires i <= |ts| && WellFormed(words)
    ensures var o := Run(words, s, ts, i); words <= o.words && WellFormed(o.words)
    decreases |ts| - i
  {
    if i < |ts| {
      match ts[i]
      case Colon =>
        var d := Define(ts, i + 1);
        if d.Ok? && Resolvable(words, d.value.1) {
          var (name, body, next) := d.value;
          RunDefines(words, s, ts, i);
          AppendWord(words, name, body);
          RunGrowsTable(words + [WordDef(name, body)], s, ts, next);
        }
      case Semicolon =>
      case Word(w) =>
        var found := Lookup(words, w);
        if found.Some? {
          var e := EvalAll(Expand(words, found.value), s);
          RunCalls(words, s, ts, i, found.value);
          if e.stop.None? {
            RunGrowsTable(words, e.stack, ts, i + 1);
          }
        }
      case t =>
        var e := Apply(t, s);
        if e.stop.None? {
          RunGrowsTable(words, e.stack, ts, i + 1);
        }
    }
  }

  /** `1 +` underflows and leaves nothing behind; `1 0 /` divides by zero and leaves the 1. */
  lemma ErrorsLeaveStack()
    ensures EvalAll([ValueT(1), Plus], []) == Effect([], Some(Failed(StackUnderflow)))
    ensures EvalAll([ValueT(1), ValueT(0), Div], []) == Effect([1], Some(Failed(DivisionByZero)))
  {
    assert [ValueT(1), Plus][1..] == [Plus];
    assert [ValueT(1), ValueT(0), Div][1..][1..] == [Div];
  }

  // ---- The interpreter's state ----

  /** `Env`: the table of definitions, which only grows. */
  class Env {
    var words: seq<WordDef>

    constructor ()
      ensures words == []
    {
      words := [];
    }

    /** `Env::add_word`: append the definition when every word in its body is defined,
      * and otherwise report it and leave the table as it was. */
    method AddWord(word: string, tokens: seq<Token>) returns (r: Result<(), Error>)
      modifies this
      ensures r.Ok? <==> Resolvable(old(words), tokens)
      ensures r.Ok? ==> words == old(words) + [WordDef(word, tokens)]
      ensures r.Err? ==> r.error == UnknownWord && words == old(words)
    {
      var k := 0;
      while k < |tokens|
        invariant 0 <= k <= |tokens|
        invariant forall m :: 0 <= m < k && tokens[m].Word? ==> Lookup(words, tokens[m].name).Some?
      {
        if tokens[k].Word? {
          var found := false;
          var j := 0;
          while j < |words|
            invariant 0 <= j <= |words|
            invariant found <==> exists m :: 0 <= m < j && words[m].name == tokens[k].name
          {
            if words[j].name == tokens[k].name {
              found := true;
            }
            j := j + 1;
          }
          if !found {
            return Err(UnknownWord);
          }
        }
        k := k + 1;
      }
      words := words + [WordDef(word, tokens)];
      return Ok(());
    }

    /** `Env::word_tokens_iter`: the tokens the latest entry named `word` runs, or
      * `UnknownWord` when there is none. */
    method WordTokens(word: string) returns (r: Result<seq<Token>, Error>)
      requires WellFormed(words)
      ensures r.Err? <==> Lookup(words, word).None?
      ensures r.Err? ==> r.error == UnknownWord
      ensures r.Ok? ==> r.value == Expand(words, Lookup(words, word).value)
    {
      var pos := |words|;
      while pos > 0 && words[pos - 1].name != word
        invariant 0 <= pos <= |words|
        invariant forall j :: pos <= j < |words| ==> words[j].name != word
      {
        pos := pos - 1;
      }
      LookupFrom(words, word, pos);
      if pos == 0 {
        return Err(UnknownWord);
      }
      var tokens := Iterate(pos - 1);
      return Ok(tokens);
    }

    /** `WordTokensIterator::new` and its `next`: the tokens of entry `i`'s body, where a
      * word opens a nested iterator over the entries before `i`. */
    method Iterate(i: nat) returns (out: seq<Token>)
      requires WellFormed(words) && i < |words|
      ensures out == Expand(words, i)
      decreases i, 2
    {
      out := IterateBody(i, words[i].def);
    }

    method IterateBody(limit: nat, body: seq<Token>) returns (out: seq<Token>)
      requires WellFormed(words) && limit <= |words| && Resolvable(words[..limit], body)
      ensures out == Unfold(words, limit, body)
      decreases limit, 1
    {
      out := [];
      var k := 0;
      while k < |body|
        invariant 0 <= k <= |body|
        invariant out == Unfold(words, limit, body[..k])
      {
        UnfoldStep(words, limit, body, k);
        var tokens := IterateToken(limit, body[k]);
        out := out + tokens;
        k := k + 1;
      }
      assert body[..k] == body;
    }

    /** One token of a body: a word opens a nested iterator, any other token is itself. */
    method IterateToken(limit: nat, t: Token) returns (out: seq<Token>)
      requires WellFormed(words) && limit <= |words|
      requires t.Word? ==> Lookup(words[..limit], t.name).Some?
      ensures out == Resolve(words, limit, t)
      decreases limit, 0
    {
      if t.Word? {
        var j := Lookup(words[..limit], t.name).value;
        out := Iterate(j);
      } else {
        out := [t];
      }
    }
  }

  /** `Forth`: the word table and the stack of values. */
  class Forth {
    const env: Env
    var stack: seq<int>

    ghost predicate Valid()
      reads this, env
    {
      WellFormed(env.words)
    }

    /** `Forth::new`: the built-in words and an empty stack. */
    constructor ()
      ensures Valid() && fresh(env) && env.words == Builtins() && stack == []
    {
      env := new Env();
      stack := [];
      new;
      // The eight `add_word` calls of the source, one per entry of `Builtins()`.
      for k := 0 to |Builtins()|
        invariant env.words == Builtins()[..k] && stack == []
      {
        Seeded(env.words, k);
        var _ := env.AddWord(Builtins()[k].name, Builtins()[k].def);
      }
      assert Builtins()[..|Builtins()|] == Builtins();
      BuiltinsRun();
    }

    /** `Forth::stack`. */
    function Stack(): seq<int>
      reads this
    {
      stack
    }

    /** The `pop` of `Token::eval`. */
    method Pop() returns (r: Result<int, Error>)
      modifies this
      ensures old(stack) == [] ==> r == Err(StackUnderflow) && stack == []
      ensures old(stack) != [] ==> r == Ok(old(stack)[|old(stack)| - 1]) && stack == old(stack)[..|old(stack)| - 1]
    {
      if stack == [] {
        return Err(StackUnderflow);
      }
      r := Ok(stack[|stack| - 1]);
      stack := stack[..|stack| - 1];
    }

    /** `Token::eval` on the stack. */
    method EvalToken(t: Token) returns (err: Option<Error>)
      requires Evaluable(t)
      modifies this
      ensures Apply(t, old(stack)) == Effect(stack, if err.Some? then Some(Failed(err.value)) else None)
    {
      match t {
        case ValueT(v) =>
          stack := stack + [v];
          return None;
        case Dup | Drop =>
          err := EvalTop(t);
        case Swap | Over =>
          err := EvalPair(t);
        case Div | Plus | Minus | Mul =>
          err := EvalArith(t);
      }
    }

    /** `DUP` and `DROP` of `Token::eval`. */
    method EvalTop(t: Token) returns (err: Option<Error>)
      requires t.Dup? || t.Drop?
      modifies this
      ensures Apply(t, old(stack)) == Effect(stack, if err.Some? then Some(Failed(err.value)) else None)
    {
      var x := Pop();
      if x.Err? { return Some(x.error); }
      if t.Dup? {
        stack := stack + [x.value];
        stack := stack + [x.value];
      }
      return None;
    }

    /** `SWAP` and `OVER` of `Token::eval`. */
    method EvalPair(t: Token) returns (err: Option<Error>)
      requires t.Swap? || t.Over?
      modifies this
      ensures Apply(t, old(stack)) == Effect(stack, if err.Some? then Some(Failed(err.value)) else None)
    {
      ghost var s := stack;
      var x2 := Pop();
      if x2.Err? { return Some(x2.error); }
      var x1 := Pop();
      if x1.Err? { return Some(x1.error); }
      assert stack == s[..|s| - 2] && x1.value == s[|s| - 2] && x2.value == s[|s| - 1];
      if t.Swap? {
        stack := stack + [x2.value, x1.value];
      } else {
        assert s == stack + [x1.value, x2.value];
        stack := stack + [x1.value, x2.value, x1.value];
      }
      return None;
    }

    /** The arithmetic of `Token::eval`: the divisor is checked for zero before the dividend
      * is popped. */
    method EvalArith(t: Token) returns (err: Option<Error>)
      requires t.Div? || t.Plus? || t.Minus? || t.Mul?
      modifies this
      ensures Apply(t, old(stack)) == Effect(stack, if err.Some? then Some(Failed(err.value)) else None)
    {
      var x2 := Pop();
      if x2.Err? { return Some(x2.error); }
      if t.Div? && x2.value == 0 {
        return Some(DivisionByZero);
      }
      var x1 := Pop();
      if x1.Err? { return Some(x1.error); }
      if t.Div? {
        stack := stack + [Arith.TruncDiv(x1.value, x2.value)];
      } else {
        stack := stack + [Binary(t, x1.value, x2.value)];
      }
      return None;
    }

    /** The inner loop of `Forth::eval` over a word's tokens. */
    method EvalTokens(ts: seq<Token>) returns (err: Option<Error>)
      requires EvalAll(ts, stack).stop != Some(Unimplemented)
      modifies this
      ensures EvalAll(ts, old(stack)) == Effect(stack, if err.Some? then Some(Failed(err.value)) else None)
    {
      var k := 0;
      while k < |ts|
        invariant 0 <= k <= |ts|
        invariant EvalAll(ts, old(stack)) == EvalAll(ts[k..], stack)
      {
        assert ts[k..][1..] == ts[k + 1..];
        err := EvalToken(ts[k]);
        if err.Some? {
          return;
        }
        k := k + 1;
      }
      return None;
    }

    /** `Forth::eval`: run an input against the table and the stack. The source panics when
      * a `:` in a word's body is run, so such inputs are excluded. */
    method Eval(input: string) returns (r: Result<(), Error>)
      requires Valid()
      requires Run(env.words, stack, Tokens(input), 0).stop != Some(Unimplemented)
      modifies this, env
      ensures Valid()
      ensures var o := Run(old(env.words), old(stack), Tokens(input), 0);
        env.words == o.words && stack == o.stack &&
        (r.Ok? <==> o.stop.None?) && (r.Err? ==> o.stop == Some(Failed(r.error)))
    {
      var ts := Tokens(input);
      var i := 0;
      while i < |ts|
        invariant 0 <= i <= |ts| && Valid()
        invariant Run(old(env.words), old(stack), ts, 0) == Run(env.words, stack, ts, i)
        decreases |ts| - i
      {
        var step := Step(ts, i);
        if step.Err? {
          return Err(step.error);
        }
        i := step.value;
      }
      return Ok(());
    }

    /** One turn of the loop of `Forth::eval`: the token at `i`, and where reading goes on. */
    method Step(ts: seq<Token>, i: nat) returns (r: Result<nat, Error>)
      requires Valid() && i < |ts|
      requires ts[i].Colon? || ts[i].Semicolon? || ts[i].ValueT? || ts[i].Word?
      requires Run(env.words, stack, ts, i).stop != Some(Unimplemented)
      modifies this, env
      ensures Valid()
      ensures r.Ok? ==> i < r.value <= |ts| && Run(old(env.words), old(stack), ts, i) == Run(env.words, stack, ts, r.value)
      ensures r.Err? ==> Run(old(env.words), old(stack), ts, i) == Outcome(env.words, stack, Some(Failed(r.error)))
    {
      match ts[i] {
        case Colon =>
          r := DefineWord(ts, i);
        case Semicolon =>
          return Err(InvalidWord);
        case Word(w) =>
          r := CallWord(ts, i);
        case ValueT(v) =>
          var err := EvalToken(ValueT(v));
          if err.Some? {
            return Err(err.value);
          }
          return Ok(i + 1);
      }
    }

    /** The `:` arm of `Forth::eval`: collect the definition and add it to the table. */
    method DefineWord(ts: seq<Token>, i: nat) returns (r: Result<nat, Error>)
      requires Valid() && i < |ts| && ts[i] == Colon
      modifies env
      ensures Valid()
      ensures r.Ok? ==> i < r.value <= |ts| && Run(old(env.words), stack, ts, i) == Run(env.words, stack, ts, r.value)
      ensures r.Err? ==> Run(old(env.words), stack, ts, i) == Outcome(env.words, stack, Some(Failed(r.error)))
    {
      var d := CollectDefinition(ts, i + 1);
      if d.Err? {
        return Err(d.error);
      }
      var (name, body, next) := d.value;
      RunDefines(env.words, stack, ts, i);
      ghost var before := env.words;
      var added := env.AddWord(name, body);
      if added.Err? {
        return Err(added.error);
      }
      AppendWord(before, name, body);
      return Ok(next);
    }

    /** The word arm of `Forth::eval`: run the tokens of its latest definition. */
    method CallWord(ts: seq<Token>, i: nat) returns (r: Result<nat, Error>)
      requires Valid() && i < |ts| && ts[i].Word?
      requires Run(env.words, stack, ts, i).stop != Some(Unimplemented)
      modifies this
      ensures r.Ok? ==> r.value == i + 1 && Run(env.words, old(stack), ts, i) == Run(env.words, stack, ts, i + 1)
      ensures r.Err? ==> Run(env.words, old(stack), ts, i) == Outcome(env.words, stack, Some(Failed(r.error)))
    {
      var tokens := env.WordTokens(ts[i].name);
      if tokens.Err? {
        return Err(tokens.error);
      }
      RunCalls(env.words, stack, ts, i, Lookup(env.words, ts[i].name).value);
      var err := EvalTokens(tokens.value);
      if err.Some? {
        return Err(err.value);
      }
      return Ok(i + 1);
    }
  }

  /** `collect_word_definition` as a loop: the word to define, then tokens up to the first
    * `;`. */
  method CollectDefinition(ts: seq<Token>, from: nat) returns (r: Result<(string, seq<Token>, nat), Error>)
    requires from <= |ts|
    ensures r == Define(ts, from)
  {
    if from == |ts| {
      return Err(InvalidWord);
    }
    var word := WordName(ts[from]);
    if word.Err? {
      return Err(word.error);
    }
    var body := [];
    var k := from + 1;
    while k < |ts|
      invariant from + 1 <= k <= |ts|
      invariant body == ts[from + 1..k]
      invariant FirstSemicolon(ts, from + 1) == FirstSemicolon(ts, k)
    {
      if ts[k] == Semicolon {
        DefineAt(ts, from, k);
        return Ok((word.value, body, k + 1));
      }
      CollectStep(ts, from, k);
      body := body + [ts[k]];
      k := k + 1;
    }
    DefineAt(ts, from, k);
    return Err(InvalidWord);
  }

  /** The definition starting at `from` ends at the `;` the search has reached, if any. */
  lemma DefineAt(ts: seq<Token>, from: nat, k: nat)
    requires from < k <= |ts| && ts[from].Word?
    requires FirstSemicolon(ts, from + 1) == FirstSemicolon(ts, k)
    requires k < |ts| ==> ts[k] == Semicolon
    ensures Define(ts, from) == if k < |ts| then Ok((ts[from].name, ts[from + 1..k], k + 1)) else Err(InvalidWord)
  {
  }

  /** A token other than `;` joins the body, and the search for `;` moves past it. */
  lemma CollectStep(ts: seq<Token>, from: nat, k: nat)
    requires from + 1 <= k < |ts| && ts[k] != Semicolon
    ensures ts[from + 1..k + 1] == ts[from + 1..k] + [ts[k]]
    ensures FirstSemicolon(ts, k) == FirstSemicolon(ts, k + 1)
  {
  }
}
