/** Bob, the lackadaisical teenager: a reply chosen by the shape of the message. */
module Bob {
  import opened Ascii

  const Sure := "Sure."
  const Chill := "Whoa, chill out!"
  const Calm := "Calm down, I know what I'm doing!"
  const Fine := "Fine. Be that way!"
  const Whatever := "Whatever."

  function TrimStart(s: string): (r: string)
    ensures |r| <= |s| && r == s[|s| - |r|..]
    ensures forall i :: 0 <= i < |s| - |r| ==> IsWhitespace(s[i])
    ensures r != [] ==> !IsWhitespace(r[0])
  {
    if s != [] && IsWhitespace(s[0]) then TrimStart(s[1..]) else s
  }

  function TrimEnd(s: string): (r: string)
    ensures |r| <= |s| && r == s[..|r|]
    ensures forall i :: |r| <= i < |s| ==> IsWhitespace(s[i])
    ensures r != [] ==> !IsWhitespace(r[|r| - 1])
  {
    if s != [] && IsWhitespace(s[|s| - 1]) then TrimEnd(s[..|s| - 1]) else s
  }

  /** `str::trim`: the message without leading and trailing whitespace. */
  function Trim(s: string): string {
    TrimStart(TrimEnd(s))
  }

  /** True iff some character of `s` satisfies `p` (`str::contains` with a predicate). */
  predicate Contains(s: string, p: char -> bool) {
    if s == [] then false else p(s[0]) || Contains(s[1..], p)
  }

  lemma {:induction false} ContainsExists(s: string, p: char -> bool)
    ensures Contains(s, p) <==> exists i :: 0 <= i < |s| && p(s[i])
  {
    if s != [] {
      ContainsExists(s[1..], p);
      assert forall i :: 1 <= i < |s| ==> s[i] == s[1..][i - 1];
    }
  }

  function Reply(message: string): (r: string) {
    var m := Trim(message);
    if m == [] then Fine
    else
      var isQuestion := m[|m| - 1] == '?';
      var isYell := Contains(m, IsUpper) && !Contains(m, IsLower);
      if isQuestion then (if isYell then Calm else Sure)
      else if isYell then Chill
      else Whatever
  }

  /** The message is silence: nothing but whitespace. */
  predicate Silent(message: string) {
    forall i :: 0 <= i < |message| ==> IsWhitespace(message[i])
  }

  /** The last character that is not whitespace is a question mark. */
  predicate Asks(message: string) {
    exists i :: 0 <= i < |message| && message[i] == '?' &&
      forall j :: i < j < |message| ==> IsWhitespace(message[j])
  }

  /** Some letter A-Z and no letter a-z. */
  predicate Yells(message: string) {
    (exists i :: 0 <= i < |message| && IsUpper(message[i])) &&
    !(exists i :: 0 <= i < |message| && IsLower(message[i]))
  }

  /** Trimming removes whitespace only, so it removes no letter and no question mark. */
  lemma TrimBounds(s: string) returns (a: nat, b: nat)
    ensures a <= b <= |s| && Trim(s) == s[a..b]
    ensures forall i :: 0 <= i < a ==> IsWhitespace(s[i])
    ensures forall i :: b <= i < |s| ==> IsWhitespace(s[i])
    ensures a < b ==> !IsWhitespace(s[a]) && !IsWhitespace(s[b - 1])
  {
    var e := TrimEnd(s);
    var t := TrimStart(e);
    b := |e|;
    a := |e| - |t|;
    assert e == s[..b];
    assert t == e[a..] == s[a..b];
    forall i | 0 <= i < a ensures IsWhitespace(s[i]) {
      assert s[i] == e[i];
    }
    if a < b {
      assert s[a] == t[0];
      assert s[b - 1] == e[b - 1];
    }
  }

  lemma SilentTrim(message: string)
    ensures Silent(message) <==> Trim(message) == []
  {
    var a, b := TrimBounds(message);
    if a < b {
      assert !IsWhitespace(message[a]);
    }
  }

  lemma AsksTrim(message: string)
    requires Trim(message) != []
    ensures Asks(message) <==> Trim(message)[|Trim(message)| - 1] == '?'
  {
    var a, b := TrimBounds(message);
    var m := Trim(message);
    assert m[|m| - 1] == message[b - 1];
    if Asks(message) {
      var i :| 0 <= i < |message| && message[i] == '?' &&
        forall j :: i < j < |message| ==> IsWhitespace(message[j]);
      LastNonWhitespace(message, i, a, b);
    }
    if m[|m| - 1] == '?' {
      assert message[b - 1] == '?' && forall j :: b - 1 < j < |message| ==> IsWhitespace(message[j]);
    }
  }

  /** The last character that is not whitespace ends the trimmed message. */
  lemma LastNonWhitespace(message: string, i: nat, a: nat, b: nat)
    requires a < b <= |message| && i < |message|
    requires !IsWhitespace(message[i]) && !IsWhitespace(message[b - 1])
    requires forall j :: i < j < |message| ==> IsWhitespace(message[j])
    requires forall j :: b <= j < |message| ==> IsWhitespace(message[j])
    ensures i == b - 1
  {
  }

  /** A slice that leaves out only characters failing `p` contains a character satisfying
    * `p` exactly when the whole string does. */
  lemma ContainsSlice(s: string, a: nat, b: nat, p: char -> bool)
    requires a <= b <= |s|
    requires forall i :: 0 <= i < a || b <= i < |s| ==> !p(s[i])
    ensures Contains(s[a..b], p) <==> exists i :: 0 <= i < |s| && p(s[i])
  {
    var m := s[a..b];
    ContainsExists(m, p);
    if exists i :: 0 <= i < |s| && p(s[i]) {
      var i :| 0 <= i < |s| && p(s[i]);
      assert m[i - a] == s[i];
    }
    if exists j :: 0 <= j < |m| && p(m[j]) {
      var j :| 0 <= j < |m| && p(m[j]);
      assert s[a + j] == m[j];
    }
  }

  /** The trimmed message contains a character satisfying `p`, which no whitespace does,
    * exactly when the message does. */
  lemma ContainsTrim(message: string, p: char -> bool)
    requires forall c :: p(c) ==> !IsWhitespace(c)
    ensures Contains(Trim(message), p) <==> exists i :: 0 <= i < |message| && p(message[i])
  {
    var a, b := TrimBounds(message);
    ContainsSlice(message, a, b, p);
  }

  lemma YellsTrim(message: string)
    ensures Yells(message) <==> Contains(Trim(message), IsUpper) && !Contains(Trim(message), IsLower)
  {
    ContainsTrim(message, IsUpper);
    ContainsTrim(message, IsLower);
  }

  /** The reply table, stated on the original message. */
  lemma ReplyMeaning(message: string)
    ensures Silent(message) <==> Reply(message) == Fine
    ensures !Silent(message) && Asks(message) && Yells(message) ==> Reply(message) == Calm
    ensures !Silent(message) && Asks(message) && !Yells(message) ==> Reply(message) == Sure
    ensures !Silent(message) && !Asks(message) && Yells(message) ==> Reply(message) == Chill
    ensures !Silent(message) && !Asks(message) && !Yells(message) ==> Reply(message) == Whatever
  {
    SilentTrim(message);
    YellsTrim(message);
    if Trim(message) != [] {
      AsksTrim(message);
    }
  }
}
