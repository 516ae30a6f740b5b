/** RNA transcription: validated DNA and RNA strands, and DNA-to-RNA complement. */
module RnaTranscription {
  import opened Ascii
  import opened Wrappers

  datatype Dna = Dna(inner: string)
  datatype Rna = Rna(inner: string)

  const DnaAlphabet := "acgt"
  const RnaAlphabet := "acgu"

  /**
   * The lowercased strand if every lowercased character is in `alphabet`,
   * else the index of the first one that is not (the index that
   * `char_indices` reports; on ASCII text it is the character index).
   */
  function Validate(s: string, alphabet: string): (r: Result<string, nat>)
    ensures r.Ok? <==> forall i :: 0 <= i < |s| ==> ToLower(s[i]) in alphabet
    ensures r.Ok? ==> r.value == Lower(s)
    ensures r.Err? ==> (r.error < |s| && ToLower(s[r.error]) !in alphabet &&
      forall j :: 0 <= j < r.error ==> ToLower(s[j]) in alphabet)
  {
    if s == [] then Ok([])
    else if ToLower(s[0]) !in alphabet then Err(0)
    else match Validate(s[1..], alphabet)
      case Ok(rest) => Ok([ToLower(s[0])] + rest)
      case Err(i) => Err(i + 1)
  }

  predicate ValidDna(d: Dna) {
    forall c <- d.inner :: c in DnaAlphabet
  }

  predicate ValidRna(r: Rna) {
    forall c <- r.inner :: c in RnaAlphabet
  }

  /** `Dna::new`: accepts a, c, g, t in either case and stores them lowercased. */
  function DnaNew(s: string): (r: Result<Dna, nat>)
    ensures r.Ok? ==> ValidDna(r.value) && r.value.inner == Lower(s)
    ensures r.Err? ==> (r.error < |s| && ToLower(s[r.error]) !in DnaAlphabet &&
      forall j :: 0 <= j < r.error ==> ToLower(s[j]) in DnaAlphabet)
    ensures r.Ok? <==> forall i :: 0 <= i < |s| ==> ToLower(s[i]) in DnaAlphabet
  {
    match Validate(s, DnaAlphabet)
    case Ok(t) => Ok(Dna(t))
    case Err(i) => Err(i)
  }

  /** `Rna::new`: the same with the alphabet a, c, g, u. */
  function RnaNew(s: string): (r: Result<Rna, nat>)
    ensures r.Ok? ==> ValidRna(r.value) && r.value.inner == Lower(s)
    ensures r.Err? ==> (r.error < |s| && ToLower(s[r.error]) !in RnaAlphabet &&
      forall j :: 0 <= j < r.error ==> ToLower(s[j]) in RnaAlphabet)
    ensures r.Ok? <==> forall i :: 0 <= i < |s| ==> ToLower(s[i]) in RnaAlphabet
  {
    match Validate(s, RnaAlphabet)
    case Ok(t) => Ok(Rna(t))
    case Err(i) => Err(i)
  }

  function Complement(c: char): (r: char)
    requires c in DnaAlphabet
    ensures r in RnaAlphabet
  {
    match c
    case 'a' => 'u'
    case 'c' => 'g'
    case 'g' => 'c'
    case 't' => 'a'
  }

  function Transcribe(s: string): (r: string)
    requires forall c <- s :: c in DnaAlphabet
    ensures |r| == |s|
    ensures forall i :: 0 <= i < |s| ==> r[i] == Complement(s[i])
  {
    if s == [] then [] else [Complement(s[0])] + Transcribe(s[1..])
  }

  /**
   * `into_rna`: the complement strand, position by position. The
   * `Rna::new(..).unwrap()` in the source never fails: the transcript
   * always passes RNA validation.
   */
  function IntoRna(d: Dna): (r: Rna)
    requires ValidDna(d)
    ensures ValidRna(r)
    ensures |r.inner| == |d.inner|
    ensures forall i :: 0 <= i < |d.inner| ==> r.inner[i] == Complement(d.inner[i])
  {
    var t := Transcribe(d.inner);
    assert RnaNew(t) == Ok(Rna(t)) by {
      AcceptedRna(t);
    }
    RnaNew(t).value
  }

  /** A strand already over a, c, g, u passes RNA validation unchanged. */
  lemma AcceptedRna(t: string)
    requires forall i :: 0 <= i < |t| ==> t[i] in RnaAlphabet
    ensures RnaNew(t) == Ok(Rna(t))
  {
    forall i | 0 <= i < |t|
      ensures ToLower(t[i]) == t[i]
    {
      assert t[i] in RnaAlphabet;
    }
    assert Lower(t) == t;
  }
}
