# Verified model of a collection of Rust exercism solutions

This project is a Dafny model of 33 small Rust libraries, each one a solution
to an exercism exercise, under `rust/<exercise>/src/lib.rs`. Each exercise is
one Dafny module named after it (`Forth`, `Bowling`, `AllYourBase`,
`Alphametics`, `PalindromeProducts`, `Clock`, `Minesweeper`, ...). Three
shared helper modules support them: `Wrappers` (Option and Result),
`Ascii` (ASCII character classes and case mapping) and `Arith` (small
arithmetic lemmas and truncating division).

The larger programs keep their imperative form. These are
- the Forth interpreter: a class `Forth` with an append-only word table and a
  stack;
- the bowling scorer: a class `BowlingGame` with a per-frame state machine;
- the arbitrary-base number: a class `Number` whose digit sequence is
  normalised in place;
- the alphametics backtracking solver: a class `Solver`;
- the palindrome-product search;
- the Diffie-Hellman key generator, with its global pseudo-random state held
  by an `Lcg` object.
Each of their methods is proved against a specification function, and the
properties the Rust code promises are proved as lemmas about those functions.
The smaller exercises are mostly pure functions, so they are modelled as
functions with lemmas. Where the Rust code loops, the model is a method with
a `while` loop and its invariants.

Conventions:
- Rust's fixed-width integers become unbounded `int`/`nat`. Some overflows
  panic in a debug build on inputs the exercise accepts. For those, a
  precondition rules the overflow out: the rows of Pascal's triangle, the
  counts read by run-length decoding, the `u64` subtraction of the
  palindrome search. Elsewhere the bound is proved, for example the `u16`
  intermediates of the clock. Every remaining overflow is listed under
  "Left out", on a line that names the member.
- A Rust panic (`unwrap` on a failed parse, division by zero, indexing out of
  range, `unreachable!`) becomes a precondition.
- An error the code returns becomes a `Result` or `Option` value.
- Characters are ASCII: Unicode case mapping and classification are
  restricted to ASCII.
- Rust integer division and remainder truncate toward zero. The model writes
  that out explicitly (`Arith.TruncDiv`).

## Model

| member | source | states |
|---|---|---|
| Grains.Square | rust/grains/src/lib.rs:1-6 | square s holds 2^(s-1) grains for 1 <= s <= 64, at most 2^63 so it fits a u64; out-of-range squares panic (precondition) |
| Grains.SquareDoubles | rust/grains/src/lib.rs:1-6 | every square holds twice the grains of the one before |
| Grains.SumSquares | rust/grains/src/lib.rs:8-11 | the grains on the first n squares; `SumSquaresIsMask` proves it is 2^n - 1 |
| Grains.Total | rust/grains/src/lib.rs:8-11 | the sum of all 64 squares is 2^64 - 1, the largest u64 |
| Grains.SumSquaresIsMask | rust/grains/src/lib.rs:8-11 | the first n squares sum to 2^n - 1 |
| Arith.Pow2 | rust/grains/src/lib.rs:5 | 2^k, the value of `1 << k`, at least 1 |
| Arith.Pow2Monotone | rust/grains/src/lib.rs:5 | powers of two grow with the exponent |
| Grains.Pow2Add | rust/grains/src/lib.rs:5 | 2^(a+b) == 2^a * 2^b |
| Grains.Pow2Squared | rust/grains/src/lib.rs:5 | 2^8 = 256, 2^16 = 65536 and 2^32 = 4294967296, each the square of the one before |
| Grains.Pow2Is64 | rust/grains/src/lib.rs:9 | 2^64 and 2^63 have the values the u64 bounds use |
| ReverseString.Reverse | rust/reverse-string/src/lib.rs:1-4 | the result has the input's length and holds its characters in reverse order |
| ReverseString.ReverseInvolutive | rust/reverse-string/src/lib.rs:1-4 | reversing twice gives back the input |
| Etl.Transform | rust/etl/src/lib.rs:3-11 | the map built by inserting each score's lowercased letters in turn; `TransformMeaning` and `TransformKeys` state what it holds |
| Etl.InsertAll | rust/etl/src/lib.rs:5-9 | after adding one score's letters, the keys are the old keys plus the lowercased letters, each new letter maps to that score and every other key keeps its value |
| Etl.TransformMeaning | rust/etl/src/lib.rs:3-11 | over ascending scores (BTreeMap order) a lowercased letter is a key iff some score lists it, its value is a score that lists it, and no lower listing score wins (later, higher scores overwrite) |
| Etl.TransformKeys | rust/etl/src/lib.rs:4-10 | every key of the result maps to a score that lists it |
| Etl.TransformLargest | rust/etl/src/lib.rs:4-10 | over ascending scores, every listed letter is a key whose value is at least each score listing it |
| ArmstrongNumbers.IsArmstrongNumber | rust/armstrong-numbers/src/lib.rs:1-7 | the number equals the sum of its decimal digits each raised to the digit count; `SingleDigit` is the property proved of it |
| ArmstrongNumbers.DecimalDigits | rust/armstrong-numbers/src/lib.rs:9-15 | the digits are a canonical decimal numeral (digits below 10, no leading zero) whose value is the number |
| ArmstrongNumbers.DigitsUnique | rust/armstrong-numbers/src/lib.rs:9-15 | every canonical numeral is the digit list of its own value, so the digit list is unique |
| ArmstrongNumbers.OneDigit | rust/armstrong-numbers/src/lib.rs:9-15 | a one-digit numeral is the digit list of its value |
| ArmstrongNumbers.SplitLast | rust/armstrong-numbers/src/lib.rs:9-15 | the digits of 10f + d are the digits of f followed by d |
| ArmstrongNumbers.LeadingDigitBound | rust/armstrong-numbers/src/lib.rs:9-15 | a numeral of two or more digits is at least 10, and one with a nonzero leading digit is at least 1 |
| ArmstrongNumbers.SingleDigit | rust/armstrong-numbers/src/lib.rs:1-7 | every number below 10 is an Armstrong number |
| Isogram.IsIsogram | rust/isogram/src/lib.rs:3-17 | the kept, lowercased letters are pairwise distinct; `Check` proves the loop answers it |
| Isogram.Letters | rust/isogram/src/lib.rs:5-8 | the filtered, lowercased letters are no longer than the candidate |
| Isogram.LettersPrefix | rust/isogram/src/lib.rs:5-8 | the letters of a prefix are a prefix of the letters of the whole candidate |
| Isogram.Check | rust/isogram/src/lib.rs:3-17 | the set-tracking loop answers true iff the lowercased characters, skipping whitespace and hyphens, are pairwise distinct |
| Isogram.LettersStep | rust/isogram/src/lib.rs:5-8 | one more character adds its lowercase form to the letters exactly when it is neither whitespace nor a hyphen |
| Isogram.Repeated | rust/isogram/src/lib.rs:10-11 | a letter already in the set makes the candidate no isogram, so returning false is right |
| Isogram.IgnoredChars | rust/isogram/src/lib.rs:7 | inserting whitespace or a hyphen anywhere does not change the letters examined |
| Isogram.CaseIgnored | rust/isogram/src/lib.rs:8 | lowercasing the candidate first does not change the letters examined |
| Isogram.LowerTwice | rust/isogram/src/lib.rs:7-8 | lowercasing twice is lowercasing once, and lowercasing neither creates nor removes whitespace or hyphens |
| Isogram.EmptyIsIsogram | rust/isogram/src/lib.rs:16 | the empty candidate is an isogram |
| PrimeFactors.SmallDivisor | rust/prime-factors/src/lib.rs:6 | a composite n has a divisor f with 2 <= f and f*f <= n, so the search bound of sqrt(n) misses none |
| PrimeFactors.FoundDivisor | rust/prime-factors/src/lib.rs:7-9 | the first divisor the loop finds is prime, at least the previous factor, and leaves a smaller quotient with no divisor below it |
| PrimeFactors.FoundPrime | rust/prime-factors/src/lib.rs:7-8 | a divisor of n with no smaller divisor of n is prime |
| PrimeFactors.Quotient | rust/prime-factors/src/lib.rs:9 | dividing by a found divisor gives a quotient between 1 and n - 1 |
| PrimeFactors.QuotientNoSmall | rust/prime-factors/src/lib.rs:9 | the quotient has no divisor below the divisor just found |
| PrimeFactors.NoDivisorFound | rust/prime-factors/src/lib.rs:12-14 | when no divisor up to sqrt(n) exists and n >= 2, n itself is prime |
| PrimeFactors.Prepend | rust/prime-factors/src/lib.rs:8-9 | putting a prime no larger than the rest in front keeps the list prime, sorted and multiplies its product |
| PrimeFactors.PushedFactors | rust/prime-factors/src/lib.rs:8-9 | after pushing d and recursing on n / d, the factors added to the caller's vector are primes at least the lower bound, non-decreasing, with product n |
| PrimeFactors.RecFactors | rust/prime-factors/src/lib.rs:5-16 | the pushed factors are appended to the given ones, are prime, non-decreasing and multiply to n; n == 1 pushes nothing and n == 0 pushes 0 |
| PrimeFactors.Factors | rust/prime-factors/src/lib.rs:1-3 | for n >= 1 the factors are primes in non-decreasing order whose product is n; 1 gives [] and 0 gives [0] |
| Proverb.Lines | rust/proverb/src/lib.rs:1-18 | one line per consecutive pair, then the closing line on the first item; `ProverbLines` ties it to the joined output |
| Proverb.PairLines | rust/proverb/src/lib.rs:9-13 | one "For want of a .. the .. was lost." line per adjacent pair of items, in order |
| Proverb.BuildProverb | rust/proverb/src/lib.rs:2-4 | an empty list gives the empty string |
| Proverb.ProverbLines | rust/proverb/src/lib.rs:1-18 | splitting the result at newlines gives exactly one line per item: the pair lines in order, then "And all for the want of a <first>." |
| Pangram.IsPangramScan | rust/pangram/src/lib.rs:4-15 | the removal loop with early return answers true iff every letter a-z occurs in the sentence, ignoring ASCII case |
| Pangram.SeenMeaning | rust/pangram/src/lib.rs:7-8 | the letters removed after n characters are exactly the ASCII-lowercased characters among the first n |
| Pangram.NoneMissing | rust/pangram/src/lib.rs:9-11 | once no letter is left to remove the sentence is a pangram, which justifies the early return |
| Pangram.SomeMissing | rust/pangram/src/lib.rs:14 | a letter still left after the whole sentence makes it not a pangram |
| Pangram.ExtendPangram | rust/pangram/src/lib.rs:4-15 | appending text to a pangram keeps it a pangram |
| Pangram.EmptyIsNot | rust/pangram/src/lib.rs:14 | the empty sentence is not a pangram |
| MagazineCutout.CountWords | rust/magazine-cutout/src/lib.rs:7-13 | the counts map has exactly the words of the text as keys, each with its number of occurrences |
| MagazineCutout.CanConstructNote | rust/magazine-cutout/src/lib.rs:15-21 | true iff the note's words, with multiplicity, are contained in the magazine's words (a multiset inclusion) |
| Bob.Trim | rust/bob/src/lib.rs:8 | `str::trim`: leading and trailing whitespace removed; `TrimBounds` states the result |
| Bob.TrimStart | rust/bob/src/lib.rs:8 | removes exactly the leading whitespace: the result is a suffix, everything dropped is whitespace, and it does not start with whitespace |
| Bob.TrimEnd | rust/bob/src/lib.rs:8 | removes exactly the trailing whitespace: the result is a prefix, everything dropped is whitespace, and it does not end with whitespace |
| Bob.ContainsExists | rust/bob/src/lib.rs:16 | `contains` with a predicate holds iff some character satisfies it |
| Bob.TrimBounds | rust/bob/src/lib.rs:8 | the trimmed message is a slice s[a..b] with whitespace outside it and non-whitespace at both ends |
| Bob.SilentTrim | rust/bob/src/lib.rs:10-12 | a message is silent (all whitespace) iff its trim is empty |
| Bob.AsksTrim | rust/bob/src/lib.rs:14 | a non-silent message asks iff its last non-whitespace character is '?' |
| Bob.YellsTrim | rust/bob/src/lib.rs:15-16 | a message yells iff its trim has an ASCII capital and no ASCII lowercase letter |
| Bob.Reply | rust/bob/src/lib.rs:1-30 | the five replies, chosen by silence, question and yelling; `ReplyMeaning` states each case |
| Bob.ReplyMeaning | rust/bob/src/lib.rs:1-30 | the reply is "Fine. Be that way!" iff the message is silent, otherwise Calm for a yelled question, Sure for a question, Chill for yelling and Whatever for the rest |
| Acronym.Camel | rust/acronym/src/lib.rs:1-17 | the letters one part contributes; `AbbreviateCamelCase` computes it and `CamelShape` states its form |
| Acronym.AbbreviateCamelCase | rust/acronym/src/lib.rs:1-17 | the peeking loop emits the uppercased first character and every capital followed by a lowercase letter, as the specification function Camel says |
| Acronym.CamelStep | rust/acronym/src/lib.rs:6-13 | one step of the loop adds the letter of position idx, if it emits one, in front of the letters of the rest |
| Acronym.CamelShape | rust/acronym/src/lib.rs:1-17 | a part yields nothing iff it is empty, starts with its uppercased first character, yields only capitals after that, and yields fewer letters than a part of two or more characters has |
| Acronym.CamelFromCapitals | rust/acronym/src/lib.rs:9-13 | positions after the first contribute only uppercase letters, fewer than they span |
| Acronym.PlainPart | rust/acronym/src/lib.rs:1-17 | a part without capitals after its first character contributes just its uppercased first character |
| Acronym.PlainFrom | rust/acronym/src/lib.rs:9-13 | without capitals the later positions contribute nothing |
| Acronym.Leading | rust/acronym/src/lib.rs:22 | counts the leading underscores exactly |
| Acronym.Trailing | rust/acronym/src/lib.rs:22 | counts the trailing underscores exactly |
| Acronym.TrimUnderscores | rust/acronym/src/lib.rs:22 | trim_matches('_') removes exactly the leading and trailing underscores: the result neither starts nor ends with '_' and is the middle slice |
| Acronym.Abbreviate | rust/acronym/src/lib.rs:19-26 | the parts' contributions concatenated; `PlainPhrase` states the result for parts without inner capitals |
| Acronym.PlainPhrase | rust/acronym/src/lib.rs:19-26 | for parts without inner capitals the acronym is the uppercased initials of the non-empty parts |
| Acronym.Examples | rust/acronym/src/lib.rs:1-17 | "HyperText" gives "HT", "PHP" gives "P" (a capital followed by a capital is skipped) and "" gives "" |
| Acronym.HyperText | rust/acronym/src/lib.rs:7-12 | "HyperText" gives "HT": the first letter and the capital followed by a lowercase letter |
| Acronym.Php | rust/acronym/src/lib.rs:9-12 | "PHP" gives "P": capitals followed by capitals or by nothing are skipped |
| Sublist.IsEqual | rust/sublist/src/lib.rs:9-15 | equal lengths and pairwise equal elements hold iff the slices are equal |
| Sublist.AnyWindowFrom | rust/sublist/src/lib.rs:24 | some window of big, starting at or after a given offset, equals small iff one of those offsets holds a copy of small |
| Sublist.IsSublist | rust/sublist/src/lib.rs:17-25 | true iff small is empty, or is strictly shorter than big and occurs in it contiguously |
| Sublist.Compare | rust/sublist/src/lib.rs:27-51 | Equal iff the lists are equal; Sublist iff the first is strictly shorter and a contiguous part of the second; Superlist symmetrically; Unequal otherwise |
| Sublist.EmptyCases | rust/sublist/src/lib.rs:18-20 | the empty list is a sublist of every non-empty list and equal to the empty list |
| Sublist.CompareSwap | rust/sublist/src/lib.rs:27-51 | swapping the arguments swaps Sublist and Superlist and keeps Equal and Unequal |
| Clock.NewRaw | rust/clock/src/lib.rs:62-68 | given reduced hours and minutes whose u16 sum does not overflow, the clock's minutes lie in [0, 1440) |
| Clock.New | rust/clock/src/lib.rs:50-56 | any i32 hours and minutes give a valid clock at (60 * hours + minutes) mod 1440, taken Euclidean so negative inputs roll backwards |
| Clock.ModCombine | rust/clock/src/lib.rs:53-55 | reducing hours mod 24 and minutes mod 1440 first does not change the minute of day |
| Clock.ModShift | rust/clock/src/lib.rs:81-82 | adding whole days does not change the minute of day |
| Clock.AddMinutes | rust/clock/src/lib.rs:78-83 | adding any i32 number of minutes gives the valid clock at (old + added) mod 1440 |
| Clock.DisplayHours | rust/clock/src/lib.rs:74-76 | the displayed hour is below 24 |
| Clock.DisplayMinutes | rust/clock/src/lib.rs:70-72 | the displayed minute is below 60 |
| Clock.DisplayDenotes | rust/clock/src/lib.rs:70-76 | 60 * displayed hour + displayed minute is the clock's minute of day |
| Clock.TwoDigits | rust/clock/src/lib.rs:27 | "{:02}" writes a number below 100 as exactly two digits that read back as the number |
| Clock.Display | rust/clock/src/lib.rs:23-32 | the display is five characters with ':' in the middle |
| Clock.DisplayRoundTrip | rust/clock/src/lib.rs:23-32 | the display is zero-padded "HH:MM" and reading it back gives the clock's minute of day |
| Clock.NewEquality | rust/clock/src/lib.rs:8-9 | two clocks built by new are equal (derived PartialEq) iff their total minutes agree mod 1440 |
| Allergies.Index | rust/allergies/src/lib.rs:15-24 | every allergen has a position below 8 in ALL_ALLERGENS |
| Allergies.Score | rust/allergies/src/lib.rs:4-13 | an allergen's score is 1 shifted left by its position |
| Allergies.Pow2Table | rust/allergies/src/lib.rs:5-12 | the eight scores are 1, 2, 4, .., 128 |
| Allergies.ScoresDistinct | rust/allergies/src/lib.rs:26-30 | every score lies in 1..128 and different allergens have different scores |
| Allergies.AllergiesFrom | rust/allergies/src/lib.rs:41-47 | filtering the allergens from a position on keeps exactly those the score is allergic to, in table order |
| Allergies.AllergyList | rust/allergies/src/lib.rs:41-47 | allergies lists exactly the allergens the score is allergic to, in ALL_ALLERGENS order |
| Allergies.IsAllergicTo | rust/allergies/src/lib.rs:37-39 | the score has the allergen's one-bit mask set; `AllergicIsBit` states it as the allergen's bit |
| Allergies.AllergicIsBit | rust/allergies/src/lib.rs:37-39 | score & allergen.score != 0 iff the allergen's bit of the score is set |
| Allergies.HighBitsIgnored | rust/allergies/src/lib.rs:37-47 | bits above the eighth do not change the allergy list |
| Allergies.LowBit | rust/allergies/src/lib.rs:37-39 | adding multiples of 256 to a score does not change any allergy |
| Allergies.SameListFrom | rust/allergies/src/lib.rs:41-47 | scores with the same allergies give the same list |
| Allergies.ZeroScore | rust/allergies/src/lib.rs:41-47 | a zero score has no allergies |
| RnaTranscription.Validate | rust/rna-transcription/src/lib.rs:13-21 | the lowercased string is accepted iff every character is in the alphabet; otherwise the error is the index of the first character that is not |
| RnaTranscription.DnaNew | rust/rna-transcription/src/lib.rs:12-23 | Dna::new succeeds iff every lowercased character is a, c, g or t, keeping the lowercased text; otherwise it returns the first offending index |
| RnaTranscription.RnaNew | rust/rna-transcription/src/lib.rs:44-55 | Rna::new succeeds iff every lowercased character is a, c, g or u, keeping the lowercased text; otherwise it returns the first offending index |
| RnaTranscription.Complement | rust/rna-transcription/src/lib.rs:29-35 | the complement of a DNA nucleotide is an RNA nucleotide, so the unreachable! arm is never taken |
| RnaTranscription.Transcribe | rust/rna-transcription/src/lib.rs:27-36 | the transcription has the input's length and complements it position by position |
| RnaTranscription.IntoRna | rust/rna-transcription/src/lib.rs:25-40 | into_rna's unwrap never fails: the result is valid RNA, as long as the DNA, holding each nucleotide's complement |
| RnaTranscription.AcceptedRna | rust/rna-transcription/src/lib.rs:25-40 | a strand over a, c, g, u passes `Rna::new` unchanged, so the `unwrap` cannot fail |
| PigLatin.TranslateWord | rust/pig-latin/src/lib.rs:9-43 | the rule cascade for one word; the `Translate*` lemmas below state each rule |
| PigLatin.FindFirst | rust/pig-latin/src/lib.rs:19 | str::find with a length fallback: the first position satisfying the pattern, or the length when none does |
| PigLatin.TranslateRotation | rust/pig-latin/src/lib.rs:9-43 | every translation is a rotation of the word followed by "ay", so it is two characters longer than the word |
| PigLatin.TranslateVowelStart | rust/pig-latin/src/lib.rs:13-16 | a word starting with a vowel, "xr" or "yt" only gets "ay" appended |
| PigLatin.TranslateYRule | rust/pig-latin/src/lib.rs:22-31 | a 'y' inside the leading consonants, not first, splits the word at the first 'y' |
| PigLatin.TranslateNoVowel | rust/pig-latin/src/lib.rs:33-35 | a word with no vowel (and no y rule) only gets "ay" appended |
| PigLatin.TranslateQu | rust/pig-latin/src/lib.rs:37-40 | a consonant cluster ending in 'q' before 'u' moves together with the 'u' |
| PigLatin.TranslateCluster | rust/pig-latin/src/lib.rs:42 | otherwise the leading consonants move behind the rest |
| PigLatin.ClusterFind | rust/pig-latin/src/lib.rs:23-27 | the first 'y' in the consonant cluster is the first 'y' in the word, when it lies inside the cluster |
| PigLatin.TranslatedChars | rust/pig-latin/src/lib.rs:9-43 | a translation uses only the word's characters and 'a' and 'y' |
| PigLatin.MapTranslate | rust/pig-latin/src/lib.rs:4 | translates every word, one for one |
| PigLatin.Translate | rust/pig-latin/src/lib.rs:1-7 | the translated words joined by single spaces; `TranslateWordByWord` states it |
| PigLatin.TranslateWordByWord | rust/pig-latin/src/lib.rs:1-7 | splitting the output at spaces gives the translations of the input's whitespace-separated words, in order |
| IsbnVerifier.NoHyphens | rust/isbn-verifier/src/lib.rs:11 | the filtered string has no hyphen |
| IsbnVerifier.NoHyphensAppend | rust/isbn-verifier/src/lib.rs:11 | the filter distributes over concatenation |
| IsbnVerifier.WeightsAgree | rust/isbn-verifier/src/lib.rs:11-27 | counting weights from the right, as the reversed loop does, gives the ISBN formula x1*10 + .. + x10*1 |
| IsbnVerifier.IsValidIsbn | rust/isbn-verifier/src/lib.rs:7-30 | the loop answers true iff, without hyphens, the ISBN has exactly 10 characters, digits except an optional final X worth 10, and a weighted sum divisible by 11 |
| IsbnVerifier.BadCharacter | rust/isbn-verifier/src/lib.rs:22-26 | a character other than a digit, or an `X` anywhere but last, makes the ISBN invalid |
| IsbnVerifier.HyphenIgnored | rust/isbn-verifier/src/lib.rs:11 | inserting a hyphen anywhere does not change validity |
| IsbnVerifier.NoHyphensNone | rust/isbn-verifier/src/lib.rs:11 | a string without hyphens passes the filter unchanged |
| IsbnVerifier.ValidExample | rust/isbn-verifier/src/lib.rs:7-30 | "3598215088" is valid |
| IsbnVerifier.ExampleSum | rust/isbn-verifier/src/lib.rs:4 | the weighted sum of "3598215088" is 264 = 24 * 11 |
| Luhn.Digits | rust/luhn/src/lib.rs:10 | only digits are kept |
| Luhn.DigitsAppend | rust/luhn/src/lib.rs:7-10 | taking digits distributes over concatenation |
| Luhn.IsValid | rust/luhn/src/lib.rs:1-34 | the right-to-left loop answers true iff the code has only digits and whitespace, at least two digits, and a Luhn sum (every second digit from the right doubled, minus 9 above 9) divisible by 10 |
| Luhn.WhitespaceIgnored | rust/luhn/src/lib.rs:24 | inserting whitespace anywhere does not change validity |
| Luhn.DoubleIsDigitSum | rust/luhn/src/lib.rs:15-18 | subtracting 9 from a doubled digit above 9 gives the sum of its decimal digits |
| Luhn.ContributionDistinct | rust/luhn/src/lib.rs:12-20 | at a fixed position, different digits contribute different amounts below 10 |
| Luhn.LuhnSumUpdate | rust/luhn/src/lib.rs:7-21 | replacing one digit changes the sum by the difference of that position's contributions |
| Luhn.SingleDigitErrorDetected | rust/luhn/src/lib.rs:33 | changing any single digit changes the sum mod 10, so the check catches every single-digit error |
| Anagram.CountLetters | rust/anagram/src/lib.rs:3-9 | the map's keys are exactly the word's characters and each count is that character's number of occurrences |
| Anagram.IsAnagram | rust/anagram/src/lib.rs:12-30 | the decrementing loop with early returns answers true iff the candidate has exactly the counted number of every character |
| Anagram.MultisetPrefix | rust/anagram/src/lib.rs:15-25 | a prefix has no more of any character than the whole string, which justifies the early false returns |
| Anagram.SameCounts | rust/anagram/src/lib.rs:12-30 | matching a word's letter counts is the same as being a permutation of the word |
| Anagram.FilterAppend | rust/anagram/src/lib.rs:35-42 | filtering one more candidate adds it to the set iff it passes the filter |
| Anagram.AnagramsFor | rust/anagram/src/lib.rs:32-43 | the result is the set of candidates whose lowercase form differs from the lowercased word and is a permutation of it |
| HighScores.Latest | rust/high-scores/src/lib.rs:17-19 | None iff there are no scores, otherwise the last score added |
| HighScores.Max | rust/high-scores/src/lib.rs:22 | the maximum of a non-empty list is in the list and at least every score |
| HighScores.PersonalBest | rust/high-scores/src/lib.rs:21-23 | None iff there are no scores, otherwise a score that is at least every score |
| HighScores.Insert | rust/high-scores/src/lib.rs:32 | inserting into a descending list keeps it descending, adds exactly the element and grows the length by one |
| HighScores.SortDesc | rust/high-scores/src/lib.rs:32 | sort_unstable_by(b.cmp(a)) gives a descending permutation of its input, of the same length |
| HighScores.Topn | rust/high-scores/src/lib.rs:25-48 | the result holds min(n, number of scores) scores, descending, drawn from the scores, and no score left out is larger than any score kept |
| HighScores.KeepLargest | rust/high-scores/src/lib.rs:37-47 | the replacement loop keeps k descending scores drawn from all scores, none smaller than any score it left out |
| HighScores.ReplaceStep | rust/high-scores/src/lib.rs:41-44 | replacing the lowest kept score by a larger one and re-sorting keeps the size, accounts for every score seen and keeps every excluded score at most the lowest kept |
| HighScores.KeepStep | rust/high-scores/src/lib.rs:41 | a score no larger than the lowest kept is excluded without breaking that invariant |
| HighScores.TopOfAll | rust/high-scores/src/lib.rs:37-47 | once all scores are seen, the kept scores are a sub-multiset and dominate every excluded score |
| HighScores.LastIsSmallest | rust/high-scores/src/lib.rs:34-35 | in a descending list the last element is the smallest |
| HighScores.ReplaceLast | rust/high-scores/src/lib.rs:42-43 | writing a larger score over the last element and re-sorting swaps exactly those two values and does not lower the minimum |
| HighScores.ReplaceCounts | rust/high-scores/src/lib.rs:42 | overwriting the last element swaps one value for the other in the multiset |
| HighScores.PersonalTopThree | rust/high-scores/src/lib.rs:50-52 | at most three scores, descending, drawn from the scores, and at least as large as every score left out |
| PascalsTriangle.BinomialRow | rust/pascals-triangle/src/lib.rs:10-28 | row n has n + 1 entries, entry k being n choose k |
| PascalsTriangle.WindowSums | rust/pascals-triangle/src/lib.rs:20 | windows(2) summed: one entry fewer, each the sum of two neighbours |
| PascalsTriangle.NextRow | rust/pascals-triangle/src/lib.rs:18-22 | the next row is one longer, starts and ends with 1, and holds the sums of adjacent entries in between |
| PascalsTriangle.NextBinomialRow | rust/pascals-triangle/src/lib.rs:17-23 | the next row of binomial row n is binomial row n + 1 (Pascal's rule) |
| PascalsTriangle.Rows | rust/pascals-triangle/src/lib.rs:10-28 | the loop returns row_count rows, row i being the binomial coefficients of i, including the 1 and 2 row special cases; at most 35 rows, since row 35 overflows the u32 sum |
| PascalsTriangle.Symmetric | rust/pascals-triangle/src/lib.rs:10-28 | every row reads the same from both ends |
| PascalsTriangle.SumAppend | rust/pascals-triangle/src/lib.rs:10-28 | the sum of a concatenation is the sum of the parts |
| PascalsTriangle.WindowSumsTotal | rust/pascals-triangle/src/lib.rs:20 | the window sums count every inner entry twice and the two ends once |
| PascalsTriangle.NextRowSum | rust/pascals-triangle/src/lib.rs:18-22 | each new row sums to twice the previous one |
| PascalsTriangle.RowSum | rust/pascals-triangle/src/lib.rs:10-28 | row n sums to 2^n |
| PascalsTriangle.EntryAtMostSum | rust/pascals-triangle/src/lib.rs:20 | no entry of a row exceeds the row's sum |
| PascalsTriangle.EntryBound | rust/pascals-triangle/src/lib.rs:20 | every entry of row n is at most 2^n, so the first 32 rows fit in u32 |
| PerfectNumbers.SumSkip | rust/perfect-numbers/src/lib.rs:35-40 | positions without a divisor add nothing to the sum, so skipping them is sound |
| PerfectNumbers.ProperDivisors | rust/perfect-numbers/src/lib.rs:35 | for n >= 1 the divisors up to n / 2 are all proper divisors below n: none lies strictly between n / 2 and n |
| PerfectNumbers.Factors.constructor | rust/perfect-numbers/src/lib.rs:26-28 | the iterator over the divisors of n starts at factor 1 |
| PerfectNumbers.Factors.Next | rust/perfect-numbers/src/lib.rs:34-43 | the iterator returns the least divisor in next_factor..n/2 and moves past it, or None without moving when there is none |
| PerfectNumbers.Classify | rust/perfect-numbers/src/lib.rs:8-18 | 0 has no classification; otherwise Abundant, Perfect or Deficient as the number is below, equal to or above the sum of its proper divisors |
| PerfectNumbers.OneIsDeficient | rust/perfect-numbers/src/lib.rs:12-15 | 1 has aliquot sum 0, so it is deficient |
| PerfectNumbers.Examples | rust/perfect-numbers/src/lib.rs:8-18 | 6 and 28 are perfect and 12 is abundant (aliquot sum 16) |
| BinarySearch.FindRec | rust/binary-search/src/lib.rs:4-27 | a returned index, offset by pos, holds the key; on a sorted slice containing the key an index is returned |
| BinarySearch.Find | rust/binary-search/src/lib.rs:1-3 | a returned index holds the key; on a sorted slice the key is found iff it is present; the empty slice gives None |
| RunLengthEncoding.Runs | rust/run-length-encoding/src/lib.rs:1-31 | the empty string has no runs and the last run is of the string's last character |
| RunLengthEncoding.Repeat | rust/run-length-encoding/src/lib.rs:51 | repeat(c).take(n) is n copies of c |
| RunLengthEncoding.NatToString | rust/run-length-encoding/src/lib.rs:16 | to_string of a count is a non-empty string of digits |
| RunLengthEncoding.RenderSnoc | rust/run-length-encoding/src/lib.rs:15-18 | writing one more run appends its count (when above 1) and character |
| RunLengthEncoding.ExpandSnoc | rust/run-length-encoding/src/lib.rs:11-22 | expanding one more run appends its characters |
| RunLengthEncoding.RunsMaximal | rust/run-length-encoding/src/lib.rs:11-22 | every run has a positive count and adjacent runs have different characters |
| RunLengthEncoding.RunsExpand | rust/run-length-encoding/src/lib.rs:11-22 | expanding the runs gives the source back |
| RunLengthEncoding.WriteRun | rust/run-length-encoding/src/lib.rs:15-18 | appends one run as written here and at lines 24-28: its count when above 1, then its character |
| RunLengthEncoding.Encode | rust/run-length-encoding/src/lib.rs:1-31 | the counting loop writes the maximal runs of the source, each as its count when above 1 followed by its character |
| RunLengthEncoding.Decode | rust/run-length-encoding/src/lib.rs:33-59 | the loop accumulates decimal counts and writes each character that many times, once when no count precedes it; no count may overflow the u32 counter |
| RunLengthEncoding.ReadCount | rust/run-length-encoding/src/lib.rs:43-46 | decoding reads a written count digit by digit back to its value |
| RunLengthEncoding.DecodeRender | rust/run-length-encoding/src/lib.rs:33-59 | decoding rendered non-digit runs expands them |
| RunLengthEncoding.RoundTrip | rust/run-length-encoding/src/lib.rs:1-59 | decode(encode(s)) == s for every string without decimal digits |
| RunLengthEncoding.RunsChars | rust/run-length-encoding/src/lib.rs:11-22 | every run's character occurs in the source |
| RunLengthEncoding.CountsFit | rust/run-length-encoding/src/lib.rs:43-46 | no count read while decoding exceeds u32::MAX |
| RunLengthEncoding.ReadCountFits | rust/run-length-encoding/src/lib.rs:43-46 | reading a written count below 2^32 keeps every partial count below 2^32 |
| RunLengthEncoding.RenderFits | rust/run-length-encoding/src/lib.rs:43-46 | rendered runs of at most u32::MAX characters each decode without overflowing the counter |
| RunLengthEncoding.CountAtMostLength | rust/run-length-encoding/src/lib.rs:11-22 | no run is longer than the string it is part of |
| RunLengthEncoding.EncodedFits | rust/run-length-encoding/src/lib.rs:1-59 | decode accepts, without overflow, the encoding of any digit-free string of at most u32::MAX characters |
| RpnCalculator.Evaluate | rust/rpn-calculator/src/lib.rs:10-34 | the stack loop returns Some(v) iff running the inputs leaves exactly one value v; an underflow or a final stack of another height gives None; division truncates toward zero |
| RpnCalculator.RunNext | rust/rpn-calculator/src/lib.rs:10-34 | one more input of a run still on a stack is one more step of the loop |
| RpnCalculator.RunPrefix | rust/rpn-calculator/src/lib.rs:16-17 | once a prefix underflows (the `?` early return) the rest of the input changes nothing |
| RpnCalculator.UnderflowStays | rust/rpn-calculator/src/lib.rs:16-17 | an underflow in any prefix is the result of the whole input |
| RpnCalculator.StackHeight | rust/rpn-calculator/src/lib.rs:12-27 | without underflow the stack height is the number of values minus the number of operators |
| RpnCalculator.TruncDivExamples | rust/rpn-calculator/src/lib.rs:22 | i32 division truncates toward zero: 7/2 = 3, -7/2 = -3, 7/-2 = -3, -7/-2 = 3 |
| RpnCalculator.TruncDivRemainder | rust/rpn-calculator/src/lib.rs:22 | the remainder of truncating division has the dividend's sign and is smaller in magnitude than the divisor |
| MatchingBrackets.Repeat | rust/matching-brackets/src/lib.rs:6 | a count entry (c, n) stands for n copies of c |
| MatchingBrackets.FlattenTop | rust/matching-brackets/src/lib.rs:13-14 | the last compressed entry's bracket is the innermost expected closer |
| MatchingBrackets.FlattenEmpty | rust/matching-brackets/src/lib.rs:48 | the compressed stack is empty iff no closer is expected |
| MatchingBrackets.PushSame | rust/matching-brackets/src/lib.rs:14-16 | incrementing the top count of the same closer pushes one expected closer |
| MatchingBrackets.PushNew | rust/matching-brackets/src/lib.rs:17-24 | pushing (close, 1) after a different closer, or on an empty stack, pushes one expected closer |
| MatchingBrackets.PopLast | rust/matching-brackets/src/lib.rs:33-36 | popping the top entry when its count reaches zero takes exactly the innermost expected closer off |
| MatchingBrackets.PopDecrement | rust/matching-brackets/src/lib.rs:33 | decrementing a top count above one takes exactly the innermost expected closer off |
| MatchingBrackets.ExpectClose | rust/matching-brackets/src/lib.rs:11-25 | an opening bracket makes its closer the innermost expected one, keeping the entries compressed |
| MatchingBrackets.MatchClose | rust/matching-brackets/src/lib.rs:28-45 | a closing bracket is rejected exactly when it is not the innermost expected closer, and is otherwise taken off |
| MatchingBrackets.BracketsAreBalanced | rust/matching-brackets/src/lib.rs:1-49 | the run-length stack loop answers true iff every bracket is closed by the matching bracket in nesting order, other characters ignored |
| MatchingBrackets.ScanNext | rust/matching-brackets/src/lib.rs:1-49 | scanning from a position is one character's step followed by scanning the rest |
| MatchingBrackets.ScanAppend | rust/matching-brackets/src/lib.rs:9-46 | scanning a concatenation scans the first part, then the second from where it left off, stopping at a mismatch |
| MatchingBrackets.ScanBelow | rust/matching-brackets/src/lib.rs:9-46 | entries below the part of the stack a scan uses are untouched |
| MatchingBrackets.EmptyIsBalanced | rust/matching-brackets/src/lib.rs:48 | the empty string is balanced |
| MatchingBrackets.Concatenation | rust/matching-brackets/src/lib.rs:1-49 | two balanced strings in sequence are balanced |
| MatchingBrackets.Nesting | rust/matching-brackets/src/lib.rs:1-49 | a balanced string wrapped in a matching pair is balanced |
| MatchingBrackets.Unopened | rust/matching-brackets/src/lib.rs:41-44 | a string starting with a closing bracket is not balanced |
| MatchingBrackets.LeftOpen | rust/matching-brackets/src/lib.rs:48 | a lone opening bracket is not balanced |
| Minesweeper.NewCell | rust/minesweeper/src/lib.rs:78-84 | `*` is a mine, every other character an empty counter; `NewRow` applies it to each character |
| Minesweeper.Cols | rust/minesweeper/src/lib.rs:46-52 | the width of the first row, 0 for an empty board; `BeyondFirstRow` states what it bounds |
| Minesweeper.NewRow | rust/minesweeper/src/lib.rs:19 | each character of a row becomes a cell, one for one |
| Minesweeper.NewField | rust/minesweeper/src/lib.rs:15-23 | each row of the field becomes a row of cells, one for one |
| Minesweeper.RowPairs | rust/minesweeper/src/lib.rs:65-66 | the coordinates of one row of the neighbourhood range, in column order |
| Minesweeper.BoxPairs | rust/minesweeper/src/lib.rs:62-66 | the flattened ranges hold every coordinate of the rectangle exactly once |
| Minesweeper.RowMembers | rust/minesweeper/src/lib.rs:65-66 | one row of the range holds exactly the coordinates of that row between the column bounds |
| Minesweeper.DistinctConcat | rust/minesweeper/src/lib.rs:62-66 | flattening rows that share no coordinate keeps every coordinate once |
| Minesweeper.Without | rust/minesweeper/src/lib.rs:67 | the filter drops exactly the excluded coordinate and keeps the others distinct |
| Minesweeper.Neighbours | rust/minesweeper/src/lib.rs:55-68 | the neighbours are exactly the in-grid cells adjacent to the given one, other than itself, each once |
| Minesweeper.UpdateCounters | rust/minesweeper/src/lib.rs:25-40 | the nested loops leave mines in place and set every other cell to the number of mines adjacent to it |
| Minesweeper.Bump | rust/minesweeper/src/lib.rs:31-34 | visiting a neighbour increments it when it is a counter and leaves a mine alone, changing no other cell |
| Minesweeper.BumpStep | rust/minesweeper/src/lib.rs:30-35 | bumping one more unvisited neighbour keeps the partial count consistent |
| Minesweeper.CountedNeighbours | rust/minesweeper/src/lib.rs:29-36 | after all neighbours of a mine are bumped, every cell counts the mines up to and including it |
| Minesweeper.PartialStep | rust/minesweeper/src/lib.rs:29-34 | counting the mine at (r, c) raises exactly the counters it touches by one |
| Minesweeper.NextNeighbour | rust/minesweeper/src/lib.rs:30 | the next neighbour visited has not been visited before |
| Minesweeper.CountMine | rust/minesweeper/src/lib.rs:29-36 | the inner neighbour loop adds one mine to the count of each adjacent counter |
| Minesweeper.CountRowBound | rust/minesweeper/src/lib.rs:62-66 | one row of the neighbourhood holds at most three adjacent mines |
| Minesweeper.CountRowsBound | rust/minesweeper/src/lib.rs:62-66 | the rows scanned so far add at most 3, 5 or 8 adjacent mines |
| Minesweeper.AtMostEight | rust/minesweeper/src/lib.rs:90 | no cell has more than eight adjacent mines, so the unreachable! arm of to_char is never taken |
| Minesweeper.CountRowOutside | rust/minesweeper/src/lib.rs:26-28 | columns beyond the first row's width get no mine from a row |
| Minesweeper.CountRowsOutside | rust/minesweeper/src/lib.rs:26-28 | columns beyond the first row's width get no mine from any row |
| Minesweeper.BeyondFirstRow | rust/minesweeper/src/lib.rs:46-52 | cells beyond the first row's width count zero mines, as the loops use the first row's length as the width |
| Minesweeper.ToChar | rust/minesweeper/src/lib.rs:85-92 | a mine prints '*', a zero counter ' ', and a counter up to 9 its digit |
| Minesweeper.RowChars | rust/minesweeper/src/lib.rs:11 | each cell of a row is printed, one for one |
| Minesweeper.ToStrings | rust/minesweeper/src/lib.rs:8-13 | each row is printed, one for one |
| Minesweeper.Annotate | rust/minesweeper/src/lib.rs:1-3 | the output has the field's shape, a '*' exactly where the field has one, and elsewhere ' ' when no mine is adjacent or the digit of the number of adjacent mines |
| Arith.Pow | rust/diffie-hellman/src/lib.rs:35-53 | b^e, the reference for the modular exponentiation |
| DiffieHellman.ModPow | rust/diffie-hellman/src/lib.rs:35-53 | b^e mod m, which `ExpModulo` proves the loop computes |
| DiffieHellman.ModUnique | rust/diffie-hellman/src/lib.rs:35-53 | m*q + r with r < m leaves remainder r |
| DiffieHellman.ModAddMultiple | rust/diffie-hellman/src/lib.rs:35-53 | adding a multiple of m does not change the remainder |
| DiffieHellman.ModMul | rust/diffie-hellman/src/lib.rs:46 | reducing the factors first does not change the remainder of a product |
| DiffieHellman.ModMulLeft | rust/diffie-hellman/src/lib.rs:46 | congruent factors give congruent products |
| DiffieHellman.PowMod | rust/diffie-hellman/src/lib.rs:40 | reducing the base first does not change b^e mod m |
| DiffieHellman.PowAdd | rust/diffie-hellman/src/lib.rs:44-50 | b^(e1+e2) == b^e1 * b^e2 |
| DiffieHellman.PowMul | rust/diffie-hellman/src/lib.rs:44-50 | b^(e1*e2) == (b^e1)^e2 |
| DiffieHellman.PowOfResidue | rust/diffie-hellman/src/lib.rs:26-32 | (x^e1 mod m)^e2 mod m == x^(e1*e2) mod m |
| DiffieHellman.SharedSecret | rust/diffie-hellman/src/lib.rs:26-32 | both parties compute the same secret: (g^b)^a == (g^a)^b == g^(ab), all mod p |
| DiffieHellman.SquareHalf | rust/diffie-hellman/src/lib.rs:48-49 | squaring the base while halving the exponent keeps the power mod m |
| DiffieHellman.EvenStep | rust/diffie-hellman/src/lib.rs:44-50 | an even exponent step keeps result * base^exp mod m |
| DiffieHellman.OddStep | rust/diffie-hellman/src/lib.rs:45-47 | an odd exponent step, multiplying the base into the result, keeps result * base^exp mod m |
| DiffieHellman.ExpModulo | rust/diffie-hellman/src/lib.rs:35-53 | right-to-left binary exponentiation returns b^e mod m, 0 when m == 1 |
| DiffieHellman.PublicKey | rust/diffie-hellman/src/lib.rs:26-28 | the public key is g^a mod p |
| DiffieHellman.Secret | rust/diffie-hellman/src/lib.rs:30-32 | the secret is b_pub^a mod p |
| DiffieHellman.Lcg.constructor | rust/diffie-hellman/src/lib.rs:3-6 | the generator starts at the seed 1 |
| DiffieHellman.Lcg.Next | rust/diffie-hellman/src/lib.rs:7-14 | each draw replaces the state by 16807 * state mod 2147483647 and returns it |
| DiffieHellman.LcgNonZero | rust/diffie-hellman/src/lib.rs:9 | a state between 1 and LCG_M - 1 never steps to zero, since the multiplier is invertible modulo the prime LCG_M |
| DiffieHellman.LcgIter | rust/diffie-hellman/src/lib.rs:7-14 | the generator state after n draws |
| DiffieHellman.PrivateKey | rust/diffie-hellman/src/lib.rs:16-24 | the generator advances by the number of draws made; every draw but the last left a residue of at most 1; a key is returned iff the last draw's residue exceeds 1, and it is that residue, strictly between 1 and p; None only after all tries + 1 draws |
| Bowling.FrameScore | rust/bowling/src/lib.rs:93-98 | a frame has a score iff it is Open, SpareCalculated or StrikeCalculated, and then it is the frame's number |
| Bowling.UpdateWithRoll | rust/bowling/src/lib.rs:100-119 | a roll never unfinishes a frame and leaves a scored frame unchanged |
| Bowling.ApplyRoll | rust/bowling/src/lib.rs:42-44 | the roll is applied to the frames up to the current one and no other |
| Bowling.RollKeepsValid | rust/bowling/src/lib.rs:31-61 | an accepted roll keeps the game invariant: frames before the current are finished, frames after it have no rolls, and pins left agree with the current frame |
| Bowling.RollAdvances | rust/bowling/src/lib.rs:46-58 | a roll moves to the next frame, with 10 fresh pins, only when the current frame is finished, and finished frames stay finished |
| Bowling.RollTouchesStarted | rust/bowling/src/lib.rs:42-44 | a roll changes no frame after the current one and no frame already scored |
| Bowling.TotalScore | rust/bowling/src/lib.rs:63-65 | summing Options gives a total iff every frame has a score |
| Bowling.TotalScoreIsSum | rust/bowling/src/lib.rs:63-65 | when every frame is scored the total is the sum of the frame scores |
| Bowling.StrikeStep | rust/bowling/src/lib.rs:31-61 | in a game of strikes every further strike is accepted and leads to the next all-strike state |
| Bowling.StrikesToTheEnd | rust/bowling/src/lib.rs:31-61 | from any point of a game of strikes the remaining strikes are all accepted |
| Bowling.ScoreOfStrikes | rust/bowling/src/lib.rs:63-65 | n frames each worth 30 total 30n |
| Bowling.PerfectGame | rust/bowling/src/lib.rs:19-65 | twelve strikes from a new game are all accepted and score 300 |
| Bowling.BowlingGame.constructor | rust/bowling/src/lib.rs:19-25 | a new game is at frame 1 with 10 pins and every frame without rolls |
| Bowling.BowlingGame.IsComplete | rust/bowling/src/lib.rs:27-29 | the game is over once the last frame has a score; `Roll` answers GameComplete exactly then |
| Bowling.BowlingGame.Roll | rust/bowling/src/lib.rs:31-61 | GameComplete once the last frame is scored, NotEnoughPinsLeft when more pins are claimed than stand, neither changing the game; otherwise the game moves to the state AfterRoll describes and stays valid |
| Bowling.BowlingGame.UpdateFrames | rust/bowling/src/lib.rs:42-44 | every frame up to the current one takes the roll, the later frames are unchanged |
| Bowling.BowlingGame.MoveOn | rust/bowling/src/lib.rs:46-58 | a finished frame moves the game to the next frame with ten pins, except the last frame, which only renews the pins when none is left |
| Bowling.BowlingGame.Score | rust/bowling/src/lib.rs:63-65 | a score exists iff every frame is scored, and it is their sum |
| AllYourBase.Reverse | rust/all-your-base/src/lib.rs:141 | the little-endian copy holds the digits in reverse order |
| AllYourBase.Zeros | rust/all-your-base/src/lib.rs:192 | k zero digits |
| AllYourBase.ValueConcat | rust/all-your-base/src/lib.rs:51-53 | the value of little-endian digits s + t is value(s) + base^len(s) * value(t) |
| AllYourBase.ValueAppend | rust/all-your-base/src/lib.rs:51-53 | a new high digit d adds d * base^len |
| AllYourBase.ValueOfZeros | rust/all-your-base/src/lib.rs:51-53 | zero digits have value 0 |
| AllYourBase.HighZeros | rust/all-your-base/src/lib.rs:208-217 | high zero digits do not change the value |
| AllYourBase.LowZeros | rust/all-your-base/src/lib.rs:191-194 | k low zero digits multiply the value by base^k |
| AllYourBase.ZeroValue | rust/all-your-base/src/lib.rs:113 | [0] is the number 0 |
| AllYourBase.DigitStep | rust/all-your-base/src/lib.rs:272-278 | emitting digit n % base and continuing with n / base keeps the value accounted for |
| AllYourBase.DivMod | rust/all-your-base/src/lib.rs:275-276 | n == n % base + base * (n / base), the quotient shrinks and a zero quotient leaves n as the digit |
| AllYourBase.DigitLoopStep | rust/all-your-base/src/lib.rs:270-281 | each step of the digit generator keeps its invariant and makes progress, and the last digit emitted is nonzero |
| AllYourBase.ToDigits | rust/all-your-base/src/lib.rs:269-281 | to_digits returns digits below the base whose value is the number, empty exactly for 0, with a nonzero top digit |
| AllYourBase.ReverseValue | rust/all-your-base/src/lib.rs:141 | reading big-endian digits in reverse as little-endian keeps the value |
| AllYourBase.ReverseReverse | rust/all-your-base/src/lib.rs:179-183 | reversing twice gives back the digits |
| AllYourBase.Canonical | rust/all-your-base/src/lib.rs:36 | the canonical numeral of n in base b is normal (digits below b, no high zero except [0] for 0) and has value n |
| AllYourBase.PositiveValue | rust/all-your-base/src/lib.rs:36 | a nonzero top digit makes the value positive |
| AllYourBase.TwoPlaces | rust/all-your-base/src/lib.rs:36 | a normal numeral of two or more digits is at least the base |
| AllYourBase.LowDigit | rust/all-your-base/src/lib.rs:36 | the lowest digit and the rest are determined by the value |
| AllYourBase.NormalUnique | rust/all-your-base/src/lib.rs:36 | two normal numerals with the same value in the same base are equal, so the output has no leading zeros and is unique |
| AllYourBase.FortyTwo | rust/all-your-base/src/lib.rs:22-31 | [4, 2] in base 10 is [1, 0, 1, 0, 1, 0] in base 2 |
| AllYourBase.Trimmed | rust/all-your-base/src/lib.rs:210-211 | rposition and resize drop exactly the high zeros |
| AllYourBase.DropZerosMeaning | rust/all-your-base/src/lib.rs:208-217 | drop_zeros keeps the value, leaves at least one digit, and no high zero except in [0] |
| AllYourBase.AddDigits | rust/all-your-base/src/lib.rs:259-267 | position-wise sums over the longer length |
| AllYourBase.AddValue | rust/all-your-base/src/lib.rs:259-267 | position-wise addition adds the values |
| AllYourBase.ScaleDigits | rust/all-your-base/src/lib.rs:237-241 | every digit is multiplied |
| AllYourBase.ScaleValue | rust/all-your-base/src/lib.rs:237-241 | multiplying every digit multiplies the value |
| AllYourBase.CarryStep | rust/all-your-base/src/lib.rs:224-228 | each carry step keeps digit + carry accounted for |
| AllYourBase.CarryDone | rust/all-your-base/src/lib.rs:230-234 | appending the carry's digits after the loop gives a normal numeral of the same value |
| AllYourBase.ProductStep | rust/all-your-base/src/lib.rs:249-254 | one more digit of the multiplier adds its partial product |
| AllYourBase.ConvertStep | rust/all-your-base/src/lib.rs:171-174 | each digit adds digit * base^i and the power advances by one factor |
| AllYourBase.Number.constructor | rust/all-your-base/src/lib.rs:48-54 | a number holds its base and little-endian digits |
| AllYourBase.Number.Clone | rust/all-your-base/src/lib.rs:47 | a clone is a fresh number with the same base and digits |
| AllYourBase.Number.New | rust/all-your-base/src/lib.rs:106-115 | InvalidInputBase below base 2, otherwise the number 0 as [0] |
| AllYourBase.Number.FromU32 | rust/all-your-base/src/lib.rs:117-126 | InvalidInputBase below base 2, otherwise digits below the base with the number's value, empty for 0 |
| AllYourBase.Number.DropZeros | rust/all-your-base/src/lib.rs:208-217 | the digits become those without high zeros, or [0] when all are zero |
| AllYourBase.Number.Normalize | rust/all-your-base/src/lib.rs:219-235 | the value is kept and every digit ends below the base with no high zero |
| AllYourBase.Number.CarryPlaces | rust/all-your-base/src/lib.rs:223-228 | every place keeps its sum's low digit, and the places plus the returned carry still denote the original value |
| AllYourBase.NormalizeStep | rust/all-your-base/src/lib.rs:224-228 | carrying one more place keeps the value of the places read so far |
| AllYourBase.Number.RawAddSameBase | rust/all-your-base/src/lib.rs:259-267 | the digits become the position-wise sums |
| AllYourBase.Number.RawMultiplyByU32 | rust/all-your-base/src/lib.rs:237-241 | every digit is multiplied |
| AllYourBase.Number.MultiplyByPowerOfBase | rust/all-your-base/src/lib.rs:191-194 | resize and rotate_right put power zero digits below the old ones |
| AllYourBase.Number.AddSameBase | rust/all-your-base/src/lib.rs:185-189 | the value becomes the sum, in normal form |
| AllYourBase.Number.MultiplyByU32 | rust/all-your-base/src/lib.rs:196-199 | the value is multiplied, in normal form |
| AllYourBase.Number.RawMultiplySameBase | rust/all-your-base/src/lib.rs:243-257 | schoolbook multiplication returns a fresh number whose value is the product |
| AllYourBase.Number.ShiftedCopy | rust/all-your-base/src/lib.rs:250-252 | the copy denotes this number times the digit times the base to the power of its place |
| AllYourBase.Number.MultiplySameBase | rust/all-your-base/src/lib.rs:201-206 | the value becomes the product, in normal form |
| AllYourBase.Number.Digits | rust/all-your-base/src/lib.rs:179-183 | the digits most significant first |
| AllYourBase.Number.FromDigits | rust/all-your-base/src/lib.rs:128-147 | InvalidInputBase below base 2; otherwise InvalidDigit of the first digit not below the base; otherwise a normal number with the big-endian value of the digits |
| AllYourBase.Number.Convert | rust/all-your-base/src/lib.rs:149-177 | InvalidOutputBase iff the target base is below 2; otherwise a fresh number in the target base with the same value, normal when the source is |
| AllYourBase.NextPower | rust/all-your-base/src/lib.rs:165-169 | the scan yields the current power and multiplies the stored power by the source base |
| AllYourBase.ConvertDigits | rust/all-your-base/src/lib.rs:39-43 | the errors in the source's order (input base, first bad digit, output base), otherwise the canonical target-base digits of the input's value, most significant first |
| PalindromeProducts.Digits | rust/palindrome-products/src/lib.rs:53-56 | the decimal digits, least significant first, are below 10 |
| PalindromeProducts.Reverse | rust/palindrome-products/src/lib.rs:53-56 | the digits in reverse order |
| PalindromeProducts.DigitsValue | rust/palindrome-products/src/lib.rs:53-56 | the little-endian digits have the number's value |
| PalindromeProducts.BigEndianIsReversed | rust/palindrome-products/src/lib.rs:54 | accumulating reversed * 10 + digit reads the digits in reverse order |
| PalindromeProducts.LittleEndianInjective | rust/palindrome-products/src/lib.rs:58 | equal values with equal digit counts have equal digits |
| PalindromeProducts.ReversedValue | rust/palindrome-products/src/lib.rs:50-58 | the reversed number equals the value iff its decimal digits read the same both ways |
| PalindromeProducts.Scan | rust/palindrome-products/src/lib.rs:118-126 | the least divisor of n at or above the start, or None when there is none up to n |
| PalindromeProducts.QuotientSmaller | rust/palindrome-products/src/lib.rs:120 | dividing by a found divisor gives a smaller positive quotient |
| PalindromeProducts.FactorizationMeaning | rust/palindrome-products/src/lib.rs:103-128 | the factors the iterator yields are non-decreasing, at least the start, and multiply to n |
| PalindromeProducts.FactorizationOfOne | rust/palindrome-products/src/lib.rs:117-127 | 1 yields no factors |
| PalindromeProducts.GetPrimeFactors.constructor | rust/palindrome-products/src/lib.rs:108-112 | the iterator starts at factor 2 |
| PalindromeProducts.GetPrimeFactors.Next | rust/palindrome-products/src/lib.rs:117-127 | returns the least divisor from next_factor on, divides it out and stays at it; None leaves the state unchanged |
| PalindromeProducts.CollectFactors | rust/palindrome-products/src/lib.rs:28-30 | collecting the iterator gives the prime factorization, smallest first |
| PalindromeProducts.InsertPair | rust/palindrome-products/src/lib.rs:23 | inserting into the ordered set adds exactly the pair and keeps the order |
| PalindromeProducts.ProductAppend | rust/palindrome-products/src/lib.rs:35-36 | the fold product of a concatenation is the product of the parts |
| PalindromeProducts.SplitProduct | rust/palindrome-products/src/lib.rs:33-37 | the two products at any split multiply to the product of all primes |
| PalindromeProducts.SplitPairsMeaning | rust/palindrome-products/src/lib.rs:31-42 | every pair the splits add is in range and multiplies to the product of the primes |
| PalindromeProducts.NewPairsMeaning | rust/palindrome-products/src/lib.rs:26-43 | every pair update_factors adds is in range and, for positive factors, has the same product as the first pair |
| PalindromeProducts.Palindrome.constructor | rust/palindrome-products/src/lib.rs:10-16 | value a * b with the single factor pair (a, b) |
| PalindromeProducts.Palindrome.Insert | rust/palindrome-products/src/lib.rs:22-24 | adds exactly the pair, value unchanged |
| PalindromeProducts.Palindrome.UpdateFactors | rust/palindrome-products/src/lib.rs:26-43 | adds exactly the in-range split pairs of the first pair's prime factors, value unchanged |
| PalindromeProducts.Palindrome.IsValid | rust/palindrome-products/src/lib.rs:45-59 | true iff the value's decimal digits read the same both ways |
| PalindromeProducts.MinGroup | rust/palindrome-products/src/lib.rs:74 | the pairs of one constant sum in miniter's order, the most unequal first |
| PalindromeProducts.MaxGroup | rust/palindrome-products/src/lib.rs:83 | the pairs of one constant sum in maxiter's order, computed without the u64 subtraction (the as-written order is MaxWalk) |
| PalindromeProducts.KeepAtMostMembers | rust/palindrome-products/src/lib.rs:75 | the filter keeps exactly the pairs with both factors at most max |
| PalindromeProducts.KeepAtLeastMembers | rust/palindrome-products/src/lib.rs:84 | the filter keeps exactly the pairs with both factors at least min |
| PalindromeProducts.FirstPal | rust/palindrome-products/src/lib.rs:87-88 | find: the first palindromic pair of a sequence, or None |
| PalindromeProducts.FirstPalMeaning | rust/palindrome-products/src/lib.rs:87-88 | find returns a palindromic pair of the sequence preceded by no palindromic pair, and None iff no pair is palindromic |
| PalindromeProducts.LargestPal | rust/palindrome-products/src/lib.rs:82-88 | a palindromic pair of largest product among the candidates, None iff there is no palindromic pair |
| PalindromeProducts.SmallestPal | rust/palindrome-products/src/lib.rs:73-76 | a palindromic pair of smallest product among the candidates, None iff there is no palindromic pair |
| PalindromeProducts.MinOrderShape | rust/palindrome-products/src/lib.rs:73-74 | miniter's pairs have a >= b >= min and a + b at most 2 * min + top |
| PalindromeProducts.MinOrderCovers | rust/palindrome-products/src/lib.rs:73-74 | every pair with a >= b >= min within the sum range is visited |
| PalindromeProducts.MaxOrderShape | rust/palindrome-products/src/lib.rs:82-83 | maxiter's pairs have a <= b <= max |
| PalindromeProducts.MaxOrderCovers | rust/palindrome-products/src/lib.rs:82-83 | every pair with a <= b <= max within the difference range is visited |
| PalindromeProducts.MinCandidates | rust/palindrome-products/src/lib.rs:73-76 | the pairs miniter visits after its filter, in order |
| PalindromeProducts.MaxCandidates | rust/palindrome-products/src/lib.rs:82-85 | the pairs maxiter visits after its filter, in order, without the u64 subtraction |
| PalindromeProducts.MinCandidatesExact | rust/palindrome-products/src/lib.rs:73-76 | miniter visits exactly the pairs with min <= b <= a <= max |
| PalindromeProducts.MaxCandidatesExact | rust/palindrome-products/src/lib.rs:82-85 | maxiter visits exactly the pairs with min <= a <= b <= max |
| PalindromeProducts.InMinCandidates | rust/palindrome-products/src/lib.rs:73-76 | every palindrome product is met by miniter, factors in some order |
| PalindromeProducts.MinSearchAsWritten | rust/palindrome-products/src/lib.rs:73-87 | miniter.find(is_valid) as written: the first palindromic pair in miniter's order |
| PalindromeProducts.MinSearchAsWrittenFinds | rust/palindrome-products/src/lib.rs:87 | miniter as written finds a palindrome product iff one exists |
| PalindromeProducts.MinSearch | rust/palindrome-products/src/lib.rs:73-87 | the corrected minimum search: the palindromic pair of smallest product among miniter's pairs |
| PalindromeProducts.MinSearchSmallest | rust/palindrome-products/src/lib.rs:73-87 | the corrected search returns a palindrome product no larger than any other, and None iff there is none |
| PalindromeProducts.MinOrderSplit | rust/palindrome-products/src/lib.rs:73-74 | miniter's order over a range of sums is its order over a prefix of the sums followed by the rest |
| PalindromeProducts.KeepAtMostCons | rust/palindrome-products/src/lib.rs:75 | the filter keeps an in-range head and drops any other |
| PalindromeProducts.KeepAtMostAppend | rust/palindrome-products/src/lib.rs:75 | filtering a concatenation filters each part |
| PalindromeProducts.FirstPalCons | rust/palindrome-products/src/lib.rs:88 | find returns the head when it is palindromic and searches the rest otherwise |
| PalindromeProducts.FirstPalAppend | rust/palindrome-products/src/lib.rs:88 | find over a concatenation searches the second part only when the first has no palindromic pair |
| PalindromeProducts.FirstPalAround | rust/palindrome-products/src/lib.rs:88 | find stops at a palindromic pair unless it stops before it |
| PalindromeProducts.FiveDigits | rust/palindrome-products/src/lib.rs:53-56 | the digits of a five-digit number |
| PalindromeProducts.FiveDigitValue | rust/palindrome-products/src/lib.rs:53-56 | a five-digit number is the weighted sum of its digits |
| PalindromeProducts.FivePalindrome | rust/palindrome-products/src/lib.rs:45-59 | a five-digit number is a palindrome iff its outer and inner digit pairs match, and then it is 10001x + 1010y + 100z |
| PalindromeProducts.NotPalindromeLow | rust/palindrome-products/src/lib.rs:45-59 | for a in 192..198 no product in [36864, 40704) has the palindrome form |
| PalindromeProducts.NotPalindromeMiddle | rust/palindrome-products/src/lib.rs:45-59 | for a in 199..205 no product in [36864, 40704) has the palindrome form |
| PalindromeProducts.NotPalindromeHigh | rust/palindrome-products/src/lib.rs:45-59 | for a in 206..212 no product in [36864, 40704) has the palindrome form |
| PalindromeProducts.NotFiveDigitPalindrome | rust/palindrome-products/src/lib.rs:45-59 | no product of factors in [192, 212] below 40704 has the five-digit palindrome form |
| PalindromeProducts.NoPalindromeBelow | rust/palindrome-products/src/lib.rs:45-59 | no product of factors in [192, 212] below 40704 is a palindrome |
| PalindromeProducts.OnlyFactorPair | rust/palindrome-products/src/lib.rs:73-76 | 212 * 192 is the only way to write 40704 with factors b <= a in [192, 212] |
| PalindromeProducts.MinCandidatesAtEqualPair | rust/palindrome-products/src/lib.rs:73-76 | miniter's candidates split around the equal pair that opens a group of even sum |
| PalindromeProducts.MinSearchAtEqualPair | rust/palindrome-products/src/lib.rs:73-87 | miniter as written stops at a palindromic equal pair unless it stops in an earlier group |
| PalindromeProducts.EarlierGroups | rust/palindrome-products/src/lib.rs:73-76 | a pair found among the earlier groups has a smaller factor sum |
| PalindromeProducts.StopsAtEqualPair | rust/palindrome-products/src/lib.rs:73-87 | when the equal pair opening a group is a palindrome product, miniter as written returns it or a pair of smaller sum |
| PalindromeProducts.SmallestOfRange | rust/palindrome-products/src/lib.rs:62-101 | 212 * 192 = 40704 is the smallest palindrome product of factors in [192, 212] |
| PalindromeProducts.EqualPairPalindrome | rust/palindrome-products/src/lib.rs:45-59 | 202 * 202 = 40804 is a palindrome |
| PalindromeProducts.MinSearchAsWrittenMissesSmallest | rust/palindrome-products/src/lib.rs:73-87 | for factors in [192, 212] miniter as written returns a palindrome larger than 40704, the smallest palindrome product |
| PalindromeProducts.MaxWalk | rust/palindrome-products/src/lib.rs:82-87 | maxiter.find(is_valid) step by step with u64 subtraction: a found pair is an in-range palindrome product, and evaluating max - dec + i with dec > max is an underflow panic |
| PalindromeProducts.MaxSearchAsWritten | rust/palindrome-products/src/lib.rs:82-87 | maxiter.find(is_valid) as written, panic included |
| PalindromeProducts.MaxWalkUnderflows | rust/palindrome-products/src/lib.rs:83 | if every pair up to dec = max is rejected, maxiter underflows at dec = max + 1 |
| PalindromeProducts.TwoDigitPalindrome | rust/palindrome-products/src/lib.rs:45-59 | a two-digit number is a palindrome iff its digits are equal |
| PalindromeProducts.SmallProductNotPalindrome | rust/palindrome-products/src/lib.rs:45-59 | products a * b with a, b in 3..9 and a + b >= 7 are not palindromes |
| PalindromeProducts.SmallPalindromes | rust/palindrome-products/src/lib.rs:45-59 | 16 and 12 are not palindromes, 8 and 9 are |
| PalindromeProducts.SmallRangeRejected | rust/palindrome-products/src/lib.rs:82-85 | for factors in [3, 7] maxiter rejects every pair up to dec = 7 |
| PalindromeProducts.SmallRangeHasPalindrome | rust/palindrome-products/src/lib.rs:73-87 | for factors in [3, 7] miniter finds a palindrome product (3 * 3 = 9) |
| PalindromeProducts.MaxSearchAsWrittenUnderflows | rust/palindrome-products/src/lib.rs:83 | for factors in [3, 7] miniter succeeds but maxiter as written panics on the u64 subtraction 7 - 8 |
| PalindromeProducts.MaxSearchAsWrittenMissesNine | rust/palindrome-products/src/lib.rs:82-88 | maxiter as written returns (2, 4) for factors 1..4 although 3 * 3 = 9 is a larger palindrome product |
| PalindromeProducts.MaxSearch | rust/palindrome-products/src/lib.rs:82-88 | the corrected maximum search: the palindromic pair of largest product among maxiter's pairs |
| PalindromeProducts.InMaxCandidates | rust/palindrome-products/src/lib.rs:82-85 | every palindrome product is met by maxiter, factors in some order |
| PalindromeProducts.MaxSearchLargest | rust/palindrome-products/src/lib.rs:82-88 | the corrected search returns a palindrome product no smaller than any other, and None iff there is none |
| PalindromeProducts.Completed | rust/palindrome-products/src/lib.rs:87-95 | a found palindrome with its factor pairs updated: every pair is in range and multiplies to the value |
| PalindromeProducts.PalindromeProducts | rust/palindrome-products/src/lib.rs:62-101 | None iff max < min or no palindrome product exists; otherwise two distinct palindromes, the first the smallest and the second the largest palindrome product, every listed factor pair in range with the right product, and equal values sharing their factor sets; callers rule out the maxiter underflow panic |
| Alphametics.Rev | rust/alphametics/src/lib.rs:24 | a word's letters reversed, units letter first |
| Alphametics.RevValue | rust/alphametics/src/lib.rs:194-204 | the little-endian value of the reversed letters is the word's decimal value |
| Alphametics.MapSumRemove | rust/alphametics/src/lib.rs:236-239 | a column's weighted sum splits into one letter's term and the rest |
| Alphametics.Inc | rust/alphametics/src/lib.rs:251-252 | entry(letter).or_default() += 1 adds the letter to the column's keys |
| Alphametics.IncSum | rust/alphametics/src/lib.rs:251-252 | counting one more occurrence adds the letter's digit to the column sum |
| Alphametics.AddWord | rust/alphametics/src/lib.rs:245-254 | adding a number resizes the columns to the longer length and counts each of its letters in its column |
| Alphametics.EmptyColumns | rust/alphametics/src/lib.rs:245-254 | adding a number to no columns gives that number's value |
| Alphametics.AddWordValue | rust/alphametics/src/lib.rs:245-254 | adding a number to the columns adds its value to theirs |
| Alphametics.SummandCountsValue | rust/alphametics/src/lib.rs:57-62 | the column counts of all summands have the sum of the summands' values |
| Alphametics.RevAll | rust/alphametics/src/lib.rs:21-25 | every word reversed, in order |
| Alphametics.EnumeratesNothing | rust/alphametics/src/lib.rs:226 | an empty listing comes from an empty map |
| Alphametics.EnumeratesTail | rust/alphametics/src/lib.rs:226 | the tail of a listing lists the map without the head's key |
| Alphametics.PairsSumEnumerates | rust/alphametics/src/lib.rs:223-229 | a column listed as pairs, in any order, has the weighted sum of the map |
| Alphametics.ColumnsValueOfCounts | rust/alphametics/src/lib.rs:231-242 | the listed columns have the value of the counted columns |
| Alphametics.NumberValue | rust/alphametics/src/lib.rs:194-204 | AlphameticNumber::value is the little-endian decimal value of its letters under the assignment |
| Alphametics.NumbersSum.constructor | rust/alphametics/src/lib.rs:216-221 | no columns counted and none listed |
| Alphametics.NumbersSum.AddAssign | rust/alphametics/src/lib.rs:245-254 | the counted columns become AddWord of the old ones and the number's letters; the listed columns are unchanged |
| Alphametics.NumbersSum.ConvertToColumns | rust/alphametics/src/lib.rs:223-229 | appends one listing per counted column, each enumerating that column's map, keeping earlier listings |
| Alphametics.NumbersSum.Value | rust/alphametics/src/lib.rs:231-242 | the value of the listed columns, column i weighted by 10^i |
| Alphametics.Entries | rust/alphametics/src/lib.rs:226 | extending a Vec from a HashMap lists every entry once, in some order |
| Alphametics.PuzzleWords | rust/alphametics/src/lib.rs:21-23 | splitting at non-letters and dropping empty pieces gives non-empty words of letters |
| Alphametics.MaxLen | rust/alphametics/src/lib.rs:27 | the maximum is at least every number's length |
| Alphametics.AppearsMonotone | rust/alphametics/src/lib.rs:35-44 | a letter seen in the first k columns is seen in more columns |
| Alphametics.NewLetterOrdered | rust/alphametics/src/lib.rs:38-41 | pushing a letter first seen in the current column keeps the letters in column order |
| Alphametics.ColumnLetters | rust/alphametics/src/lib.rs:29-44 | the nested loop lists every letter of the numbers exactly once, in order of the first column it appears in |
| Alphametics.AppearsInWords | rust/alphametics/src/lib.rs:35-44 | a letter appears in some column of the reversed words iff it occurs in a word |
| Alphametics.SummandCountsKey | rust/alphametics/src/lib.rs:245-254 | every counted letter of column i is letter i of some reversed summand, whose index is returned |
| Alphametics.EvenLetters | rust/alphametics/src/lib.rs:64-71 | the loop collects the sum's letter of every column whose letters all occur an even number of times |
| Alphametics.LeadingLetters | rust/alphametics/src/lib.rs:46-51 | the set of the first letters of all words |
| Alphametics.Summands | rust/alphametics/src/lib.rs:57-62 | a fresh sum whose counted columns are those of all numbers but the last, with no listings yet |
| Alphametics.WordLetters | rust/alphametics/src/lib.rs:27-44 | the letters of all words, each once, in column order |
| Alphametics.From | rust/alphametics/src/lib.rs:19-82 | the puzzle read from the expression: its sum is the last word, its letters, leading letters, summand columns and even letters are as defined over the words |
| Alphametics.FromWords | rust/alphametics/src/lib.rs:24-82 | from the words: the sum is the last word reversed, the letters are listed once in column order, the leading letters are the first letters, the columns are counted and listed, and the even letters are marked |
| Alphametics.BuiltReady | rust/alphametics/src/lib.rs:19-82 | a puzzle read this way satisfies what the search needs: distinct letters, and every sum and column letter among them |
| Alphametics.LeadingListed | rust/alphametics/src/lib.rs:46-51 | every leading letter is one of the puzzle's letters |
| Alphametics.SumListed | rust/alphametics/src/lib.rs:53-55 | every letter of the sum is one of the puzzle's letters |
| Alphametics.ColumnsListed | rust/alphametics/src/lib.rs:57-62 | every letter listed in a summand column is one of the puzzle's letters |
| Alphametics.CountedInWords | rust/alphametics/src/lib.rs:245-254 | a letter counted in a summand column occurs in some word |
| Alphametics.SoundSolves | rust/alphametics/src/lib.rs:4-7 | an assignment the search accepts gives every word's letters distinct digits, no leading zero, and the summands add up to the sum |
| Alphametics.PrefixStep | rust/alphametics/src/lib.rs:104 | assigning the next letter extends the assigned letters by exactly that letter, not yet assigned |
| Alphametics.PrefixAll | rust/alphametics/src/lib.rs:96 | all letters assigned means every letter of the puzzle is a key |
| Alphametics.PartialOkAsWritten | rust/alphametics/src/lib.rs:139-174 | the column test as written, comparing the leftover sum digit with the column index; `AsWrittenRejectsSolution` exhibits a rejected solution |
| Alphametics.AsWrittenRejectsSolution | rust/alphametics/src/lib.rs:139-174 | for A + B + C + D == EF the genuine solution A=9 B=8 C=7 D=1 E=2 F=5 fails the check as written and passes the corrected check |
| Alphametics.ColumnCarry | rust/alphametics/src/lib.rs:163-167 | a column of a genuine solution has units digit equal to the sum digit, and the carry passes on the rest |
| Alphametics.PairsSumAssigned | rust/alphametics/src/lib.rs:153-159 | a fully assigned column has the same sum under a sub-assignment as under the whole |
| Alphametics.PartialOk | rust/alphametics/src/lib.rs:139-174 | the column test with the leftover sum digit compared with the carry; `PartialOkAccepts` proves every solution passes it |
| Alphametics.PartialOkAccepts | rust/alphametics/src/lib.rs:139-174 | the corrected partial check accepts every part of a genuine solution, so it never prunes a solution |
| Alphametics.ValuesAfterInsert | rust/alphametics/src/lib.rs:119-120 | inserting a new letter adds its digit to the used digits |
| Alphametics.SizeAfterInsert | rust/alphametics/src/lib.rs:119 | inserting a new letter grows the assignment by one |
| Alphametics.InjectiveAfterInsert | rust/alphametics/src/lib.rs:107-119 | skipping used digits keeps the assignment injective |
| Alphametics.AssignNext | rust/alphametics/src/lib.rs:104-120 | assigning the next letter an unused digit, not zero for a leading letter, keeps the search invariant |
| Alphametics.KeysAfterInsert | rust/alphametics/src/lib.rs:119 | the assigned letters stay the first letters of the order |
| Alphametics.DigitsAfterInsert | rust/alphametics/src/lib.rs:111-119 | digits stay below 10 and leading letters stay nonzero |
| Alphametics.Unassign | rust/alphametics/src/lib.rs:123-133 | removing the letter and digit just inserted restores the previous state |
| Alphametics.Solver.constructor | rust/alphametics/src/lib.rs:84-89 | the search starts with an empty assignment and no used digits |
| Alphametics.Solver.FindRecursive | rust/alphametics/src/lib.rs:91-137 | a returned assignment extends the current one, covers every letter injectively with digits, no leading zero, and satisfies the equation; on None the state is restored |
| Alphametics.Solver.TryDigit | rust/alphametics/src/lib.rs:119-133 | the loop body: insert the digit, prune by the partial check, recurse; a returned assignment is a solution extending the current one, and on None the assignment and used digits are as before |
| Alphametics.ExtendsInsert | rust/alphametics/src/lib.rs:119-130 | an answer extending the assignment with the new letter also extends the assignment without it |
| Alphametics.TestSolution | rust/alphametics/src/lib.rs:176-178 | true iff the sum's value equals the summands' value |
| Alphametics.PartialTestOk | rust/alphametics/src/lib.rs:139-174 | the loop computes the corrected column-by-column check PartialOk |
| Alphametics.ColumnTotal | rust/alphametics/src/lib.rs:151-159 | reports whether every letter of the column is assigned, and then its weighted sum |
| Alphametics.PairsSumAppend | rust/alphametics/src/lib.rs:153-155 | one more pair adds count * digit |
| Alphametics.Solves | rust/alphametics/src/lib.rs:4-7 | what a solution is: every letter and only letters get a digit, distinct digits, no leading zero, the summands add up to the sum |
| Alphametics.Solve | rust/alphametics/src/lib.rs:4-7 | a returned assignment solves the puzzle written in the input |
| Forth.ParseI32 | rust/forth/src/lib.rs:230 | a parsed i32 lies in the i32 range and its text starts with a digit or a sign |
| Forth.FromStr | rust/forth/src/lib.rs:229-239 | a token is a value iff the text parses as an i32; otherwise ':' and ';' are themselves and anything else is a lowercased word of the same length |
| Forth.WordName | rust/forth/src/lib.rs:241-246 | Ok with the name iff the token is a word, InvalidWord otherwise |
| Forth.Tokens | rust/forth/src/lib.rs:71 | splitting the input at ASCII whitespace yields only colons, semicolons, values and words |
| Forth.ShowNat | rust/forth/src/lib.rs:230 | a decimal numeral is a non-empty string of digits |
| Forth.ShowNatValue | rust/forth/src/lib.rs:230 | reading a decimal numeral back gives the number |
| Forth.LowerKeepsDigits | rust/forth/src/lib.rs:236 | lowercasing text without capitals changes nothing |
| Forth.FromStrShow | rust/forth/src/lib.rs:229-239 | the decimal text of an integer is read back as that value when it fits an i32, and as a word otherwise |
| Forth.LowerTwice | rust/forth/src/lib.rs:236 | lowercasing is idempotent |
| Forth.WordsIgnoreCase | rust/forth/src/lib.rs:229-239 | text containing a letter is a word, and it is the same token whatever its case |
| Forth.Apply | rust/forth/src/lib.rs:249-303 | the effect of one built-in or value on the stack; `ApplyUnderflow`, `ApplyDivisionByZero`, `ApplyHeight` and `ApplyBelow` state it |
| Forth.ApplyUnderflow | rust/forth/src/lib.rs:249-303 | an operation underflows iff the stack has fewer values than it pops (except a division whose only value is 0), and an underflow leaves the stack empty |
| Forth.ApplyDivisionByZero | rust/forth/src/lib.rs:269-276 | division fails with DivisionByZero iff the top value is 0, which is then already popped |
| Forth.ApplyHeight | rust/forth/src/lib.rs:249-303 | a successful operation changes the height by its net effect and leaves the values below its operands alone |
| Forth.ApplyBelow | rust/forth/src/lib.rs:249-303 | values below those an operation uses do not affect it |
| Forth.EvalAll | rust/forth/src/lib.rs:87-89 | applying the tokens in order, stopping at the first error; `EvalAllAppend` states its sequencing |
| Forth.EvalAllAppend | rust/forth/src/lib.rs:87-89 | evaluating two token lists in sequence runs the first, stopping at its error, then the second on the resulting stack |
| Forth.Lookup | rust/forth/src/lib.rs:158 | rposition: the latest definition of the name, None iff it is not defined |
| Forth.Expand | rust/forth/src/lib.rs:156-164 | unfolding a definition yields no word tokens |
| Forth.Unfold | rust/forth/src/lib.rs:166-188 | unfolding a body, words resolved among the definitions before it, yields no word tokens |
| Forth.Resolve | rust/forth/src/lib.rs:166-178 | one token of a body stands for itself, or for a word's stored unfolding; no word is left in the result |
| Forth.ExpandPrefix | rust/forth/src/lib.rs:160 | later definitions do not change what an earlier word expands to, as a word sees only the definitions before it |
| Forth.UnfoldPrefix | rust/forth/src/lib.rs:160 | later definitions do not change how an earlier body unfolds |
| Forth.UnfoldAppend | rust/forth/src/lib.rs:166-188 | unfolding a concatenation unfolds each part |
| Forth.AppendWord | rust/forth/src/lib.rs:124-138 | after adding a definition whose words are all defined, the name resolves to it and every definition still resolves |
| Forth.BuiltinNamesDiffer | rust/forth/src/lib.rs:27-34 | the eight built-in names are distinct |
| Forth.BuiltinsRun | rust/forth/src/lib.rs:25-40 | each built-in name resolves to its own entry and expands to its single operation |
| Forth.Define | rust/forth/src/lib.rs:47-69 | InvalidWord iff there is no next token, it is not a word, or no ';' follows; otherwise the name and the tokens up to the first ';' |
| Forth.FirstSemicolon | rust/forth/src/lib.rs:54-60 | the first ';' after the start, None iff there is none |
| Forth.Run | rust/forth/src/lib.rs:73-97 | the evaluation loop over the input tokens; `RunDefines`, `RunCalls` and `RunGrowsTable` state it |
| Forth.RunDefines | rust/forth/src/lib.rs:76-79 | a definition adds the word when its body resolves and fails with UnknownWord otherwise |
| Forth.RunCalls | rust/forth/src/lib.rs:86-90 | a word evaluates its expansion and stops at its first error |
| Forth.RunGrowsTable | rust/forth/src/lib.rs:73-97 | evaluation only appends definitions, and all of them keep resolving |
| Forth.ErrorsLeaveStack | rust/forth/src/lib.rs:249-276 | "1 +" underflows leaving an empty stack, and "1 0 /" fails with DivisionByZero leaving [1] |
| Forth.Env.constructor | rust/forth/src/lib.rs:120-122 | an empty definition table |
| Forth.Env.AddWord | rust/forth/src/lib.rs:124-138 | Ok iff every word in the body is already defined, appending the definition; otherwise UnknownWord and no change |
| Forth.Env.WordTokens | rust/forth/src/lib.rs:140-146 | UnknownWord iff the name is not defined, otherwise the tokens of its latest definition fully unfolded |
| Forth.Env.Iterate | rust/forth/src/lib.rs:156-164 | the iterator over a definition yields its unfolded tokens |
| Forth.Env.IterateBody | rust/forth/src/lib.rs:166-200 | the iterator over a body yields the body's tokens with every word replaced by its unfolding, in order |
| Forth.Env.IterateToken | rust/forth/src/lib.rs:166-178 | a word yields the unfolding of its latest earlier definition, any other token itself |
| Forth.UnfoldStep | rust/forth/src/lib.rs:166-178 | unfolding one more token of a body appends exactly what that token resolves to |
| Forth.LookupFrom | rust/forth/src/lib.rs:158 | the backward scan (`rposition`) stops at the entry Lookup finds |
| Forth.Forth.constructor | rust/forth/src/lib.rs:25-40 | the table holds the eight built-ins and the stack is empty |
| Forth.Forth.Pop | rust/forth/src/lib.rs:250-252 | StackUnderflow on an empty stack, otherwise the top value, removed |
| Forth.Forth.EvalToken | rust/forth/src/lib.rs:249-303 | the stack becomes what the operation gives, including the stack left behind at an error |
| Forth.Forth.EvalTop | rust/forth/src/lib.rs:277-284 | DUP and DROP leave the stack Apply gives, underflowing on an empty stack |
| Forth.Forth.EvalPair | rust/forth/src/lib.rs:285-297 | SWAP and OVER leave the stack Apply gives, with both pops' underflows |
| Forth.Forth.EvalArith | rust/forth/src/lib.rs:254-276 | the arithmetic leaves the stack Apply gives, the divisor checked for zero before the dividend is popped |
| Forth.Forth.EvalTokens | rust/forth/src/lib.rs:87-89 | the tokens are evaluated in order, stopping at the first error |
| Forth.Forth.Eval | rust/forth/src/lib.rs:46-100 | the table and stack become those of running the input; Ok iff nothing failed, otherwise the first error |
| Forth.Forth.Step | rust/forth/src/lib.rs:74-96 | one token of the loop: either the run continues from the next position or it stops with the error there |
| Forth.Forth.DefineWord | rust/forth/src/lib.rs:76-79 | a colon reads a definition and adds it, or stops with its error |
| Forth.Forth.CallWord | rust/forth/src/lib.rs:86-90 | a word evaluates its unfolding, or stops with its error |
| Forth.CollectDefinition | rust/forth/src/lib.rs:47-69 | the loop computes Define |

## Left out

- parallel-letter-frequency: not part of this model, because it is thread-based concurrency.
- assembly-line and nth-prime: not part of this model, because they compute with `f64`.
- dot-dsl: not part of this model, because its library functions are stubs with no behaviour.
- reverse-string: the grapheme-cluster variant (`rust/reverse-string/src/lib.rs:6-12`) depends on an external Unicode segmentation crate. Only the `char`-wise `reverse` is modelled.
- Alphametics.Inc: the per-column letter count is a `u8` (`rust/alphametics/src/lib.rs:251-252`). It would overflow once one letter fills the same column of more than 255 summands; the model's count is unbounded. The same holds for `Alphametics.AddWord`.
- Alphametics.PartialOkAsWritten: the cast `idx as u8` (`rust/alphametics/src/lib.rs:145`) truncates for a sum of more than 256 letters; the model compares with the untruncated index.
- Alphametics.NumberValue: the `u64` value (`rust/alphametics/src/lib.rs:194-204`) is unbounded in the model. It would overflow only for a word of more than 19 letters. The same holds for `Alphametics.NumbersSum.Value` (lines 231-242) and for the `rhs_sum` of `Alphametics.PartialTestOk` (line 155).
- Alphametics: the `dbg!` debug output in `from` is console I/O and is not modelled.
- Alphametics.Solve: only soundness is proved (every returned map is a solution). Completeness is not proved. The `even_letters` pruning (`rust/alphametics/src/lib.rs:64-71`) ignores carries, so it is exact only for the units column.
- Alphametics.Solver.FindRecursive: like `Solve`, only soundness and the restored search state are proved. That every solution reachable in the search is found is not proved.
- Alphametics.Solver.FindRecursive: the letters are tried in the order of the `letters` vector (`rust/alphametics/src/lib.rs:29-44`): column by column from the units, first occurrence first. The search is proved for any duplicate-free order of the letters, and so for that one.
- Forth.Forth.Eval: a `:` inside a definition body reaches `unimplemented!` (`rust/forth/src/lib.rs:299`). That panic becomes a precondition: the run must not reach the `Unimplemented` stop.
- Forth: arithmetic on the stack uses unbounded integers. Only the `i32` range of a parsed literal is modelled.
- Forth.Apply: `i32` overflow is not modelled. This covers `+ - *` and `/` of `i32::MIN` by `-1` (`rust/forth/src/lib.rs:275`). On `-2147483648 -1 /` the Rust code panics, while the model pushes 2147483648.
- Forth: the lazy `WordTokensIterator` is modelled by recursive methods. They produce the same tokens in the same order, eagerly.
- Forth.Forth.constructor: the eight `add_word` calls that seed the primitives are written as one loop over `Builtins()`.
- RpnCalculator.Evaluate: `i32` overflow is not modelled. Division by zero panics in the Rust code (`rust/rpn-calculator/src/lib.rs:22`), so a zero divisor is excluded by precondition.
- AllYourBase: the `u32` digit products and sums are unbounded.
- AllYourBase.Number: the branches of the `+=`/`*=` operators for operands in different bases are not modelled. `convert` never reaches them: it only adds and multiplies numbers of the same base (`AddSameBase`, `MultiplySameBase`).
- MatchingBrackets.BracketsAreBalanced: the `u32` count of a run of equal expected closers (`rust/matching-brackets/src/lib.rs:7`, `:16`) is unbounded in the model. It would overflow only after 2^32 nested openers of one kind.
- PerfectNumbers.Classify: the `u64` sum of the factors (`rust/perfect-numbers/src/lib.rs:12`) is unbounded in the model. It can exceed `u64::MAX` only for abundant numbers above 2^61, whose divisor sum is more than the number itself.
- Luhn.IsValid: the running sum is unbounded. The Rust `u8` sum would wrap for inputs of more than about 25 digits.
- PalindromeProducts: `u64` products are unbounded. The `u64` subtraction `max - dec + i` of `maxiter` is modelled (`MaxWalk`); its panic is a precondition of `PalindromeProducts`.
- PalindromeProducts.PalindromeProducts: returns the smallest and the largest palindrome products, which the two searches as written do not always find (see Findings).
- ArmstrongNumbers: the `u32` power and sum are unbounded.
- Minesweeper: counters are unbounded, and `AtMostEight` proves they never exceed 8. Rows shorter than row 0 make the Rust code index out of range; that panic is a precondition (a rectangular board).
- Grains.Square: squares outside 1..=64 panic in the Rust code, so they are excluded by precondition.
- HighScores.ReplaceLast: the `unsafe` raw-pointer write to the last slot of the top-n buffer (`rust/high-scores/src/lib.rs:35-44`) is modelled as an update of the last index of a sequence.
- PrimeFactors: the `f64` square-root bound (`rust/prime-factors/src/lib.rs:6`) is modelled by the exact integer test `d * d <= n`.
- DiffieHellman.PrivateKey: the Rust loop retries until the LCG yields a key in range. The model bounds the retries by a `tries` parameter and returns `None` when they run out. For p <= 2 no residue exceeds 1, so the Rust loop never ends and the model always returns `None`. The `static mut` LCG state becomes an explicit `Lcg` object.
- PascalsTriangle.Rows: that the entries of rows 32 to 34 (counting from row 0) fit in `u32` is not proved; `EntryBound` covers rows 0 to 31.
- RunLengthEncoding.Encode: the run counter is an `i32` and would overflow on a run of more than 2^31 - 1 characters. The model's counter is unbounded.
- Isogram: follows the code. Any repeated character other than whitespace and `-` makes the input not an isogram, not only repeated letters.

## Findings

| source | as written | input that shows it | evidently intended | confidence | as-written member | corrected member |
|---|---|---|---|---|---|---|
| rust/palindrome-products/src/lib.rs:82-88 | the search for the largest product walks each group of factor pairs with equal sum starting from the largest difference, i.e. the smallest product, and returns the first palindrome it meets | min = 1, max = 4 returns 2 * 4 = 8 although 3 * 3 = 9 is a larger palindrome product | the largest palindrome product in range | not executed (high) | PalindromeProducts.MaxSearchAsWrittenMissesNine | PalindromeProducts.MaxSearchLargest |
| rust/palindrome-products/src/lib.rs:83 | `max - dec + i` is a `u64` subtraction evaluated for every `dec` up to `2 * (max - min)`, which exceeds `max` when `max > 2 * min` | min = 3, max = 7: miniter finds 3 * 3 = 9, then maxiter rejects every pair up to dec = 7 and panics computing 7 - 8 | the sum `2 * max - dec` of a pair never drops below `2 * min`, so the pair `(max - dec + i, max - i)` should be formed without underflow (for instance as signed values filtered by the range check) | not executed (high) | PalindromeProducts.MaxSearchAsWrittenUnderflows | PalindromeProducts.MaxSearchLargest |
| rust/palindrome-products/src/lib.rs:73-77 | the search for the smallest product walks the pairs of each sum with `.rev()`, from the most equal pair, i.e. the largest product, and returns the first palindrome it meets | min = 192, max = 212: in the group of sum 404 miniter meets 202 * 202 = 40804 before 212 * 192 = 40704, and 40704 is a smaller palindrome product | the smallest palindrome product in range | not executed (high) | PalindromeProducts.MinSearchAsWrittenMissesSmallest | PalindromeProducts.MinSearchSmallest |
| rust/alphametics/src/lib.rs:145 | after the last summand column, the remaining carry digits of the sum are compared with the column index (`sum > idx`) | A + B + C + D == EF with A=9, B=8, C=7, D=1, E=2, F=5: at index 1 the carry is 2, which exceeds the index 1, so this valid solution is rejected | the remaining sum digit may not exceed the carry (the carry can exceed 9, so it is not compared for equality) | not executed (medium) | Alphametics.AsWrittenRejectsSolution | Alphametics.PartialOkAccepts |
