/** Choosing the separator the uploaded CSV is read with: detected from a
    sample of the file for "Auto", otherwise taken from the menu choice. */
module Delimiter {
  import opened Wrappers
  import opened Strings

  newtype byte = b: int | 0 <= b < 256

  /** How many leading bytes of the file are sniffed. */
  const SampleLimit := 50000

  /** The separators the sniffer may pick. */
  const Candidates: seq<char> := [',', ';', '\t', '|']

  /** The separator used whenever sniffing fails. */
  const Fallback := ','

  const AutoChoice := "Auto"

  /** The menu label for tab starts with a backslash and `t`, not a tab. */
  const TabChoicePrefix := "\\t"

  /** The delimiter menu, in its order. */
  const Choices: seq<string> := [AutoChoice, ",", ";", "\\t (tab)", "|"]

  /** `csv.Sniffer().sniff(text, delimiters)`: the delimiter it settles on,
      or `None` where it raises. */
  type Sniffer = (string, seq<char>) -> Option<char>

  /** Decoding bytes as UTF-8 while dropping invalid sequences. */
  type Decoder = seq<byte> -> string

  /** A sniffer that only ever answers with one of the offered delimiters,
      as `csv.Sniffer` does. */
  ghost predicate StaysWithinCandidates(sniff: Sniffer) {
    forall text, offered :: sniff(text, offered).Some? ==> sniff(text, offered).value in offered
  }

  /** `file_bytes[:50_000]`. */
  function Sample(file: seq<byte>): (r: seq<byte>)
    ensures |r| <= |file| && |r| <= SampleLimit && r == file[..|r|]
    ensures r == file || |r| == SampleLimit
  {
    if |file| <= SampleLimit then file else file[..SampleLimit]
  }

  /** `detect_delimiter`: the sniffed delimiter, or `,` when sniffing fails. */
  function DetectDelimiter(sample: string, sniff: Sniffer): (r: char)
    ensures sniff(sample, Candidates).None? ==> r == Fallback
    ensures sniff(sample, Candidates).Some? ==> r == sniff(sample, Candidates).value
  {
    match sniff(sample, Candidates)
    case Some(d) => d
    case None => Fallback
  }

  /** The separator in use, from the menu choice and the uploaded file. */
  function Separator(choice: string, file: seq<byte>, decode: Decoder, sniff: Sniffer): (r: string)
    ensures choice == AutoChoice ==> r == [DetectDelimiter(decode(Sample(file)), sniff)]
    ensures choice != AutoChoice && StartsWith(choice, TabChoicePrefix) ==> r == "\t"
    ensures choice != AutoChoice && !StartsWith(choice, TabChoicePrefix) ==> r == choice
  {
    if choice == AutoChoice then [DetectDelimiter(decode(Sample(file)), sniff)]
    else if StartsWith(choice, TabChoicePrefix) then "\t"
    else choice
  }

  /** Whatever the sniffer does, detection yields one of the candidates or
      the fallback, and the fallback is a candidate. */
  lemma DetectedIsCandidate(sample: string, sniff: Sniffer)
    requires StaysWithinCandidates(sniff)
    ensures DetectDelimiter(sample, sniff) in Candidates
  {
    assert Fallback == Candidates[0];
  }

  /** Every choice the menu offers gives a single-character separator among
      the candidates. */
  lemma MenuChoicesGiveCandidates(file: seq<byte>, decode: Decoder, sniff: Sniffer)
    requires StaysWithinCandidates(sniff)
    ensures forall choice :: choice in Choices ==>
      |Separator(choice, file, decode, sniff)| == 1 && Separator(choice, file, decode, sniff)[0] in Candidates
  {
    DetectedIsCandidate(decode(Sample(file)), sniff);
    assert StartsWith("\\t (tab)", TabChoicePrefix);
    assert !StartsWith(",", TabChoicePrefix) && !StartsWith(";", TabChoicePrefix) && !StartsWith("|", TabChoicePrefix);
  }

  /** Only "Auto" looks at the file: any other choice gives the same
      separator for every file, decoder and sniffer. */
  lemma ExplicitChoiceIgnoresFile(choice: string, file1: seq<byte>, file2: seq<byte>,
                                  decode1: Decoder, decode2: Decoder, sniff1: Sniffer, sniff2: Sniffer)
    requires choice != AutoChoice
    ensures Separator(choice, file1, decode1, sniff1) == Separator(choice, file2, decode2, sniff2)
  {
  }
}
