/** The duplicate test applied to a kept entry and an incoming one, and the
    resolution that decides which of the two survives. */
module Compare {
  import opened Biblatex

  datatype Algorithm = Levenshtein | DamerauLevenshtein | Jaro | JaroWinkler | SorensenDice

  /** The fields of the run's configuration the merge reads. */
  datatype Config = Config(threshold: real, algorithm: Algorithm, silent: bool)

  datatype ComparisonResult = KeepBoth | KeepPrev | KeepEntry

  /** The normalised similarity of two titles under an algorithm, computed by
      the `strsim` crate; the model takes it as given. */
  type Scorer = (Algorithm, string, string) -> real

  /** A choice the prompt accepts: it asks again until it reads 1, 2 or 3. */
  type Answer = n: int | 1 <= n <= 3 witness 1

  /** The user at the terminal: the choice typed when shown the kept entry and
      the incoming one. */
  type Prompt = (Entry, Entry) -> Answer

  /** `test_title_similarity`: the score reaches the threshold. */
  function TestTitleSimilarity(title1: string, title2: string, config: Config, score: Scorer): bool
  {
    score(config.algorithm, title1, title2) >= config.threshold
  }

  /** Two titles similar at a threshold are similar at every lower one. */
  lemma SimilarityMonotone(title1: string, title2: string, config: Config, lower: real, score: Scorer)
    requires lower <= config.threshold
    requires TestTitleSimilarity(title1, title2, config, score)
    ensures TestTitleSimilarity(title1, title2, config.(threshold := lower), score)
  {
  }

  /** `decide_which_to_keep` for a pair already judged similar. */
  function DecideWhichToKeep(prev: Entry, entry: Entry, config: Config, ask: Prompt): (r: ComparisonResult)
    ensures r == KeepPrev <==> config.silent || prev == entry || ask(prev, entry) == 1
    ensures r == KeepEntry <==> !config.silent && prev != entry && ask(prev, entry) == 2
    ensures r == KeepBoth <==> !config.silent && prev != entry && ask(prev, entry) == 3
  {
    if config.silent then KeepPrev
    else if prev == entry then KeepPrev
    else
      var input := ask(prev, entry);
      if input == 3 then KeepBoth
      else if input == 1 then KeepPrev
      else KeepEntry
  }

  /** The three ways two entries are judged to be the same publication: equal
      DOIs, equal titles, or (below a threshold of 1) similar titles. */
  predicate Matches(prev: Entry, entry: Entry, config: Config, score: Scorer)
    ensures Matches(prev, entry, config, score)
            ==> (prev.doi.Some? && entry.doi.Some?) || (prev.title.Some? && entry.title.Some?)
    ensures prev == entry && (prev.doi.Some? || prev.title.Some?) ==> Matches(prev, entry, config, score)
    ensures prev.doi != entry.doi && prev.title.Some? && entry.title.Some?
            && prev.title.value != entry.title.value && config.threshold >= 1.0
            ==> !Matches(prev, entry, config, score)
  {
    (prev.doi.Some? && prev.doi == entry.doi)
    || (prev.title.Some? && prev.title == entry.title)
    || (prev.title.Some? && entry.title.Some? && config.threshold < 1.0
        && TestTitleSimilarity(prev.title.value, entry.title.value, config, score))
  }

  /** `compare_entries`: a matching pair goes to resolution, any other pair
      is kept. */
  function CompareEntries(prev: Entry, entry: Entry, config: Config, score: Scorer, ask: Prompt)
    : (r: ComparisonResult)
    ensures Matches(prev, entry, config, score) ==> r == DecideWhichToKeep(prev, entry, config, ask)
    ensures !Matches(prev, entry, config, score) ==> r == KeepBoth
    ensures (prev.doi.None? || entry.doi.None?) && (prev.title.None? || entry.title.None?) ==> r == KeepBoth
  {
    if prev.doi.Some? && entry.doi.Some? && prev.doi.value == entry.doi.value then
      DecideWhichToKeep(prev, entry, config, ask)
    else if prev.title.Some? && entry.title.Some? then
      var prevTitle := prev.title.value;
      var entryTitle := entry.title.value;
      if prevTitle == entryTitle then
        DecideWhichToKeep(prev, entry, config, ask)
      else if config.threshold < 1.0 && TestTitleSimilarity(prevTitle, entryTitle, config, score) then
        DecideWhichToKeep(prev, entry, config, ask)
      else
        KeepBoth
    else
      KeepBoth
  }

  /** Different DOIs do not stop a title match: the title test runs whenever
      the DOI test did not decide. */
  lemma DifferentDoisDoNotBlockTitles(prev: Entry, entry: Entry, config: Config, score: Scorer, ask: Prompt)
    requires prev.doi.Some? && entry.doi.Some? && prev.doi != entry.doi
    requires prev.title.Some? && prev.title == entry.title
    ensures CompareEntries(prev, entry, config, score, ask) == DecideWhichToKeep(prev, entry, config, ask)
  {
  }

  /** At a threshold of 1 (or above) the similarity score is never consulted:
      every scorer gives the same verdict. */
  lemma ThresholdOneIgnoresScorer(prev: Entry, entry: Entry, config: Config, score1: Scorer, score2: Scorer, ask: Prompt)
    requires config.threshold >= 1.0
    ensures CompareEntries(prev, entry, config, score1, ask) == CompareEntries(prev, entry, config, score2, ask)
  {
  }

  /** Raising the threshold can only turn a verdict into `KeepBoth`. */
  lemma RaisingThresholdOnlyKeepsBoth(prev: Entry, entry: Entry, config: Config, higher: real, score: Scorer, ask: Prompt)
    requires config.threshold <= higher
    ensures CompareEntries(prev, entry, config.(threshold := higher), score, ask)
            in {CompareEntries(prev, entry, config, score, ask), KeepBoth}
  {
    var raised := config.(threshold := higher);
    if Matches(prev, entry, raised, score) {
      assert Matches(prev, entry, config, score);
    }
  }

  /** The test `test_compare_entries` on a pair with similar titles:
      kept as a repetition at 0.7, kept both at 0.99 when the score lies between. */
  lemma SimilarTitlesAtTwoThresholds(prev: Entry, entry: Entry, algorithm: Algorithm, score: Scorer, ask: Prompt)
    requires !(prev.doi.Some? && prev.doi == entry.doi)
    requires prev.title.Some? && entry.title.Some? && prev.title != entry.title
    requires 0.7 <= score(algorithm, prev.title.value, entry.title.value) < 0.99
    ensures CompareEntries(prev, entry, Config(0.7, algorithm, true), score, ask) == KeepPrev
    ensures CompareEntries(prev, entry, Config(0.99, algorithm, true), score, ask) == KeepBoth
  {
  }

  /** No rule looks at the citation key: whether two entries match does not
      change when their keys do, so a same-key pair that shares nothing else
      is kept twice. */
  lemma SameKeyAloneKeepsBoth(prev: Entry, entry: Entry, key1: string, key2: string, config: Config, score: Scorer, ask: Prompt)
    ensures Matches(prev.(key := key1), entry.(key := key2), config, score) <==> Matches(prev, entry, config, score)
    ensures !Matches(prev, entry, config, score)
            ==> CompareEntries(prev.(key := key1), entry.(key := key1), config, score, ask) == KeepBoth
  {
  }
}
