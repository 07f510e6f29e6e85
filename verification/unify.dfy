/** The deduplicating merge: each input bibliography is folded, entry by
    entry, into one unified bibliography. An incoming entry is compared with
    the kept entries in order until one verdict is not `KeepBoth`; it is then
    dropped, or replaces the matched entry, or is appended, renamed if its
    key is taken. */
module Unify {
  import opened Biblatex
  import opened KeyAllocation
  import opened Compare

  /** A unified bibliography and the number of repetitions removed. */
  datatype MergeResult = MergeResult(kept: seq<Entry>, repetitions: nat)

  /** `add_entry_to_bibliography`: the entry is appended under its own key if
      that key is free, and under the first free `key_n` otherwise. */
  function AddEntry(kept: seq<Entry>, entry: Entry): (r: seq<Entry>)
    ensures |r| == |kept| + 1 && r[..|kept|] == kept
    ensures r[|kept|] == entry.(key := r[|kept|].key)
    ensures r[|kept|].key !in Keys(kept)
    ensures r[|kept|].key == entry.key <==> entry.key !in Keys(kept)
    ensures entry.key in Keys(kept) ==> r[|kept|].key == Suffixed(entry.key, FirstFreeSuffix(entry.key, kept))
    ensures UniqueKeys(kept) ==> UniqueKeys(r)
  {
    var added := if entry.key in Keys(kept)
                 then entry.(key := Suffixed(entry.key, FirstFreeSuffix(entry.key, kept)))
                 else entry;
    var r := InsertEntry(kept, added);
    assert r[|kept|] == added;
    r
  }

  /** The scan of the kept entries from index `from`: the first index whose
      verdict is not `KeepBoth`, or |kept| when there is none. */
  function FirstMatch(kept: seq<Entry>, entry: Entry, config: Config, score: Scorer, ask: Prompt, from: nat)
    : (j: nat)
    requires from <= |kept|
    ensures from <= j <= |kept|
    ensures j < |kept| ==> CompareEntries(kept[j], entry, config, score, ask) != KeepBoth
    ensures forall m :: from <= m < j ==> CompareEntries(kept[m], entry, config, score, ask) == KeepBoth
    decreases |kept| - from
  {
    if from == |kept| then from
    else if CompareEntries(kept[from], entry, config, score, ask) != KeepBoth then from
    else FirstMatch(kept, entry, config, score, ask, from + 1)
  }

  /** One incoming entry: dropped on `KeepPrev`; on `KeepEntry` the matched
      entry is removed by its key and the new one added; added when every
      verdict was `KeepBoth`. */
  function Step(kept: seq<Entry>, entry: Entry, config: Config, score: Scorer, ask: Prompt): (r: MergeResult)
    ensures r.repetitions <= 1
    ensures r.repetitions == 0 <==> forall i :: 0 <= i < |kept| ==> CompareEntries(kept[i], entry, config, score, ask) == KeepBoth
    ensures r.repetitions == 0 ==> kept < r.kept
    ensures UniqueKeys(kept) ==> UniqueKeys(r.kept) && |r.kept| + r.repetitions == |kept| + 1
    ensures var j := FirstMatch(kept, entry, config, score, ask, 0);
            j == |kept| ==> r.repetitions == 0 && |r.kept| == |kept| + 1 && r.kept[..|kept|] == kept
                            && r.kept[|kept|] == entry.(key := r.kept[|kept|].key)
                            && r.kept == AddEntry(kept, entry)
    ensures var j := FirstMatch(kept, entry, config, score, ask, 0);
            j < |kept| && CompareEntries(kept[j], entry, config, score, ask) == KeepPrev
            ==> r == MergeResult(kept, 1)
    ensures var j := FirstMatch(kept, entry, config, score, ask, 0);
            j < |kept| && CompareEntries(kept[j], entry, config, score, ask) == KeepEntry && UniqueKeys(kept)
            ==> r.repetitions == 1 && |r.kept| == |kept|
                && r.kept[..|kept| - 1] == kept[..j] + kept[j + 1..]
                && r.kept[|kept| - 1] == entry.(key := r.kept[|kept| - 1].key)
                && r.kept == AddEntry(kept[..j] + kept[j + 1..], entry)
  {
    var j := FirstMatch(kept, entry, config, score, ask, 0);
    if j == |kept| then MergeResult(AddEntry(kept, entry), 0)
    else if CompareEntries(kept[j], entry, config, score, ask) == KeepPrev then MergeResult(kept, 1)
    else
      assert kept[j].key in Keys(kept);
      var removed := RemoveKey(kept, kept[j].key);
      assert UniqueKeys(kept) ==> removed == kept[..j] + kept[j + 1..];
      MergeResult(AddEntry(removed, entry), 1)
  }

  /** `add_bibliography_to_unified`: the entries of `toAdd`, in order, each
      through `Step`; the repetitions add up. */
  function AddAll(kept: seq<Entry>, toAdd: seq<Entry>, config: Config, score: Scorer, ask: Prompt): (r: MergeResult)
    ensures r.repetitions <= |toAdd|
    ensures UniqueKeys(kept) ==> UniqueKeys(r.kept) && |r.kept| + r.repetitions == |kept| + |toAdd|
    decreases |toAdd|
  {
    if toAdd == [] then MergeResult(kept, 0)
    else
      var first := Step(kept, toAdd[0], config, score, ask);
      var rest := AddAll(first.kept, toAdd[1..], config, score, ask);
      MergeResult(rest.kept, first.repetitions + rest.repetitions)
  }

  /** The number of entries of all the bibliographies together. */
  function TotalEntries(bibliographies: seq<seq<Entry>>): nat
  {
    if bibliographies == [] then 0 else |bibliographies[0]| + TotalEntries(bibliographies[1..])
  }

  /** The bibliographies, in order, each through `AddAll`. */
  function UnifyFrom(kept: seq<Entry>, bibliographies: seq<seq<Entry>>, config: Config, score: Scorer, ask: Prompt)
    : (r: MergeResult)
    ensures r.repetitions <= TotalEntries(bibliographies)
    ensures UniqueKeys(kept) ==> UniqueKeys(r.kept) && |r.kept| + r.repetitions == |kept| + TotalEntries(bibliographies)
    decreases |bibliographies|
  {
    if bibliographies == [] then MergeResult(kept, 0)
    else
      var first := AddAll(kept, bibliographies[0], config, score, ask);
      var rest := UnifyFrom(first.kept, bibliographies[1..], config, score, ask);
      MergeResult(rest.kept, first.repetitions + rest.repetitions)
  }

  /** `unify_bibliography`: the fold starts from an empty bibliography. */
  function Unified(bibliographies: seq<seq<Entry>>, config: Config, score: Scorer, ask: Prompt): (r: MergeResult)
    ensures UniqueKeys(r.kept) && |r.kept| + r.repetitions == TotalEntries(bibliographies)
  {
    UnifyFrom([], bibliographies, config, score, ask)
  }

  // ---------------------------------------------------------------------
  // The fold over the bibliographies
  // ---------------------------------------------------------------------

  /** Folding one more bibliography after the others is one more `AddAll` on
      the result, with the repetitions added up. */
  lemma {:induction false} UnifyAppend(kept: seq<Entry>, bibliographies: seq<seq<Entry>>, last: seq<Entry>, config: Config, score: Scorer, ask: Prompt)
    ensures var before := UnifyFrom(kept, bibliographies, config, score, ask);
            var more := AddAll(before.kept, last, config, score, ask);
            UnifyFrom(kept, bibliographies + [last], config, score, ask)
            == MergeResult(more.kept, before.repetitions + more.repetitions)
    decreases |bibliographies|
  {
    if bibliographies == [] {
      assert [] + [last] == [last];
      assert [last][1..] == [];
    } else {
      var first := AddAll(kept, bibliographies[0], config, score, ask);
      assert (bibliographies + [last])[0] == bibliographies[0];
      assert (bibliographies + [last])[1..] == bibliographies[1..] + [last];
      UnifyAppend(first.kept, bibliographies[1..], last, config, score, ask);
    }
  }

  // ---------------------------------------------------------------------
  // The scan and its verdicts
  // ---------------------------------------------------------------------

  /** `KeepEntry` removes the matched entry before adding the new one, so a new
      entry sharing the matched entry's key keeps that key. */
  lemma KeepEntrySameKeyNotRenamed(kept: seq<Entry>, entry: Entry, config: Config, score: Scorer, ask: Prompt)
    requires UniqueKeys(kept)
    requires FirstMatch(kept, entry, config, score, ask, 0) < |kept|
    requires var j := FirstMatch(kept, entry, config, score, ask, 0);
             CompareEntries(kept[j], entry, config, score, ask) == KeepEntry && kept[j].key == entry.key
    ensures Step(kept, entry, config, score, ask) == MergeResult(RemoveKey(kept, entry.key) + [entry], 1)
  {
    var j := FirstMatch(kept, entry, config, score, ask, 0);
    assert kept[j].key in Keys(kept);
    var removed := RemoveKey(kept, entry.key);
    var r := AddEntry(removed, entry);
    assert r[..|removed|] == removed;
    assert r == r[..|removed|] + [r[|removed|]];
  }

  /** In silent mode an incoming entry that matches some kept entry is dropped
      and counted; one that matches none is added. */
  lemma SilentStep(kept: seq<Entry>, entry: Entry, config: Config, score: Scorer, ask: Prompt)
    requires config.silent
    ensures (exists i :: 0 <= i < |kept| && Matches(kept[i], entry, config, score))
            ==> Step(kept, entry, config, score, ask) == MergeResult(kept, 1)
    ensures (forall i :: 0 <= i < |kept| ==> !Matches(kept[i], entry, config, score))
            ==> Step(kept, entry, config, score, ask) == MergeResult(AddEntry(kept, entry), 0)
  {
    var j := FirstMatch(kept, entry, config, score, ask, 0);
    if exists i :: 0 <= i < |kept| && Matches(kept[i], entry, config, score) {
      var i :| 0 <= i < |kept| && Matches(kept[i], entry, config, score);
      assert CompareEntries(kept[i], entry, config, score, ask) == KeepPrev;
      assert j <= i;
    }
  }

  /** In silent mode no kept entry is ever removed or moved: the bibliography
      before is a prefix of the one after. */
  lemma {:induction false} SilentKeepsPrefix(kept: seq<Entry>, toAdd: seq<Entry>, config: Config, score: Scorer, ask: Prompt)
    requires config.silent
    ensures kept <= AddAll(kept, toAdd, config, score, ask).kept
    decreases |toAdd|
  {
    if toAdd != [] {
      SilentStep(kept, toAdd[0], config, score, ask);
      var first := Step(kept, toAdd[0], config, score, ask);
      assert kept <= first.kept;
      SilentKeepsPrefix(first.kept, toAdd[1..], config, score, ask);
    }
  }

  /** In silent mode, adding entries that each match a kept entry changes
      nothing and counts every one of them. */
  lemma {:induction false} SilentReAddMatched(kept: seq<Entry>, toAdd: seq<Entry>, config: Config, score: Scorer, ask: Prompt)
    requires config.silent
    requires forall e :: e in toAdd ==> exists i :: 0 <= i < |kept| && Matches(kept[i], e, config, score)
    ensures AddAll(kept, toAdd, config, score, ask) == MergeResult(kept, |toAdd|)
    decreases |toAdd|
  {
    if toAdd != [] {
      assert toAdd[0] in toAdd;
      assert forall e :: e in toAdd[1..] ==> e in toAdd;
      SilentStep(kept, toAdd[0], config, score, ask);
      SilentReAddMatched(kept, toAdd[1..], config, score, ask);
    }
  }

  /** In silent mode, re-adding entries already kept, each with a DOI or a
      title, adds nothing. */
  lemma SilentReAddKept(kept: seq<Entry>, toAdd: seq<Entry>, config: Config, score: Scorer, ask: Prompt)
    requires config.silent
    requires forall e :: e in toAdd ==> e in kept && (e.doi.Some? || e.title.Some?)
    ensures AddAll(kept, toAdd, config, score, ask) == MergeResult(kept, |toAdd|)
  {
    forall e | e in toAdd
      ensures exists i :: 0 <= i < |kept| && Matches(kept[i], e, config, score)
    {
      var i :| 0 <= i < |kept| && kept[i] == e;
      assert Matches(kept[i], e, config, score);
    }
    SilentReAddMatched(kept, toAdd, config, score, ask);
  }

  /** Some kept entry matches `entry`. */
  predicate Covered(kept: seq<Entry>, entry: Entry, config: Config, score: Scorer)
  {
    exists i :: 0 <= i < |kept| && Matches(kept[i], entry, config, score)
  }

  /** In silent mode every added entry with a DOI or a title is matched by
      some entry of the result: the one it matched, or its own copy. */
  lemma {:induction false} SilentCovers(kept: seq<Entry>, toAdd: seq<Entry>, config: Config, score: Scorer, ask: Prompt)
    requires config.silent
    requires forall e :: e in toAdd ==> e.doi.Some? || e.title.Some?
    ensures forall e :: e in toAdd ==> Covered(AddAll(kept, toAdd, config, score, ask).kept, e, config, score)
    decreases |toAdd|
  {
    if toAdd != [] {
      var e := toAdd[0];
      var first := Step(kept, e, config, score, ask);
      SilentStep(kept, e, config, score, ask);
      if !Covered(kept, e, config, score) {
        var r := AddEntry(kept, e);
        assert Matches(r[|kept|], e, config, score);
      }
      assert Covered(first.kept, e, config, score);
      assert forall x :: x in toAdd[1..] ==> x in toAdd;
      SilentCovers(first.kept, toAdd[1..], config, score, ask);
      SilentKeepsPrefix(first.kept, toAdd[1..], config, score, ask);
      var result := AddAll(first.kept, toAdd[1..], config, score, ask).kept;
      assert result == AddAll(kept, toAdd, config, score, ask).kept;
      var i :| 0 <= i < |first.kept| && Matches(first.kept[i], e, config, score);
      assert result[i] == first.kept[i];
      forall x | x in toAdd
        ensures Covered(result, x, config, score)
      {
        if x != e {
          assert x in toAdd[1..];
        }
      }
    }
  }

  /** In silent mode, adding the same entries a second time, each with a DOI
      or a title, adds nothing and counts every one of them. */
  lemma SilentReAddIsRepetition(kept: seq<Entry>, toAdd: seq<Entry>, config: Config, score: Scorer, ask: Prompt)
    requires config.silent
    requires forall e :: e in toAdd ==> e.doi.Some? || e.title.Some?
    ensures var once := AddAll(kept, toAdd, config, score, ask);
            AddAll(once.kept, toAdd, config, score, ask) == MergeResult(once.kept, |toAdd|)
  {
    SilentCovers(kept, toAdd, config, score, ask);
    SilentReAddMatched(AddAll(kept, toAdd, config, score, ask).kept, toAdd, config, score, ask);
  }

  /** No rule tells identical entries apart when they have neither DOI nor
      title: the second copy is kept too, under `key_1`. */
  lemma IdenticalWithoutDoiOrTitleKeptTwice(entry: Entry, config: Config, score: Scorer, ask: Prompt)
    requires entry.doi.None? && entry.title.None?
    ensures Step([entry], entry, config, score, ask)
            == MergeResult([entry, entry.(key := entry.key + "_1")], 0)
  {
    var kept := [entry];
    assert entry.key in Keys(kept) by { assert kept[0].key == entry.key; }
    assert Suffixed(entry.key, 1) == entry.key + "_1";
    assert |Suffixed(entry.key, 1)| != |entry.key|;
    assert FirstFreeSuffix(entry.key, kept) == 1;
    var r := AddEntry(kept, entry);
    assert r == [r[0], r[1]];
  }

  // ---------------------------------------------------------------------
  // The imperative merge
  // ---------------------------------------------------------------------

  lemma AddAllUnfold(kept: seq<Entry>, toAdd: seq<Entry>, k: nat, config: Config, score: Scorer, ask: Prompt)
    requires k < |toAdd|
    ensures var step := Step(kept, toAdd[k], config, score, ask);
            var rest := AddAll(step.kept, toAdd[k + 1..], config, score, ask);
            AddAll(kept, toAdd[k..], config, score, ask) == MergeResult(rest.kept, step.repetitions + rest.repetitions)
  {
    assert toAdd[k..][0] == toAdd[k] && toAdd[k..][1..] == toAdd[k + 1..];
  }

  /** The fold over the first n + 1 bibliographies is one more `AddAll` on
      the fold over the first n. */
  lemma UnifyPrefixStep(bibliographies: seq<seq<Entry>>, n: nat, config: Config, score: Scorer, ask: Prompt)
    requires n < |bibliographies|
    ensures var before := UnifyFrom([], bibliographies[..n], config, score, ask);
            var more := AddAll(before.kept, bibliographies[n], config, score, ask);
            UnifyFrom([], bibliographies[..n + 1], config, score, ask)
            == MergeResult(more.kept, before.repetitions + more.repetitions)
  {
    UnifyAppend([], bibliographies[..n], bibliographies[n], config, score, ask);
    assert bibliographies[..n + 1] == bibliographies[..n] + [bibliographies[n]];
  }

  /** `add_entry_to_bibliography`. */
  method AddEntryToBibliography(entry: Entry, bibliography: Bibliography)
    requires bibliography.Valid()
    modifies bibliography
    ensures bibliography.Valid()
    ensures bibliography.entries == AddEntry(old(bibliography.entries), entry)
  {
    var e := entry;
    var present := bibliography.Get(e.key);
    if present.Some? {
      var newKey := GetNewCitationKey(e.key, bibliography);
      e := e.(key := newKey);
    }
    bibliography.Insert(e);
  }

  /** The body of the loop of `add_bibliography_to_unified`: the scan of the
      kept entries for the first verdict that is not `KeepBoth`, then the
      removal of the matched entry and the addition of the new one as that
      verdict says. Returns the repetitions it counted (0 or 1). */
  method MergeEntry(entry: Entry, unified: Bibliography, config: Config, score: Scorer, ask: Prompt)
    returns (repetitions: nat)
    requires unified.Valid()
    modifies unified
    ensures unified.Valid()
    ensures MergeResult(unified.entries, repetitions) == Step(old(unified.entries), entry, config, score, ask)
  {
    ghost var before := unified.entries;
    repetitions := 0;
    var addEntry := true;
    var deletePrev := false;
    var deletePrevKey := "";
    var i := 0;
    while i < |unified.entries|
      invariant 0 <= i <= |unified.entries|
      invariant unified.entries == before
      invariant FirstMatch(before, entry, config, score, ask, i) == FirstMatch(before, entry, config, score, ask, 0)
      invariant addEntry && !deletePrev && repetitions == 0
    {
      var prev := unified.entries[i];
      match CompareEntries(prev, entry, config, score, ask)
      case KeepBoth =>
        i := i + 1;
      case KeepPrev =>
        repetitions := repetitions + 1;
        addEntry := false;
        break;
      case KeepEntry =>
        repetitions := repetitions + 1;
        deletePrev := true;
        deletePrevKey := prev.key;
        break;
    }

    ghost var j := FirstMatch(before, entry, config, score, ask, 0);
    assert addEntry && !deletePrev ==> j == |before| && repetitions == 0;
    assert !addEntry ==> j < |before| && CompareEntries(before[j], entry, config, score, ask) == KeepPrev
                         && !deletePrev && repetitions == 1;
    assert deletePrev ==> j < |before| && CompareEntries(before[j], entry, config, score, ask) == KeepEntry
                          && addEntry && deletePrevKey == before[j].key && repetitions == 1;
    if deletePrev {
      unified.Remove(deletePrevKey);
    }
    if addEntry {
      AddEntryToBibliography(entry, unified);
    }
  }

  /** `add_bibliography_to_unified`: returns the repetitions it removed. */
  method AddBibliographyToUnified(toAdd: seq<Entry>, unified: Bibliography, config: Config, score: Scorer, ask: Prompt)
    returns (repetitions: nat)
    requires unified.Valid()
    modifies unified
    ensures unified.Valid()
    ensures MergeResult(unified.entries, repetitions) == AddAll(old(unified.entries), toAdd, config, score, ask)
    ensures |unified.entries| + repetitions == |old(unified.entries)| + |toAdd|
  {
    ghost var goal := AddAll(unified.entries, toAdd, config, score, ask);
    repetitions := 0;
    var k := 0;
    while k < |toAdd|
      invariant 0 <= k <= |toAdd|
      invariant unified.Valid()
      invariant var rest := AddAll(unified.entries, toAdd[k..], config, score, ask);
                goal == MergeResult(rest.kept, repetitions + rest.repetitions)
    {
      AddAllUnfold(unified.entries, toAdd, k, config, score, ask);
      var found := MergeEntry(toAdd[k], unified, config, score, ask);
      repetitions := repetitions + found;
      k := k + 1;
    }
    assert toAdd[k..] == [];
  }

  /** `unify_bibliography`: a fresh bibliography receives every input in
      order; the repetitions found are returned beside it. */
  method UnifyBibliography(bibliographies: seq<seq<Entry>>, config: Config, score: Scorer, ask: Prompt)
    returns (unified: Bibliography, repetitionsFound: nat)
    ensures fresh(unified) && unified.Valid()
    ensures MergeResult(unified.entries, repetitionsFound) == Unified(bibliographies, config, score, ask)
    ensures |unified.entries| + repetitionsFound == TotalEntries(bibliographies)
  {
    unified := new Bibliography();
    repetitionsFound := 0;
    for n := 0 to |bibliographies|
      invariant fresh(unified) && unified.Valid()
      invariant MergeResult(unified.entries, repetitionsFound) == UnifyFrom([], bibliographies[..n], config, score, ask)
    {
      UnifyPrefixStep(bibliographies, n, config, score, ask);
      var repetitions := AddBibliographyToUnified(bibliographies[n], unified, config, score, ask);
      repetitionsFound := repetitionsFound + repetitions;
    }
    assert bibliographies[..|bibliographies|] == bibliographies;
  }
}
