/** The parts of the `biblatex` crate the merge relies on, stated as the
    semantics this model assumes: an entry is a value, and a bibliography is
    an ordered list of entries whose citation keys are unique, looked up,
    replaced and removed by key. */
module Biblatex {

  datatype Option<T> = None | Some(value: T)

  /** A parsed entry: its citation key, its DOI, its title already formatted
      verbatim, and every other field (the entry type included) as an opaque
      map. Two entries are equal when all of these are. */
  datatype Entry = Entry(key: string, doi: Option<string>, title: Option<string>, fields: map<string, string>)

  /** The citation keys present in a list of entries. */
  function Keys(s: seq<Entry>): set<string>
  {
    set i | 0 <= i < |s| :: s[i].key
  }

  /** The invariant of a bibliography: no two entries share a key. */
  predicate UniqueKeys(s: seq<Entry>)
  {
    forall i, j :: 0 <= i < j < |s| ==> s[i].key != s[j].key
  }

  /** Position of the first entry carrying `key`, or |s| when there is none. */
  function IndexOfKey(s: seq<Entry>, key: string): (i: nat)
    ensures i <= |s|
    ensures i < |s| ==> s[i].key == key
    ensures forall j :: 0 <= j < i ==> s[j].key != key
    ensures i < |s| <==> key in Keys(s)
  {
    if s == [] then 0
    else if s[0].key == key then 0
    else 1 + IndexOfKey(s[1..], key)
  }

  /** `Bibliography::get`: the entry stored under `key`, if any. */
  function Lookup(s: seq<Entry>, key: string): (r: Option<Entry>)
    ensures r.Some? <==> key in Keys(s)
    ensures r.Some? ==> r.value in s && r.value.key == key
  {
    var i := IndexOfKey(s, key);
    if i < |s| then Some(s[i]) else None
  }

  /** `Bibliography::insert`: an entry with a new key goes at the end; an entry
      whose key is present replaces the stored one in its place. */
  function InsertEntry(s: seq<Entry>, e: Entry): (r: seq<Entry>)
    ensures e.key !in Keys(s) ==> r == s + [e]
    ensures e.key in Keys(s) ==> exists i :: 0 <= i < |s| && s[i].key == e.key && r == s[i := e]
    ensures Keys(r) == Keys(s) + {e.key}
    ensures UniqueKeys(s) ==> UniqueKeys(r)
  {
    var i := IndexOfKey(s, e.key);
    if i < |s| then
      KeysOfUpdate(s, i, e);
      assert s[i := e][i] == e;
      s[i := e]
    else
      KeysOfAppend(s, e);
      s + [e]
  }

  /** `Bibliography::remove`: the entry stored under `key` is deleted and the
      others keep their order. */
  function RemoveKey(s: seq<Entry>, key: string): (r: seq<Entry>)
    ensures key !in Keys(s) ==> r == s
    ensures key in Keys(s) ==> exists i :: 0 <= i < |s| && s[i].key == key && r == s[..i] + s[i + 1..]
    ensures forall e :: e in r ==> e in s
    ensures UniqueKeys(s) ==> UniqueKeys(r) && Keys(r) == Keys(s) - {key}
  {
    var i := IndexOfKey(s, key);
    if i < |s| then
      KeysOfDelete(s, i);
      s[..i] + s[i + 1..]
    else
      s
  }

  lemma KeysOfAppend(s: seq<Entry>, e: Entry)
    ensures Keys(s + [e]) == Keys(s) + {e.key}
  {
    var t := s + [e];
    forall k | k in Keys(s) ensures k in Keys(t) {
      var j :| 0 <= j < |s| && s[j].key == k;
      assert t[j].key == k;
    }
    assert t[|s|].key == e.key;
  }

  lemma KeysOfUpdate(s: seq<Entry>, i: nat, e: Entry)
    requires i < |s| && s[i].key == e.key
    ensures Keys(s[i := e]) == Keys(s)
  {
    var t := s[i := e];
    forall k | k in Keys(s) ensures k in Keys(t) {
      var j :| 0 <= j < |s| && s[j].key == k;
      assert t[j].key == k;
    }
    forall k | k in Keys(t) ensures k in Keys(s) {
      var j :| 0 <= j < |t| && t[j].key == k;
      assert s[j].key == k;
    }
  }

  lemma KeysOfDelete(s: seq<Entry>, i: nat)
    requires i < |s|
    ensures UniqueKeys(s) ==> UniqueKeys(s[..i] + s[i + 1..])
    ensures UniqueKeys(s) ==> Keys(s[..i] + s[i + 1..]) == Keys(s) - {s[i].key}
  {
    var t := s[..i] + s[i + 1..];
    assert forall j :: 0 <= j < |t| ==> t[j] == s[if j < i then j else j + 1];
    if UniqueKeys(s) {
      forall k | k in Keys(s) - {s[i].key} ensures k in Keys(t) {
        var j :| 0 <= j < |s| && s[j].key == k;
        assert t[if j < i then j else j - 1].key == k;
      }
    }
  }

  /** A bibliography, updated in place by the merge. */
  class Bibliography {
    var entries: seq<Entry>

    ghost predicate Valid()
      reads this
    {
      UniqueKeys(entries)
    }

    /** `Bibliography::new`. */
    constructor ()
      ensures Valid() && entries == []
    {
      entries := [];
    }

    method Get(key: string) returns (r: Option<Entry>)
      ensures r == Lookup(entries, key)
    {
      var i := 0;
      while i < |entries|
        invariant 0 <= i <= |entries|
        invariant forall j :: 0 <= j < i ==> entries[j].key != key
      {
        if entries[i].key == key {
          return Some(entries[i]);
        }
        i := i + 1;
      }
      return None;
    }

    method Insert(e: Entry)
      requires Valid()
      modifies this
      ensures Valid()
      ensures entries == InsertEntry(old(entries), e)
    {
      entries := InsertEntry(entries, e);
    }

    method Remove(key: string)
      requires Valid()
      modifies this
      ensures Valid()
      ensures entries == RemoveKey(old(entries), key)
    {
      entries := RemoveKey(entries, key);
    }
  }
}
