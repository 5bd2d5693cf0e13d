/**
 * The pure part of the collection editor's sidebar: matching an item ID against
 * the filter text, the entries that match, and the ID names shown for entries.
 */
module CollectionFilter {

  /** Identity of a `CollectionDataEntry` asset. */
  type EntryId = nat

  /** Every entry of `entries` has a recorded `itemID`. */
  ghost predicate Known(entries: seq<EntryId>, itemID: map<EntryId, string>) {
    forall e :: e in entries ==> e in itemID
  }

  /** The `itemID` field of entry `e` (every entry the editor meets has one). */
  function IDOf(itemID: map<EntryId, string>, e: EntryId): string {
    if e in itemID then itemID[e] else ""
  }

  /** `t` occurs in `s` starting at index `i`. */
  ghost predicate OccursAt(s: string, t: string, i: int) {
    0 <= i && i + |t| <= |s| && s[i..i + |t|] == t
  }

  /** `string.Contains(string)`: ordinal substring test. */
  predicate Contains(s: string, t: string) {
    if |t| <= |s| && s[..|t|] == t then true
    else if s == [] then false
    else Contains(s[1..], t)
  }

  /** `Contains` holds exactly when `t` occurs somewhere in `s`. */
  lemma {:induction false} ContainsOccurs(s: string, t: string)
    ensures Contains(s, t) <==> exists i :: OccursAt(s, t, i)
  {
    if |t| <= |s| && s[..|t|] == t {
      assert OccursAt(s, t, 0);
    } else if s != [] {
      ContainsOccurs(s[1..], t);
      if exists i :: OccursAt(s[1..], t, i) {
        var i :| OccursAt(s[1..], t, i);
        assert s[1..][i..i + |t|] == s[i + 1..i + 1 + |t|];
        assert OccursAt(s, t, i + 1);
      }
      if exists i :: OccursAt(s, t, i) {
        var i :| OccursAt(s, t, i);
        assert i != 0;
        assert s[1..][i - 1..i - 1 + |t|] == s[i..i + |t|];
        assert OccursAt(s[1..], t, i - 1);
      }
    }
  }

  /** Every string contains the empty string. */
  lemma EmptyIsContained(s: string)
    ensures Contains(s, "")
  {
    assert s[..0] == "";
  }

  /** The entries whose `itemID` contains `f`, in the order of `entries`. */
  function Matching(entries: seq<EntryId>, itemID: map<EntryId, string>, f: string): (r: seq<EntryId>)
    ensures |r| <= |entries|
    decreases |entries|, 1
  {
    if entries == [] then [] else MatchingLast(entries, itemID, f)
  }

  /** `Matching` of a non-empty list: the matches of all but the last entry, then the last one if it matches. */
  function MatchingLast(entries: seq<EntryId>, itemID: map<EntryId, string>, f: string): (r: seq<EntryId>)
    requires entries != []
    ensures |r| <= |entries|
    decreases |entries|, 0
  {
    var e := entries[|entries| - 1];
    Matching(entries[..|entries| - 1], itemID, f) + (if Contains(IDOf(itemID, e), f) then [e] else [])
  }

  /** The `itemID` of each entry, in parallel with `entries`. */
  function IDsOf(entries: seq<EntryId>, itemID: map<EntryId, string>): seq<string>
    decreases |entries|, 1
  {
    if entries == [] then [] else IDsOfLast(entries, itemID)
  }

  /** `IDsOf` of a non-empty list: the names of all but the last entry, then the last one's. */
  function IDsOfLast(entries: seq<EntryId>, itemID: map<EntryId, string>): seq<string>
    requires entries != []
    decreases |entries|, 0
  {
    IDsOf(entries[..|entries| - 1], itemID) + [IDOf(itemID, entries[|entries| - 1])]
  }

  /** `IDsOf` has one name per entry, and name `k` is entry `k`'s `itemID`. */
  lemma {:induction false} IDsOfAt(entries: seq<EntryId>, itemID: map<EntryId, string>)
    ensures |IDsOf(entries, itemID)| == |entries|
    ensures forall k :: 0 <= k < |entries| ==> IDsOf(entries, itemID)[k] == IDOf(itemID, entries[k])
  {
    if entries != [] {
      var rest := entries[..|entries| - 1];
      assert IDsOf(entries, itemID) == IDsOfLast(entries, itemID);
      IDsOfAt(rest, itemID);
      forall k | 0 <= k < |entries| ensures IDsOf(entries, itemID)[k] == IDOf(itemID, entries[k]) {
        if k < |rest| { assert rest[k] == entries[k]; }
      }
    }
  }

  /** An entry is kept exactly when it is in `entries` and its `itemID` contains `f`. */
  lemma {:induction false} MatchingMembers(entries: seq<EntryId>, itemID: map<EntryId, string>, f: string)
    ensures forall e :: e in Matching(entries, itemID, f) <==> e in entries && Contains(IDOf(itemID, e), f)
  {
    if entries != [] {
      var rest := entries[..|entries| - 1];
      var e := entries[|entries| - 1];
      MatchingMembers(rest, itemID, f);
      assert entries == rest + [e];
      forall x ensures x in entries <==> x in rest || x == e { }
    }
  }

  /** Filtering distributes over concatenation, so it keeps the database order. */
  lemma {:induction false} MatchingAppend(a: seq<EntryId>, b: seq<EntryId>, itemID: map<EntryId, string>, f: string)
    ensures Matching(a + b, itemID, f) == Matching(a, itemID, f) + Matching(b, itemID, f)
  {
    if b == [] {
      assert a + b == a;
    } else {
      var rest := b[..|b| - 1];
      assert (a + b)[..|a + b| - 1] == a + rest;
      assert (a + b)[|a + b| - 1] == b[|b| - 1];
      MatchingAppend(a, rest, itemID, f);
    }
  }

  /** One more entry at the end: the step the loops over the item list take. */
  lemma Snoc(entries: seq<EntryId>, i: int, itemID: map<EntryId, string>, f: string)
    requires 0 <= i < |entries|
    ensures Matching(entries[..i + 1], itemID, f) ==
      Matching(entries[..i], itemID, f) + (if Contains(IDOf(itemID, entries[i]), f) then [entries[i]] else [])
    ensures IDsOf(entries[..i + 1], itemID) == IDsOf(entries[..i], itemID) + [IDOf(itemID, entries[i])]
  {
    assert entries[..i + 1][..i] == entries[..i];
  }

  /** The names of the matching entries grow with the matching entries. */
  lemma IDsOfSnoc(entries: seq<EntryId>, e: EntryId, itemID: map<EntryId, string>)
    ensures IDsOf(entries + [e], itemID) == IDsOf(entries, itemID) + [IDOf(itemID, e)]
  {
    assert (entries + [e])[..|entries|] == entries;
  }

  /** The empty filter keeps every entry. */
  lemma {:induction false} MatchingEmptyFilter(entries: seq<EntryId>, itemID: map<EntryId, string>)
    ensures Matching(entries, itemID, "") == entries
  {
    if entries != [] {
      MatchingEmptyFilter(entries[..|entries| - 1], itemID);
      EmptyIsContained(IDOf(itemID, entries[|entries| - 1]));
    }
  }

  /** The matching entries of known entries are known. */
  lemma MatchingKnown(entries: seq<EntryId>, itemID: map<EntryId, string>, f: string)
    requires Known(entries, itemID)
    ensures Known(Matching(entries, itemID, f), itemID)
  {
    MatchingMembers(entries, itemID, f);
  }
}
