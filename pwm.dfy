/**
 * The password manager: active entries, a trash of soft-deleted ones, the
 * id counter and the fuzzy-search threshold, all owned by one object.
 */
module Manager {
  import opened Outcomes
  import opened Timing
  import opened Slices
  import opened Text
  import opened Entry
  import opened Store

  /**
   * The fuzzy string-similarity score of the matching library. The library
   * scores from 0 to 100; the model assumes nothing about it.
   */
  type Ratio = (string, string) -> real

  /**
   * The search predicate: the query scores above `limit` against one of the
   * text fields, a tag or a former password, or occurs literally in the
   * notes or in the reset script.
   */
  predicate Matches(e: PasswordEntry, query: string, limit: real, ratio: Ratio)
    reads e
  {
    || ratio(query, e.name) > limit
    || ratio(query, e.username) > limit
    || ratio(query, e.url) > limit
    || ratio(query, e.notes) > limit || IsSubstring(query, e.notes)
    || (exists t | t in e.tags :: ratio(query, t) > limit)
    || ratio(query, e.resetScript) > limit || IsSubstring(query, e.resetScript)
    || (exists h | h in e.passwordHistory :: ratio(query, h.1) > limit)
  }

  /** A match above a limit is a match above every lower limit. */
  lemma MatchesAntitone(e: PasswordEntry, query: string, lower: real, higher: real, ratio: Ratio)
    requires lower <= higher && Matches(e, query, higher, ratio)
    ensures Matches(e, query, lower, ratio)
  {
  }

  /** The checks the search loop runs on one entry, in their order. */
  method EntryMatches(e: PasswordEntry, query: string, limit: real, ratio: Ratio) returns (hit: bool)
    ensures hit == Matches(e, query, limit, ratio)
  {
    if ratio(query, e.name) > limit {
      return true;
    }
    if ratio(query, e.username) > limit {
      return true;
    }
    if ratio(query, e.url) > limit {
      return true;
    }
    if ratio(query, e.notes) > limit || IsSubstring(query, e.notes) {
      return true;
    }
    // a matching tag adds the entry but does not skip the remaining checks
    hit := false;
    var j := 0;
    while j < |e.tags|
      invariant 0 <= j <= |e.tags|
      invariant !hit ==> forall k | 0 <= k < j :: ratio(query, e.tags[k]) <= limit
      invariant hit ==> exists t | t in e.tags :: ratio(query, t) > limit
    {
      if ratio(query, e.tags[j]) > limit {
        hit := true;
        break;
      }
      j := j + 1;
    }
    if ratio(query, e.resetScript) > limit || IsSubstring(query, e.resetScript) {
      return true;
    }
    if exists h | h in e.passwordHistory :: ratio(query, h.1) > limit {
      return true;
    }
  }

  class PWM {
    var entries: seq<PasswordEntry>
    var trash: seq<PasswordEntry>
    var nextId: int
    var fuzzyMatchThreshold: real

    /**
     * The manager's invariant: the active and trashed records together are
     * well identified below the counter, and the threshold is in (0, 1).
     */
    ghost predicate Valid()
      reads this, entries, trash
    {
      && nextId >= 1
      && UniqueBelow(IdBag(entries) + IdBag(trash), nextId)
      && 0.0 < fuzzyMatchThreshold < 1.0
    }

    /** An empty store: ids start at 1 and the threshold at 0.8. */
    constructor ()
      ensures entries == [] && trash == [] && nextId == 1 && fuzzyMatchThreshold == 0.8
      ensures Valid()
    {
      entries := [];
      nextId := 1;
      trash := [];
      fuzzyMatchThreshold := 0.8;
    }

    function GetFuzzyMatchThreshold(): (t: real)
      reads this, entries, trash
      ensures t == fuzzyMatchThreshold
      ensures Valid() ==> 0.0 < t < 1.0
    {
      fuzzyMatchThreshold
    }

    /** Accepts a threshold strictly between 0 and 1 and returns it; any other value is refused. */
    method SetFuzzyMatchThreshold(threshold: real) returns (r: Result<real>)
      modifies this`fuzzyMatchThreshold
      ensures 0.0 < threshold < 1.0 ==> r == Ok(threshold) && fuzzyMatchThreshold == threshold
      ensures !(0.0 < threshold < 1.0) ==>
        r == Err(InvalidThreshold(threshold)) && fuzzyMatchThreshold == old(fuzzyMatchThreshold)
      ensures old(Valid()) ==> Valid()
    {
      if 0.0 < threshold < 1.0 {
        fuzzyMatchThreshold := threshold;
        return Ok(threshold);
      } else {
        return Err(InvalidThreshold(threshold));
      }
    }

    /**
     * Appends the entry, gives it the next id, stamps it as created and
     * modified now and recomputes its expiration. Ids are never issued twice:
     * the counter only grows.
     */
    method AddEntry(entry: PasswordEntry, now: Timestamp, cal: Calendar)
      modifies this`entries, this`nextId
      modifies entry`id, entry`created, entry`modified, entry`nextExpiration
      ensures entries == old(entries) + [entry]
      ensures entry.id == old(nextId) && nextId == old(nextId) + 1
      ensures entry.created == now && entry.modified == now
      ensures entry.ExpirationConsistent(cal)
      ensures old(Valid()) && entry !in old(entries) && entry !in old(trash) ==> Valid()
    {
      entries := entries + [entry];
      entry.id := nextId;
      nextId := nextId + 1;
      entry.created := now;
      entry.modified := now;
      entry.SetNextExpiration(cal);
      AddKeepsValid(entry);
    }

    /** Appending a new record under the counter's id, and counting on, keeps the invariant. */
    twostate lemma AddKeepsValid(entry: PasswordEntry)
      requires entries == old(entries) + [entry] && trash == old(trash)
      requires entry.id == old(nextId) && nextId == old(nextId) + 1
      requires fuzzyMatchThreshold == old(fuzzyMatchThreshold)
      requires forall x | x in old(entries) && x != entry :: x.id == old(x.id)
      requires forall x | x in old(trash) && x != entry :: x.id == old(x.id)
      ensures old(Valid()) && entry !in old(entries) && entry !in old(trash) ==> Valid()
    {
      if old(Valid()) && entry !in old(entries) && entry !in old(trash) {
        IdBagKept(old(entries));
        IdBagKept(old(trash));
        AppendFreshKeepsUnique(old(entries), trash, entry, old(nextId));
      }
    }

    /**
     * Moves the first active entry with this id to the end of the trash and
     * stamps it as modified now; fails, changing nothing, if there is none.
     */
    method RemoveEntry(id: int, now: Timestamp) returns (r: Outcome)
      modifies this`entries, this`trash, entries
      ensures old(IndexOfId(entries, id)) < 0 ==>
        && r == Fail(NotFound(id))
        && entries == old(entries) && trash == old(trash)
        && forall x | x in old(entries) :: unchanged(x)
      ensures old(IndexOfId(entries, id)) >= 0 ==>
        var i := old(IndexOfId(entries, id));
        var e := old(entries)[i];
        && r == Pass
        && entries == old(entries)[..i] + old(entries)[i + 1..]
        && trash == old(trash) + [e]
        && e.TouchedAt(now)
        && forall x | x in old(entries) && x != e :: unchanged(x)
      ensures old(Valid()) ==> Valid()
      ensures old(Valid()) && r == Pass ==> IndexOfId(trash, id) == |trash| - 1
    {
      var i := FindId(entries, id);
      if i < 0 {
        return Fail(NotFound(id));
      }
      var e := entries[i];
      entries := entries[..i] + entries[i + 1..];
      trash := trash + [e];
      e.modified := now;
      RemoveKeepsValid(i);
      r := Pass;
    }

    /** Moving the active record at `i` to the trash keeps the invariant. */
    twostate lemma RemoveKeepsValid(i: int)
      requires 0 <= i < |old(entries)|
      requires entries == old(entries)[..i] + old(entries)[i + 1..]
      requires trash == old(trash) + [old(entries)[i]]
      requires nextId == old(nextId) && fuzzyMatchThreshold == old(fuzzyMatchThreshold)
      requires forall x | x in old(entries) :: x.id == old(x.id)
      requires forall x | x in old(trash) :: x.id == old(x.id)
      ensures old(Valid()) ==> Valid()
      ensures old(Valid()) ==> IndexOfId(trash, old(entries)[i].id) == |old(trash)|
    {
      if old(Valid()) {
        IdBagKept(old(entries));
        IdBagKept(old(trash));
        MoveKeepsUnique(old(entries), old(trash), i, nextId);
        OnlyHolder(old(entries), old(trash), i, nextId);
        IndexOfIdAppend(old(trash), old(entries)[i]);
      }
    }

    /** The first active entry with this name, or nothing: absence is not an error. */
    method GetEntry(name: string) returns (r: Option<PasswordEntry>)
      ensures r.None? <==> forall k | 0 <= k < |entries| :: entries[k].name != name
      ensures r.Some? ==> exists i | 0 <= i < |entries| ::
        entries[i] == r.value && r.value.name == name && forall k | 0 <= k < i :: entries[k].name != name
    {
      for i := 0 to |entries|
        invariant forall k | 0 <= k < i :: entries[k].name != name
      {
        if entries[i].name == name {
          return Some(entries[i]);
        }
      }
      return None;
    }

    /**
     * The active entries, with the tag if one is given, then cut to one page
     * when `entriesPerPage` is positive (Python slice bounds: out-of-range
     * pages are empty and negative pages count from the end).
     */
    function GetEntries(tag: Option<string> := None, page: int := 0, entriesPerPage: int := -1): (r: seq<PasswordEntry>)
      reads this, entries
      ensures forall x | x in r :: x in entries && (tag.Some? ==> tag.value in x.tags)
      ensures entriesPerPage <= 0 ==>
        forall x | x in entries && (tag.Some? ==> tag.value in x.tags) :: x in r
      ensures tag.None? && entriesPerPage <= 0 ==> r == entries
      ensures tag.Some? && entriesPerPage <= 0 ==> r == WithTag(entries, tag.value)
    {
      if tag.None? then
        if entriesPerPage > 0 then
          Page(entries, page, entriesPerPage)
        else
          entries
      else
        if entriesPerPage > 0 then
          Page(WithTag(entries, tag.value), page, entriesPerPage)
        else
          WithTag(entries, tag.value)
    }

    /**
     * Replaces, at the same position, the first active entry with the given
     * entry's id by that entry, stamping it as modified now; fails if there is
     * no such entry. The expiration is not recomputed.
     */
    method UpdateEntry(entry: PasswordEntry, now: Timestamp) returns (r: Outcome)
      modifies this`entries, entry`modified
      ensures old(IndexOfId(entries, entry.id)) < 0 ==>
        r == Fail(NotFound(entry.id)) && entries == old(entries) && entry.modified == old(entry.modified)
      ensures old(IndexOfId(entries, entry.id)) >= 0 ==>
        var i := old(IndexOfId(entries, entry.id));
        r == Pass && entries == old(entries)[i := entry] && entry.modified == now
      ensures old(Valid()) ==> Valid()
    {
      var i := FindId(entries, entry.id);
      if i < 0 {
        return Fail(NotFound(entry.id));
      }
      entries := entries[i := entry];
      entry.modified := now;
      UpdateKeepsValid(entry);
      r := Pass;
    }

    /** Putting a record in place of the active record with its id keeps the invariant. */
    twostate lemma UpdateKeepsValid(entry: PasswordEntry)
      requires 0 <= old(IndexOfId(entries, entry.id))
      requires entries == old(entries)[old(IndexOfId(entries, entry.id)) := entry] && trash == old(trash)
      requires nextId == old(nextId) && fuzzyMatchThreshold == old(fuzzyMatchThreshold)
      requires entry.id == old(entry.id)
      requires forall x | x in old(entries) :: x.id == old(x.id)
      requires forall x | x in old(trash) :: x.id == old(x.id)
      ensures old(Valid()) ==> Valid()
    {
      if old(Valid()) {
        var i := old(IndexOfId(entries, entry.id));
        IdBagKept(old(entries));
        IdBagKept(old(trash));
        ReplaceKeepsUnique(old(entries), trash, i, entry, nextId);
      }
    }

    /**
     * The active entries whose expiration lies strictly before `now`, each as
     * often as it is stored, in store order (the filter `ExpiredAt`).
     */
    function GetExpiredEntries(now: Timestamp): (r: seq<PasswordEntry>)
      reads this, entries
      ensures forall x | x in r :: x in entries && x.nextExpiration < now
      ensures forall x | x in entries && x.nextExpiration < now :: x in r
      ensures forall x | x in entries ::
        multiset(r)[x] == if x.nextExpiration < now then multiset(entries)[x] else 0
      ensures r == ExpiredAt(entries, now)
    {
      ExpiredAtCount(entries, now);
      ExpiredAt(entries, now)
    }

    function GetTrash(): (r: seq<PasswordEntry>)
      reads this, entries, trash
      ensures r == trash
      ensures Valid() ==> forall x | x in r :: x !in entries
    {
      assert Valid() ==> forall x | x in trash :: x !in entries by {
        if Valid() {
          StoresDisjoint(entries, trash, nextId);
        }
      }
      trash
    }

    /**
     * Moves the first trashed entry with this id back to the end of the
     * active entries and stamps it as modified now; fails, changing nothing,
     * if there is none.
     */
    method RestoreEntry(id: int, now: Timestamp) returns (r: Outcome)
      modifies this`entries, this`trash, trash
      ensures old(IndexOfId(trash, id)) < 0 ==>
        && r == Fail(NotFound(id))
        && entries == old(entries) && trash == old(trash)
        && forall x | x in old(trash) :: unchanged(x)
      ensures old(IndexOfId(trash, id)) >= 0 ==>
        var i := old(IndexOfId(trash, id));
        var e := old(trash)[i];
        && r == Pass
        && trash == old(trash)[..i] + old(trash)[i + 1..]
        && entries == old(entries) + [e]
        && e.TouchedAt(now)
        && forall x | x in old(trash) && x != e :: unchanged(x)
      ensures old(Valid()) ==> Valid()
    {
      var i := FindId(trash, id);
      if i < 0 {
        return Fail(NotFound(id));
      }
      var e := trash[i];
      trash := trash[..i] + trash[i + 1..];
      entries := entries + [e];
      e.modified := now;
      RestoreKeepsValid(i);
      r := Pass;
    }

    /** Moving the trashed record at `i` back to the active entries keeps the invariant. */
    twostate lemma RestoreKeepsValid(i: int)
      requires 0 <= i < |old(trash)|
      requires trash == old(trash)[..i] + old(trash)[i + 1..]
      requires entries == old(entries) + [old(trash)[i]]
      requires nextId == old(nextId) && fuzzyMatchThreshold == old(fuzzyMatchThreshold)
      requires forall x | x in old(entries) :: x.id == old(x.id)
      requires forall x | x in old(trash) :: x.id == old(x.id)
      ensures old(Valid()) ==> Valid()
    {
      if old(Valid()) {
        IdBagKept(old(entries));
        IdBagKept(old(trash));
        assert IdBag(old(trash)) + IdBag(old(entries)) == IdBag(old(entries)) + IdBag(old(trash));
        MoveKeepsUnique(old(trash), old(entries), i, nextId);
      }
    }

    /** Discards the first trashed entry with this id for good; fails if there is none. */
    method PurgeEntry(id: int) returns (r: Outcome)
      modifies this`trash
      ensures old(IndexOfId(trash, id)) < 0 ==> r == Fail(NotFound(id)) && trash == old(trash)
      ensures old(IndexOfId(trash, id)) >= 0 ==>
        var i := old(IndexOfId(trash, id));
        r == Pass && trash == old(trash)[..i] + old(trash)[i + 1..]
      ensures old(Valid()) ==> Valid()
      ensures old(Valid()) && r == Pass ==> IndexOfId(entries, id) < 0 && IndexOfId(trash, id) < 0
    {
      var i := FindId(trash, id);
      if i < 0 {
        return Fail(NotFound(id));
      }
      trash := trash[..i] + trash[i + 1..];
      PurgeKeepsValid(i);
      r := Pass;
    }

    /** Dropping the record at `i` of the trash keeps the invariant. */
    twostate lemma PurgeKeepsValid(i: int)
      requires 0 <= i < |old(trash)|
      requires entries == old(entries) && trash == old(trash)[..i] + old(trash)[i + 1..]
      requires nextId == old(nextId) && fuzzyMatchThreshold == old(fuzzyMatchThreshold)
      requires forall x | x in old(entries) :: x.id == old(x.id)
      requires forall x | x in old(trash) :: x.id == old(x.id)
      ensures old(Valid()) ==> Valid()
      ensures old(Valid()) ==>
        IndexOfId(entries, old(trash)[i].id) < 0 && IndexOfId(trash, old(trash)[i].id) < 0
    {
      if old(Valid()) {
        IdBagKept(old(entries));
        IdBagKept(old(trash));
        DeleteKeepsUnique(entries, old(trash), i, nextId);
        assert IdBag(old(trash)) + IdBag(entries) == IdBag(entries) + IdBag(old(trash));
        OnlyHolder(old(trash), entries, i, nextId);
      }
    }

    /**
     * The invariant reads only the two lists, the ids of their records, the
     * counter and the threshold, so a change to any other field of a stored
     * record (a new password, a new policy) keeps it.
     */
    twostate lemma ValidKept()
      requires unchanged(this)
      requires forall x | x in entries :: x.id == old(x.id)
      requires forall x | x in trash :: x.id == old(x.id)
      ensures old(Valid()) ==> Valid()
    {
      IdBagKept(entries);
      IdBagKept(trash);
    }

    /**
     * Every active entry the search predicate accepts at the current
     * threshold (scaled to the score's 0-100 range), each once.
     */
    method Search(query: string, ratio: Ratio) returns (results: set<PasswordEntry>)
      ensures results == Hits(query, fuzzyMatchThreshold * 100.0, ratio)
    {
      results := {};
      var limit := GetFuzzyMatchThreshold() * 100.0;
      for i := 0 to |entries|
        invariant results == set x | x in entries[..i] && Matches(x, query, limit, ratio)
      {
        var e := entries[i];
        var hit := EntryMatches(e, query, limit, ratio);
        assert entries[..i + 1] == entries[..i] + [e];
        if hit {
          results := results + {e};
        }
      }
      assert entries[..|entries|] == entries;
    }

    /** The active entries the search predicate accepts above `limit`. */
    ghost function Hits(query: string, limit: real, ratio: Ratio): (r: set<PasswordEntry>)
      reads this, entries
      ensures forall x | x in r :: x in entries
    {
      set x | x in entries && Matches(x, query, limit, ratio)
    }

    /** Raising the threshold never adds a hit. */
    lemma HitsAntitone(query: string, lower: real, higher: real, ratio: Ratio)
      requires lower <= higher
      ensures Hits(query, higher, ratio) <= Hits(query, lower, ratio)
    {
      forall x | x in Hits(query, higher, ratio)
        ensures x in Hits(query, lower, ratio)
      {
        MatchesAntitone(x, query, lower, higher, ratio);
      }
    }

    /** The empty query occurs in every note, so it finds every active entry. */
    lemma EmptyQueryHitsAll(limit: real, ratio: Ratio)
      ensures Hits("", limit, ratio) == set x | x in entries
    {
      forall x | x in entries
        ensures Matches(x, "", limit, ratio)
      {
        EmptyIsSubstring(x.notes);
      }
    }

    /** A query that occurs literally in an entry's notes finds it, whatever the scores. */
    lemma NotesInfixHit(e: PasswordEntry, before: string, query: string, after: string, limit: real, ratio: Ratio)
      requires e in entries && e.notes == before + query + after
      ensures e in Hits(query, limit, ratio)
    {
      InfixIsSubstring(before, query, after);
    }

    /**
     * An entry named exactly like the query is found whenever a string scores
     * 100 against itself, since the threshold is below 1.
     */
    lemma ExactNameHit(e: PasswordEntry, ratio: Ratio)
      requires Valid() && e in entries
      requires ratio(e.name, e.name) == 100.0
      ensures e in Hits(e.name, fuzzyMatchThreshold * 100.0, ratio)
    {
    }

    /** Under the invariant every stored id is positive and below the counter, so the next one is fresh. */
    lemma IdsBelowCounter()
      requires Valid()
      ensures forall x | x in entries :: 1 <= x.id < nextId
      ensures forall x | x in trash :: 1 <= x.id < nextId
    {
      var both := IdBag(entries) + IdBag(trash);
      forall x | x in entries
        ensures 1 <= x.id < nextId
      {
        IdBagHas(entries, x);
        UniqueAt(both, nextId, x.id);
      }
      forall x | x in trash
        ensures 1 <= x.id < nextId
      {
        IdBagHas(trash, x);
        UniqueAt(both, nextId, x.id);
      }
    }

    /** Under the invariant no two active entries share an id: the first match is the only one. */
    lemma ActiveIdsDistinct(i: int, j: int)
      requires Valid() && 0 <= i < j < |entries|
      ensures entries[i].id != entries[j].id
    {
      IdBagConcat(entries, trash);
      UniqueBelowSub(IdBag(entries) + IdBag(trash), IdBag(entries), nextId);
      IdsDistinct(entries, nextId, i, j);
    }

    /**
     * Under the invariant a stored record is the first active match for its
     * own id, so writing it back with `UpdateEntry` targets its own slot.
     */
    lemma FirstMatchIsSelf(i: int)
      requires Valid() && 0 <= i < |entries|
      ensures IndexOfId(entries, entries[i].id) == i
    {
      var j := IndexOfId(entries, entries[i].id);
      if j < i {
        ActiveIdsDistinct(j, i);
      }
    }

    /**
     * A page of the listing: the entries (with the tag, if given) from
     * position `page * entriesPerPage` on, `entriesPerPage` of them or fewer at
     * the end, and none once the page starts past the end.
     */
    lemma GetEntriesPaged(tag: Option<string>, page: nat, entriesPerPage: int)
      requires entriesPerPage > 0
      ensures var listed := if tag.None? then entries else WithTag(entries, tag.value);
        var r := GetEntries(tag, page, entriesPerPage);
        && |r| == Max(0, Min(entriesPerPage, |listed| - page * entriesPerPage))
        && (forall k | 0 <= k < |r| :: r[k] == listed[page * entriesPerPage + k])
        && (page * entriesPerPage >= |listed| ==> r == [])
    {
      var listed := if tag.None? then entries else WithTag(entries, tag.value);
      PageContents(listed, page, entriesPerPage);
    }

    /** The distinct tags of the active entries. */
    function GetAllTags(): (r: set<string>)
      reads this, entries
      ensures forall t :: t in r <==> exists x | x in entries :: t in x.tags
    {
      AllTags(entries)
    }

    /**
     * The tag listing as written: the comprehension reads `entry.tags` in its
     * first clause, before the second clause binds `entry`, so it always
     * raises.
     */
    function GetAllTagsAsWritten(): (r: Result<set<string>>)
      ensures r.Err?
    {
      Err(UnboundName)
    }
  }
}
