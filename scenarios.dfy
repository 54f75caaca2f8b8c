/**
 * Client runs of the manager, one per behaviour its unit tests pin down,
 * each proved against the contracts of the operations alone.
 */
module Scenarios {
  import opened Outcomes
  import opened Timing
  import opened Entry
  import opened Store
  import opened Manager

  /** A fresh manager holding one record, named "test" and tagged tag1 and tag2. */
  method SetUp(now: Timestamp, cal: Calendar) returns (p: PWM, e: PasswordEntry)
    ensures fresh(p) && fresh(e)
    ensures p.entries == [e] && p.trash == [] && p.nextId == 2 && p.fuzzyMatchThreshold == 0.8
    ensures p.Valid()
    ensures e.id == 1 && e.name == "test" && e.password == "password" && e.passwordHistory == []
    ensures e.tags == ["tag1", "tag2"] && e.modified == now
    ensures e.expirationInterval == -1 && e.nextExpiration == FAR_FUTURE
  {
    p := new PWM();
    e := new PasswordEntry("test", "username", "password", "url", "notes", ["tag1", "tag2"], "reset_script", now);
    p.AddEntry(e, now, cal);
  }

  /** The threshold starts at 0.8, takes 0.9, and refuses 1.1 and -0.1 without changing. */
  method ThresholdScenario() returns (initial: real, accepted: real, tooHigh: Result<real>, negative: Result<real>, kept: real)
    ensures initial == 0.8 && accepted == 0.9 && kept == 0.9
    ensures tooHigh == Err(InvalidThreshold(1.1)) && negative == Err(InvalidThreshold(-0.1))
  {
    var p := new PWM();
    initial := p.GetFuzzyMatchThreshold();
    var stored := p.SetFuzzyMatchThreshold(0.9);
    accepted := p.GetFuzzyMatchThreshold();
    tooHigh := p.SetFuzzyMatchThreshold(1.1);
    negative := p.SetFuzzyMatchThreshold(-0.1);
    kept := p.GetFuzzyMatchThreshold();
  }

  /** Adding a record replaces its placeholder id by the next one. */
  method CreateEntryScenario(now: Timestamp, cal: Calendar) returns (before: int, after: int)
    ensures before == -1 && after == 2
  {
    var p, e := SetUp(now, cal);
    var second := new PasswordEntry("test2", "username2", "password2", "url", "notes", ["tag1", "tag2"], "reset_script", now);
    before := second.id;
    p.AddEntry(second, now, cal);
    after := second.id;
  }

  /** The record found by name is the stored one; rotating its password keeps one old password. */
  method SetPasswordScenario(now: Timestamp, later: Timestamp, cal: Calendar)
    returns (password: string, historyLength: nat, replaced: string)
    ensures password == "password2" && historyLength == 1 && replaced == "password"
  {
    var p, e := SetUp(now, cal);
    var found := p.GetEntry("test");
    var entry := found.value;
    entry.SetPassword("password2", later, cal);
    password := entry.password;
    historyLength := |entry.passwordHistory|;
    replaced := entry.passwordHistory[0].1;
  }

  /** Removing and then restoring a record leaves the trash empty and the record active. */
  method RestoreScenario(now: Timestamp, later: Timestamp, cal: Calendar)
    returns (removed: Outcome, restored: Outcome, trashSize: nat, entriesSize: nat)
    ensures removed == Pass && restored == Pass && trashSize == 0 && entriesSize == 1
  {
    var p, e := SetUp(now, cal);
    removed := p.RemoveEntry(1, later);
    restored := p.RestoreEntry(1, later);
    trashSize := |p.GetTrash()|;
    entriesSize := |p.entries|;
  }

  /**
   * On any manager: when removing an id succeeds, restoring the same id
   * succeeds too, and both lists are back to their sizes. Under the
   * invariant the restored record is the removed one, now at the end of the
   * active entries, and the trash is exactly as before.
   */
  method RemoveThenRestore(p: PWM, id: int, now: Timestamp) returns (removed: Outcome, restored: Outcome)
    modifies p, p.entries, p.trash
    ensures removed == Pass ==>
      restored == Pass && |p.entries| == old(|p.entries|) && |p.trash| == old(|p.trash|)
    ensures removed == Pass <==> old(IndexOfId(p.entries, id)) >= 0
    ensures removed != Pass ==> removed == Fail(NotFound(id))
    ensures old(p.Valid()) && removed == Pass ==>
      var i := old(IndexOfId(p.entries, id));
      && p.trash == old(p.trash)
      && p.entries == old(p.entries)[..i] + old(p.entries)[i + 1..] + [old(p.entries)[i]]
  {
    ghost var i := IndexOfId(p.entries, id);
    ghost var t := p.trash;
    removed := p.RemoveEntry(id, now);
    if i >= 0 {
      assert p.trash[|p.trash| - 1] == old(p.entries[i]);
      assert p.trash[..|t|] == t;
    }
    restored := p.RestoreEntry(id, now);
  }

  /**
   * On a manager that keeps its invariant: purging a record just removed
   * succeeds, leaves the trash as it was before the removal, and leaves no
   * record with that id in either list.
   */
  method RemoveThenPurge(p: PWM, id: int, now: Timestamp) returns (removed: Outcome, purged: Outcome)
    modifies p, p.entries, p.trash
    ensures removed != Pass ==> removed == Fail(NotFound(id))
    ensures old(p.Valid()) && removed == Pass ==>
      && purged == Pass && p.trash == old(p.trash) && p.Valid()
      && IndexOfId(p.entries, id) < 0 && IndexOfId(p.trash, id) < 0
  {
    ghost var t := p.trash;
    removed := p.RemoveEntry(id, now);
    ghost var u := p.trash;
    if old(p.Valid()) && removed == Pass {
      assert u[..|u| - 1] == t;
    }
    purged := p.PurgeEntry(id);
  }

  /** Once no list holds an id, neither restoring nor purging it finds anything. */
  method PurgedIsGone(p: PWM, id: int, now: Timestamp) returns (restored: Outcome, again: Outcome)
    requires IndexOfId(p.entries, id) < 0 && IndexOfId(p.trash, id) < 0
    modifies p, p.trash
    ensures restored == Fail(NotFound(id)) && again == Fail(NotFound(id))
    ensures p.entries == old(p.entries) && p.trash == old(p.trash)
  {
    restored := p.RestoreEntry(id, now);
    assert forall k | 0 <= k < |p.trash| :: p.trash[k] in old(p.trash);
    again := p.PurgeEntry(id);
  }

  /**
   * The flow of the client: look a record up by name, rotate its password
   * and write it back. The invariant survives, and the list of active
   * records is the same list.
   */
  method RotateScenario(p: PWM, name: string, newPassword: string, now: Timestamp, cal: Calendar)
    returns (found: Option<PasswordEntry>, r: Option<Outcome>)
    requires p.Valid()
    modifies p, p.entries
    ensures p.Valid() && p.entries == old(p.entries) && p.trash == old(p.trash)
    ensures found.None? <==> r.None?
    ensures found.Some? ==>
      && r == Some(Pass) && found.value in p.entries
      && found.value.name == name && found.value.password == newPassword && found.value.modified == now
  {
    found := p.GetEntry(name);
    if found.None? {
      return found, None;
    }
    var entry := found.value;
    RotateStored(p, entry, newPassword, now, cal);
    var u := WriteBack(p, entry, now);
    r := Some(u);
  }

  /**
   * Writing back a record that is stored leaves the list of active records
   * as it was (it goes into its own slot) and keeps the invariant.
   */
  method WriteBack(p: PWM, entry: PasswordEntry, now: Timestamp) returns (r: Outcome)
    requires p.Valid() && entry in p.entries
    modifies p, entry`modified
    ensures r == Pass && entry.modified == now
    ensures p.Valid() && p.entries == old(p.entries) && p.trash == old(p.trash)
  {
    ghost var i :| 0 <= i < |p.entries| && p.entries[i] == entry;
    p.FirstMatchIsSelf(i);
    assert p.entries[i := entry] == p.entries;
    r := p.UpdateEntry(entry, now);
  }

  /** Rotating the password of a stored record keeps the manager's invariant. */
  method RotateStored(p: PWM, entry: PasswordEntry, newPassword: string, now: Timestamp, cal: Calendar)
    requires p.Valid() && entry in p.entries
    modifies entry
    ensures p.Valid()
    ensures entry.password == newPassword && entry.modified == now && entry.name == old(entry.name)
  {
    label before:
    entry.SetPassword(newPassword, now, cal);
    p.ValidKept@before();
  }

  /**
   * Removing a record stamps it without recomputing its expiration: with a
   * ten-day policy set at `now` and a removal at `later`, the stored
   * expiration still counts from `now`, so it no longer agrees with the
   * policy whenever the calendar gives the two instants different days.
   */
  method StaleAfterRemove(now: Timestamp, later: Timestamp, cal: Calendar) returns (e: PasswordEntry, removed: Outcome)
    requires cal.floorDay(cal.shift(later, "days", 10)) != cal.floorDay(cal.shift(now, "days", 10))
    ensures removed == Pass && e.modified == later
    ensures e.nextExpiration == cal.floorDay(cal.shift(now, "days", 10))
    ensures !e.ExpirationConsistent(cal)
  {
    var p;
    p, e := SetUp(now, cal);
    var policy := e.SetExpirationInterval(10, "days", now, cal);
    removed := p.RemoveEntry(1, later);
  }

  /** Removing and purging a record empties both lists, and the counter does not go back. */
  method PurgeScenario(now: Timestamp, later: Timestamp, cal: Calendar)
    returns (trashSize: nat, entriesSize: nat, nextId: int)
    ensures trashSize == 0 && entriesSize == 0 && nextId == 2
  {
    var p, e := SetUp(now, cal);
    var removed := p.RemoveEntry(1, later);
    var purged := p.PurgeEntry(1);
    trashSize := |p.GetTrash()|;
    entriesSize := |p.entries|;
    nextId := p.nextId;
  }

  /** A record edited in place and written back is found under its new name, stamped later. */
  method UpdateScenario(now: Timestamp, later: Timestamp, cal: Calendar)
    returns (r: Outcome, name: string, modified: Timestamp)
    ensures r == Pass && name == "test2" && modified == later
  {
    var p, e := SetUp(now, cal);
    var found := p.GetEntry("test");
    var entry := found.value;
    entry.name := "test2";
    r := p.UpdateEntry(entry, later);
    var again := p.GetEntry("test2");
    name := again.value.name;
    modified := again.value.modified;
  }

  /** A record that was never added still has the placeholder id, which matches nothing. */
  method UpdateUnknownScenario(now: Timestamp, cal: Calendar) returns (r: Outcome)
    ensures r == Fail(NotFound(-1))
  {
    var p, e := SetUp(now, cal);
    var stranger := new PasswordEntry("test2", "username2", "password2", "url", "notes", ["tag1", "tag2"], "reset_script", now);
    r := p.UpdateEntry(stranger, now);
  }

  /**
   * With one record tagged `t1` and `t2` and another tagged `t1` and `t3`
   * (tag1, tag2 and tag3 in the test), `t1` lists both records, in the order
   * they were added, and `t2` and `t3` one each.
   */
  method TagScenario(now: Timestamp, cal: Calendar, t1: string, t2: string, t3: string)
    returns (withT1: seq<PasswordEntry>, withT2: seq<PasswordEntry>, withT3: seq<PasswordEntry>)
    requires t1 != t2 && t1 != t3 && t2 != t3
    ensures |withT1| == 2 && |withT2| == 1 && |withT3| == 1
    ensures withT1[0] == withT2[0] && withT1[1] == withT3[0]
  {
    var p := new PWM();
    var e := new PasswordEntry("test", "username", "password", "url", "notes", [t1, t2], "reset_script", now);
    p.AddEntry(e, now, cal);
    var second := new PasswordEntry("test2", "username2", "password2", "url", "notes", [t1, t3], "reset_script", now);
    p.AddEntry(second, now, cal);
    assert p.entries == [e, second];
    TwoTagged(e, second, t1, t2, t3);
    withT1 := p.GetEntries(Some(t1));
    withT2 := p.GetEntries(Some(t2));
    withT3 := p.GetEntries(Some(t3));
  }

  /** The tag filter over the two records of the tag scenario. */
  lemma TwoTagged(a: PasswordEntry, b: PasswordEntry, t1: string, t2: string, t3: string)
    requires a.tags == [t1, t2] && b.tags == [t1, t3]
    requires t1 != t2 && t1 != t3 && t2 != t3
    ensures WithTag([a, b], t1) == [a, b] && WithTag([a, b], t2) == [a] && WithTag([a, b], t3) == [b]
  {
    FilterPair(a, b, t1);
    FilterPair(a, b, t2);
    FilterPair(a, b, t3);
  }

  /** The tag filter over two records keeps each that carries the tag, in order. */
  lemma FilterPair(a: PasswordEntry, b: PasswordEntry, tag: string)
    ensures WithTag([a, b], tag) == (if tag in a.tags then [a] else []) + (if tag in b.tags then [b] else [])
  {
    assert [a, b] == [a] + [b];
    WithTagConcat([a], [b], tag);
    WithTagSingle(a, tag);
    WithTagSingle(b, tag);
  }

  /**
   * Every unit of the policy is accepted and stored with its interval, and
   * while ten such units from now do not land before now nothing is
   * expired; any other unit is refused.
   */
  method ExpirationIntervalScenario(now: Timestamp, cal: Calendar)
    returns (units: seq<Outcome>, stored: seq<string>, expired: seq<nat>, invalid: Outcome, interval: int)
    requires now <= cal.floorDay(cal.shift(now, "days", 10))
    requires now <= cal.floorDay(cal.shift(now, "weeks", 10))
    requires now <= cal.floorDay(cal.shift(now, "months", 10))
    requires now <= cal.floorDay(cal.shift(now, "years", 10))
    ensures units == [Pass, Pass, Pass, Pass] && stored == ["days", "weeks", "months", "years"]
    ensures expired == [0, 0, 0, 0]
    ensures invalid == Fail(InvalidUnit("invalid")) && interval == 10
  {
    var p, e := SetUp(now, cal);
    var order := ["days", "weeks", "months", "years"];
    assert forall k | 0 <= k < |order| :: IsUnit(order[k]) && now <= cal.floorDay(cal.shift(now, order[k], 10));
    units, stored, expired := [], [], [];
    for u := 0 to |order|
      invariant p.entries == [e]
      invariant |units| == u && forall k | 0 <= k < u :: units[k] == Pass
      invariant stored == order[..u]
      invariant |expired| == u && forall k | 0 <= k < u :: expired[k] == 0
      invariant u > 0 ==> e.expirationInterval == 10
    {
      var outcome, unit, count := SetPolicy(p, e, order[u], now, cal);
      units := units + [outcome];
      stored := stored + [unit];
      expired := expired + [count];
    }
    invalid := e.SetExpirationInterval(10, "invalid", now, cal);
    interval := e.expirationInterval;
  }

  /** One turn of the loop above: a ten-unit policy, the unit it stores, and the expired count. */
  method SetPolicy(p: PWM, e: PasswordEntry, unit: string, now: Timestamp, cal: Calendar)
    returns (outcome: Outcome, stored: string, expired: nat)
    requires p.entries == [e] && IsUnit(unit)
    requires now <= cal.floorDay(cal.shift(now, unit, 10))
    modifies e
    ensures outcome == Pass && stored == unit && expired == 0
    ensures e.expirationInterval == 10
  {
    outcome := e.SetExpirationInterval(10, unit, now, cal);
    stored := e.expirationIntervalUnit;
    expired := |p.GetExpiredEntries(now)|;
  }

  /**
   * A record with a ten-day policy is not expired; once its stored expiration
   * is moved into the past and the record written back, it is, because the
   * write-back does not recompute the expiration.
   */
  method ExpiredScenario(now: Timestamp, earlier: Timestamp, cal: Calendar)
    returns (initially: nat, withPolicy: nat, afterShift: nat)
    requires now <= FAR_FUTURE && earlier < now
    requires now <= cal.floorDay(cal.shift(now, "days", 10))
    ensures initially == 0 && withPolicy == 0 && afterShift == 1
  {
    var p, e := SetUp(now, cal);
    initially := |p.GetExpiredEntries(now)|;
    var policy := e.SetExpirationInterval(10, "days", now, cal);
    var r1 := p.UpdateEntry(e, now);
    withPolicy := |p.GetExpiredEntries(now)|;
    e.nextExpiration := earlier;
    var r2 := p.UpdateEntry(e, now);
    afterShift := |p.GetExpiredEntries(now)|;
  }
}
