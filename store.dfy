/**
 * Facts about sequences of entries that the manager keeps: lookup by id,
 * the identity invariant, and the filters its queries apply.
 */
module Store {
  import opened Outcomes
  import opened Timing
  import opened Entry

  /** The index of the first entry with this id, or -1 when there is none. */
  function IndexOfId(s: seq<PasswordEntry>, id: int): (r: int)
    reads s
    ensures -1 <= r < |s|
    ensures r == -1 <==> forall k | 0 <= k < |s| :: s[k].id != id
    ensures 0 <= r ==> s[r].id == id && forall k | 0 <= k < r :: s[k].id != id
  {
    if |s| == 0 then -1
    else if s[0].id == id then 0
    else
      var r := IndexOfId(s[1..], id);
      if r < 0 then -1 else r + 1
  }

  /** The scan the manager runs before each mutation by id. */
  method FindId(s: seq<PasswordEntry>, id: int) returns (i: int)
    ensures i == IndexOfId(s, id)
  {
    i := 0;
    while i < |s|
      invariant 0 <= i <= |s|
      invariant forall k | 0 <= k < i :: s[k].id != id
    {
      if s[i].id == id {
        return;
      }
      i := i + 1;
    }
    i := -1;
  }

  /** The ids of the records of `s`, with their multiplicity. */
  ghost function IdBag(s: seq<PasswordEntry>): multiset<int>
    reads s
  {
    if |s| == 0 then multiset{} else multiset{s[0].id} + IdBag(s[1..])
  }

  /**
   * The identity invariant of a store: no id occurs twice, and every id lies
   * in [1, bound). It also keeps a record from being held twice.
   */
  ghost predicate UniqueBelow(ids: multiset<int>, bound: int)
  {
    forall v | v in ids :: ids[v] == 1 && 1 <= v < bound
  }

  lemma UniqueAt(ids: multiset<int>, bound: int, v: int)
    requires UniqueBelow(ids, bound) && v in ids
    ensures ids[v] == 1 && 1 <= v < bound
  {
  }

  /** Fewer ids keep the invariant; so, trivially, do the same ids. */
  lemma UniqueBelowSub(a: multiset<int>, b: multiset<int>, bound: int)
    requires UniqueBelow(a, bound) && b <= a
    ensures UniqueBelow(b, bound)
  {
  }

  lemma {:induction false} IdBagConcat(a: seq<PasswordEntry>, b: seq<PasswordEntry>)
    ensures IdBag(a + b) == IdBag(a) + IdBag(b)
  {
    if |a| == 0 {
      assert a + b == b;
    } else {
      assert (a + b)[1..] == a[1..] + b;
      IdBagConcat(a[1..], b);
    }
  }

  /** Taking the record at `i` out of `s` takes its id out of the bag. */
  lemma IdBagSplit(s: seq<PasswordEntry>, i: int)
    requires 0 <= i < |s|
    ensures IdBag(s) == IdBag(s[..i]) + multiset{s[i].id} + IdBag(s[i + 1..])
    ensures IdBag(s[..i] + s[i + 1..]) == IdBag(s[..i]) + IdBag(s[i + 1..])
  {
    assert s[..i] + s[i..] == s;
    IdBagConcat(s[..i], s[i..]);
    assert s[i..][0] == s[i] && s[i..][1..] == s[i + 1..];
    IdBagConcat(s[..i], s[i + 1..]);
  }

  /** Deleting the record at `i` of `b` keeps the invariant of `a` and `b` together. */
  lemma DeleteKeepsUnique(a: seq<PasswordEntry>, b: seq<PasswordEntry>, i: int, bound: int)
    requires 0 <= i < |b|
    requires UniqueBelow(IdBag(a) + IdBag(b), bound)
    ensures UniqueBelow(IdBag(a) + IdBag(b[..i] + b[i + 1..]), bound)
  {
    IdBagSplit(b, i);
    UniqueBelowSub(IdBag(a) + IdBag(b), IdBag(a) + IdBag(b[..i] + b[i + 1..]), bound);
  }

  /**
   * Moving the record at `i` of `a` to the end of `b` keeps the invariant
   * of the two stores together.
   */
  lemma MoveKeepsUnique(a: seq<PasswordEntry>, b: seq<PasswordEntry>, i: int, bound: int)
    requires 0 <= i < |a|
    requires UniqueBelow(IdBag(a) + IdBag(b), bound)
    ensures UniqueBelow(IdBag(a[..i] + a[i + 1..]) + IdBag(b + [a[i]]), bound)
    ensures UniqueBelow(IdBag(b + [a[i]]) + IdBag(a[..i] + a[i + 1..]), bound)
  {
    MoveKeepsBag(a, b, i);
    var rest, moved := IdBag(a[..i] + a[i + 1..]), IdBag(b + [a[i]]);
    assert moved + rest == rest + moved;
  }

  lemma MoveKeepsBag(a: seq<PasswordEntry>, b: seq<PasswordEntry>, i: int)
    requires 0 <= i < |a|
    ensures IdBag(a[..i] + a[i + 1..]) + IdBag(b + [a[i]]) == IdBag(a) + IdBag(b)
  {
    IdBagSplit(a, i);
    IdBagConcat(b, [a[i]]);
    IdBagSingle(a[i]);
  }

  lemma IdBagSingle(e: PasswordEntry)
    ensures IdBag([e]) == multiset{e.id}
  {
    assert [e][1..] == [];
  }

  /** Putting `e` in place of a record with the same id keeps the invariant. */
  lemma ReplaceKeepsUnique(a: seq<PasswordEntry>, b: seq<PasswordEntry>, i: int, e: PasswordEntry, bound: int)
    requires 0 <= i < |a| && a[i].id == e.id
    requires UniqueBelow(IdBag(a) + IdBag(b), bound)
    ensures UniqueBelow(IdBag(a[i := e]) + IdBag(b), bound)
  {
    var c := a[i := e];
    IdBagSplit(a, i);
    assert c[..i] == a[..i] && c[i + 1..] == a[i + 1..];
    IdBagSplit(c, i);
    assert IdBag(c) == IdBag(a);
  }

  /** Adding a record that takes the counter's id keeps the invariant with the next counter. */
  lemma AppendFreshKeepsUnique(a: seq<PasswordEntry>, b: seq<PasswordEntry>, e: PasswordEntry, bound: int)
    requires e.id == bound >= 1
    requires UniqueBelow(IdBag(a) + IdBag(b), bound)
    ensures UniqueBelow(IdBag(a + [e]) + IdBag(b), bound + 1)
  {
    IdBagConcat(a, [e]);
    IdBagSingle(e);
    var before := IdBag(a) + IdBag(b);
    var after := IdBag(a + [e]) + IdBag(b);
    assert after == before + multiset{bound};
    forall v | v in after
      ensures after[v] == 1 && 1 <= v < bound + 1
    {
      if v == bound {
        assert v !in before;
      } else {
        assert v in before;
      }
    }
  }

  /** The bag of ids only depends on the `id` fields. */
  twostate lemma IdBagKept(s: seq<PasswordEntry>)
    requires forall x | x in s :: x.id == old(x.id)
    ensures IdBag(s) == old(IdBag(s))
    decreases |s|
  {
    if |s| > 0 {
      IdBagKept(s[1..]);
    }
  }

  /** A store whose ids are unique holds different ids at different positions. */
  lemma IdsDistinct(s: seq<PasswordEntry>, bound: int, i: int, j: int)
    requires UniqueBelow(IdBag(s), bound)
    requires 0 <= i < j < |s|
    ensures s[i].id != s[j].id
  {
    IdBagSplit(s, j);
    IdBagSplit(s[..j], i);
    assert s[..j][i] == s[i];
    assert IdBag(s)[s[j].id] >= IdBag(s[..j])[s[j].id] + 1;
  }

  /** Two stores that are well identified together share no record. */
  lemma StoresDisjoint(a: seq<PasswordEntry>, b: seq<PasswordEntry>, bound: int)
    requires UniqueBelow(IdBag(a) + IdBag(b), bound)
    ensures forall x | x in b :: x !in a
  {
    forall x | x in b && x in a
      ensures false
    {
      IdBagHas(a, x);
      IdBagHas(b, x);
      var both := IdBag(a) + IdBag(b);
      assert both[x.id] >= 2;
      UniqueAt(both, bound, x.id);
    }
  }

  /**
   * Under the invariant the record at `i` of `a` is the only holder of its
   * id: the other store has none, and neither has `a` once it is taken out.
   */
  lemma OnlyHolder(a: seq<PasswordEntry>, b: seq<PasswordEntry>, i: int, bound: int)
    requires 0 <= i < |a|
    requires UniqueBelow(IdBag(a) + IdBag(b), bound)
    ensures IndexOfId(b, a[i].id) < 0
    ensures IndexOfId(a[..i] + a[i + 1..], a[i].id) < 0
  {
    var id := a[i].id;
    IdBagHas(a, a[i]);
    UniqueAt(IdBag(a) + IdBag(b), bound, id);
    NotInBag(b, id);
    IdBagSplit(a, i);
    NotInBag(a[..i] + a[i + 1..], id);
  }

  /** A store whose bag lacks an id has no record with it. */
  lemma NotInBag(s: seq<PasswordEntry>, id: int)
    requires IdBag(s)[id] == 0
    ensures IndexOfId(s, id) < 0
  {
    forall k | 0 <= k < |s|
      ensures s[k].id != id
    {
      IdBagHas(s, s[k]);
    }
  }

  /** A record appended to a store without its id is the first match for it. */
  lemma IndexOfIdAppend(s: seq<PasswordEntry>, x: PasswordEntry)
    requires IndexOfId(s, x.id) < 0
    ensures IndexOfId(s + [x], x.id) == |s|
  {
    assert (s + [x])[|s|] == x;
  }

  /** The id of every record of `s` is in its bag. */
  lemma {:induction false} IdBagHas(s: seq<PasswordEntry>, x: PasswordEntry)
    requires x in s
    ensures x.id in IdBag(s)
  {
    if s[0] != x {
      assert x in s[1..];
      IdBagHas(s[1..], x);
    }
  }

  /** `[entry for entry in s if tag in entry.tags]`. */
  function WithTag(s: seq<PasswordEntry>, tag: string): (r: seq<PasswordEntry>)
    reads s
    ensures |r| <= |s|
    ensures forall x | x in r :: x in s && tag in x.tags
    ensures forall x | x in s && tag in x.tags :: x in r
  {
    if |s| == 0 then []
    else (if tag in s[0].tags then [s[0]] else []) + WithTag(s[1..], tag)
  }

  /** Filtering distributes over concatenation, so it keeps the order of the store. */
  lemma {:induction false} WithTagConcat(a: seq<PasswordEntry>, b: seq<PasswordEntry>, tag: string)
    ensures WithTag(a + b, tag) == WithTag(a, tag) + WithTag(b, tag)
  {
    if |a| == 0 {
      assert a + b == b;
    } else {
      assert (a + b)[1..] == a[1..] + b;
      WithTagConcat(a[1..], b, tag);
    }
  }

  /** The filter keeps each record carrying the tag as often as the store holds it, and no other. */
  lemma {:induction false} WithTagCount(s: seq<PasswordEntry>, tag: string)
    ensures forall x: PasswordEntry :: multiset(WithTag(s, tag))[x] == if tag in x.tags then multiset(s)[x] else 0
  {
    if |s| > 0 {
      WithTagCount(s[1..], tag);
      assert s == [s[0]] + s[1..];
    }
  }

  /** The filter keeps a single record exactly when it carries the tag. */
  lemma WithTagSingle(x: PasswordEntry, tag: string)
    ensures WithTag([x], tag) == if tag in x.tags then [x] else []
  {
    assert [x][1..] == [];
  }

  /** When every entry carries the tag, the filter returns the store unchanged. */
  lemma {:induction false} WithTagAll(s: seq<PasswordEntry>, tag: string)
    requires forall k | 0 <= k < |s| :: tag in s[k].tags
    ensures WithTag(s, tag) == s
  {
    if |s| > 0 {
      WithTagAll(s[1..], tag);
    }
  }

  /** `[entry for entry in s if entry.next_expiration < now]`. */
  function ExpiredAt(s: seq<PasswordEntry>, now: Timestamp): (r: seq<PasswordEntry>)
    reads s
    ensures |r| <= |s|
    ensures forall x | x in r :: x in s && x.nextExpiration < now
    ensures forall x | x in s && x.nextExpiration < now :: x in r
  {
    if |s| == 0 then []
    else (if s[0].nextExpiration < now then [s[0]] else []) + ExpiredAt(s[1..], now)
  }

  /** The expiry filter distributes over concatenation, so it keeps the order of the store. */
  lemma {:induction false} ExpiredAtConcat(a: seq<PasswordEntry>, b: seq<PasswordEntry>, now: Timestamp)
    ensures ExpiredAt(a + b, now) == ExpiredAt(a, now) + ExpiredAt(b, now)
  {
    if |a| == 0 {
      assert a + b == b;
    } else {
      assert (a + b)[1..] == a[1..] + b;
      ExpiredAtConcat(a[1..], b, now);
    }
  }

  /** The expiry filter keeps each expired record as often as the store holds it, and no other. */
  lemma {:induction false} ExpiredAtCount(s: seq<PasswordEntry>, now: Timestamp)
    ensures forall x: PasswordEntry :: multiset(ExpiredAt(s, now))[x] == if x.nextExpiration < now then multiset(s)[x] else 0
  {
    if |s| > 0 {
      ExpiredAtCount(s[1..], now);
      assert s == [s[0]] + s[1..];
    }
  }

  /**
   * An entry whose policy is disabled and whose expiration was recomputed
   * holds the far-future sentinel, so before that instant it is never expired.
   */
  lemma DisabledNeverExpires(s: seq<PasswordEntry>, now: Timestamp, cal: Calendar, e: PasswordEntry)
    requires now <= FAR_FUTURE
    requires e.expirationInterval <= 0 && e.ExpirationConsistent(cal)
    ensures e !in ExpiredAt(s, now)
  {
  }

  /** The distinct tags of the entries of `s`. */
  function AllTags(s: seq<PasswordEntry>): (r: set<string>)
    reads s
    ensures forall t :: t in r <==> exists x | x in s :: t in x.tags
  {
    if |s| == 0 then {}
    else
      var rest := AllTags(s[1..]);
      assert forall x | x in s :: x == s[0] || x in s[1..];
      (set t | t in s[0].tags) + rest
  }

  /** The largest of a non-empty list of ids. */
  function MaxId(ids: seq<int>): (m: int)
    requires |ids| > 0
    ensures m in ids
    ensures forall k | 0 <= k < |ids| :: ids[k] <= m
  {
    if |ids| == 1 then ids[0]
    else
      var m := MaxId(ids[1..]);
      assert forall k | 1 <= k < |ids| :: ids[k] == ids[1..][k - 1];
      if ids[0] < m then m else ids[0]
  }

  /**
   * The counter a reloaded store resumes from: one past the largest id held,
   * so that no id still present is issued again. `max` of no ids fails.
   */
  function NextIdAfterLoad(ids: seq<int>): (r: Result<int>)
    ensures r.Ok? <==> |ids| > 0
    ensures r.Ok? ==> (r.value - 1) in ids && forall k | 0 <= k < |ids| :: ids[k] < r.value
    ensures r.Err? ==> r.error == EmptyMax
  {
    if |ids| == 0 then Err(EmptyMax) else Ok(MaxId(ids) + 1)
  }
}
