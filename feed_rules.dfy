/**
 * The two rules of `create_combined_feed` that are not about titles, stated
 * on values: which children survive namespace stripping, and which time the
 * feed's `<updated>` element carries.
 */
module FeedRules {
  import opened Options
  import opened FeedElements

  /** The children that stay once every Zotero-namespace child is removed. */
  function WithoutZotero(cs: seq<Child>): (r: seq<Child>)
    ensures forall k :: 0 <= k < |r| ==> !IsZotero(r[k])
    ensures |r| <= |cs|
  {
    if cs == [] then []
    else (if IsZotero(cs[0]) then [] else [cs[0]]) + WithoutZotero(cs[1..])
  }

  /** `a` can be obtained from `b` by deleting elements. */
  predicate IsSubsequence<T(==)>(a: seq<T>, b: seq<T>)
    decreases |b|
  {
    a == [] || (b != [] && ((a[0] == b[0] && IsSubsequence(a[1..], b[1..])) || IsSubsequence(a, b[1..])))
  }

  lemma {:induction false} WithoutZoteroAppend(a: seq<Child>, b: seq<Child>)
    ensures WithoutZotero(a + b) == WithoutZotero(a) + WithoutZotero(b)
    decreases |a|
  {
    if a == [] {
      assert a + b == b;
    } else {
      assert (a + b)[0] == a[0];
      assert (a + b)[1..] == a[1..] + b;
      WithoutZoteroAppend(a[1..], b);
    }
  }

  /** The survivors keep their original relative order. */
  lemma {:induction false} WithoutZoteroKeepsOrder(cs: seq<Child>)
    ensures IsSubsequence(WithoutZotero(cs), cs)
    decreases |cs|
  {
    if cs != [] {
      WithoutZoteroKeepsOrder(cs[1..]);
      var rest := WithoutZotero(cs[1..]);
      if !IsZotero(cs[0]) {
        assert WithoutZotero(cs) == [cs[0]] + rest;
        assert ([cs[0]] + rest)[1..] == rest;
      } else {
        assert WithoutZotero(cs) == rest;
      }
    }
  }

  /** Every non-Zotero child survives, as often as it occurred. */
  lemma {:induction false} WithoutZoteroKeepsOthers(cs: seq<Child>, c: Child)
    requires !IsZotero(c)
    ensures multiset(WithoutZotero(cs))[c] == multiset(cs)[c]
    decreases |cs|
  {
    if cs != [] {
      assert cs == [cs[0]] + cs[1..];
      WithoutZoteroKeepsOthers(cs[1..], c);
    }
  }

  /** Stripping an entry that has no Zotero children changes nothing, so stripping twice is stripping once. */
  lemma {:induction false} WithoutZoteroNoop(cs: seq<Child>)
    requires forall k :: 0 <= k < |cs| ==> !IsZotero(cs[k])
    ensures WithoutZotero(cs) == cs
    decreases |cs|
  {
    if cs != [] {
      WithoutZoteroNoop(cs[1..]);
      assert cs == [cs[0]] + cs[1..];
    }
  }

  /** One step of the loop that removes Zotero children in place: a Zotero child
   * is taken out right after the survivors so far, any other child is kept. */
  lemma RemovalStep(snapshot: seq<Child>, i: nat)
    requires i < |snapshot|
    ensures var done, cur := WithoutZotero(snapshot[..i]), WithoutZotero(snapshot[..i]) + snapshot[i..];
            var next := WithoutZotero(snapshot[..i + 1]);
            if IsZotero(snapshot[i]) then
              next == done && cur[..|done|] + cur[|done| + 1..] == next + snapshot[i + 1..]
            else
              next == done + [snapshot[i]] && cur == next + snapshot[i + 1..]
  {
    assert snapshot[..i + 1] == snapshot[..i] + [snapshot[i]];
    WithoutZoteroAppend(snapshot[..i], [snapshot[i]]);
    assert WithoutZotero([snapshot[i]])
        == (if IsZotero(snapshot[i]) then [] else [snapshot[i]]) + WithoutZotero([]);
    var done := WithoutZotero(snapshot[..i]);
    var cur := done + snapshot[i..];
    assert cur[..|done|] == done;
    assert cur[|done| + 1..] == snapshot[i + 1..];
    assert snapshot[i..] == [snapshot[i]] + snapshot[i + 1..];
  }

  /**
   * The timestamp an entry contributes: the parsed text of its `<updated>`
   * child, or nothing when the child is missing, empty or unparsable.
   */
  function EntryStamp(updated: Option<string>, parse: string -> Option<int>): Option<int> {
    match updated
    case None => None
    case Some(text) => if text == "" then None else parse(text)
  }

  function Max(a: int, b: int): int {
    if a >= b then a else b
  }

  /** `r` is the maximum of `now` and every valid timestamp in `stamps`. */
  predicate IsLatest(r: int, now: int, stamps: seq<Option<int>>) {
    && r >= now
    && (forall i :: 0 <= i < |stamps| && stamps[i].Some? ==> stamps[i].value <= r)
    && (r == now || exists i :: 0 <= i < |stamps| && stamps[i] == Some(r))
  }

  /** The running `max(latest_update_time, dt)`, started at the run's current time. */
  function Latest(now: int, stamps: seq<Option<int>>): (r: int)
    ensures IsLatest(r, now, stamps)
    decreases |stamps|
  {
    if stamps == [] then now
    else
      var prefix := stamps[..|stamps| - 1];
      var prev := Latest(now, prefix);
      assert forall i :: 0 <= i < |prefix| ==> prefix[i] == stamps[i];
      match stamps[|stamps| - 1]
      case None => prev
      case Some(t) => Max(prev, t)
  }

  /** Taking in the i-th timestamp: an invalid one leaves the maximum alone, a valid one is folded in. */
  lemma LatestStep(now: int, stamps: seq<Option<int>>, i: nat)
    requires i < |stamps|
    ensures Latest(now, stamps[..i + 1])
         == if stamps[i].Some? then Max(Latest(now, stamps[..i]), stamps[i].value) else Latest(now, stamps[..i])
  {
    assert stamps[..i + 1][..i] == stamps[..i];
  }

  /** An entry without a valid timestamp does not move the feed's time, wherever it stands. */
  lemma {:induction false} LatestIgnoresInvalid(now: int, a: seq<Option<int>>, b: seq<Option<int>>)
    ensures Latest(now, a + [None] + b) == Latest(now, a + b)
    decreases |b|
  {
    if b == [] {
      assert a + [None] + b == a + [None];
      assert (a + [None])[..|a|] == a;
      assert a + b == a;
    } else {
      var front := b[..|b| - 1];
      LatestIgnoresInvalid(now, a, front);
      assert (a + [None] + b)[..|a + [None] + b| - 1] == a + [None] + front;
      assert (a + b)[..|a + b| - 1] == a + front;
      assert (a + [None] + b)[|a + [None] + b| - 1] == b[|b| - 1];
      assert (a + b)[|a + b| - 1] == b[|b| - 1];
    }
  }

  /** The newest valid timestamp, `None` when no timestamp is valid. */
  function Newest(stamps: seq<Option<int>>): (r: Option<int>)
    ensures r.None? <==> forall i :: 0 <= i < |stamps| ==> stamps[i].None?
    ensures r.Some? ==> forall i :: 0 <= i < |stamps| && stamps[i].Some? ==> stamps[i].value <= r.value
    ensures r.Some? ==> exists i :: 0 <= i < |stamps| && stamps[i] == r
    decreases |stamps|
  {
    if stamps == [] then None
    else
      var prefix := stamps[..|stamps| - 1];
      var prev := Newest(prefix);
      assert forall i :: 0 <= i < |prefix| ==> prefix[i] == stamps[i];
      match stamps[|stamps| - 1]
      case None => prev
      case Some(t) => if prev.Some? then Some(Max(prev.value, t)) else Some(t)
  }

  /**
   * The feed time the comment above the computation describes: the newest
   * entry's timestamp, and the current time only when no entry has a valid one.
   */
  function NewestOrNow(now: int, stamps: seq<Option<int>>): (r: int)
    ensures (forall i :: 0 <= i < |stamps| ==> stamps[i].None?) ==> r == now
    ensures (exists i :: 0 <= i < |stamps| && stamps[i].Some?) ==>
              (forall i :: 0 <= i < |stamps| && stamps[i].Some? ==> stamps[i].value <= r) &&
              (exists i :: 0 <= i < |stamps| && stamps[i] == Some(r))
  {
    var newest := Newest(stamps);
    if newest.Some? then newest.value else now
  }

  /** What the code computes is the larger of the current time and the intended value. */
  lemma LatestIsNowOrNewest(now: int, stamps: seq<Option<int>>)
    ensures Latest(now, stamps) == Max(now, NewestOrNow(now, stamps))
  {
    var r, n := Latest(now, stamps), Newest(stamps);
    if n.Some? {
      assert r >= n.value;
      if r != now {
        var i :| 0 <= i < |stamps| && stamps[i] == Some(r);
        assert r <= n.value;
      }
    }
  }

  /**
   * The two disagree whenever every entry is older than the run: with the
   * current time 100 and one entry stamped 50 the code gives 100, the comment 50.
   */
  lemma OlderEntriesGiveNow()
    ensures Latest(100, [Some(50)]) == 100
    ensures NewestOrNow(100, [Some(50)]) == 50
  {
    assert [Some(50)][..0] == [];
  }
}
