/**
 * `create_combined_feed`: one pass over the entries computes the feed's time
 * and rewrites each title in place; a second pass strips every entry's
 * Zotero-namespace children in place and appends the entry to the new feed.
 */
module CombinedFeed {
  import opened Options
  import opened TitleEscape
  import opened FeedElements
  import opened FeedRules

  /** No entry object occurs twice (each is a separate element of a parsed page). */
  predicate Distinct(es: seq<Entry>) {
    forall i, j :: 0 <= i < j < |es| ==> es[i] != es[j]
  }

  /** The timestamps the entries contribute, in order. */
  function Stamps(es: seq<Entry>, parse: string -> Option<int>): seq<Option<int>> {
    seq(|es|, i requires 0 <= i < |es| => EntryStamp(es[i].updated, parse))
  }

  /**
   * An entry whose `<updated>` child is missing, empty or unparsable does not
   * move the feed's time, wherever it stands among the entries.
   */
  lemma InvalidEntryKeepsTime(now: int, a: seq<Entry>, e: Entry, b: seq<Entry>, parse: string -> Option<int>)
    requires EntryStamp(e.updated, parse).None?
    ensures Latest(now, Stamps(a + [e] + b, parse)) == Latest(now, Stamps(a + b, parse))
  {
    assert Stamps(a + [e] + b, parse) == Stamps(a, parse) + [None] + Stamps(b, parse);
    assert Stamps(a + b, parse) == Stamps(a, parse) + Stamps(b, parse);
    LatestIgnoresInvalid(now, Stamps(a, parse), Stamps(b, parse));
  }

  /** The title element after the title step; an entry without one keeps none. */
  function ProcessedTitle(t: Option<Title>): Option<Title> {
    if t.Some? then Some(MarkOrEscape(t.value)) else None
  }

  /**
   * The inner loop over `list(entry)`: every child in the Zotero namespace is
   * removed from the entry, the others stay where they were.
   */
  method StripZoteroChildren(entry: Entry)
    modifies entry
    ensures entry.children == WithoutZotero(old(entry.children))
    ensures entry.title == old(entry.title)
  {
    var snapshot := entry.children;
    var i, kept := 0, 0;
    while i < |snapshot|
      invariant 0 <= i <= |snapshot|
      invariant kept == |WithoutZotero(snapshot[..i])|
      invariant entry.children == WithoutZotero(snapshot[..i]) + snapshot[i..]
      invariant entry.title == old(entry.title)
    {
      RemovalStep(snapshot, i);
      if IsZotero(snapshot[i]) {
        // `entry.remove(child)`: the child sits right after the ones kept so far
        entry.children := entry.children[..kept] + entry.children[kept + 1..];
      } else {
        kept := kept + 1;
      }
      i := i + 1;
    }
    assert snapshot[..i] == snapshot;
  }

  /**
   * The title step for one entry: a non-empty title with the `<sub` marker is
   * declared HTML, any other non-empty title has its brackets escaped.
   */
  method ProcessTitle(entry: Entry)
    modifies entry
    ensures entry.title == ProcessedTitle(old(entry.title))
    ensures entry.children == old(entry.children)
  {
    if entry.title.Some? && entry.title.value.text != "" {
      var t := entry.title.value;
      if Contains(t.text, SubMarker) {
        entry.title := Some(t.(typeAttr := Some("html")));
      } else {
        entry.title := Some(t.(text := EscapeAngles(t.text)));
      }
    }
  }

  /**
   * The first pass over the entries: folds every valid timestamp into the
   * running maximum, started at `now`, and processes each title.
   */
  method ScanEntries(es: seq<Entry>, now: int, parse: string -> Option<int>) returns (latest: int)
    requires Distinct(es)
    modifies es
    ensures latest == Latest(now, Stamps(es, parse))
    ensures forall j :: 0 <= j < |es| ==>
              es[j].title == ProcessedTitle(old(es[j].title)) && es[j].children == old(es[j].children)
  {
    ghost var stamps := Stamps(es, parse);
    latest := now;
    var i := 0;
    while i < |es|
      invariant 0 <= i <= |es|
      invariant latest == Latest(now, stamps[..i])
      invariant forall j :: 0 <= j < i ==> es[j].title == ProcessedTitle(old(es[j].title))
      invariant forall j :: i <= j < |es| ==> es[j].title == old(es[j].title)
      invariant forall j :: 0 <= j < |es| ==> es[j].children == old(es[j].children)
    {
      var entry := es[i];
      LatestStep(now, stamps, i);
      match entry.updated {
        case Some(text) =>
          if text != "" {
            var parsed := parse(text);
            if parsed.Some? {
              latest := Max(latest, parsed.value);
            }
          }
        case None =>
      }
      ProcessTitle(entry);
      i := i + 1;
    }
    assert stamps[..i] == stamps;
  }

  /**
   * The second pass: strips each entry's Zotero children and appends the
   * entry to a fresh feed stamped with `updated`.
   */
  method AppendStripped(es: seq<Entry>, updated: int) returns (feed: Feed)
    requires Distinct(es)
    modifies es
    ensures fresh(feed) && feed.entries == es && feed.updated == updated
    ensures forall j :: 0 <= j < |es| ==>
              es[j].title == old(es[j].title) && es[j].children == WithoutZotero(old(es[j].children))
  {
    feed := new Feed(updated);
    var i := 0;
    while i < |es|
      invariant 0 <= i <= |es|
      invariant feed.entries == es[..i] && feed.updated == updated
      invariant forall j :: 0 <= j < |es| ==> es[j].title == old(es[j].title)
      invariant forall j :: 0 <= j < i ==> es[j].children == WithoutZotero(old(es[j].children))
      invariant forall j :: i <= j < |es| ==> es[j].children == old(es[j].children)
    {
      StripZoteroChildren(es[i]);
      feed.Append(es[i]);
      assert es[..i + 1] == es[..i] + [es[i]];
      i := i + 1;
    }
    assert es[..i] == es;
  }

  /**
   * `create_combined_feed(entries)`: `None` when there are no entries,
   * otherwise a fresh feed whose time is the latest of `now` and the
   * entries' valid timestamps and which holds the given entries in order,
   * each with its title processed and its Zotero children removed.
   */
  method CreateCombinedFeed(entries: Option<seq<Entry>>, now: int, parse: string -> Option<int>)
      returns (feed: Option<Feed>)
    requires entries.Some? ==> Distinct(entries.value)
    modifies if entries.Some? then entries.value else []
    ensures entries.None? <==> feed.None?
    ensures entries.Some? ==> fresh(feed.value) && feed.value.entries == entries.value
    ensures entries.Some? ==> feed.value.updated == Latest(now, Stamps(entries.value, parse))
    ensures entries.Some? ==> forall i :: 0 <= i < |entries.value| ==>
              entries.value[i].title == ProcessedTitle(old(entries.value[i].title)) &&
              entries.value[i].children == WithoutZotero(old(entries.value[i].children))
  {
    if entries.None? {
      return None;
    }
    var es := entries.value;
    var latest := ScanEntries(es, now, parse);
    var result := AppendStripped(es, latest);
    feed := Some(result);
  }
}
