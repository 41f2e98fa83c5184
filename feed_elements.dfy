/**
 * The XML elements `create_combined_feed` works on, reduced to what its rules
 * look at. An entry is an Atom `<entry>` element: its `<title>`, the text of
 * its `<updated>` child and its other child elements in document order.
 */
module FeedElements {
  import opened Options
  import opened TitleEscape

  const ZoteroNs: string := "http://zotero.org/ns/api"

  /** ElementTree writes a namespaced tag as `{namespace}local`. */
  const ZoteroPrefix: string := "{" + ZoteroNs + "}"

  /** A child element: its qualified tag and, abstractly, everything else it holds. */
  datatype Child = Child(tag: string, content: string)

  /** The child belongs to the Zotero API namespace. */
  predicate IsZotero(c: Child) {
    ZoteroPrefix <= c.tag
  }

  class Entry {
    /** The `<title>` child, `None` when the entry has none. Missing text is the empty string. */
    var title: Option<Title>
    /** The text of the `<updated>` child, `None` when there is none; the feed never changes it. */
    const updated: Option<string>
    /** The entry's remaining child elements, in document order. */
    var children: seq<Child>

    constructor (title: Option<Title>, updated: Option<string>, children: seq<Child>)
      ensures this.title == title && this.updated == updated && this.children == children
    {
      this.title := title;
      this.updated := updated;
      this.children := children;
    }
  }

  /** The `<feed>` element being built: its `<updated>` time and the entries appended to it. */
  class Feed {
    var updated: int
    var entries: seq<Entry>

    constructor (updated: int)
      ensures this.updated == updated && entries == []
    {
      this.updated := updated;
      entries := [];
    }

    /** `feed.append(entry)`. */
    method Append(e: Entry)
      modifies this
      ensures updated == old(updated) && entries == old(entries) + [e]
    {
      entries := entries + [e];
    }
  }
}
