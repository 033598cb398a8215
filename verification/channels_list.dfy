/**
 * The state logic of the channel list, lifted out of the component: the
 * loaded list (`data.channels` of the shared store), the displayed list, the
 * page offset and the `hasMore` latch. Each handler is one atomic transition.
 */
module ChannelsList {
  import opened Text
  import opened Seqs
  import opened Records
  import opened Store
  import Parser

  /** The page size of `loadChannels`. */
  const Limit: int := 20

  /** An element of the lists: a row from a page or a search, or a parsed channel from an import. */
  datatype Entry = Stored(row: Row) | Parsed(channel: Channel)
  {
    /** The entry's `name` property. */
    function Name(): JsText {
      match this
      case Stored(r) => Str(r.name)
      case Parsed(c) => c.name
    }

    /** The entry after `e.name = n`. */
    function WithName(n: string): Entry {
      match this
      case Stored(r) => Stored(r.(name := n))
      case Parsed(c) => Parsed(c.(name := Str(n)))
    }
  }

  /** Rows as they arrive in the UI. */
  function FromRows(rows: seq<Row>): seq<Entry> {
    seq(|rows|, i requires 0 <= i < |rows| => Stored(rows[i]))
  }

  /** Parsed channels as they are appended by an import. */
  function FromParsed(chs: seq<Channel>): seq<Entry> {
    seq(|chs|, i requires 0 <= i < |chs| => Parsed(chs[i]))
  }

  /** `name.toLowerCase().includes(query.toLowerCase())`: both sides lowered by JavaScript. */
  predicate LocalNameMatches(name: string, query: string) {
    Contains(JsLower(name), JsLower(query))
  }

  /** The local filter's test on an entry with a string name. */
  predicate LocalMatch(e: Entry, query: string) {
    e.Name().Str? && LocalNameMatches(e.Name().value, query)
  }

  /**
   * The local filter folds the capitals JavaScript folds, beyond ASCII: the
   * query `"é"` finds a loaded `"É"`, which the store's search would not find,
   * and so do Greek `"ά"` for `"Ά"` and Cyrillic `"ґ"` for `"Ґ"` and `"ә"` for `"Ә"`.
   */
  lemma LocalFoldsBeyondAscii()
    ensures LocalNameMatches("\U{00C9}", "\U{00E9}")
    ensures !NameMatches("\U{00C9}", "\U{00E9}")
    ensures LocalNameMatches("\U{0386}", "\U{03AC}")
    ensures LocalNameMatches("\U{0490}", "\U{0491}") && LocalNameMatches("\U{04D8}", "\U{04D9}")
  {
    assert JsLower("\U{0386}") == "\U{03AC}" == JsLower("\U{03AC}");
    assert StartsWith("\U{03AC}", "\U{03AC}");
    assert JsLower("\U{0490}") == "\U{0491}" == JsLower("\U{0491}");
    assert StartsWith("\U{0491}", "\U{0491}");
    assert JsLower("\U{04D8}") == "\U{04D9}" == JsLower("\U{04D9}");
    assert StartsWith("\U{04D9}", "\U{04D9}");
    assert JsLower("\U{00C9}") == "\U{00E9}" == JsLower("\U{00E9}");
    assert StartsWith("\U{00E9}", "\U{00E9}");
    var stored := AsciiLower("\U{00C9}");
    assert stored == "\U{00C9}" && AsciiLower(JsLower("\U{00E9}")) == "\U{00E9}";
    assert !StartsWith(stored, "\U{00E9}") by {
      assert stored[0] != '\U{00E9}';
    }
    ShorterNotContains(stored[1..], "\U{00E9}");
  }

  /** Some entry's name is not a string, so `channel.name.toLowerCase()` throws on it. */
  predicate SomeNameMissing(entries: seq<Entry>) {
    exists k :: 0 <= k < |entries| && !entries[k].Name().Str?
  }

  /**
   * The local search: the loaded entries whose lower-cased name contains the
   * lower-cased query, in order; `None` when the filter throws.
   */
  function LocalResults(loaded: seq<Entry>, query: string): (r: Option<seq<Entry>>)
    ensures r.None? <==> SomeNameMissing(loaded)
    ensures r.Some? ==> forall k :: 0 <= k < |r.value| ==>
      r.value[k] in loaded && LocalNameMatches(r.value[k].Name().value, query)
    ensures r.Some? ==> forall k :: 0 <= k < |loaded| && LocalNameMatches(loaded[k].Name().value, query) ==>
      loaded[k] in r.value
  {
    if SomeNameMissing(loaded) then None
    else Some(Filter(loaded, e => LocalMatch(e, query)))
  }

  /** The local results keep the loaded order: those of a concatenation are those of each part, in turn. */
  lemma LocalResultsConcat(a: seq<Entry>, b: seq<Entry>, query: string)
    requires !SomeNameMissing(a + b)
    ensures !SomeNameMissing(a) && !SomeNameMissing(b)
    ensures LocalResults(a + b, query).value == LocalResults(a, query).value + LocalResults(b, query).value
  {
    forall k | 0 <= k < |a|
      ensures a[k].Name().Str?
    {
      assert (a + b)[k] == a[k];
    }
    forall k | 0 <= k < |b|
      ensures b[k].Name().Str?
    {
      assert (a + b)[|a| + k] == b[k];
    }
    FilterConcat(a, b, e => LocalMatch(e, query));
  }

  /** A word the name cleaner keeps: it contains none of `(`, `[` and `{`. */
  predicate KeepWord(w: string) {
    '(' !in w && '[' !in w && '{' !in w
  }

  /** The `hidedetails` cleaner: `name.split(" ").filter(KeepWord).join(" ")`. */
  function HideDetails(name: string): string {
    Join(Filter(Split(name, ' '), KeepWord), ' ')
  }

  /**
   * The cleaned name consists, in order, of exactly the space-separated words
   * of `name` that contain none of `(`, `[`, `{`; it is `""` when there is none.
   */
  lemma HideDetailsWords(name: string)
    ensures var kept := Filter(Split(name, ' '), KeepWord);
      && (kept == [] ==> HideDetails(name) == "")
      && (kept != [] ==> Split(HideDetails(name), ' ') == kept)
  {
    var kept := Filter(Split(name, ' '), KeepWord);
    if kept != [] {
      SplitJoin(kept, ' ');
    }
  }

  /** Cleaning a cleaned name changes nothing, so re-rendering the mutated names is harmless. */
  lemma HideDetailsIdempotent(name: string)
    ensures HideDetails(HideDetails(name)) == HideDetails(name)
  {
    var kept := Filter(Split(name, ' '), KeepWord);
    HideDetailsWords(name);
    if kept == [] {
      assert Split("", ' ') == [""];
      assert Filter([""], KeepWord) == [""];
    } else {
      FilterAll(kept, KeepWord);
    }
  }

  /** The entry after the render step `e.name = <cleaned e.name>`. */
  function Cleaned(e: Entry): Entry
    requires e.Name().Str?
  {
    e.WithName(HideDetails(e.Name().value))
  }

  /** Cleaning an entry twice is cleaning it once. */
  lemma CleanedIdempotent(e: Entry)
    requires e.Name().Str?
    ensures Cleaned(e).Name().Str? && Cleaned(Cleaned(e)) == Cleaned(e)
  {
    HideDetailsIdempotent(e.Name().value);
  }

  /** The index of the first entry whose name is not a string, or the length. */
  function FirstMissingName(entries: seq<Entry>): (n: nat)
    ensures n <= |entries|
    ensures forall k :: 0 <= k < n ==> entries[k].Name().Str?
    ensures n < |entries| ==> !entries[n].Name().Str?
    decreases |entries|
  {
    if entries == [] || !entries[0].Name().Str? then 0
    else 1 + FirstMissingName(entries[1..])
  }

  /** The entries fetched by `k` successful page loads, at offsets 0, 20, 40, ... of an unchanging table. */
  function Scrolled(rows: seq<Row>, k: nat): seq<Row> {
    if k == 0 then [] else Scrolled(rows, k - 1) + GetChannelsPaginated(rows, Limit, (k - 1) * Limit, false)
  }

  /**
   * Pages of 20 at offsets 0, 20, 40, ... tile the id-ordered table: after `k`
   * loads the fetched rows are its first `min(20 k, n)`; the page at offset `20 k`
   * is empty exactly when `20 k >= n`.
   */
  lemma {:induction false} PagesCover(rows: seq<Row>, k: nat)
    ensures Scrolled(rows, k) == rows[..if k * Limit < |rows| then k * Limit else |rows|]
    ensures GetChannelsPaginated(rows, Limit, k * Limit, false) == [] <==> k * Limit >= |rows|
  {
    PageSlice(rows, k * Limit);
    if k > 0 {
      var o := (k - 1) * Limit;
      PagesCover(rows, k - 1);
      PageSlice(rows, o);
      var lo := if o < |rows| then o else |rows|;
      var hi := if o + Limit < |rows| then o + Limit else |rows|;
      assert Scrolled(rows, k) == rows[..lo] + rows[lo..hi];
      PrefixThenSlice(rows, lo, hi);
    }
  }

  /** A prefix followed by the slice after it is the longer prefix. */
  lemma PrefixThenSlice(rows: seq<Row>, lo: nat, hi: nat)
    requires lo <= hi <= |rows|
    ensures rows[..lo] + rows[lo..hi] == rows[..hi]
  {
  }

  /** The page of 20 at a non-negative offset `o` is the slice from `min(o, n)` to `min(o + 20, n)`. */
  lemma PageSlice(rows: seq<Row>, o: nat)
    ensures
      var lo := if o < |rows| then o else |rows|;
      var hi := if o + Limit < |rows| then o + Limit else |rows|;
      GetChannelsPaginated(rows, Limit, o, false) == rows[lo..hi]
  {
  }

  /** The channel list's state and its handlers. */
  class ChannelList {
    /** `data.channels`: everything loaded or imported so far. */
    var loaded: seq<Entry>
    /** `displayedChannels`: what the list shows. */
    var displayed: seq<Entry>
    var offset: int
    var hasMore: bool
    /** The search box's text. */
    var search: string

    ghost predicate Valid()
      reads this
    {
      offset >= 0 && offset % Limit == 0
    }

    /** First mount: nothing loaded, offset 0, more pages expected. */
    constructor ()
      ensures Valid()
      ensures loaded == [] && displayed == [] && offset == 0 && hasMore && search == ""
    {
      loaded, displayed := [], [];
      offset, hasMore := 0, true;
      search := "";
    }

    /**
     * `loadChannels`: nothing when `hasMore` is false; otherwise fetch the page
     * at `offset` (an empty one when the read fails). An empty page latches
     * `hasMore` to false and changes nothing else; a non-empty page, short or
     * not, is appended to both lists and advances the offset by exactly 20.
     */
    method LoadChannels(store: ChannelStore, failed: bool)
      requires Valid()
      modifies this
      ensures Valid() && search == old(search)
      ensures !old(hasMore) ==> !hasMore && loaded == old(loaded) && displayed == old(displayed) && offset == old(offset)
      ensures hasMore ==> old(hasMore)
      ensures old(hasMore) ==>
        var page := FromRows(GetChannelsPaginated(store.rows, Limit, old(offset), failed));
        if page == [] then
          !hasMore && loaded == old(loaded) && displayed == old(displayed) && offset == old(offset)
        else
          hasMore && loaded == old(loaded) + page && displayed == old(displayed) + page
          && offset == old(offset) + Limit
    {
      if !hasMore {
        return;
      }
      var newChannels := FromRows(GetChannelsPaginated(store.rows, Limit, offset, failed));
      if |newChannels| == 0 {
        hasMore := false;
      } else {
        loaded := loaded + newChannels;
        displayed := displayed + newChannels;
        offset := offset + Limit;
      }
    }

    /**
     * `searchChannels(query)`: a blank query shows everything loaded; otherwise
     * the local matches when there are any, and the store's search only when
     * there are none. When a loaded name is not a string the filter throws and
     * only the search box changes.
     */
    method SearchChannels(query: string, store: ChannelStore, failed: bool)
      requires Valid()
      modifies this
      ensures Valid()
      ensures search == query && loaded == old(loaded) && offset == old(offset) && hasMore == old(hasMore)
      ensures (forall i :: 0 <= i < |query| ==> IsJsSpace(query[i])) ==> displayed == loaded
      ensures !(forall i :: 0 <= i < |query| ==> IsJsSpace(query[i])) ==>
        match LocalResults(loaded, query)
        case None => displayed == old(displayed)
        case Some(local) =>
          if local != [] then displayed == local
          else displayed == FromRows(SearchChannelsByName(store.rows, query, failed))
    {
      search := query;
      TrimEmptyIffBlank(query);
      if Trim(query) == "" {
        displayed := loaded;
        return;
      }
      var localResults := LocalResults(loaded, query);
      if localResults.None? {
        return;
      }
      if |localResults.value| > 0 {
        displayed := localResults.value;
      } else {
        displayed := FromRows(SearchChannelsByName(store.rows, query, failed));
      }
    }

    /** The import's last step: when the insert reports success, append every parsed channel to both lists. */
    method AppendImported(channels: seq<Channel>, success: bool)
      requires Valid()
      modifies this
      ensures Valid()
      ensures offset == old(offset) && hasMore == old(hasMore) && search == old(search)
      ensures success ==> loaded == old(loaded) + FromParsed(channels) && displayed == old(displayed) + FromParsed(channels)
      ensures !success ==> loaded == old(loaded) && displayed == old(displayed)
    {
      if success {
        loaded := loaded + FromParsed(channels);
        displayed := displayed + FromParsed(channels);
      }
    }

    /**
     * The file import: parse the text, insert the candidates, and append all of
     * them to both lists, stored or refused alike, since the insert handler
     * always replies `{ success: true }`.
     */
    method ImportFile(file: string, store: ChannelStore)
      requires Valid() && store.Valid()
      modifies this, store
      ensures Valid() && store.Valid()
      ensures Table(store.rows, store.lastId) == InsertAll(old(Table(store.rows, store.lastId)), Parser.Parse(file))
      ensures loaded == old(loaded) + FromParsed(Parser.Parse(file))
      ensures displayed == old(displayed) + FromParsed(Parser.Parse(file))
      ensures offset == old(offset) && hasMore == old(hasMore) && search == old(search)
    {
      var channels := Parser.M3u8Parser(file);
      store.InsertChannels(channels);
      var success := true;
      AppendImported(channels, success);
    }

    /**
     * The render pass with `hidedetails`: cleans each displayed name in place,
     * in order, and stops at the first entry whose name is not a string (where
     * `e.name.split` throws). `rendered` tells whether the pass got through.
     */
    method CleanNamesOnRender() returns (rendered: bool)
      requires Valid()
      modifies this
      ensures Valid()
      ensures loaded == old(loaded) && offset == old(offset) && hasMore == old(hasMore) && search == old(search)
      ensures rendered <==> !SomeNameMissing(old(displayed))
      ensures |displayed| == |old(displayed)|
      ensures forall k :: 0 <= k < |displayed| ==>
        displayed[k] == if k < FirstMissingName(old(displayed)) then Cleaned(old(displayed)[k]) else old(displayed)[k]
    {
      ghost var before := displayed;
      var i := 0;
      while i < |displayed|
        invariant 0 <= i <= |displayed| == |before|
        invariant loaded == old(loaded) && offset == old(offset) && hasMore == old(hasMore) && search == old(search)
        invariant i <= FirstMissingName(before)
        invariant forall k :: 0 <= k < i ==> displayed[k] == Cleaned(before[k])
        invariant forall k :: i <= k < |displayed| ==> displayed[k] == before[k]
      {
        var e := displayed[i];
        if !e.Name().Str? {
          assert FirstMissingName(before) == i;
          return false;
        }
        displayed := displayed[i := Cleaned(e)];
        i := i + 1;
      }
      assert FirstMissingName(before) == |before|;
      return true;
    }
  }
}
