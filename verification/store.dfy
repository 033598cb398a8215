/**
 * The `channels` table of the main process and the operations on it:
 *   CREATE TABLE channels (id INTEGER PRIMARY KEY AUTOINCREMENT, name TEXT NOT NULL,
 *                          referer TEXT, link TEXT NOT NULL UNIQUE, state TEXT)
 * `insertChannels` runs one INSERT per candidate and skips the ones SQLite
 * refuses; the three reads are pure queries over the rows in id order.
 */
module Store {
  import opened Text
  import opened Seqs
  import opened Records

  datatype Option<T> = None | Some(value: T)

  /** A stored row: NOT NULL columns are strings, nullable columns options. */
  datatype Row = Row(id: int, name: string, referer: Option<string>, link: string, state: Option<string>)

  /** The rows in storage (id) order and the AUTOINCREMENT counter: the largest id ever issued. */
  datatype Table = Table(rows: seq<Row>, lastId: int)

  /** Why SQLite refuses one INSERT. */
  datatype InsertError = NameIsNull | LinkIsNull | LinkNotUnique

  datatype Outcome = Inserted(row: Row) | Rejected(reason: InsertError)

  /** The links present in the table. */
  function Links(rows: seq<Row>): set<string> {
    set k | 0 <= k < |rows| :: rows[k].link
  }

  /** Rows in strictly ascending id order. */
  predicate IdsAscending(rows: seq<Row>) {
    forall i, j :: 0 <= i < j < |rows| ==> rows[i].id < rows[j].id
  }

  /** The table's invariant: ids ascending and within the counter, links unique. */
  predicate TableValid(t: Table) {
    && t.lastId >= 0
    && IdsAscending(t.rows)
    && (forall i, j :: 0 <= i < j < |t.rows| ==> t.rows[i].link != t.rows[j].link)
    && (forall i :: 0 <= i < |t.rows| ==> 1 <= t.rows[i].id <= t.lastId)
  }

  /** The SQL value a JavaScript value binds to: the string, or NULL for `null` and `undefined`. */
  function Bind(v: JsText): Option<string> {
    if v.Str? then Some(v.value) else None
  }

  /** `channel.referer || null`: NULL exactly for a falsy referer, `""` included. */
  function RefererParam(v: JsText): (r: Option<string>)
    ensures r == None <==> v.Falsy()
    ensures r.Some? ==> v == Str(r.value)
  {
    if v.Falsy() then None else Some(v.value)
  }

  /** A candidate SQLite accepts: neither NOT NULL column is bound to NULL. */
  predicate NotNull(c: Channel) {
    c.name.Str? && c.link.Str?
  }

  /** `row` holds the values bound for `c`. */
  predicate Carries(row: Row, c: Channel) {
    && c.name == Str(row.name)
    && c.link == Str(row.link)
    && row.referer == RefererParam(c.referer)
    && row.state == Bind(c.state)
  }

  /**
   * One `INSERT INTO channels (name, referer, link, state) VALUES (?, ?, ?, ?)`:
   * NOT NULL is checked before UNIQUE, and a new row takes the id after the
   * counter (with the invariant, after every id in the table).
   */
  function Attempt(t: Table, c: Channel): (o: Outcome)
    ensures o.Inserted? <==> NotNull(c) && c.link.value !in Links(t.rows)
    ensures o.Inserted? ==> Carries(o.row, c) && o.row.id == t.lastId + 1
    ensures o.Rejected? ==> (o.reason == LinkNotUnique <==> NotNull(c))
  {
    if !c.name.Str? then Rejected(NameIsNull)
    else if !c.link.Str? then Rejected(LinkIsNull)
    else if c.link.value in Links(t.rows) then Rejected(LinkNotUnique)
    else Inserted(Row(t.lastId + 1, c.name.value, RefererParam(c.referer), c.link.value, Bind(c.state)))
  }

  /** The table after one attempt; a refused candidate leaves it as it was. */
  function InsertOne(t: Table, c: Channel): Table {
    match Attempt(t, c)
    case Inserted(row) => Table(t.rows + [row], row.id)
    case Rejected(_) => t
  }

  /** The table after every candidate of the batch was attempted, in order. */
  function InsertAll(t: Table, batch: seq<Channel>): Table
    decreases |batch|
  {
    if batch == [] then t
    else InsertOne(InsertAll(t, batch[..|batch| - 1]), batch[|batch| - 1])
  }

  /** Candidate `i` of the batch was stored. */
  predicate AcceptedAt(t: Table, batch: seq<Channel>, i: nat)
    requires i < |batch|
  {
    Attempt(InsertAll(t, batch[..i]), batch[i]).Inserted?
  }

  /** The links of the candidates SQLite does not refuse for a NULL. */
  function NotNullLinks(batch: seq<Channel>): set<string> {
    set k | 0 <= k < |batch| && NotNull(batch[k]) :: batch[k].link.value
  }

  /** One attempt keeps the invariant, keeps every old row in place and never lowers the counter. */
  lemma InsertOneValid(t: Table, c: Channel)
    requires TableValid(t)
    ensures TableValid(InsertOne(t, c))
    ensures InsertOne(t, c).rows[..|t.rows|] == t.rows
    ensures InsertOne(t, c).lastId >= t.lastId
    ensures Links(InsertOne(t, c).rows) == Links(t.rows) + (if NotNull(c) then {c.link.value} else {})
  {
    var t' := InsertOne(t, c);
    if Attempt(t, c).Inserted? {
      var row := Attempt(t, c).row;
      assert t'.rows == t.rows + [row];
      assert t'.rows[|t.rows|] == row;
      forall x | x in Links(t'.rows)
        ensures x in Links(t.rows) + {c.link.value}
      {
        var k :| 0 <= k < |t'.rows| && t'.rows[k].link == x;
        if k < |t.rows| {
          assert t'.rows[k] == t.rows[k];
        }
      }
      forall x | x in Links(t.rows) + {c.link.value}
        ensures x in Links(t'.rows)
      {
        if x in Links(t.rows) {
          var k :| 0 <= k < |t.rows| && t.rows[k].link == x;
          assert t'.rows[k] == t.rows[k];
        } else {
          assert t'.rows[|t.rows|].link == x;
        }
      }
    }
  }

  /**
   * The batch keeps the invariant (links unique, ids ascending), keeps every old
   * row in place, and afterwards holds exactly the old links plus the link of
   * every candidate with a non-null name and link: each refusal is on its own.
   */
  lemma {:induction false} InsertAllValid(t: Table, batch: seq<Channel>)
    requires TableValid(t)
    ensures TableValid(InsertAll(t, batch))
    ensures |t.rows| <= |InsertAll(t, batch).rows| && InsertAll(t, batch).rows[..|t.rows|] == t.rows
    ensures InsertAll(t, batch).lastId >= t.lastId
    ensures Links(InsertAll(t, batch).rows) == Links(t.rows) + NotNullLinks(batch)
    decreases |batch|
  {
    if batch != [] {
      var init, c := batch[..|batch| - 1], batch[|batch| - 1];
      InsertAllValid(t, init);
      var mid := InsertAll(t, init);
      var fin := InsertAll(t, batch);
      assert fin == InsertOne(mid, c);
      InsertOneValid(mid, c);
      assert fin.rows[..|t.rows|] == fin.rows[..|mid.rows|][..|t.rows|];
      assert batch == init + [c];
      NotNullLinksSnoc(init, c);
    }
  }

  /** The non-null links of a batch with one more candidate. */
  lemma NotNullLinksSnoc(init: seq<Channel>, c: Channel)
    ensures NotNullLinks(init + [c]) == NotNullLinks(init) + (if NotNull(c) then {c.link.value} else {})
  {
    var batch := init + [c];
    forall x | x in NotNullLinks(batch)
      ensures x in NotNullLinks(init) + (if NotNull(c) then {c.link.value} else {})
    {
      var k :| 0 <= k < |batch| && NotNull(batch[k]) && batch[k].link.value == x;
      if k < |init| {
        assert init[k] == batch[k];
      }
    }
    forall x | x in NotNullLinks(init)
      ensures x in NotNullLinks(batch)
    {
      var k :| 0 <= k < |init| && NotNull(init[k]) && init[k].link.value == x;
      assert batch[k] == init[k];
    }
    if NotNull(c) {
      assert batch[|init|] == c;
    }
  }

  /** The counter after a prefix of the batch never exceeds the counter after a longer prefix. */
  lemma {:induction false} LastIdMonotone(t: Table, batch: seq<Channel>, i: nat, j: nat)
    requires TableValid(t)
    requires i <= j <= |batch|
    ensures InsertAll(t, batch[..i]).lastId <= InsertAll(t, batch[..j]).lastId
    decreases j - i
  {
    if i < j {
      LastIdMonotone(t, batch, i, j - 1);
      assert batch[..j][..j - 1] == batch[..j - 1];
      InsertAllValid(t, batch[..j - 1]);
      InsertOneValid(InsertAll(t, batch[..j - 1]), batch[j - 1]);
    }
  }

  /** The row stored for accepted candidate `i`. */
  function RowOf(t: Table, batch: seq<Channel>, i: nat): Row
    requires i < |batch| && AcceptedAt(t, batch, i)
  {
    Attempt(InsertAll(t, batch[..i]), batch[i]).row
  }

  /**
   * An accepted candidate's row is in the final table and holds its values, and
   * the ids of accepted candidates strictly increase in batch order.
   */
  lemma {:induction false} AcceptedInBatchOrder(t: Table, batch: seq<Channel>, i: nat, j: nat)
    requires TableValid(t)
    requires i < j < |batch| && AcceptedAt(t, batch, i) && AcceptedAt(t, batch, j)
    ensures RowOf(t, batch, i) in InsertAll(t, batch).rows
    ensures Carries(RowOf(t, batch, i), batch[i])
    ensures t.lastId < RowOf(t, batch, i).id < RowOf(t, batch, j).id
  {
    AcceptedStored(t, batch, i);
    LastIdMonotone(t, batch, i + 1, j);
    LastIdMonotone(t, batch, 0, i);
    assert batch[..0] == [];
    assert batch[..i + 1][..i] == batch[..i];
  }

  /** An accepted candidate's row is in the final table, holding its values, after every older id. */
  lemma {:induction false} AcceptedStored(t: Table, batch: seq<Channel>, i: nat)
    requires TableValid(t)
    requires i < |batch| && AcceptedAt(t, batch, i)
    ensures RowOf(t, batch, i) in InsertAll(t, batch).rows
    ensures Carries(RowOf(t, batch, i), batch[i])
    ensures InsertAll(t, batch[..i + 1]).lastId == RowOf(t, batch, i).id
    decreases |batch|
  {
    var init := batch[..|batch| - 1];
    InsertAllValid(t, init);
    InsertOneValid(InsertAll(t, init), batch[|batch| - 1]);
    if i == |batch| - 1 {
      assert init == batch[..i];
      assert batch[..i + 1] == batch;
      assert InsertAll(t, batch).rows == InsertAll(t, init).rows + [RowOf(t, batch, i)];
    } else {
      assert init[..i] == batch[..i] && init[i] == batch[i];
      AcceptedStored(t, init, i);
      assert init[..i + 1] == batch[..i + 1];
      var k :| 0 <= k < |InsertAll(t, init).rows| && InsertAll(t, init).rows[k] == RowOf(t, batch, i);
      assert InsertAll(t, batch).rows[k] == RowOf(t, batch, i);
    }
  }

  /**
   * For a link the table did not hold, the first candidate with that link and a
   * non-null name is accepted, and its row is in the final table.
   */
  lemma FirstWithLinkStored(t: Table, batch: seq<Channel>, i: nat)
    requires TableValid(t)
    requires i < |batch|
    requires NotNull(batch[i]) && batch[i].link.value !in Links(t.rows)
    requires forall k :: 0 <= k < i ==> !(NotNull(batch[k]) && batch[k].link == batch[i].link)
    ensures AcceptedAt(t, batch, i)
    ensures RowOf(t, batch, i) in InsertAll(t, batch).rows && Carries(RowOf(t, batch, i), batch[i])
  {
    InsertAllValid(t, batch[..i]);
    assert batch[i].link.value !in NotNullLinks(batch[..i]);
    AcceptedStored(t, batch, i);
  }

  /**
   * Once a candidate with a link is stored, every later candidate with the same
   * link is refused: as not unique, or as `NameIsNull` when its own name is null.
   */
  lemma FirstAcceptedWins(t: Table, batch: seq<Channel>, i: nat, j: nat)
    requires TableValid(t)
    requires i < j < |batch|
    requires NotNull(batch[i]) && batch[i].link.value !in Links(t.rows)
    requires forall k :: 0 <= k < i ==> !(NotNull(batch[k]) && batch[k].link == batch[i].link)
    requires batch[j].link == batch[i].link
    ensures Attempt(InsertAll(t, batch[..j]), batch[j]) == Rejected(if batch[j].name.Str? then LinkNotUnique else NameIsNull)
  {
    var l := batch[i].link.value;
    InsertAllValid(t, batch[..j]);
    assert batch[..j][i] == batch[i];
    assert l in NotNullLinks(batch[..j]);
  }

  /** SQLite's `LIMIT ? OFFSET ?` on the rows: a negative offset counts as 0, a negative limit as none. */
  function GetChannelsPaginated(rows: seq<Row>, limit: int, offset: int, failed: bool): (r: seq<Row>)
    ensures failed ==> r == []
    ensures !failed ==>
      var s := if offset < 0 then 0 else offset;
      && |r| == (if s >= |rows| then 0 else if limit < 0 || limit > |rows| - s then |rows| - s else limit)
      && forall i :: 0 <= i < |r| ==> r[i] == rows[s + i]
  {
    if failed then []
    else
      var s := if offset < 0 then 0 else if offset > |rows| then |rows| else offset;
      var e := if limit < 0 || s + limit > |rows| then |rows| else s + limit;
      rows[s..e]
  }

  /**
   * `LOWER(name) LIKE '%' || query.toLowerCase() || '%'`: the pattern is the
   * query lowered by JavaScript, the name is lowered by SQLite (ASCII only), and
   * `LIKE` itself ignores case for ASCII letters only; `%` and `_` inside the
   * query are read as plain characters.
   */
  predicate NameMatches(name: string, query: string) {
    Contains(AsciiLower(name), AsciiLower(JsLower(query)))
  }

  /** `searchChannelsByName`: exactly the rows whose name matches, in id order; `[]` on error. */
  function SearchChannelsByName(rows: seq<Row>, query: string, failed: bool): (r: seq<Row>)
    ensures failed ==> r == []
    ensures !failed ==> forall k :: 0 <= k < |r| ==> r[k] in rows && NameMatches(r[k].name, query)
    ensures !failed ==> forall k :: 0 <= k < |rows| && NameMatches(rows[k].name, query) ==> rows[k] in r
    ensures IdsAscending(rows) ==> IdsAscending(r)
  {
    if failed then []
    else
      var keep := (row: Row) => NameMatches(row.name, query);
      FilterAscending(rows, keep, (row: Row) => row.id);
      Filter(rows, keep)
  }

  /** `getAllChannels`: every row, the same as a page without limit; `undefined` on error. */
  function GetAllChannels(rows: seq<Row>, failed: bool): (r: Option<seq<Row>>)
    ensures r.None? <==> failed
    ensures r.Some? ==> r.value == GetChannelsPaginated(rows, -1, 0, false)
  {
    if failed then None else Some(rows)
  }

  /** A worked example: `"BBC One"` is found whatever the ASCII case of the query. */
  lemma SearchIsCaseInsensitive()
    ensures NameMatches("BBC One", "bbc")
    ensures NameMatches("BBC One", "ONE")
    ensures NameMatches("BBC One", "c on")
  {
    assert AsciiLower("BBC One") == "bbc one";
    assert AsciiLower(JsLower("bbc")) == "bbc";
    assert AsciiLower(JsLower("ONE")) == "one";
    assert AsciiLower(JsLower("c on")) == "c on";
    assert StartsWith("bbc one"[4..], "one");
    ContainsFrom("bbc one", "one", 4);
    assert StartsWith("bbc one"[2..], "c on");
    ContainsFrom("bbc one", "c on", 2);
    assert "bbc one"[1..] == "bc one";
    assert "bc one"[1..] == "c one";
    assert "c one"[1..] == " one";
    assert " one"[1..] == "one";
    assert "one"[1..] == "ne";
  }

  /**
   * Beyond ASCII the two lowerings disagree: the query `"ÖRF"` becomes the
   * pattern `"örf"`, which finds a stored `"örf"` but not a stored `"ÖRF"`,
   * because `LOWER` keeps `Ö` and `LIKE` does not equate `Ö` with `ö`.
   */
  lemma SearchKeepsNonAsciiCase()
    ensures NameMatches("\U{00F6}rf", "\U{00D6}RF")
    ensures !NameMatches("\U{00D6}RF", "\U{00D6}RF")
  {
    var stored, pattern := AsciiLower("\U{00D6}RF"), AsciiLower(JsLower("\U{00D6}RF"));
    assert pattern == "\U{00F6}rf";
    assert AsciiLower("\U{00F6}rf") == pattern;
    assert StartsWith(pattern, pattern);
    assert stored == "\U{00D6}rf";
    assert !StartsWith(stored, pattern) by {
      assert stored[0] != pattern[0];
    }
    ShorterNotContains(stored[1..], pattern);
  }

  /**
   * The table of the main process. Only `insertChannels` changes it; a fresh
   * database starts empty with the counter at 0.
   */
  class ChannelStore {
    var rows: seq<Row>
    var lastId: int

    ghost predicate Valid()
      reads this
    {
      TableValid(Table(rows, lastId))
    }

    constructor ()
      ensures Valid() && rows == [] && lastId == 0
    {
      rows := [];
      lastId := 0;
    }

    /** `insertChannels(channels)`: one INSERT per candidate; a refused one is logged and skipped. */
    method InsertChannels(channels: seq<Channel>)
      requires Valid()
      modifies this
      ensures Valid()
      ensures Table(rows, lastId) == InsertAll(old(Table(rows, lastId)), channels)
    {
      ghost var start := Table(rows, lastId);
      for i := 0 to |channels|
        invariant Table(rows, lastId) == InsertAll(start, channels[..i])
        invariant Valid()
      {
        var outcome := Attempt(Table(rows, lastId), channels[i]);
        InsertOneValid(Table(rows, lastId), channels[i]);
        match outcome {
          case Inserted(row) =>
            rows := rows + [row];
            lastId := row.id;
          case Rejected(_) =>
        }
        assert channels[..i + 1][..i] == channels[..i];
      }
      assert channels[..|channels|] == channels;
    }
  }
}
