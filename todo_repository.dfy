/**
 * The todo repository: seven operations over the single `todo` table. The reads are
 * functions of the table's contents; Store, Update and Delete change the table held
 * by a `Repository` object. The uuid generator, the clock and the driver's verdict
 * on a write are inputs.
 */
module TodoRepository {
  import opened TodoModel
  import opened Query

  /** The filter `title` matches `keyword`. */
  function TitleMatches(matches: (string, string) -> bool, keyword: string): (f: Todo -> bool)
    ensures forall t :: f(t) <==> matches(t.title, keyword)
  {
    (t: Todo) => matches(t.title, keyword)
  }

  /** The filter `id` equals `id`. */
  function HasId(id: string): (f: Todo -> bool)
    ensures forall t :: f(t) <==> t.id == id
  {
    (t: Todo) => t.id == id
  }

  /** The rows a delete by `id` keeps. */
  function OtherId(id: string): (f: Todo -> bool)
    ensures forall t :: f(t) <==> t.id != id
  {
    (t: Todo) => t.id != id
  }

  /** No two rows share an id. */
  ghost predicate UniqueIds(table: seq<Todo>)
  {
    forall i, j | 0 <= i < j < |table| :: table[i].id != table[j].id
  }

  /** Every row was updated no earlier than it was created. */
  ghost predicate TimesOrdered(table: seq<Todo>)
  {
    forall t | t in table :: t.createdAt <= t.updatedAt
  }

  /**
   * FindAll: the rows whose title matches `keyword`, newest first, skipping `offset`
   * rows and returning at most `limit`. A negative skip or limit is taken to be refused
   * by the database.
   */
  function FindAll(table: seq<Todo>, matches: (string, string) -> bool, keyword: string, limit: int, offset: int)
    : (r: Result<seq<Todo>>)
    ensures r.Ok? <==> 0 <= limit && 0 <= offset
    ensures r.Err? ==> r.error == StorageError
    ensures r.Ok? ==> |r.value| == PageLength(|Filter(table, TitleMatches(matches, keyword))|, offset, limit)
    ensures r.Ok? ==> forall t | t in r.value :: t in table && matches(t.title, keyword)
    ensures r.Ok? ==> SortedDesc(r.value)
    ensures r.Ok? ==> multiset(r.value) <= multiset(table)
  {
    if limit < 0 || offset < 0 then Err(StorageError)
    else
      TitlePage(table, matches, keyword, limit, offset);
      Ok(Page(table, TitleMatches(matches, keyword), offset, limit))
  }

  /** The page of matching titles, stated in terms of the title match itself. */
  lemma TitlePage(table: seq<Todo>, matches: (string, string) -> bool, keyword: string, limit: nat, offset: nat)
    ensures |Page(table, TitleMatches(matches, keyword), offset, limit)|
            == PageLength(|Filter(table, TitleMatches(matches, keyword))|, offset, limit)
    ensures forall t | t in Page(table, TitleMatches(matches, keyword), offset, limit) :: t in table && matches(t.title, keyword)
    ensures SortedDesc(Page(table, TitleMatches(matches, keyword), offset, limit))
    ensures multiset(Page(table, TitleMatches(matches, keyword), offset, limit)) <= multiset(table)
  {
    var p := TitleMatches(matches, keyword);
    var page := Page(table, p, offset, limit);
    forall t | t in page ensures t in table && matches(t.title, keyword) {
      assert p(t);
    }
  }

  /** CountFindAll: the number of rows in the whole table; the keyword is not used. */
  function CountFindAll(table: seq<Todo>, keyword: string): (r: Result<nat>)
    ensures r.Ok? && r.value == |table|
  {
    Ok(|table|)
  }

  /** FindById: the first row with the given id; an empty result is an error. */
  function FindById(table: seq<Todo>, id: string): (r: Result<Todo>)
    ensures r.Err? <==> forall t | t in table :: t.id != id
    ensures r.Err? ==> r.error == EmptyResult
    ensures r.Ok? ==> r.value in table && r.value.id == id
  {
    var rows := Filter(table, HasId(id));
    if rows == [] then Err(EmptyResult)
    else
      assert rows[0] in rows;
      Ok(rows[0])
  }

  /** The number of rows whose id is `id`, counted row by row. */
  function CountId(table: seq<Todo>, id: string): nat
  {
    if table == [] then 0
    else (if table[0].id == id then 1 else 0) + CountId(table[1..], id)
  }

  /** Filtering by id keeps exactly as many rows as carry that id. */
  lemma {:induction false} FilterByIdCounts(table: seq<Todo>, id: string)
    ensures |Filter(table, HasId(id))| == CountId(table, id)
  {
    if table != [] {
      FilterByIdCounts(table[1..], id);
    }
  }

  /** CountFindByID: the number of rows with the given id; zero is the not-found error. */
  function CountFindByID(table: seq<Todo>, id: string): (r: Result<nat>)
    ensures r.Err? <==> forall t | t in table :: t.id != id
    ensures r.Err? ==> r.error == NotFound
    ensures r.Ok? ==> r.value == CountId(table, id) && 1 <= r.value <= |table|
  {
    var count := |Filter(table, HasId(id))|;
    FilterByIdCounts(table, id);
    if count <= 0 then Err(NotFound)
    else
      assert Filter(table, HasId(id))[0] in Filter(table, HasId(id));
      Ok(count)
  }

  /** With unique ids, the rows having the id of a row of the table are that row alone. */
  lemma {:induction false} OnlyRowWithId(table: seq<Todo>, t: Todo)
    requires UniqueIds(table) && t in table
    ensures Filter(table, HasId(t.id)) == [t]
  {
    assert table == [table[0]] + table[1..];
    if table[0] == t {
      assert forall x | x in table[1..] :: x.id != t.id by {
        forall x | x in table[1..] ensures x.id != t.id {
          var k :| 0 <= k < |table[1..]| && table[1..][k] == x;
          assert table[k + 1] == x;
        }
      }
      FilterKeepsNone(table[1..], HasId(t.id));
    } else {
      assert table[0].id != t.id by {
        var k :| 0 <= k < |table| && table[k] == t;
        assert k != 0;
      }
      OnlyRowWithId(table[1..], t);
    }
  }

  /** With unique ids, FindById returns the one row that has the id. */
  lemma FindByIdUnique(table: seq<Todo>, t: Todo)
    requires UniqueIds(table) && t in table
    ensures FindById(table, t.id) == Ok(t)
  {
    OnlyRowWithId(table, t);
  }

  /** With unique ids, CountFindByID of an id in the table is exactly 1. */
  lemma CountFindByIdUnique(table: seq<Todo>, t: Todo)
    requires UniqueIds(table) && t in table
    ensures CountFindByID(table, t.id) == Ok(1)
  {
    OnlyRowWithId(table, t);
  }

  /** The empty keyword with no offset and a large enough limit lists every row of the table. */
  lemma FindAllEverything(table: seq<Todo>, matches: (string, string) -> bool, limit: int)
    requires EmptyKeywordMatchesAll(matches)
    requires limit >= |table|
    ensures FindAll(table, matches, "", limit, 0).Ok?
    ensures multiset(FindAll(table, matches, "", limit, 0).value) == multiset(table)
  {
    assert forall x | x in table :: TitleMatches(matches, "")(x) by {
      forall x | x in table ensures TitleMatches(matches, "")(x) {
        assert matches(x.title, "");
      }
    }
    FilterKeepsAll(table, TitleMatches(matches, ""));
  }

  /** Whatever the keyword, CountFindAll counts at least as many rows as one FindAll page holds. */
  lemma CountFindAllBoundsPage(table: seq<Todo>, matches: (string, string) -> bool, keyword: string, countKeyword: string, limit: int, offset: int)
    requires 0 <= limit && 0 <= offset
    ensures |FindAll(table, matches, keyword, limit, offset).value| <= CountFindAll(table, countKeyword).value
  {
  }

  /** Reading two consecutive pages gives the rows of one page as long as both. */
  lemma FindAllPagesJoin(table: seq<Todo>, matches: (string, string) -> bool, keyword: string, a: nat, b: nat, offset: nat)
    ensures FindAll(table, matches, keyword, a, offset).value + FindAll(table, matches, keyword, b, offset + a).value
         == FindAll(table, matches, keyword, a + b, offset).value
  {
    WindowsJoin(OrderByCreatedDesc(Filter(table, TitleMatches(matches, keyword))), offset, a, b);
  }

  /**
   * The life of one record: after it is stored under a fresh id it is found by that id;
   * after an update by that id it is found with the patched fields and its id and
   * created_at unchanged; after a delete by that id it is no longer found.
   */
  lemma StoreUpdateDeleteLifecycle(before: seq<Todo>, row: Todo, patch: Patch)
    requires UniqueIds(before)
    requires forall t | t in before :: t.id != row.id
    ensures FindById(before + [row], row.id) == Ok(row)
    ensures FindById(UpdateWhere(before + [row], HasId(row.id), patch), row.id) == Ok(Apply(row, patch))
    ensures FindById(Filter(UpdateWhere(before + [row], HasId(row.id), patch), OtherId(row.id)), row.id)
            == Err(EmptyResult)
  {
    var stored := before + [row];
    AppendFreshKeepsUnique(before, row);
    assert stored[|before|] == row;
    FindByIdUnique(stored, row);
    var updated := UpdateWhere(stored, HasId(row.id), patch);
    UpdateKeepsUnique(stored, HasId(row.id), patch);
    assert updated[|before|] == Apply(row, patch);
    FindByIdUnique(updated, Apply(row, patch));
    DeleteLeaves(updated, row.id);
  }

  /** Appending a row whose id is new keeps unique ids unique. */
  lemma AppendFreshKeepsUnique(s: seq<Todo>, row: Todo)
    requires UniqueIds(s)
    requires forall t | t in s :: t.id != row.id
    ensures UniqueIds(s + [row])
  {
    var r := s + [row];
    forall i, j | 0 <= i < j < |r| ensures r[i].id != r[j].id {
      assert r[i] == s[i];
      if j < |s| {
        assert r[j] == s[j];
      } else {
        assert s[i] in s;
      }
    }
  }

  /** An update-where keeps every id, so it keeps unique ids unique. */
  lemma UpdateKeepsUnique(s: seq<Todo>, p: Todo -> bool, patch: Patch)
    requires UniqueIds(s)
    ensures UniqueIds(UpdateWhere(s, p, patch))
  {
    var r := UpdateWhere(s, p, patch);
    forall i, j | 0 <= i < j < |r| ensures r[i].id != r[j].id {
      assert r[i].id == s[i].id && r[j].id == s[j].id;
    }
  }

  /** Updating rows by id at a time no earlier than their creation keeps created_at <= updated_at. */
  lemma UpdateKeepsTimesOrdered(s: seq<Todo>, id: string, patch: Patch)
    requires TimesOrdered(s)
    requires forall t | t in s && t.id == id :: t.createdAt <= patch.updatedAt
    ensures TimesOrdered(UpdateWhere(s, HasId(id), patch))
  {
    var r := UpdateWhere(s, HasId(id), patch);
    forall u | u in r ensures u.createdAt <= u.updatedAt {
      var i :| 0 <= i < |r| && r[i] == u;
      assert s[i] in s;
      if s[i].id == id {
        assert u.updatedAt == patch.updatedAt && u.createdAt == s[i].createdAt;
      } else {
        assert u == s[i];
      }
    }
  }

  /** What a delete by id leaves: every other row, none with the id; nothing to do a second time. */
  lemma DeleteLeaves(before: seq<Todo>, id: string)
    ensures forall t :: t in Filter(before, OtherId(id)) <==> t in before && t.id != id
    ensures FindById(Filter(before, OtherId(id)), id) == Err(EmptyResult)
    ensures (forall t | t in before :: t.id != id) ==> Filter(before, OtherId(id)) == before
    ensures Filter(Filter(before, OtherId(id)), OtherId(id)) == Filter(before, OtherId(id))
    ensures UniqueIds(before) ==> UniqueIds(Filter(before, OtherId(id)))
  {
    var after := Filter(before, OtherId(id));
    forall t ensures t in after <==> t in before && t.id != id {
      assert OtherId(id)(t) <==> t.id != id;
    }
    if UniqueIds(before) {
      FilterKeepsUnique(before, OtherId(id));
    }
    if forall t | t in before :: t.id != id {
      FilterKeepsAll(before, OtherId(id));
    }
    FilterIdempotent(before, OtherId(id));
  }

  /** Keeping some of the rows, in order, keeps unique ids unique. */
  lemma {:induction false} FilterKeepsUnique(s: seq<Todo>, p: Todo -> bool)
    requires UniqueIds(s)
    ensures UniqueIds(Filter(s, p))
  {
    if s != [] {
      var tail := s[1..];
      assert UniqueIds(tail) by {
        forall i, j | 0 <= i < j < |tail| ensures tail[i].id != tail[j].id {
          assert tail[i] == s[i + 1] && tail[j] == s[j + 1];
        }
      }
      FilterKeepsUnique(tail, p);
      if p(s[0]) {
        var rest := Filter(tail, p);
        forall x | x in rest ensures x.id != s[0].id {
          assert x in tail;
          var k :| 0 <= k < |tail| && tail[k] == x;
          assert s[k + 1] == x;
        }
        PrependKeepsUnique(s[0], rest);
      }
    }
  }

  /** A row whose id no row of a table with unique ids has can go in front of it. */
  lemma PrependKeepsUnique(x: Todo, s: seq<Todo>)
    requires UniqueIds(s)
    requires forall y | y in s :: y.id != x.id
    ensures UniqueIds([x] + s)
  {
    var r := [x] + s;
    forall i, j | 0 <= i < j < |r| ensures r[i].id != r[j].id {
      assert r[j] == s[j - 1];
      if i == 0 {
        assert s[j - 1] in s;
      } else {
        assert r[i] == s[i - 1];
      }
    }
  }

  class Repository {
    /** The rows of the `todo` table. */
    var table: seq<Todo>

    constructor (rows: seq<Todo>)
      ensures table == rows
    {
      table := rows;
    }

    /**
     * Store: inserts one row built from the candidate's title and description, with the
     * generated id `newId` and `now` as both timestamps; the candidate's own id and
     * timestamps are ignored. The inserted row is returned.
     */
    method Store(value: Todo, newId: string, now: Time, fault: bool) returns (r: Result<Todo>)
      requires forall t | t in table :: t.id != newId
      modifies this
      ensures fault ==> r == Err(StorageError) && table == old(table)
      ensures !fault ==> r.Ok? && table == old(table) + [r.value]
      ensures !fault ==> r.value.id == newId && r.value.title == value.title && r.value.description == value.description
      ensures !fault ==> r.value.createdAt == now && r.value.updatedAt == now
      ensures !fault ==> FindById(table, newId) == Ok(r.value)
      ensures UniqueIds(old(table)) ==> UniqueIds(table)
      ensures TimesOrdered(old(table)) ==> TimesOrdered(table)
    {
      var result := Todo(newId, value.title, value.description, now, now);
      if fault {
        return Err(StorageError);
      }
      FilterKeepsNone(table, HasId(newId));
      FilterAppend(table, [result], HasId(newId));
      if UniqueIds(table) {
        AppendFreshKeepsUnique(table, result);
      }
      table := table + [result];
      r := Ok(result);
    }

    /**
     * Update: writes title, description and updated_at = `now` onto every row with the
     * given id and leaves the other rows as they are. It returns no record, even on success.
     */
    method Update(id: string, value: Todo, now: Time, fault: bool) returns (r: Result<Option<Todo>>)
      modifies this
      ensures fault ==> r == Err(StorageError) && table == old(table)
      ensures !fault ==> r == Ok(None)
      ensures !fault ==> table == UpdateWhere(old(table), HasId(id), Patch(value.title, value.description, now))
      ensures |table| == |old(table)|
      ensures forall i | 0 <= i < |table| :: table[i].id == old(table)[i].id && table[i].createdAt == old(table)[i].createdAt
      ensures forall i | 0 <= i < |table| && old(table)[i].id != id :: table[i] == old(table)[i]
      ensures UniqueIds(old(table)) ==> UniqueIds(table)
      ensures TimesOrdered(old(table)) && (forall t | t in old(table) && t.id == id :: t.createdAt <= now)
              ==> TimesOrdered(table)
    {
      var patch := Patch(value.title, value.description, now);
      if fault {
        return Err(StorageError);
      }
      if UniqueIds(table) {
        UpdateKeepsUnique(table, HasId(id), patch);
      }
      if TimesOrdered(table) && forall t | t in table && t.id == id :: t.createdAt <= now {
        UpdateKeepsTimesOrdered(table, id, patch);
      }
      table := UpdateWhere(table, HasId(id), patch);
      r := Ok(None);
    }

    /**
     * Delete: removes every row with the given id and keeps the others in order. An id
     * that is absent is not an error and changes nothing, so a second Delete of the same
     * id changes nothing either.
     */
    method Delete(id: string, fault: bool) returns (r: Result<()>)
      modifies this
      ensures fault ==> r == Err(StorageError) && table == old(table)
      ensures !fault ==> r == Ok(()) && table == Filter(old(table), OtherId(id))
      ensures forall t :: t in table <==> t in old(table) && (fault || t.id != id)
      ensures FindById(old(table), id).Err? ==> table == old(table)
      ensures !fault ==> FindById(table, id) == Err(EmptyResult)
      ensures Filter(table, OtherId(id)) == Filter(old(table), OtherId(id))
      ensures UniqueIds(old(table)) ==> UniqueIds(table)
    {
      if fault {
        return Err(StorageError);
      }
      DeleteLeaves(table, id);
      table := Filter(table, OtherId(id));
      r := Ok(());
    }
  }
}
