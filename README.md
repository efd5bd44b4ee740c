# Todo repository model

A Dafny model of the todo repository of a small CRUD service backed by RethinkDB
(`RethinkDBTodoRepositoryImpl` in `todo/repository/todo_repository.go`). The repository
answers seven operations over one `todo` table: FindAll, CountFindAll, FindById,
CountFindByID, Store, Update and Delete. Each is a single ReQL query chain built from
filter, `orderBy(desc("created_at"))`, skip, limit, count, insert, update-where and
delete-where.

The model has three modules:

- `TodoModel` (`todo_model.dfy`): the `Todo` record with its five fields, the `Patch` an
  update writes, the error kinds and `Result`/`Option`. The regular-expression title match
  is a parameter `matches(title, keyword)`; the one fact assumed of it,
  `EmptyKeywordMatchesAll`, is that the empty keyword matches every title.
- `Query` (`query.dfy`): the table operations over a table held as a sequence of rows in the
  order the database yields them: `Filter`, `OrderByCreatedDesc`, `Skip`, `Limit`,
  `UpdateWhere`, with their lemmas (filtering keeps order and is idempotent, a sorted window
  stays sorted, consecutive pages join up).
- `TodoRepository` (`todo_repository.dfy`): the four reads as functions of the table
  contents, and a `Repository` class whose `table: seq<Todo>` field Store, Update and Delete
  change in place. The uuid the repository generates (`newId`), the clock reading (`now`) and
  the driver's verdict on a write (`fault`) are inputs of the write methods.

Behaviour kept as the code has it:

- CountFindAll counts the whole table and ignores its keyword, so its total can exceed the
  number of rows FindAll could ever list for that keyword.
- Update returns no record on success (`Ok(None)`).
- FindById reads the first row of the filtered cursor; an empty cursor is the driver's
  empty-result error, not the repository's not-found error, which only CountFindByID raises.
  The cursor does not check that exactly one row matched, so with duplicate ids FindById
  returns the first in table order rather than failing; where ids are unique (an invariant
  Store, Update and Delete preserve) it returns the one row with that id.

## Model

| member | source | states |
|---|---|---|
| `Query.Filter` | todo/repository/todo_repository.go:40-42 | the filtered table holds every copy of each row that satisfies the predicate, as many times as the table holds it, and no other row |
| `Query.FilterAppend` | todo/repository/todo_repository.go:185-188 | a filter works on each part of a table in place, so the rows it keeps stay in table order |
| `Query.FilterKeepsAll` | todo/repository/todo_repository.go:185-188 | a filter every row passes changes nothing, so deleting an absent id leaves the table as it was |
| `Query.FilterKeepsNone` | todo/repository/todo_repository.go:87-89 | a filter no row passes yields no row |
| `Query.FilterIdempotent` | todo/repository/todo_repository.go:185-188 | filtering twice by one predicate is filtering once, so a second delete of an id changes nothing |
| `Query.InsertDesc` | todo/repository/todo_repository.go:43 | placing one row into a newest-first sequence keeps it newest first and adds exactly that row |
| `Query.OrderByCreatedDesc` | todo/repository/todo_repository.go:43 | the ordered rows are a permutation of the input with created_at never increasing |
| `Query.Skip` | todo/repository/todo_repository.go:44 | skipping n rows leaves the suffix after the first n, empty when there are fewer than n |
| `Query.Limit` | todo/repository/todo_repository.go:45 | limiting to n rows keeps a prefix of length min(n, size) |
| `Query.WindowIsSub` | todo/repository/todo_repository.go:44-45 | a skip-then-limit window holds only rows of its input and stays newest first when the input is |
| `Query.Page` | todo/repository/todo_repository.go:39-45 | the filter-order-skip-limit chain holds min(limit, matches - offset) rows, all satisfying the filter, all from the table and none more often than there, newest first |
| `Query.WindowsJoin` | todo/repository/todo_repository.go:44-45 | a page of a rows at offset o followed by the page of b rows at offset o + a is the page of a + b rows at offset o |
| `Query.Apply` | todo/repository/todo_repository.go:171-175 | a patched row has the patch's title, description and updated_at and keeps its id and created_at |
| `Query.UpdateWhere` | todo/repository/todo_repository.go:169-175 | an update-where keeps the table's length, every id and created_at, patches each matching row and leaves every other row equal |
| `TodoRepository.TitleMatches` | todo/repository/todo_repository.go:41 | the title filter holds of a row exactly when its title matches the keyword |
| `TodoRepository.HasId` | todo/repository/todo_repository.go:88 | the id filter holds of a row exactly when its id equals the argument (also at lines 107, 170 and 186) |
| `TodoRepository.OtherId` | todo/repository/todo_repository.go:185-188 | a delete by id keeps exactly the rows whose id differs from the argument |
| `TodoRepository.FindAll` | todo/repository/todo_repository.go:38-60 | fails only for a negative limit or offset, which the database is taken to refuse; otherwise returns min(limit, matches - offset) rows, each a row of the table whose title matches, newest first, without repeating rows |
| `TodoRepository.TitlePage` | todo/repository/todo_repository.go:39-46 | the page FindAll returns holds min(limit, matches - offset) rows, each a row of the table whose title matches the keyword, newest first |
| `TodoRepository.CountFindAll` | todo/repository/todo_repository.go:63-83 | succeeds with the number of rows in the whole table, whatever the keyword |
| `TodoRepository.FindById` | todo/repository/todo_repository.go:86-102 | fails with the empty-result error exactly when no row has the id; otherwise returns a row of the table with that id |
| `TodoRepository.CountFindByID` | todo/repository/todo_repository.go:105-130 | fails with the not-found error exactly when no row has the id; otherwise returns the number of rows with that id, between 1 and the table size |
| `TodoRepository.FilterByIdCounts` | todo/repository/todo_repository.go:106-108 | the filter by id keeps exactly as many rows as the row-by-row count of that id |
| `TodoRepository.OnlyRowWithId` | todo/repository/todo_repository.go:87-89 | with unique ids, filtering by the id of a row of the table yields that row alone |
| `TodoRepository.FindByIdUnique` | todo/repository/todo_repository.go:86-102 | with unique ids, FindById of a row's id returns that row |
| `TodoRepository.CountFindByIdUnique` | todo/repository/todo_repository.go:105-130 | with unique ids, CountFindByID of a row's id is 1 |
| `TodoRepository.FindAllEverything` | todo/repository/todo_repository.go:39-46 | the empty keyword at offset 0 with a limit no smaller than the table lists every row of the table exactly once |
| `TodoRepository.CountFindAllBoundsPage` | todo/repository/todo_repository.go:63-66 | whatever keyword each is given, CountFindAll is at least the size of any FindAll page |
| `TodoRepository.FindAllPagesJoin` | todo/repository/todo_repository.go:44-45 | two consecutive FindAll pages concatenate to the page as long as both |
| `TodoRepository.StoreUpdateDeleteLifecycle` | todo/repository/todo_repository.go:133-194 | a row stored under a fresh id is found by it, is found patched after an update by it, and is not found after a delete by it |
| `TodoRepository.AppendFreshKeepsUnique` | todo/repository/todo_repository.go:144-151 | inserting a row under an id no row has keeps ids unique |
| `TodoRepository.UpdateKeepsUnique` | todo/repository/todo_repository.go:169-175 | an update-where keeps ids unique, since it writes no id |
| `TodoRepository.UpdateKeepsTimesOrdered` | todo/repository/todo_repository.go:169-175 | an update by id at a time no earlier than the matched rows' created_at keeps created_at <= updated_at on every row |
| `TodoRepository.DeleteLeaves` | todo/repository/todo_repository.go:185-188 | a delete by id leaves exactly the rows with other ids, after which FindById of the id fails; it changes nothing when the id is absent, a second delete changes nothing, and unique ids stay unique |
| `TodoRepository.FilterKeepsUnique` | todo/repository/todo_repository.go:185-188 | removing rows keeps unique ids unique |
| `TodoRepository.Repository.constructor` | todo/repository/todo_repository.go:31-35 | a repository starts over the given table |
| `TodoRepository.Repository.Store` | todo/repository/todo_repository.go:133-157 | on success appends exactly one row, with the fresh id, the input's title and description, created_at = updated_at = now, and returns that row, which FindById then finds; on a driver fault the table is unchanged; unique ids and created_at <= updated_at are preserved |
| `TodoRepository.Repository.Update` | todo/repository/todo_repository.go:160-181 | on success writes title, description and updated_at = now onto every row with the id, keeps every id and created_at, leaves other rows equal and returns no record; on a fault the table is unchanged; unique ids are preserved, and so is created_at <= updated_at when now is no earlier than the matched rows' created_at |
| `TodoRepository.Repository.Delete` | todo/repository/todo_repository.go:184-194 | on success removes exactly the rows with the id, keeping the others in order, after which FindById fails; an absent id leaves the table unchanged; deleting again changes nothing; unique ids are preserved |

## Left out

- Driver and connectivity failures of the reads: FindAll, FindById, CountFindByID and CountFindAll do not model a failing session or cursor (`Run`, `cur.All`, `cur.One`, `cur.Close`); the writes model one as the `fault` input, which leaves the table unchanged.
- Database name lookup through the environment, session handling and the `float64`-to-`int` conversion of counts: driver plumbing; counts are exact integers here.
- The regular-expression semantics of the title match: a parameter; only "the empty keyword matches every title" is assumed, and only where it is used (`FindAllEverything`). A keyword that is not a valid pattern (a database error) is not modelled.
- The uuid generator and the clock: inputs to Store and Update. Store requires the generated id to be absent from the table, which is what a uuid provides.
- Negative limit or offset: the repository does not check them and passes them to the database. The model assumes the database rejects them and returns the storage error. The database's actual behaviour and message are not modelled.
- TodoRepository.FindAll: does not model the database's array-size limit. Ordering by created_at without an index materialises the filtered rows, and the query fails once there are more of them than the server allows (100,000 by default). The model returns a page for a table of any size.
- The order among rows with equal created_at: the database does not fix it; the model uses one stable order and its contracts promise only newest-first and permutation.
- The row order of an unordered filter (FindById, Delete): taken to be table order.
- Concurrent requests sharing one session.
- The HTTP router and server (`cmds/app/main.go`), configuration loading (`pkg/config/config.go`) and the database connection helpers (`pkg/rethinkdb/rethinkdb.go`, `pkg/mongodb/mongodb.go`): I/O and wiring. The service and HTTP handler layers are not part of this model.
- TodoRepository.Repository.Update: does not promise that updated_at grows, because that depends on the clock reading passed in; it promises updated_at = now.
