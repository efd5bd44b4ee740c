/**
 * The table operations the repository composes its queries from: filter, order by
 * created_at descending, skip, limit, update-where. Tables are sequences of rows in
 * the order the database yields them.
 */
module Query {
  import opened TodoModel

  /** The rows that satisfy `p`, in table order, each as often as the table holds it. */
  function Filter(s: seq<Todo>, p: Todo -> bool): (r: seq<Todo>)
    ensures |r| <= |s|
    ensures forall x :: x in r <==> x in s && p(x)
    ensures multiset(r) <= multiset(s)
    ensures forall x :: multiset(r)[x] == if p(x) then multiset(s)[x] else 0
  {
    if s == [] then []
    else
      assert s == [s[0]] + s[1..];
      if p(s[0]) then [s[0]] + Filter(s[1..], p)
      else Filter(s[1..], p)
  }

  /** Filtering a table made of two parts filters each part in place: order is kept. */
  lemma {:induction false} FilterAppend(a: seq<Todo>, b: seq<Todo>, p: Todo -> bool)
    ensures Filter(a + b, p) == Filter(a, p) + Filter(b, p)
  {
    if a == [] {
      assert a + b == b;
    } else {
      assert (a + b)[0] == a[0];
      assert (a + b)[1..] == a[1..] + b;
      FilterAppend(a[1..], b, p);
    }
  }

  /** A filter that every row passes leaves the table as it is. */
  lemma {:induction false} FilterKeepsAll(s: seq<Todo>, p: Todo -> bool)
    requires forall x | x in s :: p(x)
    ensures Filter(s, p) == s
  {
    if s != [] {
      assert s[0] in s;
      assert forall x | x in s[1..] :: x in s;
      FilterKeepsAll(s[1..], p);
    }
  }

  /** A filter that no row passes yields the empty table. */
  lemma FilterKeepsNone(s: seq<Todo>, p: Todo -> bool)
    requires forall x | x in s :: !p(x)
    ensures Filter(s, p) == []
  {
  }

  /** Filtering twice by the same predicate is filtering once. */
  lemma FilterIdempotent(s: seq<Todo>, p: Todo -> bool)
    ensures Filter(Filter(s, p), p) == Filter(s, p)
  {
    FilterKeepsAll(Filter(s, p), p);
  }

  /** Newest first: created_at never increases along the sequence. */
  predicate SortedDesc(s: seq<Todo>)
  {
    forall i, j | 0 <= i < j < |s| :: s[i].createdAt >= s[j].createdAt
  }

  /** Puts `x` into a newest-first sequence, ahead of the rows no newer than it. */
  function InsertDesc(x: Todo, s: seq<Todo>): (r: seq<Todo>)
    requires SortedDesc(s)
    ensures SortedDesc(r)
    ensures |r| == |s| + 1
    ensures forall y | y in r :: y == x || y in s
    ensures multiset(r) == multiset(s) + multiset{x}
  {
    if s == [] || s[0].createdAt <= x.createdAt then
      HeadKeepsSorted(x, s);
      [x] + s
    else
      var rest := InsertDesc(x, s[1..]);
      assert s == [s[0]] + s[1..];
      forall y | y in rest ensures y.createdAt <= s[0].createdAt {
        if y != x {
          var k :| 0 <= k < |s[1..]| && s[1..][k] == y;
          assert s[k + 1] == y;
        }
      }
      HeadKeepsSorted(s[0], rest);
      assert multiset([s[0]] + rest) == multiset{s[0]} + multiset(rest);
      [s[0]] + rest
  }

  /** A row no older than every row of a newest-first sequence can go in front of it. */
  lemma HeadKeepsSorted(x: Todo, s: seq<Todo>)
    requires SortedDesc(s)
    requires forall y | y in s :: y.createdAt <= x.createdAt
    ensures SortedDesc([x] + s)
  {
    var r := [x] + s;
    forall i, j | 0 <= i < j < |r| ensures r[i].createdAt >= r[j].createdAt {
      assert r[j] == s[j - 1];
      if i == 0 {
        assert s[j - 1] in s;
      } else {
        assert r[i] == s[i - 1];
      }
    }
  }

  /** ReQL `orderBy(desc("created_at"))`: the same rows, newest first. */
  function OrderByCreatedDesc(s: seq<Todo>): (r: seq<Todo>)
    ensures SortedDesc(r)
    ensures |r| == |s|
    ensures multiset(r) == multiset(s)
  {
    if s == [] then []
    else
      assert s == [s[0]] + s[1..];
      InsertDesc(s[0], OrderByCreatedDesc(s[1..]))
  }

  /** ReQL `skip(n)`: drops the first `n` rows, all of them when there are fewer. */
  function Skip(s: seq<Todo>, n: nat): (r: seq<Todo>)
    ensures |r| == if n < |s| then |s| - n else 0
    ensures forall i | 0 <= i < |r| :: r[i] == s[n + i]
  {
    if n < |s| then s[n..] else []
  }

  /** ReQL `limit(n)`: keeps at most the first `n` rows. */
  function Limit(s: seq<Todo>, n: nat): (r: seq<Todo>)
    ensures |r| == if n < |s| then n else |s|
    ensures r <= s
  {
    if n < |s| then s[..n] else s
  }

  /** A window `limit(skip(s, offset), n)` of a sequence holds some of its rows. */
  lemma {:induction false} WindowIsSub(s: seq<Todo>, offset: nat, n: nat)
    ensures multiset(Limit(Skip(s, offset), n)) <= multiset(s)
    ensures forall x | x in Limit(Skip(s, offset), n) :: x in s
    ensures SortedDesc(s) ==> SortedDesc(Limit(Skip(s, offset), n))
  {
    var w := Limit(Skip(s, offset), n);
    if offset < |s| {
      var k := offset + |w|;
      assert w == s[offset..k];
      assert s == s[..offset] + s[offset..k] + s[k..];
      assert multiset(s) == multiset(s[..offset]) + multiset(w) + multiset(s[k..]);
    } else {
      assert w == [];
    }
  }

  /** How many of `count` rows a page skipping `offset` and limited to `n` holds: min(n, count - offset), at least 0. */
  function PageLength(count: nat, offset: nat, n: nat): nat
  {
    if offset + n <= count then n
    else if offset <= count then count - offset
    else 0
  }

  /**
   * ReQL `filter(p).orderBy(desc("created_at")).skip(offset).limit(n)`: one page of the
   * rows satisfying `p`. It holds min(n, matches - offset) rows, all satisfying `p`, all
   * drawn from the table, newest first.
   */
  function Page(s: seq<Todo>, p: Todo -> bool, offset: nat, n: nat): (page: seq<Todo>)
    ensures |page| == PageLength(|Filter(s, p)|, offset, n)
    ensures SortedDesc(page)
    ensures multiset(page) <= multiset(s)
    ensures forall x | x in page :: x in s && p(x)
  {
    var filtered := Filter(s, p);
    var ordered := OrderByCreatedDesc(filtered);
    WindowIsSub(ordered, offset, n);
    var page := Limit(Skip(ordered, offset), n);
    assert |page| == PageLength(|filtered|, offset, n);
    assert forall x | x in page :: x in s && p(x) by {
      forall x | x in page ensures x in s && p(x) {
        assert x in multiset(ordered);
        assert x in filtered;
      }
    }
    page
  }

  /** Two consecutive pages, of `a` rows then of `b` rows, make one page of `a + b` rows. */
  lemma WindowsJoin(s: seq<Todo>, offset: nat, a: nat, b: nat)
    ensures Limit(Skip(s, offset), a) + Limit(Skip(s, offset + a), b) == Limit(Skip(s, offset), a + b)
  {
    if offset + a >= |s| {
      assert Skip(s, offset + a) == [];
      assert Limit(Skip(s, offset), a) == Skip(s, offset);
      assert Limit(Skip(s, offset), a + b) == Skip(s, offset);
    } else {
      var t := s[offset..];
      assert Skip(s, offset) == t;
      assert Skip(s, offset + a) == t[a..];
      assert Limit(t, a) == t[..a];
      var hi := if a + b < |t| then a + b else |t|;
      assert Limit(t[a..], b) == t[a..hi];
      assert Limit(t, a + b) == t[..hi];
      assert t[..a] + t[a..hi] == t[..hi];
    }
  }

  /** Writes the patch's fields over a row, keeping its id and created_at. */
  function Apply(t: Todo, patch: Patch): (u: Todo)
    ensures u.id == t.id && u.createdAt == t.createdAt
    ensures u.title == patch.title && u.description == patch.description
    ensures u.updatedAt == patch.updatedAt
  {
    t.(title := patch.title, description := patch.description, updatedAt := patch.updatedAt)
  }

  /** ReQL `filter(p).update(patch)`: patches every row satisfying `p`, in place. */
  function UpdateWhere(s: seq<Todo>, p: Todo -> bool, patch: Patch): (r: seq<Todo>)
    ensures |r| == |s|
    ensures forall i | 0 <= i < |s| :: r[i].id == s[i].id && r[i].createdAt == s[i].createdAt
    ensures forall i | 0 <= i < |s| && p(s[i]) :: r[i] == Apply(s[i], patch)
    ensures forall i | 0 <= i < |s| && !p(s[i]) :: r[i] == s[i]
  {
    if s == [] then []
    else [if p(s[0]) then Apply(s[0], patch) else s[0]] + UpdateWhere(s[1..], p, patch)
  }
}
