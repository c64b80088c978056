/** The `accounts` table (columns `id`, `service`, `account`) and the three
    store operations the handlers perform on it: select-pick-delete for
    `gen`, `GROUP BY service` counting for `stock`, and the bulk insert and
    per-service count for `add`. Each handler runs as one atomic step. */
module Stock {
  import opened Text

  datatype Row = Row(id: nat, service: string, account: string)

  /** The table's rows plus the next auto-increment id to hand out. */
  datatype Store = Store(rows: seq<Row>, nextId: nat)

  predicate UniqueIds(rows: seq<Row>)
  {
    forall i, j :: 0 <= i < j < |rows| ==> rows[i].id != rows[j].id
  }

  /** Ids are a key, and every id in use lies below the next one handed
      out, so an id is never reused. */
  predicate Valid(st: Store)
  {
    && UniqueIds(st.rows)
    && forall i :: 0 <= i < |st.rows| ==> st.rows[i].id < st.nextId
  }

  /** `SELECT … FROM accounts WHERE service = ?`, in table order. */
  function Matching(rows: seq<Row>, service: string): (m: seq<Row>)
    ensures |m| <= |rows|
    ensures forall r {:trigger r in m} :: r in m <==> r in rows && r.service == service
  {
    if |rows| == 0 then []
    else (if rows[0].service == service then [rows[0]] else []) + Matching(rows[1..], service)
  }

  /** The `service` column of the table, row by row. */
  function ServiceColumn(rows: seq<Row>): seq<string>
  {
    seq(|rows|, i requires 0 <= i < |rows| => rows[i].service)
  }

  /** `SELECT COUNT(*) FROM accounts WHERE service = ?`. */
  function CountOf(rows: seq<Row>, service: string): nat
  {
    |Matching(rows, service)|
  }

  /** The count of a service is the number of times it occurs in the
      service column. */
  lemma {:induction false} CountOfIsMultiplicity(rows: seq<Row>, service: string)
    ensures CountOf(rows, service) == multiset(ServiceColumn(rows))[service]
    decreases |rows|
  {
    if |rows| > 0 {
      CountOfIsMultiplicity(rows[1..], service);
      assert ServiceColumn(rows) == [rows[0].service] + ServiceColumn(rows[1..]);
    }
  }

  lemma {:induction false} MatchingAppend(a: seq<Row>, b: seq<Row>, service: string)
    ensures Matching(a + b, service) == Matching(a, service) + Matching(b, service)
    decreases |a|
  {
    if |a| == 0 {
      assert a + b == b;
    } else {
      assert (a + b)[0] == a[0];
      assert (a + b)[1..] == a[1..] + b;
      MatchingAppend(a[1..], b, service);
      var head := if a[0].service == service then [a[0]] else [];
      assert Matching(a, service) == head + Matching(a[1..], service);
      assert head + (Matching(a[1..], service) + Matching(b, service))
          == (head + Matching(a[1..], service)) + Matching(b, service);
    }
  }

  /** Rows that all carry `service` are all selected, in order. */
  lemma {:induction false} MatchingAll(rows: seq<Row>, service: string)
    requires forall i :: 0 <= i < |rows| ==> rows[i].service == service
    ensures Matching(rows, service) == rows
    decreases |rows|
  {
    if |rows| > 0 {
      MatchingAll(rows[1..], service);
    }
  }

  /** Rows none of which carry `service` select nothing. */
  lemma {:induction false} MatchingNone(rows: seq<Row>, service: string)
    requires forall i :: 0 <= i < |rows| ==> rows[i].service != service
    ensures Matching(rows, service) == []
    decreases |rows|
  {
    if |rows| > 0 {
      MatchingNone(rows[1..], service);
    }
  }

  /** A service is present exactly when it has at least one row. */
  lemma CountOfPositive(rows: seq<Row>, service: string)
    ensures CountOf(rows, service) > 0 <==> exists i :: 0 <= i < |rows| && rows[i].service == service
  {
    var m := Matching(rows, service);
    if |m| > 0 {
      assert m[0] in m;
    }
    if i :| 0 <= i < |rows| && rows[i].service == service {
      assert rows[i] in m;
    }
  }

  /** `DELETE FROM accounts WHERE id = ?`: every row with that id goes,
      every other row stays, in order. */
  function DeleteById(rows: seq<Row>, id: nat): (r: seq<Row>)
    ensures |r| <= |rows|
    ensures forall x {:trigger x in r} :: x in r <==> x in rows && x.id != id
  {
    if |rows| == 0 then []
    else (if rows[0].id == id then [] else [rows[0]]) + DeleteById(rows[1..], id)
  }

  lemma {:induction false} DeleteAbsent(rows: seq<Row>, id: nat)
    requires forall j :: 0 <= j < |rows| ==> rows[j].id != id
    ensures DeleteById(rows, id) == rows
    decreases |rows|
  {
    if |rows| > 0 {
      DeleteAbsent(rows[1..], id);
    }
  }

  /** Deleting the id of the one row that carries it removes just that
      row and keeps every other row in place. */
  lemma {:induction false} DeleteOnlyCarrier(rows: seq<Row>, i: nat)
    requires i < |rows|
    requires forall j :: 0 <= j < |rows| && j != i ==> rows[j].id != rows[i].id
    ensures DeleteById(rows, rows[i].id) == rows[..i] + rows[i + 1..]
    decreases i
  {
    var tail := rows[1..];
    if i == 0 {
      assert forall j :: 0 <= j < |tail| ==> tail[j] == rows[j + 1];
      DeleteAbsent(tail, rows[0].id);
      assert rows[..0] + rows[1..] == tail;
    } else {
      assert forall j :: 0 <= j < |tail| ==> tail[j] == rows[j + 1];
      DeleteOnlyCarrier(tail, i - 1);
      assert rows[..i] + rows[i + 1..] == [rows[0]] + (tail[..i - 1] + tail[i..]);
    }
  }

  /** With unique ids, row `i` is the only row carrying its id. */
  lemma OnlyCarrier(rows: seq<Row>, i: nat)
    requires UniqueIds(rows)
    requires i < |rows|
    ensures forall j :: 0 <= j < |rows| && j != i ==> rows[j].id != rows[i].id
  {
  }

  /** Because ids are unique, deleting by the id of row `i` removes exactly
      that row and keeps every other row in place. */
  lemma DeleteByIdRemovesOne(rows: seq<Row>, i: nat)
    requires UniqueIds(rows)
    requires i < |rows|
    ensures DeleteById(rows, rows[i].id) == rows[..i] + rows[i + 1..]
  {
    OnlyCarrier(rows, i);
    DeleteOnlyCarrier(rows, i);
  }

  /** Removing one row lowers its service's count by one and leaves every
      other service's count alone. */
  lemma RemoveAtCount(rows: seq<Row>, i: nat, service: string)
    requires i < |rows|
    ensures CountOf(rows[..i] + rows[i + 1..], service) + (if rows[i].service == service then 1 else 0)
            == CountOf(rows, service)
  {
    assert rows == rows[..i] + ([rows[i]] + rows[i + 1..]);
    MatchingAppend(rows[..i], [rows[i]] + rows[i + 1..], service);
    MatchingAppend([rows[i]], rows[i + 1..], service);
    MatchingAppend(rows[..i], rows[i + 1..], service);
  }

  lemma RemoveAtMultiset(rows: seq<Row>, i: nat)
    requires i < |rows|
    ensures multiset(rows[..i] + rows[i + 1..]) + multiset{rows[i]} == multiset(rows)
  {
    assert rows == rows[..i] + [rows[i]] + rows[i + 1..];
  }

  lemma RemoveAtValid(st: Store, i: nat)
    requires Valid(st)
    requires i < |st.rows|
    ensures Valid(Store(st.rows[..i] + st.rows[i + 1..], st.nextId))
    ensures forall x :: x in st.rows[..i] + st.rows[i + 1..] ==> x.id != st.rows[i].id
  {
  }

  /** `Math.floor(Math.random() * n)` for a random number `0 <= rand < 1`. */
  function PickIndex(rand: real, n: nat): (k: nat)
    requires 0.0 <= rand < 1.0
    requires n > 0
    ensures k < n
  {
    var x := rand * n as real;
    assert 0.0 <= x < n as real by {
      assert rand * n as real < 1.0 * n as real;
    }
    x.Floor
  }

  /** Every index can be drawn: `rand = k / n` picks index `k`. */
  lemma PickIndexReaches(k: nat, n: nat)
    requires k < n
    ensures 0.0 <= k as real / n as real < 1.0
    ensures PickIndex(k as real / n as real, n) == k
  {
  }

  /** The store side of `gen`: take the `k`-th row selected for `service`,
      then delete it by id. The row is removed exactly once, nothing else
      changes, and its id is gone from the table. */
  function Claim(st: Store, service: string, k: nat): (out: (Store, Row))
    requires Valid(st)
    requires k < CountOf(st.rows, service)
    ensures Valid(out.0)
    ensures out.1 == Matching(st.rows, service)[k]
    ensures out.1 in st.rows && out.1.service == service
    ensures exists i :: 0 <= i < |st.rows| && st.rows[i] == out.1 && out.0.rows == st.rows[..i] + st.rows[i + 1..]
    ensures multiset(out.0.rows) + multiset{out.1} == multiset(st.rows)
    ensures forall j :: 0 <= j < |out.0.rows| ==> out.0.rows[j].id != out.1.id
    ensures out.0.nextId == st.nextId
    ensures CountOf(out.0.rows, service) == CountOf(st.rows, service) - 1
    ensures forall s :: s != service ==> CountOf(out.0.rows, s) == CountOf(st.rows, s)
  {
    var row := Matching(st.rows, service)[k];
    assert row in Matching(st.rows, service);
    var i :| 0 <= i < |st.rows| && st.rows[i] == row;
    DeleteByIdRemovesOne(st.rows, i);
    RemoveAtMultiset(st.rows, i);
    RemoveAtValid(st, i);
    forall s {
      RemoveAtCount(st.rows, i, s);
    }
    (Store(DeleteById(st.rows, row.id), st.nextId), row)
  }

  /** A claimed row can never be claimed again: the next claim from the
      resulting table, for any index, returns a row with another id. */
  lemma ClaimNeverTwice(st: Store, service: string, k1: nat, k2: nat)
    requires Valid(st)
    requires k1 < CountOf(st.rows, service)
    requires k2 < CountOf(st.rows, service) - 1
    ensures var (st1, first) := Claim(st, service, k1);
            Claim(st1, service, k2).1.id != first.id
  {
  }

  /** The rows a bulk insert adds, with consecutive fresh ids. */
  function NewRows(start: nat, service: string, accounts: seq<string>): seq<Row>
  {
    seq(|accounts|, i requires 0 <= i < |accounts| => Row(start + i, service, accounts[i]))
  }

  lemma NewRowsOtherService(start: nat, service: string, accounts: seq<string>, s: string)
    requires s != service
    ensures Matching(NewRows(start, service, accounts), s) == []
  {
    MatchingNone(NewRows(start, service, accounts), s);
  }

  lemma AppendNewRowsValid(st: Store, service: string, accounts: seq<string>)
    requires Valid(st)
    ensures Valid(Store(st.rows + NewRows(st.nextId, service, accounts), st.nextId + |accounts|))
  {
  }

  lemma AppendNewRowsMatching(rows: seq<Row>, start: nat, service: string, accounts: seq<string>)
    ensures Matching(rows + NewRows(start, service, accounts), service) == Matching(rows, service) + NewRows(start, service, accounts)
  {
    MatchingAppend(rows, NewRows(start, service, accounts), service);
    MatchingAll(NewRows(start, service, accounts), service);
  }

  lemma AppendNewRowsOtherCounts(rows: seq<Row>, start: nat, service: string, accounts: seq<string>)
    ensures forall s :: s != service ==> CountOf(rows + NewRows(start, service, accounts), s) == CountOf(rows, s)
  {
    forall s | s != service
      ensures CountOf(rows + NewRows(start, service, accounts), s) == CountOf(rows, s)
    {
      MatchingAppend(rows, NewRows(start, service, accounts), s);
      NewRowsOtherService(start, service, accounts, s);
    }
  }

  /** `INSERT INTO accounts (service, account) VALUES (?, ?),…`: one new row
      per account, all under `service`, with fresh ids; existing rows stay. */
  function Insert(st: Store, service: string, accounts: seq<string>): (out: Store)
    requires Valid(st)
    ensures Valid(out)
    ensures |out.rows| == |st.rows| + |accounts| && out.rows[..|st.rows|] == st.rows
    ensures forall i :: 0 <= i < |accounts| ==>
              && out.rows[|st.rows| + i].service == service
              && out.rows[|st.rows| + i].account == accounts[i]
              && out.rows[|st.rows| + i].id >= st.nextId
    ensures Matching(out.rows, service) == Matching(st.rows, service) + out.rows[|st.rows|..]
    ensures CountOf(out.rows, service) == CountOf(st.rows, service) + |accounts|
    ensures forall s :: s != service ==> CountOf(out.rows, s) == CountOf(st.rows, s)
  {
    var added := NewRows(st.nextId, service, accounts);
    var rows := st.rows + added;
    assert rows[..|st.rows|] == st.rows;
    assert rows[|st.rows|..] == added;
    AppendNewRowsValid(st, service, accounts);
    AppendNewRowsMatching(st.rows, st.nextId, service, accounts);
    AppendNewRowsOtherCounts(st.rows, st.nextId, service, accounts);
    Store(rows, st.nextId + |accounts|)
  }

  /** After inserting into a service that had no rows, its `k`-th selected
      row is the `k`-th new one. */
  lemma InsertThenClaim(st: Store, service: string, accounts: seq<string>, k: nat)
    requires Valid(st)
    requires CountOf(st.rows, service) == 0
    requires k < |accounts|
    ensures CountOf(Insert(st, service, accounts).rows, service) == |accounts|
    ensures Claim(Insert(st, service, accounts), service, k).1.account == accounts[k]
  {
    var st1 := Insert(st, service, accounts);
    assert Matching(st.rows, service) == [];
    assert Matching(st1.rows, service)[k] == st1.rows[|st.rows| + k];
  }

  function ServicesOf(rows: seq<Row>): set<string>
  {
    set i | 0 <= i < |rows| :: rows[i].service
  }

  /** `SELECT service, COUNT(*) FROM accounts GROUP BY service`: one entry
      per service present, holding its number of rows; a service without
      rows has no entry. */
  function GroupCount(rows: seq<Row>): (counts: map<string, nat>)
    ensures counts.Keys == ServicesOf(rows)
    ensures forall s :: s in counts ==> counts[s] == CountOf(rows, s) && counts[s] > 0
  {
    if |rows| == 0 then map[]
    else
      var rest := GroupCount(rows[1..]);
      GroupCountStep(rows, rest);
      Tally(rest, rows[0].service)
  }

  /** One more occurrence of `s` in a tally of counts. */
  function Tally(counts: map<string, nat>, s: string): map<string, nat>
  {
    counts[s := (if s in counts then counts[s] else 0) + 1]
  }

  /** Counting the first row into the grouped counts of the rest gives the
      grouped counts of the whole table. */
  lemma GroupCountStep(rows: seq<Row>, rest: map<string, nat>)
    requires |rows| > 0
    requires rest.Keys == ServicesOf(rows[1..])
    requires forall s :: s in rest ==> rest[s] == CountOf(rows[1..], s) && rest[s] > 0
    ensures Tally(rest, rows[0].service).Keys == ServicesOf(rows)
    ensures forall s :: s in Tally(rest, rows[0].service) ==>
              Tally(rest, rows[0].service)[s] == CountOf(rows, s) && Tally(rest, rows[0].service)[s] > 0
  {
    var s := rows[0].service;
    ServicesOfCons(rows);
    assert s !in rest ==> CountOf(rows[1..], s) == 0 by {
      if s !in rest && CountOf(rows[1..], s) > 0 {
        CountOfPositive(rows[1..], s);
      }
    }
    var counts := Tally(rest, s);
    forall t | t in counts
      ensures counts[t] == CountOf(rows, t) && counts[t] > 0
    {
      CountOfCons(rows, t);
    }
  }

  lemma ServicesOfCons(rows: seq<Row>)
    requires |rows| > 0
    ensures ServicesOf(rows) == {rows[0].service} + ServicesOf(rows[1..])
  {
    assert forall i :: 0 < i < |rows| ==> rows[i] == rows[1..][i - 1];
    assert forall i :: 0 <= i < |rows[1..]| ==> rows[1..][i] == rows[i + 1];
  }

  lemma CountOfCons(rows: seq<Row>, service: string)
    requires |rows| > 0
    ensures CountOf(rows, service) == (if rows[0].service == service then 1 else 0) + CountOf(rows[1..], service)
  {
  }
}
