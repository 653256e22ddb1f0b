/**
  `df.sort_values(by='Account #').groupby('Account #', sort=True)` in
  execution.py: the filtered rows gathered into one group per account, the
  groups in ascending account order. A row without an account (a NaN key)
  belongs to no group, as `groupby` drops NaN keys.
*/
module Grouping {
  import opened Wrappers
  import opened Strings
  import opened Tables

  const AccountColumn: string := "Account #"

  /** One account and its rows, in the order the rows arrived. */
  datatype Group = Group(account: string, rows: seq<Row>)

  function AccountOf(row: Row): Option<string> {
    Get(row, AccountColumn)
  }

  /** Accounts strictly ascending in code-point order: sorted, and no account twice. */
  predicate Ascending(gs: seq<Group>) {
    forall i, j :: 0 <= i < j < |gs| ==> Less(gs[i].account, gs[j].account)
  }

  predicate NoEmptyGroup(gs: seq<Group>) {
    forall i :: 0 <= i < |gs| ==> gs[i].rows != []
  }

  function Accounts(gs: seq<Group>): set<string> {
    set i | 0 <= i < |gs| :: gs[i].account
  }

  /** The accounts the rows carry. */
  function AccountsIn(rows: seq<Row>): set<string> {
    set i | 0 <= i < |rows| && AccountOf(rows[i]).Some? :: AccountOf(rows[i]).value
  }

  /** The rows of the group for `a`, or [] when there is none. */
  function RowsOf(gs: seq<Group>, a: string): seq<Row> {
    if gs == [] then []
    else if gs[0].account == a then gs[0].rows
    else RowsOf(gs[1..], a)
  }

  /** The rows whose account is `a`, in input order. */
  function RowsWith(rows: seq<Row>, a: string): (r: seq<Row>)
    ensures forall k :: 0 <= k < |r| ==> AccountOf(r[k]) == Some(a)
  {
    if rows == [] then []
    else
      var last := rows[|rows| - 1];
      RowsWith(rows[..|rows| - 1], a) + (if AccountOf(last) == Some(a) then [last] else [])
  }

  /** Adds `row` to the group of `acc`, opening a new group at its sorted place when there is none. */
  function Insert(gs: seq<Group>, acc: string, row: Row): seq<Group>
    decreases |gs|
  {
    if gs == [] then [Group(acc, [row])]
    else if gs[0].account == acc then [Group(acc, gs[0].rows + [row])] + gs[1..]
    else if Less(acc, gs[0].account) then [Group(acc, [row])] + gs
    else [gs[0]] + Insert(gs[1..], acc, row)
  }

  /** The groups of `rows`, built a row at a time. */
  function GroupByAccount(rows: seq<Row>): (gs: seq<Group>)
    ensures NoEmptyGroup(gs)
  {
    if rows == [] then []
    else
      var gs := GroupByAccount(rows[..|rows| - 1]);
      var last := rows[|rows| - 1];
      match AccountOf(last)
      case None => gs
      case Some(acc) =>
        InsertNoEmptyGroup(gs, acc, last);
        Insert(gs, acc, last)
  }

  // ------------------------------------------------------------- Insert facts

  lemma AccountsCons(g: Group, gs: seq<Group>)
    ensures Accounts([g] + gs) == {g.account} + Accounts(gs)
  {
    var s := [g] + gs;
    forall a | a in Accounts(s)
      ensures a in {g.account} + Accounts(gs)
    {
      var i :| 0 <= i < |s| && s[i].account == a;
      if i > 0 {
        assert gs[i - 1].account == a;
      }
    }
    forall a | a in Accounts(gs)
      ensures a in Accounts(s)
    {
      var i :| 0 <= i < |gs| && gs[i].account == a;
      assert s[i + 1].account == a;
    }
    assert s[0].account == g.account;
  }

  lemma AccountsTail(gs: seq<Group>)
    requires gs != []
    ensures Accounts(gs) == {gs[0].account} + Accounts(gs[1..])
  {
    assert gs == [gs[0]] + gs[1..];
    AccountsCons(gs[0], gs[1..]);
  }

  lemma {:induction false} InsertAccounts(gs: seq<Group>, acc: string, row: Row)
    ensures Accounts(Insert(gs, acc, row)) == Accounts(gs) + {acc}
    decreases |gs|
  {
    var r := Insert(gs, acc, row);
    if gs == [] {
      assert r[0].account == acc;
    } else if gs[0].account == acc {
      AccountsTail(gs);
      AccountsCons(Group(acc, gs[0].rows + [row]), gs[1..]);
    } else if Less(acc, gs[0].account) {
      AccountsCons(Group(acc, [row]), gs);
    } else {
      AccountsTail(gs);
      InsertAccounts(gs[1..], acc, row);
      AccountsCons(gs[0], Insert(gs[1..], acc, row));
    }
  }

  lemma AscendingTail(gs: seq<Group>)
    requires Ascending(gs) && gs != []
    ensures Ascending(gs[1..])
    ensures forall a :: a in Accounts(gs[1..]) ==> Less(gs[0].account, a)
  {
    forall a | a in Accounts(gs[1..])
      ensures Less(gs[0].account, a)
    {
      var i :| 0 <= i < |gs[1..]| && gs[1..][i].account == a;
      assert gs[i + 1].account == a;
    }
  }

  /** Prepending a group below every account of an ascending list keeps it ascending. */
  lemma AscendingCons(g: Group, gs: seq<Group>)
    requires Ascending(gs)
    requires forall a :: a in Accounts(gs) ==> Less(g.account, a)
    ensures Ascending([g] + gs)
  {
    var s := [g] + gs;
    forall i, j | 0 <= i < j < |s|
      ensures Less(s[i].account, s[j].account)
    {
      assert s[j] == gs[j - 1];
      if i == 0 {
        assert gs[j - 1].account in Accounts(gs);
      } else {
        assert s[i] == gs[i - 1];
      }
    }
  }

  lemma {:induction false} InsertAscending(gs: seq<Group>, acc: string, row: Row)
    requires Ascending(gs)
    ensures Ascending(Insert(gs, acc, row))
    decreases |gs|
  {
    if gs == [] {
    } else if gs[0].account == acc {
      AscendingTail(gs);
      AscendingCons(Group(acc, gs[0].rows + [row]), gs[1..]);
    } else if Less(acc, gs[0].account) {
      forall a | a in Accounts(gs)
        ensures Less(acc, a)
      {
        AccountsTail(gs);
        AscendingTail(gs);
        if a != gs[0].account {
          LessTransitive(acc, gs[0].account, a);
        }
      }
      AscendingCons(Group(acc, [row]), gs);
    } else {
      LessTotal(acc, gs[0].account);
      AscendingTail(gs);
      InsertAscending(gs[1..], acc, row);
      InsertAccounts(gs[1..], acc, row);
      AscendingCons(gs[0], Insert(gs[1..], acc, row));
    }
  }

  lemma {:induction false} InsertNoEmptyGroup(gs: seq<Group>, acc: string, row: Row)
    requires NoEmptyGroup(gs)
    ensures NoEmptyGroup(Insert(gs, acc, row))
    decreases |gs|
  {
    if gs != [] && gs[0].account != acc && !Less(acc, gs[0].account) {
      InsertNoEmptyGroup(gs[1..], acc, row);
      var r := Insert(gs[1..], acc, row);
      assert forall i :: 1 <= i < |[gs[0]] + r| ==> ([gs[0]] + r)[i] == r[i - 1];
    }
  }

  lemma NoEmptyGroupPrefix(gs: seq<Group>)
    requires NoEmptyGroup(gs) && gs != []
    ensures NoEmptyGroup(gs[..|gs| - 1]) && gs[|gs| - 1].rows != []
  {
    assert forall k :: 0 <= k < |gs| - 1 ==> gs[..|gs| - 1][k] == gs[k];
  }

  lemma NoEmptyGroupSnoc(gs: seq<Group>, g: Group)
    requires NoEmptyGroup(gs) && g.rows != []
    ensures NoEmptyGroup(gs + [g])
  {
    assert forall k :: 0 <= k < |gs| ==> (gs + [g])[k] == gs[k];
  }

  lemma {:induction false} RowsOfAbsent(gs: seq<Group>, a: string)
    requires a !in Accounts(gs)
    ensures RowsOf(gs, a) == []
    decreases |gs|
  {
    if gs != [] {
      AccountsTail(gs);
      RowsOfAbsent(gs[1..], a);
    }
  }

  lemma {:induction false} InsertRows(gs: seq<Group>, acc: string, row: Row, a: string)
    requires Ascending(gs)
    ensures RowsOf(Insert(gs, acc, row), a) == RowsOf(gs, a) + (if a == acc then [row] else [])
    decreases |gs|
  {
    if gs == [] {
    } else if gs[0].account == acc {
      assert ([Group(acc, gs[0].rows + [row])] + gs[1..])[1..] == gs[1..];
    } else if Less(acc, gs[0].account) {
      assert ([Group(acc, [row])] + gs)[1..] == gs;
      if a == acc {
        AscendingTail(gs);
        AccountsTail(gs);
        LessAsymmetric(acc, gs[0].account);
        LessIrreflexive(acc);
        RowsOfAbsent(gs, a);
      }
    } else {
      AscendingTail(gs);
      InsertRows(gs[1..], acc, row, a);
      assert ([gs[0]] + Insert(gs[1..], acc, row))[1..] == Insert(gs[1..], acc, row);
    }
  }

  // ---------------------------------------------------------- grouping facts

  lemma AccountsInSnoc(rows: seq<Row>)
    requires rows != []
    ensures var last := rows[|rows| - 1];
      AccountsIn(rows) == AccountsIn(rows[..|rows| - 1]) + (if AccountOf(last).Some? then {AccountOf(last).value} else {})
  {
    var p := rows[..|rows| - 1];
    forall a | a in AccountsIn(p)
      ensures a in AccountsIn(rows)
    {
      var i :| 0 <= i < |p| && AccountOf(p[i]).Some? && AccountOf(p[i]).value == a;
      assert rows[i] == p[i];
    }
    forall a | a in AccountsIn(rows)
      ensures a in AccountsIn(p) || (AccountOf(rows[|rows| - 1]).Some? && a == AccountOf(rows[|rows| - 1]).value)
    {
      var i :| 0 <= i < |rows| && AccountOf(rows[i]).Some? && AccountOf(rows[i]).value == a;
      if i < |p| {
        assert p[i] == rows[i];
      }
    }
  }

  /**
    The groups are strictly ascending by account, there is one
    exactly for each account the rows carry, and the group of an account holds
    exactly the rows with that account, in input order.
  */
  lemma {:induction false} GroupByAccountFacts(rows: seq<Row>)
    ensures Ascending(GroupByAccount(rows))
    ensures Accounts(GroupByAccount(rows)) == AccountsIn(rows)
    ensures forall a :: RowsOf(GroupByAccount(rows), a) == RowsWith(rows, a)
  {
    if rows != [] {
      var p := rows[..|rows| - 1];
      var last := rows[|rows| - 1];
      GroupByAccountFacts(p);
      AccountsInSnoc(rows);
      var gs := GroupByAccount(p);
      match AccountOf(last)
      case None =>
      case Some(acc) =>
        InsertAscending(gs, acc, last);
        InsertAccounts(gs, acc, last);
        forall a
          ensures RowsOf(GroupByAccount(rows), a) == RowsWith(rows, a)
        {
          InsertRows(gs, acc, last, a);
        }
    }
  }

  /** In an ascending list the group at position `k` is the one `RowsOf` finds. */
  lemma {:induction false} RowsOfAt(gs: seq<Group>, k: nat)
    requires Ascending(gs) && k < |gs|
    ensures RowsOf(gs, gs[k].account) == gs[k].rows
    decreases k
  {
    if k > 0 {
      LessIrreflexive(gs[0].account);
      assert Less(gs[0].account, gs[k].account);
      AscendingTail(gs);
      assert gs[1..][k - 1] == gs[k];
      RowsOfAt(gs[1..], k - 1);
    }
  }

  /** Every group holds exactly the input rows of its account, in their order. */
  lemma GroupRows(rows: seq<Row>, k: nat)
    requires k < |GroupByAccount(rows)|
    ensures var g := GroupByAccount(rows)[k];
      g.rows == RowsWith(rows, g.account) && g.rows != [] && g.account in AccountsIn(rows)
  {
    var gs := GroupByAccount(rows);
    GroupByAccountFacts(rows);
    RowsOfAt(gs, k);
    assert gs[k].account in Accounts(gs);
  }
}
