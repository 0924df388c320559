/**
 * `PATCH user/:id/bank`: a user's compensatory-hours row is created with the submitted
 * balance, or, once it exists, accrues it: the hour count grows by the signed balance,
 * the date is overwritten and the description is kept.
 */
module BankLedger {
  import opened Wrappers
  import opened Calendar
  import opened Store

  /** `bankHour.findUnique({ where: { id_user } })`. */
  function FindBank(rows: seq<BankHour>, user: UserId): (r: Option<BankHour>)
    ensures r.Some? ==> r.value in rows && r.value.user == user
    ensures r.None? <==> forall k :: 0 <= k < |rows| ==> rows[k].user != user
  {
    if |rows| == 0 then None
    else if rows[0].user == user then Some(rows[0])
    else
      assert forall k :: 1 <= k < |rows| ==> rows[1..][k - 1] == rows[k];
      FindBank(rows[1..], user)
  }

  /** The user's balance; a user without a row has accrued nothing. */
  function BalanceOf(rows: seq<BankHour>, user: UserId): int {
    match FindBank(rows, user)
    case Some(row) => row.hour
    case None => 0
  }

  /** `bankHour.update({ where: { id_user }, data: { date, hour } })`. */
  function Accrue(rows: seq<BankHour>, user: UserId, date: Date, balance: int): seq<BankHour> {
    seq(|rows|, k requires 0 <= k < |rows| =>
      if rows[k].user == user then rows[k].(date := date, hour := rows[k].hour + balance) else rows[k])
  }

  /** The table after one call: create the row, or accrue into it. */
  function Adjust(rows: seq<BankHour>, user: UserId, date: Date, balance: int, description: string,
                  freshId: Id): seq<BankHour>
  {
    if FindBank(rows, user).None? then rows + [BankHour(freshId, user, date, balance, description)]
    else Accrue(rows, user, date, balance)
  }

  /** One row per user holds before and after. */
  lemma AdjustKeepsRowsUnique(rows: seq<BankHour>, user: UserId, date: Date, balance: int,
                              description: string, freshId: Id)
    requires BankRowsUnique(rows)
    ensures BankRowsUnique(Adjust(rows, user, date, balance, description, freshId))
  {
  }

  /**
   * After the call the user's row carries the new date and a balance grown by `balance`;
   * a new row gets the submitted description, an existing one keeps its own.
   */
  lemma AdjustEffect(rows: seq<BankHour>, user: UserId, date: Date, balance: int,
                     description: string, freshId: Id)
    requires BankRowsUnique(rows)
    ensures var after := Adjust(rows, user, date, balance, description, freshId);
      && FindBank(after, user).Some?
      && BalanceOf(after, user) == BalanceOf(rows, user) + balance
      && FindBank(after, user).value.date == date
      && (FindBank(rows, user).None? ==>
            FindBank(after, user).value == BankHour(freshId, user, date, balance, description))
      && (FindBank(rows, user).Some? ==>
            FindBank(after, user).value.description == FindBank(rows, user).value.description &&
            FindBank(after, user).value.id == FindBank(rows, user).value.id)
  {
    var after := Adjust(rows, user, date, balance, description, freshId);
    match FindBank(rows, user)
    case None =>
      FindBankLast(rows, BankHour(freshId, user, date, balance, description));
    case Some(row) =>
      var k := FindIndex(rows, row);
      assert after[k] == row.(date := date, hour := row.hour + balance);
      UniqueRowFound(after, user, k);
  }

  /** Every other user's row is left exactly as it was. */
  lemma AdjustKeepsOthers(rows: seq<BankHour>, user: UserId, date: Date, balance: int,
                          description: string, freshId: Id, other: UserId)
    requires other != user
    ensures var after := Adjust(rows, user, date, balance, description, freshId);
      && (forall k :: 0 <= k < |rows| && rows[k].user == other ==> after[k] == rows[k])
      && FindBank(after, other) == FindBank(rows, other)
      && BalanceOf(after, other) == BalanceOf(rows, other)
  {
    var after := Adjust(rows, user, date, balance, description, freshId);
    if FindBank(rows, user).None? {
      FindBankPrefix(rows, BankHour(freshId, user, date, balance, description), other);
    } else {
      FindBankAccrueOther(rows, user, date, balance, other);
    }
  }

  lemma {:induction false} FindBankPrefix(rows: seq<BankHour>, row: BankHour, other: UserId)
    requires row.user != other
    ensures FindBank(rows + [row], other) == FindBank(rows, other)
  {
    if |rows| > 0 && rows[0].user != other {
      assert (rows + [row])[1..] == rows[1..] + [row];
      FindBankPrefix(rows[1..], row, other);
    } else if |rows| == 0 {
      assert [row][1..] == [];
    }
  }

  lemma {:induction false} FindBankAccrueOther(rows: seq<BankHour>, user: UserId, date: Date, balance: int,
                                               other: UserId)
    requires other != user
    ensures FindBank(Accrue(rows, user, date, balance), other) == FindBank(rows, other)
  {
    if |rows| > 0 && rows[0].user != other {
      assert Accrue(rows, user, date, balance)[1..] == Accrue(rows[1..], user, date, balance);
      FindBankAccrueOther(rows[1..], user, date, balance, other);
    }
  }

  lemma {:induction false} FindBankLast(rows: seq<BankHour>, row: BankHour)
    requires forall k :: 0 <= k < |rows| ==> rows[k].user != row.user
    ensures FindBank(rows + [row], row.user) == Some(row)
  {
    if |rows| == 0 {
    } else {
      assert (rows + [row])[1..] == rows[1..] + [row];
      FindBankLast(rows[1..], row);
    }
  }

  /** A position holding a member of a sequence. */
  lemma FindIndex<T>(s: seq<T>, x: T) returns (k: int)
    requires x in s
    ensures 0 <= k < |s| && s[k] == x
  {
    k :| 0 <= k < |s| && s[k] == x;
  }

  lemma {:induction false} UniqueRowFound(rows: seq<BankHour>, user: UserId, k: int)
    requires BankRowsUnique(rows) && 0 <= k < |rows| && rows[k].user == user
    ensures FindBank(rows, user) == Some(rows[k])
  {
    if k > 0 {
      assert rows[0].user != user;
      assert rows[1..][k - 1] == rows[k];
      UniqueRowFound(rows[1..], user, k - 1);
    }
  }

  /** `updateUserBank`, for both controllers; `date` is `new Date(body.date)`. */
  method UpdateUserBank(db: Database, resources: Resources, id: UserId, date: Date, balance: int,
                        description: string)
    returns (r: Outcome<Failure>)
    requires db.Valid()
    modifies db
    ensures db.Valid()
    ensures db.releases == old(db.releases) && db.holidays == old(db.holidays)
    ensures db.payments == old(db.payments) && db.users == old(db.users)
    ensures "PATCH_USER" !in resources ==>
      r == Fail(Forbidden) && db.bankHours == old(db.bankHours) && db.nextId == old(db.nextId)
    ensures "PATCH_USER" in resources ==>
      && r == Pass
      && db.bankHours == Adjust(old(db.bankHours), id, date, balance, description, old(db.nextId))
      && db.nextId == old(db.nextId) + (if FindBank(old(db.bankHours), id).None? then 1 else 0)
  {
    if "PATCH_USER" !in resources {
      return Fail(Forbidden);
    }
    AdjustKeepsRowsUnique(db.bankHours, id, date, balance, description, db.nextId);
    var userBankHour := FindBank(db.bankHours, id);
    if userBankHour.None? {
      db.bankHours := db.bankHours + [BankHour(db.nextId, id, date, balance, description)];
      db.nextId := db.nextId + 1;
      return Pass;
    }
    db.bankHours := Accrue(db.bankHours, id, date, balance);
    return Pass;
  }

  // ---------------------------------------------------------------------------
  // Sequences of adjustments.

  /** One call's request: the path id and the body. */
  datatype Adjustment = Adjustment(user: UserId, date: Date, balance: int, description: string)

  /** The table after the calls `adjs`, in order, with identifiers handed out from `nextId`. */
  function ApplyAll(rows: seq<BankHour>, adjs: seq<Adjustment>, nextId: Id): seq<BankHour>
    decreases |adjs|
  {
    if |adjs| == 0 then rows
    else
      var a := adjs[0];
      ApplyAll(Adjust(rows, a.user, a.date, a.balance, a.description, nextId), adjs[1..], nextId + 1)
  }

  /** The sum of the balances submitted for `user`. */
  function SumFor(adjs: seq<Adjustment>, user: UserId): int {
    if |adjs| == 0 then 0
    else (if adjs[0].user == user then adjs[0].balance else 0) + SumFor(adjs[1..], user)
  }

  /** After any sequence of calls, every balance is the old one plus the sum of its deltas. */
  lemma {:induction false} ApplyAllBalance(rows: seq<BankHour>, adjs: seq<Adjustment>, nextId: Id, user: UserId)
    requires BankRowsUnique(rows)
    ensures BankRowsUnique(ApplyAll(rows, adjs, nextId))
    ensures BalanceOf(ApplyAll(rows, adjs, nextId), user) == BalanceOf(rows, user) + SumFor(adjs, user)
    decreases |adjs|
  {
    if |adjs| > 0 {
      var a := adjs[0];
      var next := Adjust(rows, a.user, a.date, a.balance, a.description, nextId);
      AdjustKeepsRowsUnique(rows, a.user, a.date, a.balance, a.description, nextId);
      if a.user == user {
        AdjustEffect(rows, a.user, a.date, a.balance, a.description, nextId);
      } else {
        AdjustKeepsOthers(rows, a.user, a.date, a.balance, a.description, nextId, user);
      }
      ApplyAllBalance(next, adjs[1..], nextId + 1, user);
      assert ApplyAll(rows, adjs, nextId) == ApplyAll(next, adjs[1..], nextId + 1);
      assert SumFor(adjs, user) == (if a.user == user then a.balance else 0) + SumFor(adjs[1..], user);
    }
  }

  /** The sum is additive over concatenation. */
  lemma {:induction false} SumForAppend(a: seq<Adjustment>, b: seq<Adjustment>, user: UserId)
    ensures SumFor(a + b, user) == SumFor(a, user) + SumFor(b, user)
  {
    if |a| == 0 {
      assert a + b == b;
    } else {
      assert (a + b)[0] == a[0] && (a + b)[1..] == a[1..] + b;
      SumForAppend(a[1..], b, user);
    }
  }

  /** Removing one adjustment from the sum subtracts its own contribution. */
  lemma SumForRemove(adjs: seq<Adjustment>, i: int, user: UserId)
    requires 0 <= i < |adjs|
    ensures SumFor(adjs, user) ==
      SumFor(adjs[..i] + adjs[i + 1..], user) + (if adjs[i].user == user then adjs[i].balance else 0)
  {
    assert adjs == adjs[..i] + ([adjs[i]] + adjs[i + 1..]);
    SumForAppend(adjs[..i], [adjs[i]] + adjs[i + 1..], user);
    SumForAppend(adjs[..i], adjs[i + 1..], user);
    assert ([adjs[i]] + adjs[i + 1..])[1..] == adjs[i + 1..];
  }

  /** The sum does not depend on the order of the adjustments. */
  lemma {:induction false} SumForPermutation(adjs: seq<Adjustment>, other: seq<Adjustment>, user: UserId)
    requires multiset(adjs) == multiset(other)
    ensures SumFor(adjs, user) == SumFor(other, user)
    decreases |adjs|
  {
    if |adjs| == 0 {
      assert |other| == 0 by {
        assert |multiset(other)| == 0;
      }
    } else {
      var a := adjs[0];
      assert a in multiset(other);
      var i := FindIndex(other, a);
      var rest := other[..i] + other[i + 1..];
      MultisetRemove(other, i);
      MultisetDropFirst(adjs);
      SumForPermutation(adjs[1..], rest, user);
      SumForRemove(other, i, user);
    }
  }

  /** Dropping position `i` drops one occurrence of its element. */
  lemma MultisetRemove<T>(s: seq<T>, i: int)
    requires 0 <= i < |s|
    ensures multiset(s[..i] + s[i + 1..]) == multiset(s) - multiset{s[i]}
  {
    assert s == s[..i] + [s[i]] + s[i + 1..];
    assert multiset(s) == multiset(s[..i]) + multiset{s[i]} + multiset(s[i + 1..]);
  }

  /** Dropping the first element drops one occurrence of it. */
  lemma MultisetDropFirst<T>(s: seq<T>)
    requires |s| > 0
    ensures multiset(s[1..]) == multiset(s) - multiset{s[0]}
  {
    assert s == [s[0]] + s[1..];
  }

  /** The same calls in any order leave every user with the same balance. */
  lemma ApplyAllOrderIndependent(rows: seq<BankHour>, adjs: seq<Adjustment>, other: seq<Adjustment>,
                                 nextId: Id, user: UserId)
    requires BankRowsUnique(rows) && multiset(adjs) == multiset(other)
    ensures BalanceOf(ApplyAll(rows, adjs, nextId), user) == BalanceOf(ApplyAll(rows, other, nextId), user)
  {
    ApplyAllBalance(rows, adjs, nextId, user);
    ApplyAllBalance(rows, other, nextId, user);
    SumForPermutation(adjs, other, user);
  }
}
