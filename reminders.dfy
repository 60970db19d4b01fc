/** The in-memory reminder registry of reminder.py: a dictionary from a
    user id to that user's reminders in the order they were added. The
    functions below say what each registry operation makes of the whole
    dictionary; the class Registry performs the same operations in place and
    is proved to agree with them. */
module Reminders {

  type UserId = int

  /** A point in time, in microseconds (see module Calendar). */
  type Time = int

  /** The "type" field of a record; the text reminder.py stores there is
      "Single", "Every {days} days", "Daily", "Weekly on {Weekday}" or
      "Specific Date". */
  datatype Kind = Single | EveryDays(days: int) | Daily | Weekly(weekday: string) | SpecificDate

  datatype Record = Record(jobId: string, message: string, time: Time, kind: Kind)

  type Table = map<UserId, seq<Record>>

  /** The registry never keeps a user whose list is empty. */
  ghost predicate NoEmptyList(m: Table) {
    forall u :: u in m ==> m[u] != []
  }

  /** A user's records, or none when the user has no entry. */
  function Entries(m: Table, user: UserId): seq<Record> {
    if user in m then m[user] else []
  }

  /** Records of a user that a given operation did not touch. */
  ghost predicate SameEntry(m: Table, m': Table, u: UserId) {
    (u in m <==> u in m') && (u in m ==> m'[u] == m[u])
  }

  // ---------------------------------------------------------------- add_reminder

  /** add_reminder: the new record goes at the end of the user's list, which is
      created first when the user has none. */
  function Appended(m: Table, user: UserId, rec: Record): Table {
    m[user := Entries(m, user) + [rec]]
  }

  lemma AppendedSpec(m: Table, user: UserId, rec: Record)
    ensures var m' := Appended(m, user, rec);
      && user in m'
      && |m'[user]| == |Entries(m, user)| + 1
      && m'[user][..|m'[user]| - 1] == Entries(m, user)
      && m'[user][|m'[user]| - 1] == rec
      && (forall u :: u != user ==> SameEntry(m, m', u))
      && (NoEmptyList(m) ==> NoEmptyList(m'))
  {
    var m' := Appended(m, user, rec);
    assert m'[user][..|m'[user]| - 1] == Entries(m, user);
  }

  // ------------------------------------------------------------- remove_reminder

  /** The list comprehension of remove_reminder: the records whose job id
      differs from jobId, in their original order. */
  function Without(rs: seq<Record>, jobId: string): (r: seq<Record>)
    ensures |r| <= |rs|
  {
    if rs == [] then []
    else (if rs[0].jobId == jobId then [] else [rs[0]]) + Without(rs[1..], jobId)
  }

  /** A record survives exactly when it was there and its job id differs. */
  lemma {:induction false} WithoutMembers(rs: seq<Record>, jobId: string, x: Record)
    ensures x in Without(rs, jobId) <==> x in rs && x.jobId != jobId
  {
    if rs != [] {
      WithoutMembers(rs[1..], jobId, x);
      assert rs == [rs[0]] + rs[1..];
    }
  }

  /** Filtering commutes with concatenation, so the survivors keep their
      relative order. */
  lemma {:induction false} WithoutConcat(a: seq<Record>, b: seq<Record>, jobId: string)
    ensures Without(a + b, jobId) == Without(a, jobId) + Without(b, jobId)
  {
    if a == [] {
      assert a + b == b;
    } else {
      assert (a + b)[1..] == a[1..] + b;
      WithoutConcat(a[1..], b, jobId);
    }
  }

  /** Nothing is dropped when no record has the job id. */
  lemma {:induction false} WithoutNoMatch(rs: seq<Record>, jobId: string)
    requires forall i :: 0 <= i < |rs| ==> rs[i].jobId != jobId
    ensures Without(rs, jobId) == rs
  {
    if rs != [] {
      WithoutNoMatch(rs[1..], jobId);
    }
  }

  lemma WithoutIdempotent(rs: seq<Record>, jobId: string)
    ensures Without(Without(rs, jobId), jobId) == Without(rs, jobId)
  {
    var r := Without(rs, jobId);
    forall i | 0 <= i < |r|
      ensures r[i].jobId != jobId
    {
      WithoutMembers(rs, jobId, r[i]);
    }
    WithoutNoMatch(r, jobId);
  }

  /** remove_reminder: keep the other records of the user, and drop the user
      entirely when none is left; nothing happens to an absent user. */
  function Removed(m: Table, user: UserId, jobId: string): Table {
    if user !in m then m
    else
      var rest := Without(m[user], jobId);
      if rest == [] then m - {user} else m[user := rest]
  }

  lemma RemovedSpec(m: Table, user: UserId, jobId: string)
    ensures var m' := Removed(m, user, jobId);
      && Entries(m', user) == Without(Entries(m, user), jobId)
      && (forall x :: x in Entries(m', user) ==> x.jobId != jobId)
      && (forall u :: u != user ==> SameEntry(m, m', u))
      && (user !in m ==> m' == m)
      && (NoEmptyList(m) ==> NoEmptyList(m'))
  {
    var m' := Removed(m, user, jobId);
    forall x | x in Entries(m', user)
      ensures x.jobId != jobId
    {
      WithoutMembers(Entries(m, user), jobId, x);
    }
  }

  /** Removing the same job id twice is the same as removing it once. */
  lemma RemovedIdempotent(m: Table, user: UserId, jobId: string)
    ensures Removed(Removed(m, user, jobId), user, jobId) == Removed(m, user, jobId)
  {
    if user in m {
      WithoutIdempotent(m[user], jobId);
    }
  }

  // -------------------------------------------------------- update_reminder_date

  /** The loop of update_reminder_date: the first record with the job id gets
      the new time, and the rest of the list is left as it was. */
  function Retimed(rs: seq<Record>, jobId: string, t: Time): (r: seq<Record>)
    ensures |r| == |rs|
  {
    if rs == [] then []
    else if rs[0].jobId == jobId then [rs[0].(time := t)] + rs[1..]
    else [rs[0]] + Retimed(rs[1..], jobId, t)
  }

  /** When index i holds the first matching record, only its time changes. */
  lemma {:induction false} RetimedAt(rs: seq<Record>, jobId: string, t: Time, i: int)
    requires 0 <= i < |rs| && rs[i].jobId == jobId
    requires forall k :: 0 <= k < i ==> rs[k].jobId != jobId
    ensures Retimed(rs, jobId, t) == rs[i := rs[i].(time := t)]
  {
    if i > 0 {
      RetimedAt(rs[1..], jobId, t, i - 1);
    }
  }

  /** Without a matching record the list is unchanged. */
  lemma {:induction false} RetimedNoMatch(rs: seq<Record>, jobId: string, t: Time)
    requires forall k :: 0 <= k < |rs| ==> rs[k].jobId != jobId
    ensures Retimed(rs, jobId, t) == rs
  {
    if rs != [] {
      RetimedNoMatch(rs[1..], jobId, t);
    }
  }

  /** update_reminder_date on the whole dictionary. */
  function Updated(m: Table, user: UserId, jobId: string, t: Time): Table {
    if user in m then m[user := Retimed(m[user], jobId, t)] else m
  }

  /** Only the time of the first matching record of that user can change: every
      other record, every other field and the length stay, and nothing changes
      when the user or the job id is absent. */
  lemma UpdatedSpec(m: Table, user: UserId, jobId: string, t: Time)
    ensures var m' := Updated(m, user, jobId, t);
      && (user in m' <==> user in m)
      && |Entries(m', user)| == |Entries(m, user)|
      && (forall k :: 0 <= k < |Entries(m, user)| ==>
            Entries(m', user)[k] == Entries(m, user)[k]
            || (Entries(m', user)[k] == Entries(m, user)[k].(time := t)
                && Entries(m, user)[k].jobId == jobId
                && forall j :: 0 <= j < k ==> Entries(m, user)[j].jobId != jobId))
      && ((forall k :: 0 <= k < |Entries(m, user)| ==> Entries(m, user)[k].jobId != jobId) ==> m' == m)
      && (forall u :: u != user ==> SameEntry(m, m', u))
      && (NoEmptyList(m) ==> NoEmptyList(m'))
  {
    var rs := Entries(m, user);
    if forall k :: 0 <= k < |rs| ==> rs[k].jobId != jobId {
      RetimedNoMatch(rs, jobId, t);
    } else {
      var i := FirstMatch(rs, jobId);
      RetimedAt(rs, jobId, t, i);
    }
  }

  /** The index of the first record with the job id, when there is one. */
  lemma FirstMatch(rs: seq<Record>, jobId: string) returns (i: int)
    requires exists k :: 0 <= k < |rs| && rs[k].jobId == jobId
    ensures 0 <= i < |rs| && rs[i].jobId == jobId
    ensures forall k :: 0 <= k < i ==> rs[k].jobId != jobId
  {
    i := 0;
    while rs[i].jobId != jobId
      invariant 0 <= i < |rs|
      invariant forall k :: 0 <= k < i ==> rs[k].jobId != jobId
      invariant exists k :: i <= k < |rs| && rs[k].jobId == jobId
      decreases |rs| - i
    {
      i := i + 1;
    }
  }

  // ------------------------------------------------------------- view_reminders

  /** view_reminders: None for the "no active reminders" reply, otherwise the
      records to list, in order. */
  function Listing(m: Table, user: UserId): Option<seq<Record>> {
    if user !in m || |m[user]| == 0 then None else Some(m[user])
  }

  /** "No reminders" is reported exactly when the user has no record; while the
      registry keeps no empty list that is exactly when the user has no entry. */
  lemma ListingSpec(m: Table, user: UserId)
    ensures Listing(m, user).None? <==> Entries(m, user) == []
    ensures Listing(m, user).Some? ==> Listing(m, user).value == Entries(m, user)
    ensures NoEmptyList(m) ==> (Listing(m, user).None? <==> user !in m)
  {
  }

  datatype Option<T> = None | Some(value: T)

  // ------------------------------------------------------------- the registry

  /** The module-level `reminders` dictionary, updated in place. */
  class Registry {
    var reminders: Table

    ghost predicate Valid()
      reads this
    {
      NoEmptyList(reminders)
    }

    constructor ()
      ensures Valid() && reminders == map[]
    {
      reminders := map[];
    }

    method Add(user: UserId, jobId: string, message: string, time: Time, kind: Kind)
      requires Valid()
      modifies this
      ensures Valid()
      ensures reminders == Appended(old(reminders), user, Record(jobId, message, time, kind))
    {
      AppendedSpec(reminders, user, Record(jobId, message, time, kind));
      if user !in reminders {
        reminders := reminders[user := []];
      }
      reminders := reminders[user := reminders[user] + [Record(jobId, message, time, kind)]];
    }

    method Remove(user: UserId, jobId: string)
      requires Valid()
      modifies this
      ensures Valid()
      ensures reminders == Removed(old(reminders), user, jobId)
    {
      RemovedSpec(reminders, user, jobId);
      if user in reminders {
        reminders := reminders[user := Without(reminders[user], jobId)];
        if reminders[user] == [] {
          reminders := reminders - {user};
        }
      }
    }

    method UpdateTime(user: UserId, jobId: string, nextTime: Time)
      requires Valid()
      modifies this
      ensures Valid()
      ensures reminders == Updated(old(reminders), user, jobId, nextTime)
    {
      UpdatedSpec(reminders, user, jobId, nextTime);
      if user in reminders {
        var rs := reminders[user];
        var i := 0;
        while i < |rs|
          invariant 0 <= i <= |rs|
          invariant forall k :: 0 <= k < i ==> rs[k].jobId != jobId
        {
          if rs[i].jobId == jobId {
            RetimedAt(rs, jobId, nextTime, i);
            reminders := reminders[user := rs[i := rs[i].(time := nextTime)]];
            return;
          }
          i := i + 1;
        }
        RetimedNoMatch(rs, jobId, nextTime);
      }
    }

    /** view_reminders' check and the records it lists: the listing of the
        whole dictionary, which is empty exactly for a user without an entry. */
    method View(user: UserId) returns (listing: Option<seq<Record>>)
      requires Valid()
      ensures listing == Listing(reminders, user)
      ensures listing.None? <==> user !in reminders
      ensures listing.Some? ==> listing.value == reminders[user] != []
    {
      ListingSpec(reminders, user);
      if user !in reminders || |reminders[user]| == 0 {
        listing := None;
      } else {
        listing := Some(reminders[user]);
      }
    }
  }
}
