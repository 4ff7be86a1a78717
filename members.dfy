/** The members table and the store operations of main.py: save_member_to_db,
    check_mobile_exists, check_email_exists and get_all_members, over an
    in-memory sequence of rows in place of the SQLite file. */
module Members {
  import opened Text
  import opened Validators

  /** One row of `members`. The `id` is the AUTOINCREMENT key; the source's
      registration_date is replaced by the order of ids. */
  datatype Member = Member(id: nat, name: string, surname: string, mobile: string, email: string)

  /** The table: its rows in insertion order, and the id the next insert gets. */
  datatype Table = Table(rows: seq<Member>, nextId: nat)

  /** The two columns that carry a unique index. */
  datatype Column = MobileColumn | EmailColumn

  function Key(m: Member, c: Column): string {
    match c
    case MobileColumn => m.mobile
    case EmailColumn => m.email
  }

  /** Some row holds `v` in column `c`: what the unique index looks up. */
  predicate Has(rows: seq<Member>, c: Column, v: string) {
    exists k | 0 <= k < |rows| :: Key(rows[k], c) == v
  }

  /** `SELECT COUNT(*) FROM members WHERE <c> = v`. */
  function Count(rows: seq<Member>, c: Column, v: string): (n: nat)
    ensures n <= |rows|
    ensures n > 0 <==> Has(rows, c, v)
  {
    if rows == [] then 0
    else
      var last := rows[|rows| - 1];
      assert forall k | 0 <= k < |rows| - 1 :: rows[..|rows| - 1][k] == rows[k];
      Count(rows[..|rows| - 1], c, v) + (if Key(last, c) == v then 1 else 0)
  }

  /** The unique indexes idx_members_mobile and idx_members_email. */
  ghost predicate KeysDistinct(rows: seq<Member>) {
    forall i, j, c | 0 <= i < j < |rows| :: Key(rows[i], c) != Key(rows[j], c)
  }

  /** Every stored mobile is already clean and every stored e-mail already
      lower case, because the insert normalises both. */
  ghost predicate Normalised(rows: seq<Member>) {
    forall k | 0 <= k < |rows| :: CleanMobile(rows[k].mobile) == rows[k].mobile && Lower(rows[k].email) == rows[k].email
  }

  /** Ids are handed out in increasing order and never reused. */
  ghost predicate IdsIncreasing(t: Table) {
    && (forall i, j | 0 <= i < j < |t.rows| :: t.rows[i].id < t.rows[j].id)
    && (forall k | 0 <= k < |t.rows| :: 0 < t.rows[k].id < t.nextId)
  }

  ghost predicate TableValid(t: Table) {
    0 < t.nextId && KeysDistinct(t.rows) && Normalised(t.rows) && IdsIncreasing(t)
  }

  /** The table init_database creates in a fresh file. */
  function EmptyTable(): (t: Table)
    ensures TableValid(t) && t.rows == []
  {
    Table([], 1)
  }

  /** Under the unique indexes a probe counts at most one row. */
  lemma {:induction false} CountAtMostOne(rows: seq<Member>, c: Column, v: string)
    requires KeysDistinct(rows)
    ensures Count(rows, c, v) <= 1
  {
    if rows != [] {
      var init := rows[..|rows| - 1];
      assert KeysDistinct(init) by {
        forall i, j, c' | 0 <= i < j < |init| ensures Key(init[i], c') != Key(init[j], c') {
          assert init[i] == rows[i] && init[j] == rows[j];
        }
      }
      CountAtMostOne(init, c, v);
    }
  }

  /** check_mobile_exists: the probe cleans the number the way the insert does. */
  function MobileRegistered(t: Table, mobile: string): (found: bool)
    ensures found <==> Has(t.rows, MobileColumn, CleanMobile(mobile))
  {
    Count(t.rows, MobileColumn, CleanMobile(mobile)) > 0
  }

  /** check_email_exists: the probe lower-cases the address the way the insert does. */
  function EmailRegistered(t: Table, email: string): (found: bool)
    ensures found <==> Has(t.rows, EmailColumn, Lower(email))
  {
    Count(t.rows, EmailColumn, Lower(email)) > 0
  }

  datatype SaveResult = SaveResult(table: Table, ok: bool)

  /** save_member_to_db: insert the row with the cleaned mobile and the
      lower-cased e-mail; the insert fails, leaving the table as it was, when
      either key is already present or the storage raises (`ioFails`). */
  function Save(t: Table, name: string, surname: string, mobile: string, email: string, ioFails: bool): (r: SaveResult)
    ensures |r.table.rows| == |t.rows| + (if r.ok then 1 else 0)
    ensures r.table.rows[..|t.rows|] == t.rows
    ensures !r.ok ==> r.table == t
  {
    var m := CleanMobile(mobile);
    var e := Lower(email);
    if ioFails || Has(t.rows, MobileColumn, m) || Has(t.rows, EmailColumn, e) then SaveResult(t, false)
    else SaveResult(Table(t.rows + [Member(t.nextId, name, surname, m, e)], t.nextId + 1), true)
  }

  /** What one insert does: on success exactly one row is added at the end,
      holding the cleaned mobile and the lower-case e-mail; on failure nothing
      changes. It fails exactly when the probes would report the mobile or the
      e-mail, or the storage raises. */
  lemma SaveEffect(t: Table, name: string, surname: string, mobile: string, email: string, ioFails: bool)
    ensures var s := Save(t, name, surname, mobile, email, ioFails);
      && (s.ok <==> !ioFails && !MobileRegistered(t, mobile) && !EmailRegistered(t, email))
      && (s.ok ==> s.table.rows == t.rows + [Member(t.nextId, name, surname, CleanMobile(mobile), Lower(email))]
                   && s.table.nextId == t.nextId + 1)
      && (!s.ok ==> s.table == t)
  {
  }

  /** The insert keeps the unique indexes, the normal forms and the id order. */
  lemma SaveKeepsValid(t: Table, name: string, surname: string, mobile: string, email: string, ioFails: bool)
    requires TableValid(t)
    ensures TableValid(Save(t, name, surname, mobile, email, ioFails).table)
  {
    var s := Save(t, name, surname, mobile, email, ioFails);
    if s.ok {
      var rows := s.table.rows;
      var n := |t.rows|;
      CleanMobileIdempotent(mobile);
      LowerIdempotent(email);
      assert forall k | 0 <= k < n :: rows[k] == t.rows[k];
      forall i, j, c | 0 <= i < j < |rows| ensures Key(rows[i], c) != Key(rows[j], c) {
        if j == n {
          assert Key(rows[j], c) == (if c == MobileColumn then CleanMobile(mobile) else Lower(email));
        }
      }
    }
  }

  /** Rows newest first: the order get_all_members returns. */
  function NewestFirst(rows: seq<Member>): (r: seq<Member>)
    ensures |r| == |rows|
    ensures forall k | 0 <= k < |rows| :: r[k] == rows[|rows| - 1 - k]
  {
    if rows == [] then []
    else [rows[|rows| - 1]] + NewestFirst(rows[..|rows| - 1])
  }

  /** The listing is a permutation of the rows. */
  lemma {:induction false} NewestFirstPermutes(rows: seq<Member>)
    ensures multiset(NewestFirst(rows)) == multiset(rows)
  {
    if rows != [] {
      var init := rows[..|rows| - 1];
      NewestFirstPermutes(init);
      assert rows == init + [rows[|rows| - 1]];
    }
  }

  /** The listing holds every row once and orders them by decreasing id. */
  lemma NewestFirstListsAll(t: Table)
    requires IdsIncreasing(t)
    ensures multiset(NewestFirst(t.rows)) == multiset(t.rows)
    ensures forall i, j | 0 <= i < j < |t.rows| :: NewestFirst(t.rows)[i].id > NewestFirst(t.rows)[j].id
  {
    NewestFirstPermutes(t.rows);
    var r, n := NewestFirst(t.rows), |t.rows|;
    forall i, j | 0 <= i < j < n ensures r[i].id > r[j].id {
      assert r[i] == t.rows[n - 1 - i] && r[j] == t.rows[n - 1 - j];
    }
  }

  /** The members table as a store object; the SQLite connection is the object. */
  class MemberStore {
    var rows: seq<Member>
    var nextId: nat

    function State(): Table
      reads this
    {
      Table(rows, nextId)
    }

    ghost predicate Valid()
      reads this
    {
      TableValid(State())
    }

    /** init_database on a fresh file: an empty table with both unique indexes. */
    constructor ()
      ensures Valid() && State() == EmptyTable()
    {
      rows, nextId := [], 1;
    }

    /** save_member_to_db. */
    method Insert(name: string, surname: string, mobile: string, email: string, ioFails: bool) returns (ok: bool)
      requires Valid()
      modifies this
      ensures Valid()
      ensures SaveResult(State(), ok) == Save(old(State()), name, surname, mobile, email, ioFails)
    {
      ghost var before := State();
      var cleaned := CleanMobile(mobile);
      var lowered := Lower(email);
      if ioFails || Has(rows, MobileColumn, cleaned) || Has(rows, EmailColumn, lowered) {
        return false;
      }
      rows := rows + [Member(nextId, name, surname, cleaned, lowered)];
      nextId := nextId + 1;
      ok := true;
      SaveKeepsValid(before, name, surname, mobile, email, ioFails);
    }

    /** get_all_members: every row, newest first. */
    function AllMembers(): (r: seq<Member>)
      reads this
      requires Valid()
      ensures multiset(r) == multiset(rows)
      ensures forall i, j | 0 <= i < j < |r| :: r[i].id > r[j].id
    {
      NewestFirstListsAll(State());
      NewestFirst(rows)
    }
  }
}
