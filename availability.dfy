/** The in-memory availability board: one row per team member holding a
    status, a free-text comment and the time of the last update. */
module Availability {

  /** The shared secret that unlocks the manager's reset. */
  const AdminPassword: string := "admin"

  /** The people on the board, in display order. */
  const TeamMembers: seq<string> := [
    "Niclas Axelsson (Manager)",
    "Anna Penalosa",
    "Jukka Kvarnström",
    "Aakash Arul",
    "Tony Nilsson",
    "Niklas Brikell",
    "Ting Ma",
    "Niclas Larsson",
    "Kjell-Ove Johannesson",
    "Kenny Leandersson",
    "Tobias Persson",
    "Angelo Dárro",
    "Viktor Borgström",
    "Jozsef Kovacs",
    "Kemal Veispahic",
    "Lennart Olausson"
  ]

  /** The status of a row nobody has updated since seeding or the last reset. */
  const NotUpdated: string := "❓ Not Updated"

  /** The four choices of the "Where are you today?" radio control. */
  const Office: string := "🏢 Office"
  const Wfh: string := "🏠 WFH"
  const SickAway: string := "🤒 Sick/Away"
  const Workshop: string := "🛠️ Workshop"
  const StatusOptions: seq<string> := [Office, Wfh, SickAway, Workshop]

  /** One row of the table: the `Name`, `Status`, `Reason/Comment` and
      `Last Updated` columns. */
  datatype Row = Row(name: string, status: string, comment: string, lastUpdated: string)

  /** A row in its default state: not updated, no comment, no time. */
  predicate IsCleared(r: Row)
  {
    r.status == NotUpdated && r.comment == "" && r.lastUpdated == ""
  }

  /** A status the board can hold: a radio choice or the default. */
  predicate KnownStatus(s: string)
  {
    s == NotUpdated || s in StatusOptions
  }

  predicate AllKnown(rows: seq<Row>)
  {
    forall i :: 0 <= i < |rows| ==> KnownStatus(rows[i].status)
  }

  predicate Distinct(names: seq<string>)
  {
    forall i, j :: 0 <= i < j < |names| ==> names[i] != names[j]
  }

  /** The `Name` column. */
  function Names(rows: seq<Row>): seq<string>
  {
    seq(|rows|, i requires 0 <= i < |rows| => rows[i].name)
  }

  /** The row a member starts with. */
  function FreshRow(name: string): Row
  {
    Row(name, NotUpdated, "", "")
  }

  /** A row with its three mutable columns set back to their defaults. */
  function Cleared(r: Row): (c: Row)
    ensures IsCleared(c) && c.name == r.name
    ensures IsCleared(r) ==> c == r
  {
    r.(status := NotUpdated, comment := "", lastUpdated := "")
  }

  /** A row after its owner submitted a status, comment and time. */
  function Stamped(r: Row, status: string, comment: string, time: string): Row
  {
    r.(status := status, comment := comment, lastUpdated := time)
  }

  /** The initial table built from a member list. */
  function Seed(names: seq<string>): (rows: seq<Row>)
    ensures |rows| == |names|
    ensures forall i :: 0 <= i < |names| ==> rows[i].name == names[i] && IsCleared(rows[i])
  {
    seq(|names|, i requires 0 <= i < |names| => FreshRow(names[i]))
  }

  /** The table after the manager's reset. */
  function ResetRows(rows: seq<Row>): (reset: seq<Row>)
    ensures |reset| == |rows|
    ensures forall i :: 0 <= i < |rows| ==> reset[i].name == rows[i].name && IsCleared(reset[i])
  {
    seq(|rows|, i requires 0 <= i < |rows| => Cleared(rows[i]))
  }

  /** The table after `name` submits an update: the first row carrying that
      name is stamped; a table without the name is returned as it is. */
  function ApplyUpdate(rows: seq<Row>, name: string, status: string, comment: string, time: string): (updated: seq<Row>)
    ensures |updated| == |rows|
    ensures forall k :: 0 <= k < |rows| && rows[k].name != name ==> updated[k] == rows[k]
  {
    if rows == [] then []
    else if rows[0].name == name then [Stamped(rows[0], status, comment, time)] + rows[1..]
    else [rows[0]] + ApplyUpdate(rows[1..], name, status, comment, time)
  }

  // ---------------------------------------------------------------------
  // Seeding

  /** Seeding gives one default row per member, in list order. */
  lemma SeedShape(names: seq<string>)
    ensures |Seed(names)| == |names|
    ensures Names(Seed(names)) == names
    ensures forall i :: 0 <= i < |names| ==> IsCleared(Seed(names)[i])
    ensures AllKnown(Seed(names))
  {
  }

  /** The member list has no duplicate names, so the first match of a name
      on a seeded board is its only match. */
  lemma TeamMembersDistinct()
    ensures Distinct(TeamMembers)
  {
  }

  // ---------------------------------------------------------------------
  // Reset

  /** Reset clears every row and keeps names, row count and order. */
  lemma ResetShape(rows: seq<Row>)
    ensures |ResetRows(rows)| == |rows|
    ensures Names(ResetRows(rows)) == Names(rows)
    ensures forall i :: 0 <= i < |rows| ==> IsCleared(ResetRows(rows)[i])
    ensures AllKnown(ResetRows(rows))
  {
  }

  /** Resetting twice is resetting once. */
  lemma ResetIdempotent(rows: seq<Row>)
    ensures ResetRows(ResetRows(rows)) == ResetRows(rows)
  {
  }

  /** A freshly seeded board is already in the reset state. */
  lemma ResetOfSeed(names: seq<string>)
    ensures ResetRows(Seed(names)) == Seed(names)
  {
  }

  /** A reset erases whatever update came before it. */
  lemma ResetAfterUpdate(rows: seq<Row>, name: string, status: string, comment: string, time: string)
    ensures ResetRows(ApplyUpdate(rows, name, status, comment, time)) == ResetRows(rows)
  {
    var updated := ApplyUpdate(rows, name, status, comment, time);
    UpdateKeepsNames(rows, name, status, comment, time);
    forall k | 0 <= k < |rows| ensures ResetRows(updated)[k] == ResetRows(rows)[k] {
      assert Names(updated)[k] == Names(rows)[k];
    }
  }

  // ---------------------------------------------------------------------
  // Status update

  /** The update stamps exactly the first row carrying `name` with the
      submitted status, comment and time, and no other row. */
  lemma {:induction false} UpdateFirstMatch(rows: seq<Row>, name: string, status: string, comment: string, time: string, i: nat)
    requires i < |rows| && rows[i].name == name
    requires forall j :: 0 <= j < i ==> rows[j].name != name
    ensures ApplyUpdate(rows, name, status, comment, time) == rows[i := Row(name, status, comment, time)]
  {
    if i > 0 {
      UpdateFirstMatch(rows[1..], name, status, comment, time, i - 1);
      assert rows[i := Row(name, status, comment, time)]
          == [rows[0]] + rows[1..][i - 1 := Row(name, status, comment, time)];
    }
  }

  /** An update for a name that is not on the board changes nothing. */
  lemma {:induction false} UpdateMissing(rows: seq<Row>, name: string, status: string, comment: string, time: string)
    requires name !in Names(rows)
    ensures ApplyUpdate(rows, name, status, comment, time) == rows
  {
    if rows != [] {
      assert rows[0].name == Names(rows)[0];
      forall k | 0 <= k < |rows| - 1 ensures Names(rows[1..])[k] != name {
        assert Names(rows[1..])[k] == Names(rows)[k + 1];
      }
      UpdateMissing(rows[1..], name, status, comment, time);
    }
  }

  /** An update keeps the row count, the order and every name. */
  lemma {:induction false} UpdateKeepsNames(rows: seq<Row>, name: string, status: string, comment: string, time: string)
    ensures |ApplyUpdate(rows, name, status, comment, time)| == |rows|
    ensures Names(ApplyUpdate(rows, name, status, comment, time)) == Names(rows)
  {
    if rows != [] && rows[0].name != name {
      UpdateKeepsNames(rows[1..], name, status, comment, time);
      assert Names(rows) == [rows[0].name] + Names(rows[1..]);
      assert Names([rows[0]] + ApplyUpdate(rows[1..], name, status, comment, time))
          == [rows[0].name] + Names(ApplyUpdate(rows[1..], name, status, comment, time));
    } else if rows != [] {
      assert Names(rows) == [rows[0].name] + Names(rows[1..]);
      assert Names([Stamped(rows[0], status, comment, time)] + rows[1..])
          == [rows[0].name] + Names(rows[1..]);
    }
  }

  /** On a board without duplicate names, the update stamps the row that
      carries the name, wherever it is. */
  lemma UpdateUnique(rows: seq<Row>, name: string, status: string, comment: string, time: string, k: nat)
    requires Distinct(Names(rows))
    requires k < |rows| && rows[k].name == name
    ensures ApplyUpdate(rows, name, status, comment, time) == rows[k := Row(name, status, comment, time)]
  {
    forall j | 0 <= j < k ensures rows[j].name != name {
      assert Names(rows)[j] != Names(rows)[k];
    }
    UpdateFirstMatch(rows, name, status, comment, time, k);
  }

  /** The last write wins: a second update by the same member overrides the
      first one completely, whatever status, comment and time each carried. */
  lemma {:induction false} UpdateLastWins(rows: seq<Row>, name: string,
                                          status1: string, comment1: string, time1: string,
                                          status2: string, comment2: string, time2: string)
    ensures ApplyUpdate(ApplyUpdate(rows, name, status1, comment1, time1), name, status2, comment2, time2)
         == ApplyUpdate(rows, name, status2, comment2, time2)
  {
    if rows != [] && rows[0].name != name {
      UpdateLastWins(rows[1..], name, status1, comment1, time1, status2, comment2, time2);
      var tail := ApplyUpdate(rows[1..], name, status1, comment1, time1);
      assert ([rows[0]] + tail)[1..] == tail;
    } else if rows != [] {
      assert ([Stamped(rows[0], status1, comment1, time1)] + rows[1..])[1..] == rows[1..];
    }
  }

  /** Submitting the same update twice leaves the board as one submission does. */
  lemma UpdateIdempotent(rows: seq<Row>, name: string, status: string, comment: string, time: string)
    ensures ApplyUpdate(ApplyUpdate(rows, name, status, comment, time), name, status, comment, time)
         == ApplyUpdate(rows, name, status, comment, time)
  {
    UpdateLastWins(rows, name, status, comment, time, status, comment, time);
  }

  /** Submitting one of the radio choices keeps every status on the board
      a radio choice or the default. */
  lemma {:induction false} UpdateKeepsKnown(rows: seq<Row>, name: string, status: string, comment: string, time: string)
    requires AllKnown(rows) && status in StatusOptions
    ensures AllKnown(ApplyUpdate(rows, name, status, comment, time))
  {
    if rows != [] && rows[0].name != name {
      UpdateKeepsKnown(rows[1..], name, status, comment, time);
      var tail := ApplyUpdate(rows[1..], name, status, comment, time);
      assert forall i :: 0 < i < |[rows[0]] + tail| ==> ([rows[0]] + tail)[i] == tail[i - 1];
    }
  }

  // ---------------------------------------------------------------------
  // The board as the session holds it

  /** The table kept in the session. The DataFrame is never resized, so it
      is a fixed array whose rows are overwritten in place. */
  class Board {
    const table: array<Row>
    /** The member list the board was seeded from. */
    ghost const members: seq<string>

    function Rows(): seq<Row>
      reads table
    {
      table[..]
    }

    /** The `Name` column is the member list, in its order. */
    ghost predicate Valid()
      reads table
    {
      Names(Rows()) == members
    }

    /** Seeds the board with one default row per member. */
    constructor (names: seq<string>)
      ensures Valid() && members == names
      ensures Rows() == Seed(names)
      ensures fresh(table)
    {
      table := new Row[|names|](i requires 0 <= i < |names| => FreshRow(names[i]));
      members := names;
      new;
      assert Rows() == Seed(names);
      SeedShape(names);
    }

    /** The position of the first row whose name is `name`; not found when
        no row carries it. */
    method FindRow(name: string) returns (found: bool, index: nat)
      ensures found <==> name in Names(Rows())
      ensures found ==> index < |Rows()| && Rows()[index].name == name
      ensures found ==> forall j :: 0 <= j < index ==> Rows()[j].name != name
    {
      index := 0;
      while index < table.Length && table[index].name != name
        invariant index <= table.Length
        invariant forall j :: 0 <= j < index ==> table[j].name != name
      {
        index := index + 1;
      }
      found := index < table.Length;
      if !found {
        assert forall j :: 0 <= j < |Rows()| ==> Names(Rows())[j] != name;
      } else {
        assert Names(Rows())[index] == name;
      }
    }

    /** The "Update Status" handler: stamps the first row carrying `name`.
        A name that is not on the board fails and leaves it untouched. */
    method UpdateStatus(name: string, status: string, comment: string, time: string) returns (ok: bool)
      requires Valid()
      modifies table
      ensures Valid()
      ensures ok == (name in members)
      ensures Rows() == ApplyUpdate(old(Rows()), name, status, comment, time)
      ensures forall i :: 0 <= i < |Rows()| ==>
                Rows()[i] == old(Rows())[i] || (old(Rows())[i].name == name && Rows()[i] == Row(name, status, comment, time))
      ensures !ok ==> Rows() == old(Rows())
      ensures old(AllKnown(Rows())) && status in StatusOptions ==> AllKnown(Rows())
    {
      ghost var before := Rows();
      var found, index := FindRow(name);
      if found {
        UpdateFirstMatch(before, name, status, comment, time, index);
        table[index] := Stamped(table[index], status, comment, time);
        assert Rows() == before[index := Row(name, status, comment, time)];
      } else {
        UpdateMissing(before, name, status, comment, time);
      }
      ok := found;
      UpdateKeepsNames(before, name, status, comment, time);
      if AllKnown(before) && status in StatusOptions {
        UpdateKeepsKnown(before, name, status, comment, time);
      }
    }

    /** The manager's reset: overwrites the status, comment and time of
        every row with their defaults. */
    method Reset()
      requires Valid()
      modifies table
      ensures Valid()
      ensures Rows() == ResetRows(old(Rows()))
      ensures forall i :: 0 <= i < |Rows()| ==> IsCleared(Rows()[i])
    {
      ghost var before := Rows();
      for i := 0 to table.Length
        invariant forall j :: 0 <= j < i ==> table[j] == Cleared(before[j])
        invariant forall j :: i <= j < table.Length ==> table[j] == before[j]
      {
        table[i] := Cleared(table[i]);
      }
      assert Rows() == ResetRows(before);
      ResetShape(before);
    }

    /** The reset behind the password field: runs only when the entered
        password equals the admin password exactly. */
    method ResetIfAuthorized(pwd: string) returns (done: bool)
      requires Valid()
      modifies table
      ensures Valid()
      ensures done == (pwd == AdminPassword)
      ensures Rows() == if done then ResetRows(old(Rows())) else old(Rows())
    {
      done := pwd == AdminPassword;
      if done {
        Reset();
      }
    }
  }
}
