/**
 * Turning the answer of the remote state query into a status collection.
 * The query itself (the `aws ec2 describe-instances` command) is not part
 * of this model: its answer arrives as a value, either the rows grouped by
 * reservation or a failure carrying the command's error output.
 */
module Query {
  import opened Wrappers
  import opened OrderedMaps
  import opened Instances

  datatype QueryAnswer =
    | Answered(reservations: seq<seq<Row>>)
    | Failed(stderr: string)

  /** The rows of all reservations, reservation by reservation. */
  function Flatten(reservations: seq<seq<Row>>): (rows: seq<Row>)
    decreases |reservations|
  {
    if reservations == [] then []
    else Flatten(reservations[..|reservations| - 1]) + reservations[|reservations| - 1]
  }

  /** Every answered row is about a configured instance. */
  predicate AllConfigured(config: OrderedMap<InstanceConfig>, reservations: seq<seq<Row>>)
  {
    forall i, j :: 0 <= i < |reservations| && 0 <= j < |reservations[i]| ==>
      reservations[i][j].id in config.entries
  }

  /** Every row of `rows` is about a configured instance. */
  predicate RowsConfigured(config: OrderedMap<InstanceConfig>, rows: seq<Row>)
  {
    forall i :: 0 <= i < |rows| ==> rows[i].id in config.entries
  }

  lemma {:induction false} FlattenConfigured(config: OrderedMap<InstanceConfig>, reservations: seq<seq<Row>>)
    requires AllConfigured(config, reservations)
    ensures RowsConfigured(config, Flatten(reservations))
    decreases |reservations|
  {
    if reservations != [] {
      var init := reservations[..|reservations| - 1];
      assert forall i :: 0 <= i < |init| ==> init[i] == reservations[i];
      FlattenConfigured(config, init);
      var last := reservations[|reservations| - 1];
      var rows := Flatten(init) + last;
      forall i | 0 <= i < |rows| ensures rows[i].id in config.entries {
        if i >= |Flatten(init)| {
          assert rows[i] == reservations[|reservations| - 1][i - |Flatten(init)|];
        }
      }
    }
  }

  /** One `(id, status)` assignment per row, in row order. */
  function StatusItems(config: OrderedMap<InstanceConfig>, rows: seq<Row>, now: int): (items: seq<(string, InstanceStatus)>)
    requires RowsConfigured(config, rows)
    ensures |items| == |rows|
    decreases |rows|
  {
    if rows == [] then []
    else
      var row := rows[|rows| - 1];
      StatusItems(config, rows[..|rows| - 1], now) + [(row.id, DeriveStatus(config.entries[row.id], row, now))]
  }

  lemma {:induction false} StatusItemsAt(config: OrderedMap<InstanceConfig>, rows: seq<Row>, now: int, i: nat)
    requires RowsConfigured(config, rows) && i < |rows|
    ensures StatusItems(config, rows, now)[i] == (rows[i].id, DeriveStatus(config.entries[rows[i].id], rows[i], now))
    decreases |rows|
  {
    if i < |rows| - 1 {
      StatusItemsAt(config, rows[..|rows| - 1], now, i);
    }
  }

  /** The collection built from an answer at time `now`. */
  function StatesOf(config: OrderedMap<InstanceConfig>, reservations: seq<seq<Row>>, now: int): (r: OrderedMap<InstanceStatus>)
    requires AllConfigured(config, reservations)
    ensures Valid(r)
  {
    FlattenConfigured(config, reservations);
    PutAll(Empty(), StatusItems(config, Flatten(reservations), now))
  }

  /** Handling row `j` of a reservation is one more assignment. */
  lemma StatusItemsStep(config: OrderedMap<InstanceConfig>, before: seq<Row>, reservation: seq<Row>, j: nat, now: int)
    requires j < |reservation| && RowsConfigured(config, before + reservation[..j])
    requires reservation[j].id in config.entries
    ensures RowsConfigured(config, before + reservation[..j + 1])
    ensures PutAll(Empty(), StatusItems(config, before + reservation[..j + 1], now)) ==
              Put(PutAll(Empty(), StatusItems(config, before + reservation[..j], now)),
                  reservation[j].id, DeriveStatus(config.entries[reservation[j].id], reservation[j], now))
  {
    var done := before + reservation[..j];
    assert before + reservation[..j + 1] == done + [reservation[j]];
    assert RowsConfigured(config, done + [reservation[j]]);
    assert (done + [reservation[j]])[..|done|] == done;
  }

  /**
   * The nested loop over reservations and their rows; a failed query raises
   * its error output instead of returning a collection.
   */
  method CollectStates(config: OrderedMap<InstanceConfig>, answer: QueryAnswer, now: int)
    returns (r: Result<OrderedMap<InstanceStatus>, string>)
    requires answer.Answered? ==> AllConfigured(config, answer.reservations)
    ensures answer.Failed? ==> r == Failure(answer.stderr)
    ensures answer.Answered? ==> r == Success(StatesOf(config, answer.reservations, now))
  {
    if answer.Failed? {
      return Failure(answer.stderr);
    }
    var reservations := answer.reservations;
    var instances := Empty();
    var i := 0;
    while i < |reservations|
      invariant 0 <= i <= |reservations|
      invariant RowsConfigured(config, Flatten(reservations[..i]))
      invariant instances == PutAll(Empty(), StatusItems(config, Flatten(reservations[..i]), now))
    {
      var reservation := reservations[i];
      ghost var before := Flatten(reservations[..i]);
      var j := 0;
      assert before + reservation[..j] == before;
      while j < |reservation|
        invariant 0 <= j <= |reservation|
        invariant RowsConfigured(config, before + reservation[..j])
        invariant instances == PutAll(Empty(), StatusItems(config, before + reservation[..j], now))
      {
        var row := reservation[j];
        assert row.id in config.entries;
        StatusItemsStep(config, before, reservation, j, now);
        var status := DeriveStatus(config.entries[row.id], row, now);
        instances := Put(instances, row.id, status);
        j := j + 1;
      }
      assert Flatten(reservations[..i + 1]) == before + reservation[..j] by {
        assert reservations[..i + 1][..i] == reservations[..i];
        assert reservation[..j] == reservation;
      }
      i := i + 1;
    }
    assert reservations[..i] == reservations;
    return Success(instances);
  }

  /** Replaying the rows' assignments files exactly the reported ids. */
  lemma StatusItemsKeys(config: OrderedMap<InstanceConfig>, rows: seq<Row>, now: int, k: string)
    requires RowsConfigured(config, rows)
    ensures k in PutAll(Empty(), StatusItems(config, rows, now)).entries <==>
              exists i :: 0 <= i < |rows| && rows[i].id == k
  {
    var items := StatusItems(config, rows, now);
    assert PutAll(Empty(), items).entries == LastWins(items) by {
      PutAllEntries(Empty(), items);
    }
    if k in LastWins(items) {
      var i :| 0 <= i < |items| && items[i].0 == k;
      StatusItemsAt(config, rows, now, i);
    }
    if exists i :: 0 <= i < |rows| && rows[i].id == k {
      var i :| 0 <= i < |rows| && rows[i].id == k;
      StatusItemsAt(config, rows, now, i);
    }
  }

  /** The collection holds exactly the answered instances. */
  lemma StatesOfKeys(config: OrderedMap<InstanceConfig>, reservations: seq<seq<Row>>, now: int, k: string)
    requires AllConfigured(config, reservations)
    ensures k in StatesOf(config, reservations, now).entries <==>
              exists i :: 0 <= i < |Flatten(reservations)| && Flatten(reservations)[i].id == k
  {
    FlattenConfigured(config, reservations);
    assert StatesOf(config, reservations, now) == PutAll(Empty(), StatusItems(config, Flatten(reservations), now));
    StatusItemsKeys(config, Flatten(reservations), now, k);
  }

  /** Each answered instance holds the status derived from the last row that reported it. */
  lemma StatesOfLastRow(config: OrderedMap<InstanceConfig>, reservations: seq<seq<Row>>, now: int, i: nat)
    requires AllConfigured(config, reservations)
    requires i < |Flatten(reservations)|
    requires Flatten(reservations)[i].id in config.entries
    requires forall j :: i < j < |Flatten(reservations)| ==> Flatten(reservations)[j].id != Flatten(reservations)[i].id
    ensures Flatten(reservations)[i].id in StatesOf(config, reservations, now).entries
    ensures StatesOf(config, reservations, now).entries[Flatten(reservations)[i].id] ==
              DeriveStatus(config.entries[Flatten(reservations)[i].id], Flatten(reservations)[i], now)
  {
    FlattenConfigured(config, reservations);
    var rows := Flatten(reservations);
    var items := StatusItems(config, rows, now);
    PutAllEntries(Empty(), items);
    forall j | i <= j < |rows| ensures items[j].0 == rows[j].id {
      StatusItemsAt(config, rows, now, j);
    }
    StatusItemsAt(config, rows, now, i);
    LastWinsAt(items, i);
  }
}
