/**
 * The status store: the ordered dictionary of instance statuses that the
 * watcher thread updates in place and the table reads.
 */
module Store {
  import opened Wrappers
  import opened OrderedMaps
  import opened Instances
  import opened Query

  class StateStore {
    /** The ids in insertion order. */
    var order: seq<string>
    /** The status of each id. */
    var statuses: map<string, InstanceStatus>

    /** The store as an ordered dictionary. */
    function View(): (m: OrderedMap<InstanceStatus>)
      reads this
    {
      OrderedMap(order, statuses)
    }

    ghost predicate Valid()
      reads this
    {
      OrderedMaps.Valid(View())
    }

    /** The empty store the program starts with. */
    constructor ()
      ensures Valid() && order == [] && statuses == map[]
    {
      order := [];
      statuses := map[];
    }

    /**
     * One reconciliation: query, then assign each answered status under its
     * id. A failed query raises before anything is written.
     */
    method Update(config: OrderedMap<InstanceConfig>, answer: QueryAnswer, now: int)
      returns (raised: Option<string>)
      requires Valid()
      requires answer.Answered? ==> AllConfigured(config, answer.reservations)
      modifies this
      ensures Valid()
      ensures answer.Failed? ==>
                raised == Some(answer.stderr) && order == old(order) && statuses == old(statuses)
      ensures answer.Answered? ==>
                raised == None && View() == Merge(old(View()), StatesOf(config, answer.reservations, now))
    {
      var fetched := CollectStates(config, answer, now);
      if fetched.Failure? {
        return Some(fetched.error);
      }
      var newStates := fetched.value;
      var items := Items(newStates);
      var i := 0;
      while i < |items|
        invariant 0 <= i <= |items|
        invariant View() == PutAll(old(View()), items[..i])
        invariant Valid()
      {
        var (id, status) := items[i];
        assert items[..i + 1][..i] == items[..i];
        if id !in statuses {
          order := order + [id];
        }
        statuses := statuses[id := status];
        i := i + 1;
      }
      assert items[..i] == items;
      return None;
    }
  }
}
