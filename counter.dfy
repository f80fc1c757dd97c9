/** The counter application's model (flet_app/model_flet.py): a count that
    starts at zero and only ever goes up by one. The ghost field
    `increments` records how many times Increment has run, so that Valid()
    can say what the count means. */
module Counter {
  class CounterModel {
    var count: int
    ghost var increments: nat

    /** The count is the number of increments so far. */
    ghost predicate Valid()
      reads this
    {
      count == increments
    }

    constructor ()
      ensures Valid() && count == 0 && increments == 0
    {
      count := 0;
      increments := 0;
    }

    /** get_count: the number of increments so far, never negative. */
    function GetCount(): (r: int)
      requires Valid()
      reads this
      ensures r >= 0 && r == increments
    {
      count
    }

    method Increment()
      requires Valid()
      modifies this
      ensures Valid() && increments == old(increments) + 1
      ensures count == old(count) + 1
    {
      count := count + 1;
      increments := increments + 1;
    }
  }
}
