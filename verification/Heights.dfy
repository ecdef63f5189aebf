/** Block heights: a shard index and a block number, ordered by shard first. */
module Heights {
  import opened Orders

  datatype Height = Height(shard: nat, block: nat) {
    function Increment(): Height {
      Height(shard, block + 1)
    }
  }

  predicate Less(a: Height, b: Height) {
    a.shard < b.shard || (a.shard == b.shard && a.block < b.block)
  }

  lemma LessStrictTotal()
    ensures StrictTotal(Less)
  {
  }

  /** Heights in the order an ordered map iterates them. */
  function InOrder(heights: set<Height>): (r: seq<Height>)
    ensures Ascending(r, Less) && Elements(r) == heights
  {
    LessStrictTotal();
    Sorted(heights, Less)
  }
}
