/** What the two bounded caches share. */
module Fifo {

  /** Eviction happens before insertion and needs an entry to evict, so a cache of capacity zero holds one. */
  function Limit(capacity: nat): nat { if capacity == 0 then 1 else capacity }
}
