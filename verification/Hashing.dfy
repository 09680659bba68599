/** The hash function of the page lists' index. */
module Hashing {

  function HashOf(key: nat, n: nat): (b: nat)
    requires n > 0
    ensures b < n
  {
    key % n
  }
}
