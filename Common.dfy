/** Definitions shared by the three containers. */
module Common {

  /** A possibly absent result; the containers return NULL where this is None. */
  datatype Option<+T> = None | Some(value: T)

  /** A caller's comparator over integer keys: a three-way comparison whose sign agrees with
      the order of the keys (negative, zero, positive for less, equal, greater). Its magnitude
      is left free. */
  ghost predicate SignConsistent(cmp: (int, int) -> int)
  {
    forall a, b :: (cmp(a, b) < 0 <==> a < b) && (cmp(a, b) == 0 <==> a == b)
  }

  /** How many callbacks a bounded traversal over `n` items makes: a `limit` of 0
      means "no limit", any other limit stops the traversal once it is reached. */
  function VisitCount(limit: nat, n: nat): nat
  {
    if limit == 0 || n <= limit then n else limit
  }
}
