/** `Geometry.prototype.getId`: a name-to-id lookup that answers -1 for a miss
    instead of failing. The directory itself is a parameter here (see README). */
module Directory {

  /** `getId(name)`: the id stored under `name`, or the sentinel -1. */
  function GetId(directory: map<string, int>, name: string): (id: int)
    ensures name in directory ==> id == directory[name]
    ensures name !in directory ==> id == -1
  {
    if name in directory then directory[name] else -1
  }

  /** As long as the directory holds only real ids (never negative), the
      sentinel is unambiguous: `getId` answers -1 exactly for the names that
      are absent, and a non-negative id exactly for those present. */
  lemma SentinelOnlyForMissing(directory: map<string, int>, name: string)
    requires forall n :: n in directory ==> directory[n] >= 0
    ensures GetId(directory, name) == -1 <==> name !in directory
    ensures GetId(directory, name) >= 0 <==> name in directory
  {
  }
}
