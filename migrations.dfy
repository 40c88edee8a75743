/**
 * Schema migrations (src/database.rs): `PRAGMA user_version` records how many
 * migrations the database has seen; `run_migrations` applies the rest in
 * order, each together with its version bump in one transaction.
 */
module Migrations {
  import opened Wrappers

  /** The number of entries of `MIGRATIONS`. */
  const MigrationCount: nat := 1

  /** `current_version as usize`: a negative `i64` wraps to a huge index. */
  function SkipCount(version: int): (r: nat)
    requires version >= -0x8000_0000_0000_0000
    ensures (r - version) % 0x1_0000_0000_0000_0000 == 0
    ensures version >= 0 ==> r == version
    ensures version < 0 ==> r >= 0x8000_0000_0000_0000
  {
    if version < 0 then version + 0x1_0000_0000_0000_0000 else version
  }

  /** `[a, b)` as a list of migration indices. */
  function Indices(a: nat, b: nat): (r: seq<nat>)
    ensures |r| == (if b < a then 0 else b - a)
    ensures forall k :: 0 <= k < |r| ==> r[k] == a + k
  {
    if b <= a then [] else seq(b - a, k requires 0 <= k < b - a => a + k)
  }

  /** The first index in `[from, count)` whose transaction fails, if any. */
  function FirstFailure(from: nat, count: nat, fails: set<nat>): (k: Option<nat>)
    ensures k.Some? ==> from <= k.value < count && k.value in fails
                        && forall i :: from <= i < k.value ==> i !in fails
    ensures k.None? ==> forall i :: from <= i < count ==> i !in fails
    decreases count - from
  {
    if from >= count then None
    else if from in fails then Some(from)
    else FirstFailure(from + 1, count, fails)
  }

  class Database {
    /** `PRAGMA user_version`. */
    var userVersion: int
    /** The migrations whose effects are committed, in the order they ran. */
    var applied: seq<nat>

    constructor (userVersion: int, applied: seq<nat>)
      ensures this.userVersion == userVersion && this.applied == applied
    {
      this.userVersion, this.applied := userVersion, applied;
    }

    /**
     * `run_migrations`: from index `user_version` on, each migration runs in a
     * transaction that also sets `user_version` to its index plus one.
     * `fails` holds the indices whose transaction fails (in any statement or
     * the commit); the first such failure rolls that step back and stops.
     */
    method RunMigrations(count: nat, fails: set<nat>) returns (r: Result<(), nat>)
      requires -0x8000_0000_0000_0000 <= userVersion < 0x8000_0000_0000_0000
      modifies this
      ensures var start := SkipCount(old(userVersion));
        match FirstFailure(start, count, fails)
        case None =>
          && r == Ok(())
          && applied == old(applied) + Indices(start, count)
          && userVersion == (if start < count then count else old(userVersion))
        case Some(k) =>
          && r == Err(k)
          && applied == old(applied) + Indices(start, k)
          && userVersion == (if start < k then k else old(userVersion))
    {
      var start := SkipCount(userVersion);
      var index := start;
      while index < count
        invariant start <= index && (index <= count || index == start)
        invariant applied == old(applied) + Indices(start, index)
        invariant userVersion == (if start < index then index else old(userVersion))
        invariant forall i :: start <= i < index ==> i !in fails
        invariant FirstFailure(start, count, fails) == FirstFailure(index, count, fails)
        decreases count - index
      {
        if index in fails {
          return Err(index);
        }
        applied := applied + [index];
        userVersion := index + 1;
        assert Indices(start, index + 1) == Indices(start, index) + [index];
        index := index + 1;
      }
      r := Ok(());
    }
  }

  /** Once every migration has committed, running them again changes nothing. */
  method RerunAppliesNothing(db: Database, count: nat, fails: set<nat>) returns (first: Result<(), nat>, second: Result<(), nat>)
    requires 0 <= db.userVersion <= count < 0x8000_0000_0000_0000
    requires FirstFailure(db.userVersion, count, fails).None?
    modifies db
    ensures first == Ok(()) && second == Ok(())
    ensures db.userVersion == count && db.applied == old(db.applied) + Indices(old(db.userVersion), count)
  {
    first := db.RunMigrations(count, fails);
    ghost var between := db.applied;
    second := db.RunMigrations(count, fails);
    assert db.applied == between + [];
  }
}
