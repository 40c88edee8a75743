/** Result-shaping clauses of SQLite `SELECT` statements, over rows in the order the query yields them. */
module Sql {
  import opened Text

  function Min(a: int, b: int): int { if a < b then a else b }

  /** The position of the first row `OFFSET offset` keeps among `n` rows. */
  function Skip(offset: int, n: nat): (o: nat)
    ensures o <= n
  {
    Min(if offset < 0 then 0 else offset, n)
  }

  /**
   * `LIMIT limit OFFSET offset` as SQLite evaluates it: a negative offset
   * counts as 0, and a negative limit means no upper bound.
   */
  function LimitOffset<T>(rows: seq<T>, limit: int, offset: int): (r: seq<T>)
    ensures var o := Skip(offset, |rows|);
      && |r| == (if limit < 0 then |rows| - o else Min(limit, |rows| - o))
      && r == rows[o..o + |r|]
  {
    var o := Skip(offset, |rows|);
    var rest := rows[o..];
    if limit < 0 || |rest| <= limit then rest else rest[..limit]
  }

  /** `WHERE <name> LIKE '%term%'`, read as substring containment, keeping the row order. */
  function NameContains<T(!new)>(rows: seq<T>, name: T -> string, term: string): (r: seq<T>)
    ensures forall s :: s in r <==> s in rows && Contains(name(s), term)
  {
    if rows == [] then []
    else
      assert rows == [rows[0]] + rows[1..];
      (if Contains(name(rows[0]), term) then [rows[0]] else []) + NameContains(rows[1..], name, term)
  }

  /** `WHERE name LIKE '%term%' LIMIT n`: at most `n` matching rows, all of them when fewer match. */
  function FirstMatches<T(!new)>(rows: seq<T>, name: T -> string, term: string, n: nat): (r: seq<T>)
    ensures |r| <= n
    ensures forall s :: s in r ==> s in rows && Contains(name(s), term)
    ensures |r| < n ==> forall s :: s in rows && Contains(name(s), term) ==> s in r
  {
    var m := NameContains(rows, name, term);
    var r := LimitOffset(m, n, 0);
    assert forall s :: s in r ==> s in m;
    r
  }
}
