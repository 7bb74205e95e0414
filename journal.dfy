/**
 * The `journal` table as a sequence of rows in insertion order: the
 * `max(timestamp)` query, the age-based `DELETE`, the
 * `GROUP BY ip, username` query (`QUERY`) and the dictionary
 * `read_db_to_dict` builds from its result.
 */
module Journal {
  import opened StringOrder

  /** One row of `journal (timestamp, ip, username, backend)`. */
  datatype Row = Row(timestamp: string, ip: string, username: string, backend: char)

  // ---------------------------------------------------------------------
  // SELECT max(timestamp) FROM journal
  // ---------------------------------------------------------------------

  /**
   * The greatest stored timestamp, or `''` for an empty table (SQL `NULL`
   * replaced by `''`): an upper bound of every row's timestamp that is
   * itself a row's timestamp.
   */
  function MaxTimestamp(j: seq<Row>): (m: string)
    ensures forall i :: 0 <= i < |j| ==> !Less(m, j[i].timestamp)
    ensures j == [] ==> m == ""
    ensures j != [] ==> exists i :: 0 <= i < |j| && j[i].timestamp == m
  {
    if j == [] then ""
    else
      var m := MaxTimestamp(j[..|j| - 1]);
      var t := j[|j| - 1].timestamp;
      MaxStep(j, j[..|j| - 1], m, t);
      if Less(m, t) then t else m
  }

  lemma MaxStep(j: seq<Row>, init: seq<Row>, m: string, t: string)
    requires j != [] && init == j[..|j| - 1] && t == j[|j| - 1].timestamp
    requires forall i :: 0 <= i < |init| ==> !Less(m, init[i].timestamp)
    ensures var r := if Less(m, t) then t else m;
      forall i :: 0 <= i < |j| ==> !Less(r, j[i].timestamp)
  {
    var r := if Less(m, t) then t else m;
    forall i | 0 <= i < |j|
      ensures !Less(r, j[i].timestamp)
    {
      if i < |j| - 1 {
        assert j[i] == init[i];
        if Less(m, t) && Less(t, j[i].timestamp) {
          LessTransitive(m, t, j[i].timestamp);
        }
      } else {
        LessIrreflexive(t);
      }
    }
  }

  /** Python's `a <= b` on strings. */
  predicate AtMost(a: string, b: string)
  {
    !Less(b, a)
  }

  /** Adding rows never lowers the maximum. */
  lemma {:induction false} MaxTimestampGrows(j: seq<Row>, more: seq<Row>)
    ensures AtMost(MaxTimestamp(j), MaxTimestamp(j + more))
  {
    var m := MaxTimestamp(j);
    var m2 := MaxTimestamp(j + more);
    if j != [] {
      var i :| 0 <= i < |j| && j[i].timestamp == m;
      assert (j + more)[i] == j[i];
    }
  }

  // ---------------------------------------------------------------------
  // DELETE FROM journal WHERE timestamp < ?
  // ---------------------------------------------------------------------

  /** The rows a `DELETE ... WHERE timestamp < cutoff` leaves, in their order. */
  function Prune(j: seq<Row>, cutoff: string): (r: seq<Row>)
    ensures |r| <= |j|
    ensures forall i :: 0 <= i < |r| ==> AtMost(cutoff, r[i].timestamp)
    ensures forall x :: x in r <==> x in j && AtMost(cutoff, x.timestamp)
  {
    if j == [] then []
    else
      var rest := Prune(j[..|j| - 1], cutoff);
      var last := j[|j| - 1];
      assert j == j[..|j| - 1] + [last];
      if AtMost(cutoff, last.timestamp) then rest + [last] else rest
  }

  /**
   * Pruning works row by row and keeps the order: pruning a concatenation
   * prunes each part, and a single row survives exactly when it is not
   * older than the cutoff.
   */
  lemma {:induction false} PruneAppend(a: seq<Row>, b: seq<Row>, cutoff: string)
    ensures Prune(a + b, cutoff) == Prune(a, cutoff) + Prune(b, cutoff)
    decreases |b|
  {
    if b == [] {
      assert a + b == a;
    } else {
      var b' := b[..|b| - 1];
      assert (a + b)[..|a + b| - 1] == a + b';
      PruneAppend(a, b', cutoff);
    }
  }

  lemma PruneSingle(x: Row, cutoff: string)
    ensures Prune([x], cutoff) == if AtMost(cutoff, x.timestamp) then [x] else []
  {
    assert [x][..0] == [];
  }

  /** A row stamped exactly at the cutoff is kept; one stamped before it is deleted. */
  lemma PruneBoundary(j: seq<Row>, cutoff: string, x: Row)
    requires x in j
    ensures x.timestamp == cutoff ==> x in Prune(j, cutoff)
    ensures Less(x.timestamp, cutoff) ==> x !in Prune(j, cutoff)
  {
    LessIrreflexive(cutoff);
  }
}
