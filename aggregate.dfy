/**
 * `QUERY` (`SELECT ip, username, count(*) ... GROUP BY ip, username`) and
 * the dictionary `read_db_to_dict` fills from its rows: IP to a list of
 * `(username, count)` pairs.
 */
module Aggregate {
  import opened Journal

  /** One result row of `QUERY`: `(ip, username, cnt)`. */
  datatype Group = Group(ip: string, username: string, count: nat)

  /** One `(username, count)` pair of `records[ip]`. */
  datatype Usage = Usage(username: string, count: nat)

  /** The number of journal rows with this IP and username. */
  function CountPair(j: seq<Row>, ip: string, user: string): nat
  {
    if j == [] then 0
    else CountPair(j[..|j| - 1], ip, user)
         + (if j[|j| - 1].ip == ip && j[|j| - 1].username == user then 1 else 0)
  }

  /** The number of journal rows with this IP. */
  function CountIp(j: seq<Row>, ip: string): nat
  {
    if j == [] then 0
    else CountIp(j[..|j| - 1], ip) + (if j[|j| - 1].ip == ip then 1 else 0)
  }

  lemma {:induction false} CountPairZero(j: seq<Row>, ip: string, user: string)
    requires forall i :: 0 <= i < |j| ==> j[i].ip != ip || j[i].username != user
    ensures CountPair(j, ip, user) == 0
  {
    if j != [] {
      assert forall i :: 0 <= i < |j| - 1 ==> j[..|j| - 1][i] == j[i];
      CountPairZero(j[..|j| - 1], ip, user);
    }
  }

  predicate HasGroup(q: seq<Group>, ip: string, user: string)
  {
    exists k :: 0 <= k < |q| && q[k].ip == ip && q[k].username == user
  }

  /** No `(ip, username)` pair occurs twice, as `GROUP BY` guarantees. */
  predicate DistinctGroups(q: seq<Group>)
  {
    forall a, b :: 0 <= a < b < |q| ==> q[a].ip != q[b].ip || q[a].username != q[b].username
  }

  /** Adds one to the count of the group of `(ip, user)`. */
  function Bump(q: seq<Group>, ip: string, user: string): (r: seq<Group>)
    ensures |r| == |q|
    ensures forall k :: 0 <= k < |q| ==>
      r[k] == if q[k].ip == ip && q[k].username == user then q[k].(count := q[k].count + 1) else q[k]
  {
    seq(|q|, k requires 0 <= k < |q| =>
      if q[k].ip == ip && q[k].username == user then q[k].(count := q[k].count + 1) else q[k])
  }

  /** Counts one more row into the grouped result. */
  function Tally(q: seq<Group>, row: Row): seq<Group>
  {
    if HasGroup(q, row.ip, row.username) then Bump(q, row.ip, row.username)
    else q + [Group(row.ip, row.username, 1)]
  }

  /** The rows of `QUERY` over the journal, each group where its pair first occurs. */
  function Query(j: seq<Row>): seq<Group>
  {
    if j == [] then [] else Tally(Query(j[..|j| - 1]), j[|j| - 1])
  }

  /** What `GROUP BY ip, username` with `count(*)` promises of its rows. */
  ghost predicate GroupsOf(q: seq<Group>, j: seq<Row>)
  {
    && DistinctGroups(q)
    && (forall k :: 0 <= k < |q| ==> q[k].count >= 1 && q[k].count == CountPair(j, q[k].ip, q[k].username))
    && (forall i :: 0 <= i < |j| ==> HasGroup(q, j[i].ip, j[i].username))
  }

  /**
   * The query yields one row per `(ip, username)` pair of the journal, with
   * that pair's number of rows as its count.
   */
  lemma {:induction false} QueryGroups(j: seq<Row>)
    ensures GroupsOf(Query(j), j)
  {
    if j != [] {
      var init := j[..|j| - 1];
      QueryGroups(init);
      TallyDistinct(Query(init), j[|j| - 1]);
      TallyCounts(j, Query(init));
      TallyComplete(j, Query(init));
    }
  }

  lemma TallyDistinct(q: seq<Group>, row: Row)
    requires DistinctGroups(q)
    ensures DistinctGroups(Tally(q, row))
  {
    if !HasGroup(q, row.ip, row.username) {
      var r := q + [Group(row.ip, row.username, 1)];
      forall a, b | 0 <= a < b < |r|
        ensures r[a].ip != r[b].ip || r[a].username != r[b].username
      {
        if b == |q| {
          assert r[a] == q[a];
        } else {
          assert r[a] == q[a] && r[b] == q[b];
        }
      }
    }
  }

  lemma TallyCounts(j: seq<Row>, q: seq<Group>)
    requires j != [] && GroupsOf(q, j[..|j| - 1])
    ensures var r := Tally(q, j[|j| - 1]);
      forall k :: 0 <= k < |r| ==> r[k].count >= 1 && r[k].count == CountPair(j, r[k].ip, r[k].username)
  {
    var init := j[..|j| - 1];
    var row := j[|j| - 1];
    if !HasGroup(q, row.ip, row.username) {
      forall i | 0 <= i < |init|
        ensures init[i].ip != row.ip || init[i].username != row.username
      {
        assert HasGroup(q, init[i].ip, init[i].username);
      }
      CountPairZero(init, row.ip, row.username);
      var r := q + [Group(row.ip, row.username, 1)];
      assert forall k :: 0 <= k < |q| ==> r[k] == q[k];
    }
  }

  lemma TallyComplete(j: seq<Row>, q: seq<Group>)
    requires j != [] && GroupsOf(q, j[..|j| - 1])
    ensures var r := Tally(q, j[|j| - 1]);
      forall i :: 0 <= i < |j| ==> HasGroup(r, j[i].ip, j[i].username)
  {
    var init := j[..|j| - 1];
    var row := j[|j| - 1];
    var r := Tally(q, row);
    forall i | 0 <= i < |j|
      ensures HasGroup(r, j[i].ip, j[i].username)
    {
      if i < |j| - 1 {
        assert j[i] == init[i];
        assert HasGroup(q, init[i].ip, init[i].username);
        var k :| 0 <= k < |q| && q[k].ip == j[i].ip && q[k].username == j[i].username;
        assert r[k].ip == q[k].ip && r[k].username == q[k].username;
      } else if HasGroup(q, row.ip, row.username) {
        var k :| 0 <= k < |q| && q[k].ip == row.ip && q[k].username == row.username;
        assert r[k].ip == q[k].ip && r[k].username == q[k].username;
      } else {
        assert r[|q|] == Group(row.ip, row.username, 1);
      }
    }
  }

  // ---------------------------------------------------------------------
  // read_db_to_dict
  // ---------------------------------------------------------------------

  /** The pairs the query rows of `ip` contribute, in query order. */
  function Project(q: seq<Group>, ip: string): seq<Usage>
  {
    if q == [] then []
    else
      var g := q[|q| - 1];
      Project(q[..|q| - 1], ip) + (if g.ip == ip then [Usage(g.username, g.count)] else [])
  }

  /** A pair is listed under `ip` exactly when the query has that row. */
  lemma {:induction false} ProjectMember(q: seq<Group>, ip: string, x: Usage)
    ensures x in Project(q, ip) <==> Group(ip, x.username, x.count) in q
  {
    if q != [] {
      ProjectMember(q[..|q| - 1], ip, x);
      assert q == q[..|q| - 1] + [q[|q| - 1]];
    }
  }

  /** The sum of the counts of a list of pairs. */
  function Total(us: seq<Usage>): nat
  {
    if us == [] then 0 else Total(us[..|us| - 1]) + us[|us| - 1].count
  }

  function Get(m: map<string, seq<Usage>>, ip: string): seq<Usage>
  {
    if ip in m then m[ip] else []
  }

  /**
   * The dictionary after appending `(username, cnt)` to `records[ip]` for
   * each query row in turn (a missing or empty list is started afresh).
   */
  function Fill(m: map<string, seq<Usage>>, q: seq<Group>): map<string, seq<Usage>>
  {
    if q == [] then m
    else
      var m' := Fill(m, q[..|q| - 1]);
      var g := q[|q| - 1];
      m'[g.ip := Get(m', g.ip) + [Usage(g.username, g.count)]]
  }

  /** One more query row appends its pair to the list of its IP. */
  lemma FillStep(m: map<string, seq<Usage>>, q: seq<Group>, i: nat)
    requires i < |q|
    ensures Fill(m, q[..i + 1])
         == Fill(m, q[..i])[q[i].ip := Get(Fill(m, q[..i]), q[i].ip) + [Usage(q[i].username, q[i].count)]]
  {
    assert q[..i + 1][..i] == q[..i];
  }

  predicate HasIp(q: seq<Group>, ip: string)
  {
    exists k :: 0 <= k < |q| && q[k].ip == ip
  }

  lemma HasIpSnoc(q: seq<Group>, ip: string)
    requires q != []
    ensures HasIp(q, ip) <==> HasIp(q[..|q| - 1], ip) || q[|q| - 1].ip == ip
  {
    var init := q[..|q| - 1];
    if HasIp(init, ip) {
      var k :| 0 <= k < |init| && init[k].ip == ip;
      assert q[k] == init[k];
    }
    if HasIp(q, ip) {
      var k :| 0 <= k < |q| && q[k].ip == ip;
      if k < |init| {
        assert init[k] == q[k];
      }
    }
  }

  /** Filling appends, to each IP's old list, exactly that IP's query pairs. */
  lemma {:induction false} FillAppendsProject(m: map<string, seq<Usage>>, q: seq<Group>, ip: string)
    ensures Get(Fill(m, q), ip) == Get(m, ip) + Project(q, ip)
    ensures ip in Fill(m, q) <==> ip in m || HasIp(q, ip)
  {
    if q != [] {
      var init := q[..|q| - 1];
      var g := q[|q| - 1];
      var before := Fill(m, init);
      FillAppendsProject(m, init, ip);
      HasIpSnoc(q, ip);
      assert Fill(m, q) == before[g.ip := Get(before, g.ip) + [Usage(g.username, g.count)]];
      if g.ip == ip {
        assert Project(q, ip) == Project(init, ip) + [Usage(g.username, g.count)];
        assert Get(Fill(m, q), ip) == (Get(m, ip) + Project(init, ip)) + [Usage(g.username, g.count)];
      } else {
        assert Project(q, ip) == Project(init, ip) + [];
        assert Get(Fill(m, q), ip) == Get(before, ip);
      }
    }
  }

  lemma DistinctInit(q: seq<Group>)
    requires q != [] && DistinctGroups(q)
    ensures DistinctGroups(q[..|q| - 1])
  {
    var init := q[..|q| - 1];
    forall a, b | 0 <= a < b < |init|
      ensures init[a].ip != init[b].ip || init[a].username != init[b].username
    {
      assert init[a] == q[a] && init[b] == q[b];
    }
  }

  /** Distinct groups give distinct usernames in the pairs of one IP. */
  lemma {:induction false} ProjectDistinct(q: seq<Group>, ip: string)
    requires DistinctGroups(q)
    ensures var us := Project(q, ip);
      forall a, b :: 0 <= a < b < |us| ==> us[a].username != us[b].username
  {
    if q != [] {
      var init := q[..|q| - 1];
      var g := q[|q| - 1];
      DistinctInit(q);
      ProjectDistinct(init, ip);
      var p := Project(init, ip);
      if g.ip == ip {
        var us := p + [Usage(g.username, g.count)];
        forall a | 0 <= a < |p|
          ensures p[a].username != g.username
        {
          ProjectMember(init, ip, p[a]);
          var t :| 0 <= t < |init| && init[t] == Group(ip, p[a].username, p[a].count);
          assert q[t] == init[t];
        }
        assert forall a, b :: 0 <= a < b < |us| ==> us[a].username != us[b].username by {
          forall a, b | 0 <= a < b < |us|
            ensures us[a].username != us[b].username
          {
            if b < |p| {
              assert us[a] == p[a] && us[b] == p[b];
            } else {
              assert us[a] == p[a];
            }
          }
        }
      }
    }
  }

  lemma TotalSnoc(us: seq<Usage>, extra: seq<Usage>)
    requires |extra| <= 1
    ensures Total(us + extra) == Total(us) + (if extra == [] then 0 else extra[0].count)
  {
    if extra == [] {
      assert us + extra == us;
    } else {
      assert (us + extra)[..|us|] == us;
    }
  }

  /** The counts grouped under one IP add up to that IP's number of rows. */
  lemma {:induction false} QueryTotal(j: seq<Row>, ip: string)
    ensures Total(Project(Query(j), ip)) == CountIp(j, ip)
  {
    if j != [] {
      var init := j[..|j| - 1];
      var row := j[|j| - 1];
      var q := Query(init);
      QueryTotal(init, ip);
      QueryGroups(init);
      if HasGroup(q, row.ip, row.username) {
        TotalBump(q, row.ip, row.username, ip);
      } else {
        var g := Group(row.ip, row.username, 1);
        assert (q + [g])[..|q|] == q;
        TotalSnoc(Project(q, ip), if g.ip == ip then [Usage(g.username, g.count)] else []);
      }
    }
  }

  lemma {:induction false} TotalBump(q: seq<Group>, ip: string, user: string, key: string)
    requires DistinctGroups(q) && HasGroup(q, ip, user)
    ensures Total(Project(Bump(q, ip, user), key))
         == Total(Project(q, key)) + (if ip == key then 1 else 0)
  {
    var n := |q|;
    var init := q[..n - 1];
    var last := q[n - 1];
    var b := Bump(q, ip, user);
    assert b[..n - 1] == Bump(init, ip, user);
    DistinctInit(q);
    var bl := b[n - 1];
    TotalSnoc(Project(init, key), if last.ip == key then [Usage(last.username, last.count)] else []);
    TotalSnoc(Project(b[..n - 1], key), if bl.ip == key then [Usage(bl.username, bl.count)] else []);
    assert forall k :: 0 <= k < n - 1 ==> init[k] == q[k];
    if last.ip == ip && last.username == user {
      assert !HasGroup(init, ip, user);
      assert Bump(init, ip, user) == init;
    } else {
      var k :| 0 <= k < |q| && q[k].ip == ip && q[k].username == user;
      assert k < n - 1 && init[k] == q[k];
      TotalBump(init, ip, user, key);
    }
  }

  /** The IPs `read_db_to_dict` keys are those of the journal, each listing its query rows. */
  lemma RecordsKeys(j: seq<Row>, ip: string)
    ensures var records := Fill(map[], Query(j));
      && (ip in records <==> (exists i :: 0 <= i < |j| && j[i].ip == ip))
      && (ip in records ==> records[ip] == Project(Query(j), ip))
  {
    var q := Query(j);
    QueryGroups(j);
    FillAppendsProject(map[], q, ip);
    if (exists i :: 0 <= i < |j| && j[i].ip == ip) {
      var i :| 0 <= i < |j| && j[i].ip == ip;
      assert HasGroup(q, j[i].ip, j[i].username);
      var k :| 0 <= k < |q| && q[k].ip == j[i].ip && q[k].username == j[i].username;
      assert HasIp(q, ip);
    }
    if HasIp(q, ip) {
      var k :| 0 <= k < |q| && q[k].ip == ip;
      assert q[k].count >= 1;
      if forall i :: 0 <= i < |j| ==> j[i].ip != ip || j[i].username != q[k].username {
        CountPairZero(j, ip, q[k].username);
      }
    }
  }

  /**
   * What one IP's list of pairs says about the journal: it is non-empty,
   * names each username once, gives each username its number of rows with
   * this IP, and its counts add up to the IP's number of rows.
   */
  ghost predicate SummarizesIp(us: seq<Usage>, j: seq<Row>, ip: string)
  {
    && us != []
    && (forall a, b :: 0 <= a < b < |us| ==> us[a].username != us[b].username)
    && (forall k :: 0 <= k < |us| ==> us[k].count >= 1 && us[k].count == CountPair(j, ip, us[k].username))
    && Total(us) == CountIp(j, ip)
  }

  predicate Lists(us: seq<Usage>, user: string)
  {
    exists k :: 0 <= k < |us| && us[k].username == user
  }

  /** A row with this IP puts at least one pair under it. */
  lemma ProjectNonEmpty(q: seq<Group>, j: seq<Row>, ip: string)
    requires GroupsOf(q, j)
    requires exists i :: 0 <= i < |j| && j[i].ip == ip
    ensures Project(q, ip) != []
  {
    var i :| 0 <= i < |j| && j[i].ip == ip;
    assert HasGroup(q, j[i].ip, j[i].username);
    var k :| 0 <= k < |q| && q[k].ip == j[i].ip && q[k].username == j[i].username;
    ProjectMember(q, ip, Usage(q[k].username, q[k].count));
    assert Group(ip, q[k].username, q[k].count) == q[k];
  }

  /** Each pair listed under an IP carries that pair's number of rows. */
  lemma ProjectCounts(q: seq<Group>, j: seq<Row>, ip: string)
    requires GroupsOf(q, j)
    ensures var us := Project(q, ip);
      forall t :: 0 <= t < |us| ==> us[t].count >= 1 && us[t].count == CountPair(j, ip, us[t].username)
  {
    var us := Project(q, ip);
    forall t | 0 <= t < |us|
      ensures us[t].count >= 1 && us[t].count == CountPair(j, ip, us[t].username)
    {
      ProjectMember(q, ip, us[t]);
      var s :| 0 <= s < |q| && q[s] == Group(ip, us[t].username, us[t].count);
    }
  }

  lemma RecordsEntry(j: seq<Row>, ip: string)
    requires exists i :: 0 <= i < |j| && j[i].ip == ip
    ensures SummarizesIp(Project(Query(j), ip), j, ip)
  {
    var q := Query(j);
    QueryGroups(j);
    ProjectNonEmpty(q, j, ip);
    ProjectDistinct(q, ip);
    ProjectCounts(q, j, ip);
    QueryTotal(j, ip);
  }

  /** Every row's username is listed under its IP. */
  lemma RecordsListRow(j: seq<Row>, i: nat)
    requires i < |j|
    ensures Lists(Project(Query(j), j[i].ip), j[i].username)
  {
    var q := Query(j);
    var ip := j[i].ip;
    QueryGroups(j);
    assert HasGroup(q, j[i].ip, j[i].username);
    var k :| 0 <= k < |q| && q[k].ip == ip && q[k].username == j[i].username;
    var x := Usage(q[k].username, q[k].count);
    ProjectMember(q, ip, x);
    assert Group(ip, x.username, x.count) == q[k];
    var us := Project(q, ip);
    var t :| 0 <= t < |us| && us[t] == x;
  }

  /**
   * The dictionary `read_db_to_dict` builds on an empty `records`: the keys
   * are exactly the journal's IPs, each list summarizes its IP's rows, and
   * every row's username is listed under its IP.
   */
  lemma RecordsSummarizeJournal(j: seq<Row>)
    ensures var records := Fill(map[], Query(j));
      && (forall ip :: ip in records <==> (exists i :: 0 <= i < |j| && j[i].ip == ip))
      && (forall ip :: ip in records ==> SummarizesIp(records[ip], j, ip))
      && (forall i :: 0 <= i < |j| ==> j[i].ip in records && Lists(records[j[i].ip], j[i].username))
  {
    var records := Fill(map[], Query(j));
    forall ip
      ensures ip in records <==> (exists i :: 0 <= i < |j| && j[i].ip == ip)
      ensures ip in records ==> SummarizesIp(records[ip], j, ip)
    {
      RecordsKeys(j, ip);
      if ip in records {
        RecordsEntry(j, ip);
      }
    }
    forall i | 0 <= i < |j|
      ensures j[i].ip in records && Lists(records[j[i].ip], j[i].username)
    {
      RecordsKeys(j, j[i].ip);
      RecordsListRow(j, i);
    }
  }
}
