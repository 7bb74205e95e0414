/**
 * One run of `process_new_log_records` over the lines of the mail log:
 * which lines become journal rows, which are skipped, and where a
 * `ValueError` aborts the run.
 */
module Ingest {
  import opened Wrappers
  import opened Text
  import opened StringOrder
  import opened Fields
  import opened Journal

  /** What happens to one log line. */
  datatype Outcome = Crash | Skip | Insert(row: Row)

  /** What a run leaves behind: the rows it inserted, in order, and whether it aborted. */
  datatype Run = Run(rows: seq<Row>, crashed: bool)

  /** `line[0:15]` (a shorter line is taken whole). */
  function TimePrefix(line: string): string
  {
    if |line| < 15 then line else line[..15]
  }

  /**
   * What every inserted row satisfies: it is newer than `maxTs`, carries a
   * journal timestamp of `year`, a non-empty IP already in its `/64` form,
   * a non-empty user and a rule's backend.
   */
  predicate NewRow(row: Row, maxTs: string, year: int)
  {
    && Less(maxTs, row.timestamp)
    && IsDbTimestamp(row.timestamp) && DecimalValue(row.timestamp[..4]) == year
    && AttributedRow(row)
  }

  /** The fields an attributed line gives a row: IP in `/64` form, user, backend. */
  predicate AttributedRow(row: Row)
  {
    && row.ip != "" && row.username != ""
    && NormalizeIp(row.ip) == row.ip
    && (row.backend == 'p' || row.backend == 'd')
  }

  /**
   * A rule accepts the line, its token loop does not raise, and it finds
   * both an IP and a user.
   */
  predicate Attributes(line: string)
  {
    match Classify(line, Finders)
    case None => false
    case Some(k) =>
      var f := ScanTokens(Words(line), Finders[k], Found("", ""));
      f.Some? && f.value.ip != "" && f.value.user != ""
  }

  /**
   * The row an attributed line stamped `ts` gives: its IP in `/64` form,
   * its user, and the backend of the rule that accepted it.
   */
  function LineRow(line: string, ts: string): Row
    requires Attributes(line)
  {
    var k := Classify(line, Finders).value;
    var f := ScanTokens(Words(line), Finders[k], Found("", "")).value;
    Row(ts, NormalizeIp(f.ip), f.user, Finders[k].backend)
  }

  /**
   * The fate of one log line, given the journal's maximum timestamp
   * `maxTs` and the year `convert_time` assumes; a row it inserts is a
   * `NewRow`.
   */
  function IngestLine(line: string, maxTs: string, year: int): (o: Outcome)
    ensures o.Insert? ==> NewRow(o.row, maxTs, year)
    ensures o.Insert? <==>
      var ts := ConvertTime(TimePrefix(line), year);
      ts.Some? && Less(maxTs, ts.value) && Attributes(line)
    ensures o.Insert? ==> o.row == LineRow(line, ConvertTime(TimePrefix(line), year).value)
  {
    match ConvertTime(TimePrefix(line), year)
    case None => Crash
    case Some(ts) =>
      if !Less(maxTs, ts) then Skip else Attribute(line, ts)
  }

  /** A new line stamped `ts`: the rule loop, then the token loop of the rule it stopped at. */
  function Attribute(line: string, ts: string): (o: Outcome)
    ensures o.Insert? ==> o.row.timestamp == ts && AttributedRow(o.row)
    ensures o.Insert? <==> Attributes(line)
    ensures o.Insert? ==> o.row == LineRow(line, ts)
  {
    match Classify(line, Finders)
    case None => Skip
    case Some(k) => ScanRow(line, ts, k)
  }

  /** The token loop of rule `k` and the row it yields. */
  function ScanRow(line: string, ts: string, k: nat): (o: Outcome)
    requires k < |Finders|
    ensures o.Insert? ==> o.row.timestamp == ts && AttributedRow(o.row)
    ensures var f := ScanTokens(Words(line), Finders[k], Found("", ""));
      (o.Crash? <==> f.None?) && (o.Insert? <==> f.Some? && f.value.ip != "" && f.value.user != "")
    ensures o.Insert? ==>
      var f := ScanTokens(Words(line), Finders[k], Found("", "")).value;
      o.row == Row(ts, NormalizeIp(f.ip), f.user, Finders[k].backend)
  {
    match ScanTokens(Words(line), Finders[k], Found("", ""))
    case None => Crash
    case Some(f) =>
      if f.ip == "" || f.user == "" then Skip
      else
        NormalizeIpIdempotent(f.ip);
        FinderBackend(k);
        Insert(Row(ts, NormalizeIp(f.ip), f.user, Finders[k].backend))
  }

  lemma FinderBackend(k: nat)
    requires k < |Finders|
    ensures Finders[k].backend == 'p' || Finders[k].backend == 'd'
  {
  }

  /** A line with outcome `o` followed by the run `rest` of the lines after it. */
  function Then(o: Outcome, rest: Run): Run
  {
    match o
    case Crash => Run([], true)
    case Skip => rest
    case Insert(row) => Run([row] + rest.rows, rest.crashed)
  }

  /** The lines in order, up to and including the first one that aborts the run. */
  function IngestLines(lines: seq<string>, maxTs: string, year: int): (r: Run)
    ensures |r.rows| <= |lines|
  {
    if lines == [] then Run([], false)
    else Then(IngestLine(lines[0], maxTs, year), IngestLines(lines[1..], maxTs, year))
  }

  /** Every row of `rows` is a `NewRow`. */
  predicate AllNew(rows: seq<Row>, maxTs: string, year: int)
  {
    forall i :: 0 <= i < |rows| ==> NewRow(rows[i], maxTs, year)
  }

  /** Every row a run inserts is a `NewRow`; in particular it is newer than `maxTs`. */
  lemma {:induction false} RunRowsAreNew(lines: seq<string>, maxTs: string, year: int)
    ensures AllNew(IngestLines(lines, maxTs, year).rows, maxTs, year)
  {
    if lines != [] {
      var o := IngestLine(lines[0], maxTs, year);
      var rest := IngestLines(lines[1..], maxTs, year);
      RunRowsAreNew(lines[1..], maxTs, year);
      ThenKeepsNew(o, rest, maxTs, year);
    }
  }

  lemma ThenKeepsNew(o: Outcome, rest: Run, maxTs: string, year: int)
    requires o.Insert? ==> NewRow(o.row, maxTs, year)
    requires AllNew(rest.rows, maxTs, year)
    ensures AllNew(Then(o, rest).rows, maxTs, year)
  {
    if o.Insert? {
      var rows := Then(o, rest).rows;
      assert rows[0] == o.row;
      assert forall i :: 1 <= i < |rows| ==> rows[i] == rest.rows[i - 1];
    }
  }

  /** The rows `rows` inserted before the run `r`. */
  function After(rows: seq<Row>, r: Run): Run
  {
    Run(rows + r.rows, r.crashed)
  }

  /** How one more line moves the rows inserted so far. */
  lemma AfterThen(rows: seq<Row>, o: Outcome, rest: Run)
    ensures o.Crash? ==> After(rows, Then(o, rest)) == Run(rows, true)
    ensures o.Skip? ==> After(rows, Then(o, rest)) == After(rows, rest)
    ensures o.Insert? ==> After(rows, Then(o, rest)) == After(rows + [o.row], rest)
  {
    assert rows + [] == rows;
    if o.Insert? {
      assert rows + ([o.row] + rest.rows) == (rows + [o.row]) + rest.rows;
    }
  }

  /** The run over `lines[i..]` in terms of line `i` and the run over the rest. */
  lemma IngestFrom(lines: seq<string>, i: nat, maxTs: string, year: int)
    requires i < |lines|
    ensures IngestLines(lines[i..], maxTs, year)
         == Then(IngestLine(lines[i], maxTs, year), IngestLines(lines[i + 1..], maxTs, year))
  {
    assert lines[i..][0] == lines[i] && lines[i..][1..] == lines[i + 1..];
  }

  /** Token `j` is the last user token of `rule` in `ws`. */
  predicate LastUserToken(ws: seq<string>, rule: Finder, j: nat)
  {
    j < |ws| && UserToken(ws[j], rule) && forall k :: j < k < |ws| ==> !UserToken(ws[k], rule)
  }

  /** Token `j` is the last IP token of `rule` in `ws`. */
  predicate LastIpToken(ws: seq<string>, rule: Finder, j: nat)
  {
    j < |ws| && IpToken(ws[j], rule) && forall k :: j < k < |ws| ==> !IpToken(ws[k], rule)
  }

  lemma {:induction false} LastUserExists(ws: seq<string>, rule: Finder)
    requires exists j :: 0 <= j < |ws| && UserToken(ws[j], rule)
    ensures exists j :: LastUserToken(ws, rule, j)
  {
    var n := |ws| - 1;
    if UserToken(ws[n], rule) {
      assert LastUserToken(ws, rule, n);
    } else {
      var i :| 0 <= i < |ws| && UserToken(ws[i], rule);
      assert ws[..n][i] == ws[i];
      LastUserExists(ws[..n], rule);
      var j: nat :| LastUserToken(ws[..n], rule, j);
      assert forall k :: j < k < n ==> ws[..n][k] == ws[k];
      assert LastUserToken(ws, rule, j);
    }
  }

  lemma {:induction false} LastIpExists(ws: seq<string>, rule: Finder)
    requires exists j :: 0 <= j < |ws| && IpToken(ws[j], rule)
    ensures exists j :: LastIpToken(ws, rule, j)
  {
    var n := |ws| - 1;
    if IpToken(ws[n], rule) {
      assert LastIpToken(ws, rule, n);
    } else {
      var i :| 0 <= i < |ws| && IpToken(ws[i], rule);
      assert ws[..n][i] == ws[i];
      LastIpExists(ws[..n], rule);
      var j: nat :| LastIpToken(ws[..n], rule, j);
      assert forall k :: j < k < n ==> ws[..n][k] == ws[k];
      assert LastIpToken(ws, rule, j);
    }
  }

  /**
   * What the row of an attributed line holds: the backend of the rule that
   * accepted the line, the user extracted from its last user token and the
   * `/64` form of the IP extracted from its last IP token.
   */
  predicate FromTokens(line: string, row: Row)
  {
    && Classify(line, Finders).Some?
    && var rule := Finders[Classify(line, Finders).value];
       var ws := Words(line);
       && row.backend == rule.backend
       && (exists j: nat :: j < |ws| && LastUserToken(ws, rule, j) && ExtractBetween(ws[j], rule.userBetween) == Some(row.username))
       && (exists j: nat :: j < |ws| && LastIpToken(ws, rule, j) && ExtractBetween(ws[j], rule.ipBetween).Some?
                            && NormalizeIp(ExtractBetween(ws[j], rule.ipBetween).value) == row.ip)
  }

  lemma LineRowFromTokens(line: string, ts: string)
    requires Attributes(line)
    ensures FromTokens(line, LineRow(line, ts))
  {
    var row := LineRow(line, ts);
    var rule := Finders[Classify(line, Finders).value];
    var ws := Words(line);
    var start := Found("", "");
    var f := ScanTokens(ws, rule, start).value;
    ScanUserIsLast(ws, rule, start);
    ScanIpIsLast(ws, rule, start);
    LastUserExists(ws, rule);
    LastIpExists(ws, rule);
    var u: nat :| LastUserToken(ws, rule, u);
    var i: nat :| LastIpToken(ws, rule, i);
    assert ExtractBetween(ws[u], rule.userBetween) == Some(row.username);
    assert ExtractBetween(ws[i], rule.ipBetween) == Some(f.ip);
  }

  /**
   * The row a line inserts carries the line's converted time and the
   * fields its last user and IP tokens give under the accepting rule.
   */
  lemma InsertedRow(line: string, maxTs: string, year: int)
    requires IngestLine(line, maxTs, year).Insert?
    ensures ConvertTime(TimePrefix(line), year) == Some(IngestLine(line, maxTs, year).row.timestamp)
    ensures FromTokens(line, IngestLine(line, maxTs, year).row)
  {
    var ts := ConvertTime(TimePrefix(line), year).value;
    LineRowFromTokens(line, ts);
  }

  /**
   * A line aborts the run exactly when its first 15 characters are not a
   * syslog time, or when it is new, attributed to a rule, and one of its
   * user or IP tokens lacks a delimiter.
   */
  lemma CrashIff(line: string, maxTs: string, year: int)
    ensures var ts := ConvertTime(TimePrefix(line), year);
      var k := Classify(line, Finders);
      IngestLine(line, maxTs, year) == Crash <==>
        || ts.None?
        || (Less(maxTs, ts.value) && k.Some? && HasBadToken(line, k.value))
  {
    var ts := ConvertTime(TimePrefix(line), year);
    var k := Classify(line, Finders);
    if ts.Some? && Less(maxTs, ts.value) && k.Some? {
      ScanFailsIff(Words(line), Finders[k.value], Found("", ""));
      assert IngestLine(line, maxTs, year) == ScanRow(line, ts.value, k.value);
    }
  }

  /** Some token of `line` is a user or IP token of rule `k` that lacks a delimiter. */
  predicate HasBadToken(line: string, k: nat)
    requires k < |Finders|
  {
    exists i :: 0 <= i < |Words(line)| && BadToken(Words(line)[i], Finders[k])
  }

  /** `a <= b` and `b <= c` give `a <= c` on strings. */
  lemma AtMostTransitive(a: string, b: string, c: string)
    requires AtMost(a, b) && AtMost(b, c)
    ensures AtMost(a, c)
  {
    if Less(c, a) {
      LessTotal(a, b);
      if Less(a, b) {
        LessTransitive(c, a, b);
      }
    }
  }

  /**
   * Raising the threshold from `m` to `m2` turns a line into a skip when
   * what it inserted under `m` is not newer than `m2`, and changes nothing
   * for a line that was skipped.
   */
  lemma LineNotReinserted(line: string, m: string, m2: string, year: int)
    requires AtMost(m, m2)
    requires IngestLine(line, m, year) != Crash
    requires IngestLine(line, m, year).Insert? ==> AtMost(IngestLine(line, m, year).row.timestamp, m2)
    ensures IngestLine(line, m2, year) == Skip
  {
    var ts := ConvertTime(TimePrefix(line), year).value;
    if !Less(m, ts) {
      AtMostTransitive(ts, m, m2);
    } else if Less(m2, ts) {
      assert IngestLine(line, m2, year) == IngestLine(line, m, year);
    }
  }

  /** No row of `rows` is newer than `m`. */
  predicate AllAtMost(rows: seq<Row>, m: string)
  {
    forall i :: 0 <= i < |rows| ==> AtMost(rows[i].timestamp, m)
  }

  lemma {:induction false} NotReinserted(lines: seq<string>, m: string, m2: string, year: int)
    requires AtMost(m, m2)
    requires !IngestLines(lines, m, year).crashed
    requires AllAtMost(IngestLines(lines, m, year).rows, m2)
    ensures IngestLines(lines, m2, year) == Run([], false)
  {
    if lines != [] {
      var o := IngestLine(lines[0], m, year);
      var rest := IngestLines(lines[1..], m, year);
      ThenParts(o, rest, m2);
      LineNotReinserted(lines[0], m, m2, year);
      NotReinserted(lines[1..], m, m2, year);
    }
  }

  /** What a run that did not abort and kept below `m2` says about its first line and the rest. */
  lemma ThenParts(o: Outcome, rest: Run, m2: string)
    requires !Then(o, rest).crashed
    requires AllAtMost(Then(o, rest).rows, m2)
    ensures o != Crash && !rest.crashed && AllAtMost(rest.rows, m2)
    ensures o.Insert? ==> AtMost(o.row.timestamp, m2)
  {
    var all := Then(o, rest);
    if o.Insert? {
      assert all.rows[0] == o.row;
      assert forall i :: 0 <= i < |rest.rows| ==> rest.rows[i] == all.rows[i + 1];
    }
  }

  /**
   * Running the ingestion again over the same log after a run that did
   * not abort inserts nothing and does not abort: the maximum timestamp
   * now covers every line the first run took.
   */
  lemma ResumeIsIdempotent(journal: seq<Row>, lines: seq<string>, year: int)
    requires !IngestLines(lines, MaxTimestamp(journal), year).crashed
    ensures var after := journal + IngestLines(lines, MaxTimestamp(journal), year).rows;
      IngestLines(lines, MaxTimestamp(after), year) == Run([], false)
  {
    var m := MaxTimestamp(journal);
    var added := IngestLines(lines, m, year).rows;
    var after := journal + added;
    MaxTimestampGrows(journal, added);
    assert AllAtMost(added, MaxTimestamp(after)) by {
      forall i | 0 <= i < |added|
        ensures AtMost(added[i].timestamp, MaxTimestamp(after))
      {
        assert added[i] == after[|journal| + i];
      }
    }
    NotReinserted(lines, m, MaxTimestamp(after), year);
  }

  // ---------------------------------------------------------------------
  // The loops of process_new_log_records
  // ---------------------------------------------------------------------

  /**
   * The rule loop: `bother` tells whether the line is bothered with and
   * `k` is then the index of the rule it stopped at.
   */
  method ClassifyLine(line: string, rules: seq<Finder>) returns (bother: bool, k: nat)
    ensures bother <==> Classify(line, rules).Some?
    ensures bother ==> Classify(line, rules) == Some(k)
  {
    bother := false;
    k := 0;
    var i := 0;
    while i < |rules|
      invariant 0 <= i <= |rules|
      invariant ClassifyFrom(line, rules, i) == Classify(line, rules)
      invariant !bother
    {
      if Find(line, rules[i].skip) > 0 {
        break;
      }
      if Find(line, rules[i].fstring) < 0 {
        i := i + 1;
        continue;
      }
      bother := true;
      k := i;
      break;
    }
  }

  /**
   * The token loop over `line.split()`: `ok` is false when an extraction
   * raised, and otherwise `found` holds the last user and IP seen.
   */
  method ScanLine(tokens: seq<string>, rule: Finder) returns (ok: bool, found: Found)
    ensures ok <==> ScanTokens(tokens, rule, Found("", "")).Some?
    ensures ok ==> ScanTokens(tokens, rule, Found("", "")) == Some(found)
  {
    found := Found("", "");
    var i := 0;
    while i < |tokens|
      invariant 0 <= i <= |tokens|
      invariant ScanTokens(tokens[i..], rule, found) == ScanTokens(tokens, rule, Found("", ""))
    {
      var part := tokens[i];
      assert tokens[i..][1..] == tokens[i + 1..];
      if StartsWith(part, rule.userStart) {
        var u := ExtractBetween(part, rule.userBetween);
        if u.None? {
          return false, found;
        }
        found := found.(user := u.value);
      } else if StartsWith(part, rule.ipStart) {
        var a := ExtractBetween(part, rule.ipBetween);
        if a.None? {
          return false, found;
        }
        found := found.(ip := a.value);
      }
      i := i + 1;
    }
    ok := true;
  }

  /**
   * The line loop: the rows the run inserts, in order, and whether a
   * `ValueError` ended it.
   */
  method ReadLog(lines: seq<string>, maxTs: string, year: int) returns (rows: seq<Row>, crashed: bool)
    ensures Run(rows, crashed) == IngestLines(lines, maxTs, year)
  {
    ghost var total := IngestLines(lines, maxTs, year);
    rows := [];
    crashed := false;
    var i := 0;
    while i < |lines| && !crashed
      invariant 0 <= i <= |lines|
      invariant !crashed ==> total == After(rows, IngestLines(lines[i..], maxTs, year))
      invariant crashed ==> total == Run(rows, true)
    {
      IngestFrom(lines, i, maxTs, year);
      var outcome := ProcessLine(lines[i], maxTs, year);
      AfterThen(rows, outcome, IngestLines(lines[i + 1..], maxTs, year));
      if outcome.Crash? {
        crashed := true;
      } else if outcome.Insert? {
        rows := rows + [outcome.row];
      }
      i := i + 1;
    }
    if !crashed {
      assert lines[i..] == [] && rows + [] == rows;
    }
  }

  /** The body of the line loop, from the time check to the row to insert. */
  method ProcessLine(line: string, maxTs: string, year: int) returns (o: Outcome)
    ensures o == IngestLine(line, maxTs, year)
  {
    var timestamp := ConvertTime(TimePrefix(line), year);
    if timestamp.None? {
      return Crash;
    }
    if !Less(maxTs, timestamp.value) {
      return Skip;
    }
    var bother, k := ClassifyLine(line, Finders);
    if !bother {
      return Skip;
    }
    var ok, found := ScanLine(Words(line), Finders[k]);
    if !ok {
      return Crash;
    }
    if found.ip == "" || found.user == "" {
      return Skip;
    }
    var ip := NormalizeIp(found.ip);
    o := Insert(Row(timestamp.value, ip, found.user, Finders[k].backend));
  }
}
