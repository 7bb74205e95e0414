/**
 * The `Whitelist` object: the journal table it reads and writes, the
 * dictionary `records`, and the two texts it produces (`ignores`, and the
 * comment report, kept here as its list of entries).
 */
module WhitelistModel {
  import opened Text
  import opened StringOrder
  import opened Fields
  import opened Journal
  import opened Aggregate
  import opened Ingest
  import opened Policy

  class Whitelist {
    /** The rows of the `journal` table, in insertion order. */
    var journal: seq<Row>
    /** IP to its `(username, count)` pairs. */
    var records: map<string, seq<Usage>>
    /** The `ignoreip_local` directive. */
    var ignores: string
    /** The comment report, one entry per reported IP. */
    var comments: seq<Entry>

    /** No IP maps to an empty list: `records[key][0]` is always defined. */
    ghost predicate Valid()
      reads this
    {
      WellFormed(records)
    }

    /** Opens the database holding `stored` and starts with an empty dictionary and texts. */
    constructor(stored: seq<Row>)
      ensures Valid()
      ensures journal == stored && records == map[] && ignores == "" && comments == []
    {
      journal := stored;
      records := map[];
      ignores := "";
      comments := [];
    }

    /** `DELETE FROM journal WHERE timestamp < cutoff`. */
    method DeleteOldRecords(cutoff: string)
      modifies this
      ensures journal == Prune(old(journal), cutoff)
      ensures records == old(records) && ignores == old(ignores) && comments == old(comments)
    {
      journal := Prune(journal, cutoff);
    }

    /** `DELETE FROM journal`. */
    method Empty()
      modifies this
      ensures journal == []
      ensures records == old(records) && ignores == old(ignores) && comments == old(comments)
    {
      journal := [];
    }

    /**
     * Reads the log once, from its first line, inserting the row of every
     * new attributed line; on a `ValueError` the run stops, keeping the
     * rows already inserted.
     */
    method ProcessNewLogRecords(lines: seq<string>, year: int) returns (crashed: bool)
      modifies this
      ensures journal == old(journal) + IngestLines(lines, MaxTimestamp(old(journal)), year).rows
      ensures crashed == IngestLines(lines, MaxTimestamp(old(journal)), year).crashed
      ensures records == old(records) && ignores == old(ignores) && comments == old(comments)
    {
      var maxTimestamp := MaxTimestamp(journal);
      var rows;
      rows, crashed := ReadLog(lines, maxTimestamp, year);
      journal := journal + rows;
    }

    /** Appends each `QUERY` row's `(username, cnt)` to the list of its IP. */
    method ReadDbToDict()
      requires Valid()
      modifies this
      ensures Valid()
      ensures records == Fill(old(records), Query(journal))
      ensures journal == old(journal) && ignores == old(ignores) && comments == old(comments)
    {
      var rows := Query(journal);
      var i := 0;
      while i < |rows|
        invariant 0 <= i <= |rows|
        invariant records == Fill(old(records), rows[..i])
        invariant WellFormed(records)
        invariant journal == old(journal) && ignores == old(ignores) && comments == old(comments)
      {
        var g := rows[i];
        FillStep(old(records), rows, i);
        if g.ip !in records || records[g.ip] == [] {
          records := records[g.ip := []];
        }
        records := records[g.ip := records[g.ip] + [Usage(g.username, g.count)]];
        i := i + 1;
      }
      assert rows[..|rows|] == rows;
    }

    /**
     * Builds `ignores`: the header, the whitelisted IPs ten to a line
     * (with the wrap loop's quirks), and their number.
     */
    method CreateF2bWhitelist()
      requires Valid()
      modifies this
      ensures journal == old(journal) && records == old(records) && comments == old(comments)
      ensures Valid()
      ensures ignores == Directive(SelectedKeys(records))
    {
      var recKeys := SortedKeys(records.Keys);
      SortedKeysIn(records);
      var keysReduced := ReduceKeys(recKeys, records);
      ignores := WriteDirective(keysReduced);
    }

    /** Appends to `comments` the entries of one section's loop. */
    method AddSection(recKeys: seq<string>, tier: Tier)
      requires KeysIn(recKeys, records)
      modifies this
      ensures journal == old(journal) && records == old(records) && ignores == old(ignores)
      ensures comments == old(comments) + Section(recKeys, records, tier)
    {
      var i := 0;
      while i < |recKeys|
        invariant 0 <= i <= |recKeys|
        invariant KeysIn(recKeys[..i], records)
        invariant comments == old(comments) + Section(recKeys[..i], records, tier)
        invariant journal == old(journal) && records == old(records) && ignores == old(ignores)
      {
        var key := recKeys[i];
        assert recKeys[..i + 1] == recKeys[..i] + [key];
        if InTier(records[key], tier) {
          comments := comments + [Entry(tier, key, records[key])];
        }
        i := i + 1;
      }
      assert recKeys[..|recKeys|] == recKeys;
    }

    /** Builds the report: the hard, soft, individual and not-used sections in turn. */
    method CreateF2bComments()
      requires Valid()
      modifies this
      ensures journal == old(journal) && records == old(records) && ignores == old(ignores)
      ensures Valid()
      ensures comments == Report(records)
    {
      var recKeys := SortedKeys(records.Keys);
      SortedKeysIn(records);
      comments := [];
      AddSection(recKeys, Hard);
      AddSection(recKeys, Soft);
      AddSection(recKeys, Individual);
      AddSection(recKeys, NotUsed);
    }
  }
}
