# fail2ban whitelist builder — a Dafny model

`gn_f2b_whitelist_sqlite.py` builds a fail2ban `ignoreip` whitelist from
successful mail logins. It works in four steps:

- It reads the mail log and stores one row `(timestamp, ip, username, backend)`
  in the sqlite table `journal` for each new line of a successful Postfix SASL
  login or Dovecot IMAP login.
- It prunes rows older than a cutoff.
- It groups the table by `(ip, username)` into a dictionary `records`.
- It writes an `ignoreip_local` directive listing the IPs that are shared by
  several users or used at least three times, plus a commented report that puts
  each IP in a tier.

This project models that core in Dafny and proves what it promises.

- `Text` and `StringOrder`: Python's `str.find`, `str.split`, `str.join` and
  code-point string comparison (`<=` on timestamps, `list.sort()` on IPs).
- `Fields`: the helpers.
  - `extract_between`, including its `ValueError` when a delimiter is missing.
  - `convert_time`: `strptime('%Y %b %d %H:%M:%S')` followed by `strftime`.
  - The `FINDERS` table and the rule loop that picks a rule for a line.
  - The token loop that picks the user and the IP.
  - The IPv6 `/64` rewrite.
- `Journal`: the table.
  - `SELECT max(timestamp)` (an empty table gives `''`).
  - `DELETE ... WHERE timestamp < cutoff`.
- `Ingest`: one run of `process_new_log_records` over the lines of the log.
  - A line is a `Crash` (a `ValueError` stops the run, and rows inserted before
    it stay committed), a `Skip`, or an `Insert` of one row.
  - `ReadLog` is the line loop, proved against the function `IngestLines`.
- `Aggregate`: `QUERY` as a fold over the journal, and the loop of
  `read_db_to_dict` that appends each result row to its IP's list.
- `Policy`:
  - the selection rule of `create_f2b_whitelist`;
  - its line-wrapping loop, with the loop's exact behaviour:
    - exactly ten IPs are written on two lines;
    - the last line is empty for zero IPs and for every multiple of ten above
      ten;
  - the four tiers of `create_f2b_comments`.
- `WhitelistModel.Whitelist`: the class itself, with the fields `journal`
  (the table's rows), `records`, `ignores` and `comments`. Each of its methods
  states its whole new state.
- `Samples`: concrete instances: a log time converted, a leap day, the user
  and IP the token loop takes from the tokens `sasl_username=alice,` and
  `client=[203.0.113.7]`, and an IPv6 address cut to `/64`.

For a Postfix user token `extract_between` keeps everything after `=` up to
the end of the token, so `sasl_username=alice,` gives the user `alice,`,
comma included (`Samples.PostfixTokens`).

All source paths below are in `files/bin/gn_f2b_whitelist_sqlite.py`.

## Model

| member | source | states |
|---|---|---|
| Text.Find | files/bin/gn_f2b_whitelist_sqlite.py:153-156 | `str.find`: the lowest index where the pattern occurs, or -1 exactly when it occurs nowhere |
| Text.Split | files/bin/gn_f2b_whitelist_sqlite.py:177 | `split(':')` gives one more piece than there are colons, and no piece holds a colon |
| Text.SplitJoin | files/bin/gn_f2b_whitelist_sqlite.py:177 | joining the pieces of `split(c)` with `c` gives the text back, so the pieces are exactly the text between separators |
| Text.JoinFirstPieces | files/bin/gn_f2b_whitelist_sqlite.py:177 | joining the first n pieces of a split gives back the text up to the n-th separator |
| Text.Words | files/bin/gn_f2b_whitelist_sqlite.py:167 | `split()` yields non-empty tokens without blanks that together are the line's non-blank characters |
| Text.WordsOfWord | files/bin/gn_f2b_whitelist_sqlite.py:167 | a non-empty text without blanks is a single token |
| Text.WordsAtSpace | files/bin/gn_f2b_whitelist_sqlite.py:167 | a blank separates tokens: the tokens of `a + blank + b` are those of `a` followed by those of `b`; with `WordsOfWord` this makes the tokens the maximal blank-free runs |
| Text.NatToString | files/bin/gn_f2b_whitelist_sqlite.py:219 | the decimal text of a count has digits only, no leading zero, and reads back as the count |
| Text.Pad | files/bin/gn_f2b_whitelist_sqlite.py:73 | a zero-padded `strftime` field has the given width and reads back as its value |
| StringOrder.LessTotal | files/bin/gn_f2b_whitelist_sqlite.py:146 | Python's string order is total: two strings are equal or one is less than the other |
| StringOrder.LessTransitive | files/bin/gn_f2b_whitelist_sqlite.py:146 | Python's string order is transitive |
| StringOrder.PadOrder | files/bin/gn_f2b_whitelist_sqlite.py:73 | zero-padded fields of one width compare as text exactly as their numbers compare |
| StringOrder.SortedKeys | files/bin/gn_f2b_whitelist_sqlite.py:195-196 | the sorted key list is sorted, holds each key once, and holds exactly the dictionary's keys |
| Fields.ExtractBetween | files/bin/gn_f2b_whitelist_sqlite.py:75-82 | fails (`ValueError`) exactly when a given delimiter is missing; the text it returns does not hold the closing delimiter |
| Fields.ExtractBracketed | files/bin/gn_f2b_whitelist_sqlite.py:75-82 | with both delimiters, the text between the first opening and the first closing delimiter is returned |
| Fields.ExtractToEnd | files/bin/gn_f2b_whitelist_sqlite.py:75-82 | with no closing delimiter, everything after the first opening delimiter is returned |
| Fields.ExtractReversedIsEmpty | files/bin/gn_f2b_whitelist_sqlite.py:75-82 | a closing delimiter found at or before the opening one gives the empty string |
| Fields.MonthNumber | files/bin/gn_f2b_whitelist_sqlite.py:72 | `%b` accepts exactly the twelve English abbreviations in any letter case and gives their month number |
| Fields.ParseSyslogTime | files/bin/gn_f2b_whitelist_sqlite.py:70-72 | a parsed time lies in the given year and is a real calendar time |
| Fields.ConvertTime | files/bin/gn_f2b_whitelist_sqlite.py:68-73 | succeeds exactly when the time parses; the result has the fixed `YYYY-MM-DDTHH:MM:SS` shape and starts with the year |
| Fields.FormatStampOrder | files/bin/gn_f2b_whitelist_sqlite.py:73 | the stored timestamps compare as strings exactly as the times compare chronologically |
| Fields.ConvertTimeOrder | files/bin/gn_f2b_whitelist_sqlite.py:144-146 | the string test `timestamp <= max_timestamp` is chronological order for converted log times |
| Fields.NormalizeIp | files/bin/gn_f2b_whitelist_sqlite.py:176-177 | an IP with at most four colons is kept; otherwise the result is the text before its fourth colon followed by `::/64` |
| Fields.NormalizeIpIdempotent | files/bin/gn_f2b_whitelist_sqlite.py:176-177 | rewriting an already rewritten IP changes nothing |
| Fields.NormalizeIpKeepsFourGroups | files/bin/gn_f2b_whitelist_sqlite.py:176-177 | an address with more than four colons keeps its first four groups, then `::/64` |
| Fields.NormalizeIpKeepsIpv4 | files/bin/gn_f2b_whitelist_sqlite.py:176 | an IPv4 address is stored unchanged |
| Fields.Classify | files/bin/gn_f2b_whitelist_sqlite.py:150-162 | rule k is chosen exactly when it accepts the line and every earlier rule passed the line on |
| Fields.FirstSkipRejects | files/bin/gn_f2b_whitelist_sqlite.py:151-154 | a Postfix skip marker after index 0 rejects the line before the Dovecot rule is tried |
| Fields.ScanFailsIff | files/bin/gn_f2b_whitelist_sqlite.py:167-172 | the token loop fails exactly when some user or IP token lacks its delimiter |
| Fields.ScanUserIsLast | files/bin/gn_f2b_whitelist_sqlite.py:167-169 | the user is taken from the last user token, or stays empty when there is none |
| Fields.ScanIpIsLast | files/bin/gn_f2b_whitelist_sqlite.py:170-172 | the IP is taken from the last IP token that is not a user token, or stays empty when there is none |
| Journal.MaxTimestamp | files/bin/gn_f2b_whitelist_sqlite.py:136-139 | no row's timestamp exceeds it; it is a row's timestamp, or `''` for an empty table |
| Journal.MaxTimestampGrows | files/bin/gn_f2b_whitelist_sqlite.py:136-137 | inserting rows never lowers the maximum timestamp |
| Journal.Prune | files/bin/gn_f2b_whitelist_sqlite.py:266 | keeps exactly the rows whose timestamp is not below the cutoff |
| Journal.PruneAppend | files/bin/gn_f2b_whitelist_sqlite.py:266 | pruning works row by row and keeps the table's order |
| Journal.PruneBoundary | files/bin/gn_f2b_whitelist_sqlite.py:266 | a row stamped exactly at the cutoff stays; an older row goes |
| Aggregate.QueryGroups | files/bin/gn_f2b_whitelist_sqlite.py:38-44 | `QUERY` gives one row per `(ip, username)` pair of the journal, with that pair's number of rows as its count |
| Aggregate.ProjectMember | files/bin/gn_f2b_whitelist_sqlite.py:186-190 | a pair is in an IP's list exactly when the query has that row |
| Aggregate.FillAppendsProject | files/bin/gn_f2b_whitelist_sqlite.py:186-190 | the loop appends to each IP's list the query's pairs for that IP, in order, and adds exactly the IPs the query names |
| Aggregate.ProjectDistinct | files/bin/gn_f2b_whitelist_sqlite.py:38-44 | an IP's list names each username once |
| Aggregate.QueryTotal | files/bin/gn_f2b_whitelist_sqlite.py:38-44 | the counts in an IP's list add up to that IP's number of rows |
| Aggregate.RecordsKeys | files/bin/gn_f2b_whitelist_sqlite.py:183-190 | the dictionary's keys are exactly the journal's IPs |
| Aggregate.RecordsEntry | files/bin/gn_f2b_whitelist_sqlite.py:183-190 | each IP's list is non-empty, names each user once, gives each user's row count, and sums to the IP's rows |
| Aggregate.RecordsListRow | files/bin/gn_f2b_whitelist_sqlite.py:183-190 | every row's user is listed under its IP |
| Aggregate.RecordsSummarizeJournal | files/bin/gn_f2b_whitelist_sqlite.py:183-190 | the dictionary built from an empty one summarizes the journal, IP by IP |
| Ingest.IngestLine | files/bin/gn_f2b_whitelist_sqlite.py:144-181 | a row is inserted exactly when the time parses, is newer than `max_timestamp`, a rule accepts the line and its token loop finds both an IP and a user; the row is the converted time, the `/64` form of the IP, the user and that rule's backend, and it is newer than the maximum with a non-empty IP and user |
| Ingest.Attribute | files/bin/gn_f2b_whitelist_sqlite.py:150-174 | a new line yields a row exactly when a rule accepts it and the token loop finds both an IP and a user; the row holds the line's stamp, the `/64` IP, the user and the accepting rule's backend |
| Ingest.ScanRow | files/bin/gn_f2b_whitelist_sqlite.py:164-181 | the token loop of the accepting rule raises exactly when its scan fails, and inserts exactly when it finds both an IP and a user, giving the row with the `/64` IP, the user and the rule's backend |
| Ingest.LineRowFromTokens | files/bin/gn_f2b_whitelist_sqlite.py:164-178 | the row of an attributed line carries the accepting rule's backend, the user extracted from the last user token and the `/64` form of the IP extracted from the last IP token |
| Ingest.InsertedRow | files/bin/gn_f2b_whitelist_sqlite.py:144-181 | an inserted row holds `convert_time(line[0:15])`, the accepting rule's backend, and the user and `/64` IP from the line's last user and IP tokens |
| Ingest.FinderBackend | files/bin/gn_f2b_whitelist_sqlite.py:47-66 | every rule's backend is `p` or `d` |
| Ingest.RunRowsAreNew | files/bin/gn_f2b_whitelist_sqlite.py:141-181 | every row a run inserts is newer than the maximum timestamp read at its start |
| Ingest.IngestFrom | files/bin/gn_f2b_whitelist_sqlite.py:142 | the run over the lines from i is line i's outcome followed by the run over the rest |
| Ingest.CrashIff | files/bin/gn_f2b_whitelist_sqlite.py:144-172 | a line stops the run exactly when its time does not parse, or when it is new, is attributed to a rule, and one of its tokens lacks a delimiter |
| Ingest.LineNotReinserted | files/bin/gn_f2b_whitelist_sqlite.py:144-147 | a line whose row is not newer than the new maximum is skipped |
| Ingest.NotReinserted | files/bin/gn_f2b_whitelist_sqlite.py:144-147 | reading the same lines again against a maximum at least as new as every inserted row inserts nothing |
| Ingest.ResumeIsIdempotent | files/bin/gn_f2b_whitelist_sqlite.py:135-147 | after a run that did not crash, a second run over the same log inserts nothing |
| Ingest.ClassifyLine | files/bin/gn_f2b_whitelist_sqlite.py:150-162 | the rule loop decides to bother with the line exactly when `Classify` picks a rule, and returns that rule |
| Ingest.ScanLine | files/bin/gn_f2b_whitelist_sqlite.py:165-174 | the token loop succeeds exactly when the scan does, with the scan's IP and user |
| Ingest.ProcessLine | files/bin/gn_f2b_whitelist_sqlite.py:144-181 | one pass of the line loop's body yields that line's outcome |
| Ingest.ReadLog | files/bin/gn_f2b_whitelist_sqlite.py:141-181 | the line loop inserts the rows of `IngestLines` and stops at the first `ValueError` |
| Policy.TierOf | files/bin/gn_f2b_whitelist_sqlite.py:229-244 | every IP list is in exactly one of the four report tiers; it is whitelisted exactly when that tier is not "not used" |
| Policy.Reduce | files/bin/gn_f2b_whitelist_sqlite.py:199-204 | keeps exactly the keys whose list has several users or a single user with more than two logins, in order |
| Policy.SelectedKeys | files/bin/gn_f2b_whitelist_sqlite.py:195-204 | the whitelisted IPs, sorted, are exactly the selected keys of `records` |
| Policy.ReduceKeys | files/bin/gn_f2b_whitelist_sqlite.py:199-204 | the selection loop builds `Reduce` of the sorted keys |
| Policy.FullLines | files/bin/gn_f2b_whitelist_sqlite.py:209-212 | the loop's full lines are consecutive runs of ten IPs |
| Policy.LastLineStart | files/bin/gn_f2b_whitelist_sqlite.py:208-216 | the start index the code computes after its loop is `TailStart`, never past the end of the list |
| Policy.WriteIpLines | files/bin/gn_f2b_whitelist_sqlite.py:207-218 | the wrap loop writes the full lines of ten and then the line starting at `TailStart` |
| Policy.WriteDirective | files/bin/gn_f2b_whitelist_sqlite.py:206-219 | `ignores` is the header, the wrapped IP lines and the count line |
| Policy.DirectiveParts | files/bin/gn_f2b_whitelist_sqlite.py:206-219 | the directive is the header, the full lines, the tail line and the count line |
| Policy.LayoutShape | files/bin/gn_f2b_whitelist_sqlite.py:209-218 | the layout has one line per full ten plus a last line, and no line holds more than ten IPs |
| Policy.LayoutCovers | files/bin/gn_f2b_whitelist_sqlite.py:209-218 | the lines list every IP once in order, except that exactly ten IPs are listed twice |
| Policy.LastLineEmpty | files/bin/gn_f2b_whitelist_sqlite.py:213-218 | the last line is empty exactly for zero IPs or a multiple of ten above ten |
| Policy.LayoutOf23 | files/bin/gn_f2b_whitelist_sqlite.py:209-218 | 23 IPs are laid out as 10, 10 and 3 |
| Policy.SectionSound | files/bin/gn_f2b_whitelist_sqlite.py:230-244 | every entry of a section is a key in that tier, with its list |
| Policy.SectionComplete | files/bin/gn_f2b_whitelist_sqlite.py:230-244 | every key in a tier appears in that tier's section |
| Policy.SectionOrdered | files/bin/gn_f2b_whitelist_sqlite.py:224-244 | a section lists its IPs in sorted order |
| Policy.SectionTiers | files/bin/gn_f2b_whitelist_sqlite.py:230-244 | every entry of a section carries that section's tier |
| Policy.ReportOrdered | files/bin/gn_f2b_whitelist_sqlite.py:227-244 | the report runs hard, soft, individual, not used, each section sorted by IP |
| Policy.ReportEntries | files/bin/gn_f2b_whitelist_sqlite.py:227-244 | every report entry is an IP of `records` in its own tier, with its list |
| Policy.ReportComplete | files/bin/gn_f2b_whitelist_sqlite.py:227-244 | every IP of `records` appears in the report |
| Policy.ReportListsEachIpOnce | files/bin/gn_f2b_whitelist_sqlite.py:227-244 | the report names each IP exactly once |
| Policy.WhitelistedIff | files/bin/gn_f2b_whitelist_sqlite.py:198-204 | an IP is whitelisted exactly when two users share it or it has at least three logins |
| WhitelistModel.Whitelist.constructor | files/bin/gn_f2b_whitelist_sqlite.py:102-112 | opens on the stored table with an empty dictionary and empty texts |
| WhitelistModel.Whitelist.DeleteOldRecords | files/bin/gn_f2b_whitelist_sqlite.py:263-267 | the table becomes its pruned self; nothing else changes |
| WhitelistModel.Whitelist.Empty | files/bin/gn_f2b_whitelist_sqlite.py:257-261 | the table becomes empty; nothing else changes |
| WhitelistModel.Whitelist.ProcessNewLogRecords | files/bin/gn_f2b_whitelist_sqlite.py:132-181 | the table gains the run's rows after its old ones, and the crash flag is the run's |
| WhitelistModel.Whitelist.ReadDbToDict | files/bin/gn_f2b_whitelist_sqlite.py:183-190 | `records` becomes the old dictionary filled with the query's rows; no IP maps to an empty list |
| WhitelistModel.Whitelist.CreateF2bWhitelist | files/bin/gn_f2b_whitelist_sqlite.py:192-219 | `ignores` becomes the directive for the selected sorted keys; nothing else changes |
| WhitelistModel.Whitelist.AddSection | files/bin/gn_f2b_whitelist_sqlite.py:229-244 | one section's loop appends that tier's entries, in key order |
| WhitelistModel.Whitelist.CreateF2bComments | files/bin/gn_f2b_whitelist_sqlite.py:221-244 | `comments` becomes the four-section report of `records` |
| Samples.MarchConversion | files/bin/gn_f2b_whitelist_sqlite.py:68-73 | `Mar 25 14:27:47` in 2024 is stored as `2024-03-25T14:27:47` |
| Samples.LeapDay | files/bin/gn_f2b_whitelist_sqlite.py:68-73 | February 29th converts in a leap year and is a `ValueError` otherwise |
| Samples.PostfixTokens | files/bin/gn_f2b_whitelist_sqlite.py:48-56 | a Postfix line's `sasl_username=alice,` and `client=[203.0.113.7]` give user `alice,` and IP `203.0.113.7` |
| Samples.Ipv6Prefix | files/bin/gn_f2b_whitelist_sqlite.py:176-177 | `2001:db8:1:2:3:4:5:6` is stored as `2001:db8:1:2::/64` |

## Left out

- sqlite itself (connections, commits, the table's creation in `_db_create` and `db_open`) is left out. The table is a sequence of rows. Each insert is committed, so a run that stops keeps the rows before the stop.
- Reading the log file is left out. The log is a sequence of lines, given as a parameter.
- `write_f2b_whitelist` is left out because it only writes files.
- `whois_bits` and the text layout of the comment lines are left out because they call an external program and format text. A report entry keeps its tier, IP and list.
- The wall clock is left out. The year `convert_time` reads from `time.localtime()` is a parameter fixed for the whole run, while the source reads it again for each line. The pruning cutoff (now minus 30 days, formatted) is a parameter string.
- Fields.ParseSyslogTime: accepts only the fixed `Mmm dd hh:mm:ss` layout, with a day written as two digits or as a blank and one digit. Other spellings that `strptime` would also accept (single-digit hours, extra blanks) are treated as `ValueError`.
- Fields.MonthNumber: folds only ASCII letters to lower case; locale-dependent month names are not modelled.
- Aggregate.QueryGroups: groups appear in the order their pair first occurs, not sorted by IP as `ORDER BY ip` asks. The order of IPs does not change the dictionary. Within one IP, SQL leaves the order of users open. The selection and the tiers read only a list's length and the count of a one-element list.
- Text values are stored as given; sqlite's column type affinity is not modelled.
- WhitelistModel.Whitelist.ProcessNewLogRecords: appends the run's rows to the table in one step after the line loop, not one insert at a time. The final table is the same.
- Ingest.ResumeIsIdempotent: is proved only for a run that did not crash. A run that stopped at a `ValueError` left the failing line and the lines after it unread, so a second run may still insert rows.
- WhitelistModel.Whitelist.CreateF2bWhitelist and WhitelistModel.Whitelist.CreateF2bComments build their text through helper methods (`ReduceKeys`, `WriteDirective`, `AddSection`); the loops are the source's.
