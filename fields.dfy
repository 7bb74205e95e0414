/**
 * Field extraction from mail-log lines: `extract_between`, the syslog
 * timestamp conversion `convert_time`, the IPv6 `/64` rewrite and the
 * ordered `FINDERS` rules with the token scan that pulls user and IP out
 * of a line.
 */
module Fields {
  import opened Wrappers
  import opened Text
  import opened StringOrder

  // ---------------------------------------------------------------------
  // extract_between
  // ---------------------------------------------------------------------

  /** A pair of delimiters; `None` stands for the start or end of the token. */
  datatype Between = Between(first: Option<char>, last: Option<char>)

  /** Python's `s.index(c)`, for a character known to occur. */
  function FirstIndex(s: string, c: char): (r: nat)
    requires c in s
    ensures r < |s| && s[r] == c && c !in s[..r]
  {
    if s[0] == c then 0
    else
      var r := 1 + FirstIndex(s[1..], c);
      assert s[..r] == [s[0]] + s[1..][..r - 1];
      r
  }

  lemma FirstIndexAt(s: string, c: char, k: nat)
    requires k < |s| && s[k] == c && c !in s[..k]
    ensures FirstIndex(s, c) == k
  {
  }

  /** A required delimiter that does not occur in `text` (Python raises ValueError). */
  predicate Missing(text: string, d: Option<char>)
  {
    d.Some? && d.value !in text
  }

  /**
   * `extract_between(text, first, last)`: the slice from just after the
   * first `first` (or from 0) up to the first `last` (or to the end);
   * `None` when a required delimiter is absent (the ValueError of `index`).
   */
  function ExtractBetween(text: string, b: Between): (r: Option<string>)
    ensures r.None? <==> Missing(text, b.first) || Missing(text, b.last)
    ensures r.Some? && b.last.Some? ==> b.last.value !in r.value
  {
    if Missing(text, b.first) || Missing(text, b.last) then None
    else
      var start := if b.first.Some? then FirstIndex(text, b.first.value) + 1 else 0;
      var end := if b.last.Some? then FirstIndex(text, b.last.value) else |text|;
      if start <= end then
        assert text[start..end] == text[..end][start..];
        Some(text[start..end])
      else Some("")
  }

  /** A value enclosed by the first opening and the first closing delimiter is returned as is. */
  lemma ExtractBracketed(pre: string, f: char, v: string, l: char, post: string)
    requires f !in pre && l !in pre && l != f && l !in v
    ensures ExtractBetween(pre + [f] + v + [l] + post, Between(Some(f), Some(l))) == Some(v)
  {
    var text := pre + [f] + v + [l] + post;
    assert text[..|pre|] == pre;
    FirstIndexAt(text, f, |pre|);
    assert text[..|pre| + 1 + |v|] == pre + [f] + v;
    FirstIndexAt(text, l, |pre| + 1 + |v|);
    assert text[|pre| + 1..|pre| + 1 + |v|] == v;
  }

  /** With no closing delimiter the value runs to the end of the token. */
  lemma ExtractToEnd(pre: string, f: char, v: string)
    requires f !in pre
    ensures ExtractBetween(pre + [f] + v, Between(Some(f), None)) == Some(v)
  {
    var text := pre + [f] + v;
    assert text[..|pre|] == pre;
    FirstIndexAt(text, f, |pre|);
    assert text[|pre| + 1..|text|] == v;
  }

  /** When the closing delimiter comes first, the slice is empty. */
  lemma ExtractReversedIsEmpty(text: string, f: char, l: char)
    requires f in text && l in text && FirstIndex(text, l) <= FirstIndex(text, f)
    ensures ExtractBetween(text, Between(Some(f), Some(l))) == Some("")
  {
  }

  // ---------------------------------------------------------------------
  // convert_time
  // ---------------------------------------------------------------------

  /** A broken-down time as `time.strptime` returns it. */
  datatype Stamp = Stamp(year: nat, month: nat, day: nat, hour: nat, minute: nat, second: nat)

  predicate IsLeapYear(y: nat)
  {
    y % 4 == 0 && (y % 100 != 0 || y % 400 == 0)
  }

  function DaysInMonth(y: nat, m: nat): nat
    requires 1 <= m <= 12
  {
    if m == 2 then (if IsLeapYear(y) then 29 else 28)
    else if m == 4 || m == 6 || m == 9 || m == 11 then 30
    else 31
  }

  /**
   * The values `strptime('%Y %b %d %H:%M:%S')` accepts: a four-digit year,
   * a day that exists in its month, and seconds up to 61.
   */
  predicate ValidStamp(st: Stamp)
  {
    && 1000 <= st.year <= 9999
    && 1 <= st.month <= 12
    && 1 <= st.day <= DaysInMonth(st.year, st.month)
    && st.hour <= 23 && st.minute <= 59 && st.second <= 61
  }

  /** Chronological order of broken-down times. */
  predicate Before(a: Stamp, b: Stamp)
  {
    if a.year != b.year then a.year < b.year
    else if a.month != b.month then a.month < b.month
    else if a.day != b.day then a.day < b.day
    else if a.hour != b.hour then a.hour < b.hour
    else if a.minute != b.minute then a.minute < b.minute
    else a.second < b.second
  }

  const MonthAbbreviations: seq<string> :=
    ["jan", "feb", "mar", "apr", "may", "jun", "jul", "aug", "sep", "oct", "nov", "dec"]

  function LowerChar(c: char): char
  {
    if 'A' <= c <= 'Z' then (c as int - 'A' as int + 'a' as int) as char else c
  }

  function Lower(s: string): (r: string)
    ensures |r| == |s| && forall i :: 0 <= i < |s| ==> r[i] == LowerChar(s[i])
  {
    seq(|s|, i requires 0 <= i < |s| => LowerChar(s[i]))
  }

  /** `%b`: the month number of an English abbreviation, in any letter case. */
  function MonthNumber(abbr: string): (r: Option<nat>)
    ensures r.Some? ==> 1 <= r.value <= 12 && MonthAbbreviations[r.value - 1] == Lower(abbr)
    ensures r.None? <==> Lower(abbr) !in MonthAbbreviations
  {
    MonthFrom(Lower(abbr), 0)
  }

  function MonthFrom(name: string, i: nat): (r: Option<nat>)
    requires i <= 12
    ensures r.Some? ==> i < r.value <= 12 && MonthAbbreviations[r.value - 1] == name
    ensures r.None? <==> name !in MonthAbbreviations[i..]
    decreases 12 - i
  {
    if i == 12 then None
    else if MonthAbbreviations[i] == name then Some(i + 1)
    else
      assert MonthAbbreviations[i..] == [MonthAbbreviations[i]] + MonthAbbreviations[i + 1..];
      MonthFrom(name, i + 1)
  }

  /** Two decimal digits, or (when `spaced`) a blank followed by a non-zero digit. */
  function TwoDigitField(s: string, spaced: bool): (r: Option<nat>)
    requires |s| == 2
    ensures r.Some? ==> r.value < 100
  {
    if IsDigit(s[0]) && IsDigit(s[1]) then Some(10 * DigitValue(s[0]) + DigitValue(s[1]))
    else if spaced && s[0] == ' ' && IsDigit(s[1]) && s[1] != '0' then Some(DigitValue(s[1]))
    else None
  }

  /**
   * `strptime(f'{year} {prefix}', '%Y %b %d %H:%M:%S')` for the fixed
   * syslog layout `Mmm dd hh:mm:ss` (RFC 3164, section 4.1.2), where the day
   * may be padded with a blank. `None` is strptime's ValueError.
   */
  function ParseSyslogTime(prefix: string, year: int): (r: Option<Stamp>)
    ensures r.Some? ==> ValidStamp(r.value) && r.value.year == year
  {
    if |prefix| != 15 || !(1000 <= year <= 9999) then None
    else if prefix[3] != ' ' || prefix[6] != ' ' || prefix[9] != ':' || prefix[12] != ':' then None
    else
      var month := MonthNumber(prefix[..3]);
      var day := TwoDigitField(prefix[4..6], true);
      var hour := TwoDigitField(prefix[7..9], false);
      var minute := TwoDigitField(prefix[10..12], false);
      var second := TwoDigitField(prefix[13..15], false);
      if month.None? || day.None? || hour.None? || minute.None? || second.None? then None
      else
        var st := Stamp(year, month.value, day.value, hour.value, minute.value, second.value);
        if ValidStamp(st) then Some(st) else None
  }

  /** `strftime('%Y-%m-%dT%H:%M:%S')`. */
  function FormatStamp(st: Stamp): (r: string)
    requires ValidStamp(st)
  {
    Pad(st.year, 4) + ("-" + (Pad(st.month, 2) + ("-" + (Pad(st.day, 2) + ("T" +
    (Pad(st.hour, 2) + (":" + (Pad(st.minute, 2) + (":" + Pad(st.second, 2))))))))))
  }

  /** The fixed-width `YYYY-MM-DDTHH:MM:SS` shape of the journal's timestamps. */
  predicate IsDbTimestamp(s: string)
  {
    && |s| == 19
    && s[4] == '-' && s[7] == '-' && s[10] == 'T' && s[13] == ':' && s[16] == ':'
    && forall i :: 0 <= i < 19 && i !in {4, 7, 10, 13, 16} ==> IsDigit(s[i])
  }

  /** `convert_time`, with the current year passed in. */
  function ConvertTime(prefix: string, year: int): (r: Option<string>)
    ensures r.Some? <==> ParseSyslogTime(prefix, year).Some?
    ensures r.Some? ==> IsDbTimestamp(r.value) && DecimalValue(r.value[..4]) == year
  {
    match ParseSyslogTime(prefix, year)
    case None => None
    case Some(st) =>
      FormatStampShape(Pad(st.year, 4), Pad(st.month, 2), Pad(st.day, 2),
                       Pad(st.hour, 2), Pad(st.minute, 2), Pad(st.second, 2));
      Some(FormatStamp(st))
  }

  /** Fields of the widths `strftime` writes, joined by its separators, form a journal timestamp. */
  lemma FormatStampShape(y: string, mo: string, d: string, h: string, mi: string, s: string)
    requires |y| == 4 && |mo| == 2 && |d| == 2 && |h| == 2 && |mi| == 2 && |s| == 2
    requires AllDigits(y) && AllDigits(mo) && AllDigits(d) && AllDigits(h) && AllDigits(mi) && AllDigits(s)
    ensures var r := y + ("-" + (mo + ("-" + (d + ("T" + (h + (":" + (mi + (":" + s)))))))));
      IsDbTimestamp(r) && r[..4] == y
  {
    var r := y + ("-" + (mo + ("-" + (d + ("T" + (h + (":" + (mi + (":" + s)))))))));
    var flat := y + "-" + mo + "-" + d + "T" + h + ":" + mi + ":" + s;
    assert r == flat;
    assert |r| == 19;
    forall i | 0 <= i < 19 && i !in {4, 7, 10, 13, 16}
      ensures IsDigit(r[i])
    {
      if i < 4 {
        assert r[i] == y[i];
      } else if i < 7 {
        assert r[i] == mo[i - 5];
      } else if i < 10 {
        assert r[i] == d[i - 8];
      } else if i < 13 {
        assert r[i] == h[i - 11];
      } else if i < 16 {
        assert r[i] == mi[i - 14];
      } else {
        assert r[i] == s[i - 17];
      }
    }
    assert r[..4] == y;
  }

  lemma LessSameHead(h: string, x: string, y: string)
    ensures Less(h + x, h + y) <==> Less(x, y)
  {
    LessAppend(h, x, h, y);
    LessIrreflexive(h);
  }

  /** Comparing two formatted times as strings is comparing them chronologically. */
  lemma FormatStampOrder(a: Stamp, b: Stamp)
    requires ValidStamp(a) && ValidStamp(b)
    ensures Less(FormatStamp(a), FormatStamp(b)) <==> Before(a, b)
  {
    var s1 := Pad(a.second, 2);
    var s2 := Pad(b.second, 2);
    PadOrder(a.second, b.second, 2);
    var n1 := Pad(a.minute, 2) + (":" + s1);
    var n2 := Pad(b.minute, 2) + (":" + s2);
    FieldOrder(a.minute, b.minute, 2, ":", s1, s2);
    var h1 := Pad(a.hour, 2) + (":" + n1);
    var h2 := Pad(b.hour, 2) + (":" + n2);
    FieldOrder(a.hour, b.hour, 2, ":", n1, n2);
    var d1 := Pad(a.day, 2) + ("T" + h1);
    var d2 := Pad(b.day, 2) + ("T" + h2);
    FieldOrder(a.day, b.day, 2, "T", h1, h2);
    var m1 := Pad(a.month, 2) + ("-" + d1);
    var m2 := Pad(b.month, 2) + ("-" + d2);
    FieldOrder(a.month, b.month, 2, "-", d1, d2);
    FieldOrder(a.year, b.year, 4, "-", m1, m2);
  }

  /** A padded field followed by a separator and the rest compares field first, then the rest. */
  lemma FieldOrder(x: nat, y: nat, w: nat, sep: string, rx: string, ry: string)
    requires x < Pow10(w) && y < Pow10(w)
    ensures Less(Pad(x, w) + (sep + rx), Pad(y, w) + (sep + ry)) <==> x < y || (x == y && Less(rx, ry))
  {
    LessSameHead(sep, rx, ry);
    LessAppend(Pad(x, w), sep + rx, Pad(y, w), sep + ry);
    PadOrder(x, y, w);
    PadInjective(x, y, w);
  }

  /**
   * Within one assumed year, the string order the journal uses on converted
   * timestamps is the chronological order of the log times.
   */
  lemma ConvertTimeOrder(p1: string, p2: string, year: int)
    requires ConvertTime(p1, year).Some? && ConvertTime(p2, year).Some?
    ensures Less(ConvertTime(p1, year).value, ConvertTime(p2, year).value)
        <==> Before(ParseSyslogTime(p1, year).value, ParseSyslogTime(p2, year).value)
  {
    FormatStampOrder(ParseSyslogTime(p1, year).value, ParseSyslogTime(p2, year).value);
  }

  // ---------------------------------------------------------------------
  // IPv6 /64 rewrite
  // ---------------------------------------------------------------------

  /**
   * `':'.join(ip.split(':')[:4]) + '::/64'` when the address has more than
   * four colons; otherwise the address unchanged. The result keeps the part
   * of the address before its fourth colon.
   */
  function NormalizeIp(ip: string): (r: string)
    ensures Count(ip, ':') <= 4 ==> r == ip
    ensures Count(ip, ':') > 4 ==>
      |r| >= 5 && r[|r| - 5..] == "::/64" &&
      var k := |r| - 5; k < |ip| && r[..k] == ip[..k] && ip[k] == ':' && Count(ip[..k], ':') == 3
  {
    if Count(ip, ':') > 4 then
      var head := Join(Split(ip, ':')[..4], ':');
      JoinFirstPieces(ip, ':', 4);
      var r := head + "::/64";
      assert r[..|head|] == head && r[|head|..] == "::/64";
      r
    else ip
  }

  lemma CountSnoc(s: string, i: nat, c: char)
    requires i < |s|
    ensures Count(s[..i + 1], c) == Count(s[..i], c) + (if s[i] == c then 1 else 0)
  {
    assert s[..i + 1] == s[..i] + [s[i]];
    CountAppend(s[..i], [s[i]], c);
  }

  /** A `c` at position `a` makes every longer prefix count more `c`s than `s[..a]`. */
  lemma CountGrows(s: string, c: char, a: nat, b: nat)
    requires a < b <= |s| && s[a] == c
    ensures Count(s[..a], c) < Count(s[..b], c)
  {
    CountSnoc(s, a, c);
    CountPrefixMonotone(s, a + 1, b, c);
  }

  /** Two occurrences of `c` with the same number of `c`s before them are the same one. */
  lemma OccurrenceUnique(s: string, c: char, a: nat, b: nat)
    requires a < |s| && b < |s| && s[a] == c && s[b] == c
    requires Count(s[..a], c) == Count(s[..b], c)
    ensures a == b
  {
    if a < b {
      CountGrows(s, c, a, b);
    } else if b < a {
      CountGrows(s, c, b, a);
    }
  }

  /** Rewriting an already rewritten address changes nothing. */
  lemma NormalizeIpIdempotent(ip: string)
    ensures NormalizeIp(NormalizeIp(ip)) == NormalizeIp(ip)
  {
    var r := NormalizeIp(ip);
    if Count(ip, ':') > 4 {
      var k := |r| - 5;
      var p := ip[..k];
      assert r == p + "::/64";
      CountAppend(p, "::/64", ':');
      assert Count("::/64", ':') == 2;
      var r2 := NormalizeIp(r);
      var k2 := |r2| - 5;
      assert r[..k] == p && r[k] == ':';
      OccurrenceUnique(r, ':', k, k2);
      assert r2 == r2[..k2] + r2[k2..];
    }
  }

  /**
   * An address with more than four colons keeps its first four groups:
   * with `head` holding exactly three colons, `head + ":" + tail` becomes
   * `head + "::/64"` whenever `tail` has at least one more colon.
   */
  lemma NormalizeIpKeepsFourGroups(head: string, tail: string)
    requires Count(head, ':') == 3 && Count(tail, ':') >= 1
    ensures NormalizeIp(head + ":" + tail) == head + "::/64"
  {
    var ip := head + ":" + tail;
    FourthColon(head, tail, ip);
    var r := NormalizeIp(ip);
    var k := |r| - 5;
    OccurrenceUnique(ip, ':', k, |head|);
    assert r == r[..k] + r[k..];
  }

  lemma FourthColon(head: string, tail: string, ip: string)
    requires ip == head + ":" + tail
    requires Count(head, ':') == 3 && Count(tail, ':') >= 1
    ensures Count(ip, ':') > 4
    ensures |head| < |ip| && ip[..|head|] == head && ip[|head|] == ':'
  {
    var colon := [':'];
    var hc := head + colon;
    assert ip == hc + tail;
    CountAppend(hc, tail, ':');
    CountAppend(head, colon, ':');
    assert Count(colon, ':') == 1 by {
      assert colon[1..] == [];
    }
    assert ip[..|head|] == hc[..|head|] == head;
    assert ip[|head|] == hc[|head|] == ':';
  }

  /** An IPv4 address has no colon and is stored as it is. */
  lemma NormalizeIpKeepsIpv4(ip: string)
    requires ':' !in ip
    ensures NormalizeIp(ip) == ip
  {
    CountZero(ip, ':');
  }

  lemma {:induction false} CountZero(s: string, c: char)
    requires c !in s
    ensures Count(s, c) == 0
  {
    if s != [] {
      assert s[0] != c;
      CountZero(s[1..], c);
    }
  }

  // ---------------------------------------------------------------------
  // FINDERS and line classification
  // ---------------------------------------------------------------------

  /** One entry of `FINDERS`. */
  datatype Finder = Finder(
    fstring: string,
    skip: string,
    userStart: string,
    userBetween: Between,
    ipStart: string,
    ipBetween: Between,
    backend: char)

  /** The two rules, Postfix submission (`'p'`) first, then Dovecot IMAP (`'d'`). */
  const Finders: seq<Finder> := [
    Finder("sasl_username", "authentication failed", "sasl_username=", Between(Some('='), None),
           "client=", Between(Some('['), Some(']')), 'p'),
    Finder("imap-login", "auth failed", "user=", Between(Some('<'), Some('>')),
           "rip=", Between(Some('='), Some(',')), 'd')
  ]

  /** What one iteration of the rule loop decides. */
  datatype Verdict = Reject | Accept | Next

  /** `break` on a skip marker past index 0, `break` with the rule on its find marker, else `continue`. */
  function RuleVerdict(line: string, rule: Finder): Verdict
  {
    if Find(line, rule.skip) > 0 then Reject
    else if Find(line, rule.fstring) < 0 then Next
    else Accept
  }

  /**
   * The rule loop of `process_new_log_records`: the index of the rule the
   * line is attributed to, or `None` when the line is not bothered with.
   * Rule `k` wins exactly when it accepts and every earlier rule passed the
   * line on.
   */
  function Classify(line: string, rules: seq<Finder>): (r: Option<nat>)
    ensures r.Some? ==> r.value < |rules|
    ensures forall k :: 0 <= k < |rules| ==>
      (r == Some(k) <==> RuleVerdict(line, rules[k]) == Accept
                         && forall i :: 0 <= i < k ==> RuleVerdict(line, rules[i]) == Next)
  {
    ClassifyFrom(line, rules, 0)
  }

  function ClassifyFrom(line: string, rules: seq<Finder>, i: nat): (r: Option<nat>)
    requires i <= |rules|
    ensures r.Some? ==> i <= r.value < |rules|
    ensures forall k :: i <= k < |rules| ==>
      (r == Some(k) <==> RuleVerdict(line, rules[k]) == Accept
                         && forall j :: i <= j < k ==> RuleVerdict(line, rules[j]) == Next)
    decreases |rules| - i
  {
    if i == |rules| then None
    else
      match RuleVerdict(line, rules[i])
      case Reject => None
      case Accept => Some(i)
      case Next => ClassifyFrom(line, rules, i + 1)
  }

  /** A line whose `skip` marker of the first rule sits past index 0 is rejected outright. */
  lemma FirstSkipRejects(line: string)
    requires Find(line, Finders[0].skip) > 0
    ensures Classify(line, Finders).None?
  {
  }

  // ---------------------------------------------------------------------
  // Token scan for user and IP
  // ---------------------------------------------------------------------

  /** The user and IP found in a line (empty when not found). */
  datatype Found = Found(ip: string, user: string)

  predicate UserToken(t: string, rule: Finder)
  {
    StartsWith(t, rule.userStart)
  }

  /** The `elif`: a token counts for the IP only when it is not a user token. */
  predicate IpToken(t: string, rule: Finder)
  {
    !StartsWith(t, rule.userStart) && StartsWith(t, rule.ipStart)
  }

  /**
   * The token loop: each user token overwrites the user, each IP token the
   * IP; `None` when an extraction raises (which aborts the whole run).
   */
  function ScanTokens(tokens: seq<string>, rule: Finder, found: Found): Option<Found>
  {
    if tokens == [] then Some(found)
    else if UserToken(tokens[0], rule) then
      match ExtractBetween(tokens[0], rule.userBetween)
      case None => None
      case Some(u) => ScanTokens(tokens[1..], rule, found.(user := u))
    else if IpToken(tokens[0], rule) then
      match ExtractBetween(tokens[0], rule.ipBetween)
      case None => None
      case Some(a) => ScanTokens(tokens[1..], rule, found.(ip := a))
    else ScanTokens(tokens[1..], rule, found)
  }

  /** A user or IP token that lacks a delimiter its extraction needs. */
  predicate BadToken(t: string, rule: Finder)
  {
    || (UserToken(t, rule) && ExtractBetween(t, rule.userBetween).None?)
    || (IpToken(t, rule) && ExtractBetween(t, rule.ipBetween).None?)
  }

  /** The scan fails exactly when some user or IP token lacks a required delimiter. */
  lemma {:induction false} ScanFailsIff(tokens: seq<string>, rule: Finder, found: Found)
    ensures ScanTokens(tokens, rule, found).None? <==>
      exists k :: 0 <= k < |tokens| && BadToken(tokens[k], rule)
  {
    if tokens != [] {
      ScanFailsIff(tokens[1..], rule, ScanStep(tokens[0], rule, found));
      assert forall k :: 1 <= k < |tokens| ==> tokens[k] == tokens[1..][k - 1];
    }
  }

  /** The state after one successful token (used only in proofs). */
  function ScanStep(t: string, rule: Finder, found: Found): Found
  {
    if UserToken(t, rule) && ExtractBetween(t, rule.userBetween).Some? then
      found.(user := ExtractBetween(t, rule.userBetween).value)
    else if IpToken(t, rule) && ExtractBetween(t, rule.ipBetween).Some? then
      found.(ip := ExtractBetween(t, rule.ipBetween).value)
    else found
  }

  /** In a line, the last user token supplies the user; with none the user stays as it was. */
  lemma {:induction false} ScanUserIsLast(tokens: seq<string>, rule: Finder, found: Found)
    requires ScanTokens(tokens, rule, found).Some?
    ensures var user := ScanTokens(tokens, rule, found).value.user;
      (forall k :: 0 <= k < |tokens| ==> !UserToken(tokens[k], rule)) ==> user == found.user
    ensures var user := ScanTokens(tokens, rule, found).value.user;
      forall j :: 0 <= j < |tokens| && UserToken(tokens[j], rule) &&
                  (forall k :: j < k < |tokens| ==> !UserToken(tokens[k], rule)) ==>
        ExtractBetween(tokens[j], rule.userBetween) == Some(user)
  {
    if tokens != [] {
      ScanUserIsLast(tokens[1..], rule, ScanStep(tokens[0], rule, found));
      assert forall k :: 1 <= k < |tokens| ==> tokens[k] == tokens[1..][k - 1];
    }
  }

  /** In a line, the last IP token supplies the IP; with none the IP stays as it was. */
  lemma {:induction false} ScanIpIsLast(tokens: seq<string>, rule: Finder, found: Found)
    requires ScanTokens(tokens, rule, found).Some?
    ensures var ip := ScanTokens(tokens, rule, found).value.ip;
      (forall k :: 0 <= k < |tokens| ==> !IpToken(tokens[k], rule)) ==> ip == found.ip
    ensures var ip := ScanTokens(tokens, rule, found).value.ip;
      forall j :: 0 <= j < |tokens| && IpToken(tokens[j], rule) &&
                  (forall k :: j < k < |tokens| ==> !IpToken(tokens[k], rule)) ==>
        ExtractBetween(tokens[j], rule.ipBetween) == Some(ip)
  {
    if tokens != [] {
      ScanIpIsLast(tokens[1..], rule, ScanStep(tokens[0], rule, found));
      assert forall k :: 1 <= k < |tokens| ==> tokens[k] == tokens[1..][k - 1];
    }
  }
}
