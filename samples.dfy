/**
 * Concrete instances of the rules: the time conversion of a syslog
 * prefix, the leap-day check, the extraction of a Postfix user and IP,
 * and the IPv6 `/64` rewrite.
 */
module Samples {
  import opened Wrappers
  import opened Text
  import opened Fields

  lemma MonthMar()
    ensures MonthNumber("Mar") == Some(3)
  {
    assert Lower("Mar") == "mar";
    assert MonthAbbreviations[2] == "mar";
  }

  lemma MonthFeb()
    ensures MonthNumber("Feb") == Some(2)
  {
    assert Lower("Feb") == "feb";
    assert MonthAbbreviations[1] == "feb";
  }

  lemma TwoDigits(s: string, spaced: bool, n: nat)
    requires |s| == 2 && IsDigit(s[0]) && IsDigit(s[1]) && 10 * DigitValue(s[0]) + DigitValue(s[1]) == n
    ensures TwoDigitField(s, spaced) == Some(n)
  {
  }

  /** The slices `ParseSyslogTime` takes of a prefix laid out as `Mmm dd hh:mm:ss`. */
  lemma SyslogSlices(p: string, mon: string, day: string, hh: string, mm: string, ss: string)
    requires |mon| == 3 && |day| == 2 && |hh| == 2 && |mm| == 2 && |ss| == 2
    requires p == mon + [' '] + day + [' '] + hh + [':'] + mm + [':'] + ss
    ensures |p| == 15 && p[3] == ' ' && p[6] == ' ' && p[9] == ':' && p[12] == ':'
    ensures p[..3] == mon && p[4..6] == day && p[7..9] == hh && p[10..12] == mm && p[13..15] == ss
  {
  }

  lemma MarchSlices(p: string)
    requires p == "Mar 25 14:27:47"
    ensures |p| == 15 && p[3] == ' ' && p[6] == ' ' && p[9] == ':' && p[12] == ':'
    ensures p[..3] == "Mar" && p[4..6] == "25" && p[7..9] == "14" && p[10..12] == "27" && p[13..15] == "47"
  {
    SyslogSlices(p, "Mar", "25", "14", "27", "47");
  }

  lemma LeapDaySlices(p: string)
    requires p == "Feb 29 12:00:00"
    ensures |p| == 15 && p[3] == ' ' && p[6] == ' ' && p[9] == ':' && p[12] == ':'
    ensures p[..3] == "Feb" && p[4..6] == "29" && p[7..9] == "12" && p[10..12] == "00" && p[13..15] == "00"
  {
    SyslogSlices(p, "Feb", "29", "12", "00", "00");
  }

  /** A prefix whose slices read as the fields of `st` parses to `st` when `st` is a real time. */
  lemma ParseFields(p: string, mon: string, day: string, hh: string, mm: string, ss: string, st: Stamp)
    requires |p| == 15 && p[3] == ' ' && p[6] == ' ' && p[9] == ':' && p[12] == ':'
    requires p[..3] == mon && p[4..6] == day && p[7..9] == hh && p[10..12] == mm && p[13..15] == ss
    requires 1000 <= st.year <= 9999
    requires MonthNumber(mon) == Some(st.month) && TwoDigitField(day, true) == Some(st.day)
    requires TwoDigitField(hh, false) == Some(st.hour) && TwoDigitField(mm, false) == Some(st.minute)
    requires TwoDigitField(ss, false) == Some(st.second)
    ensures ParseSyslogTime(p, st.year) == if ValidStamp(st) then Some(st) else None
  {
  }

  lemma MarchFields()
    ensures MonthNumber("Mar") == Some(3) && TwoDigitField("25", true) == Some(25)
    ensures TwoDigitField("14", false) == Some(14) && TwoDigitField("27", false) == Some(27)
    ensures TwoDigitField("47", false) == Some(47)
  {
    MonthMar();
    TwoDigits("25", true, 25);
    TwoDigits("14", false, 14);
    TwoDigits("27", false, 27);
    TwoDigits("47", false, 47);
  }

  lemma MarchValid(st: Stamp)
    requires st == Stamp(2024, 3, 25, 14, 27, 47)
    ensures ValidStamp(st) && 1000 <= st.year <= 9999
  {
  }

  lemma MarchParse(p: string, st: Stamp)
    requires p == "Mar 25 14:27:47" && st == Stamp(2024, 3, 25, 14, 27, 47)
    ensures ParseSyslogTime(p, 2024) == Some(st)
  {
    MarchSlices(p);
    MarchFields();
    MarchValid(st);
    ParseFields(p, "Mar", "25", "14", "27", "47", st);
  }

  lemma MarchPads()
    ensures Pad(2024, 4) == "2024" && Pad(3, 2) == "03" && Pad(25, 2) == "25"
    ensures Pad(14, 2) == "14" && Pad(27, 2) == "27" && Pad(47, 2) == "47"
  {
    assert Pad(2, 1) == "2";
    assert Pad(20, 2) == "20";
    assert Pad(202, 3) == "202";
    assert Pad(1, 1) == "1";
    assert Pad(4, 1) == "4";
  }

  lemma MarchFormat(st: Stamp)
    requires st == Stamp(2024, 3, 25, 14, 27, 47)
    ensures FormatStamp(st) == "2024-03-25T14:27:47"
  {
    MarchPads();
    var r := FormatStamp(st);
    assert r == "2024" + ("-" + ("03" + ("-" + ("25" + ("T" + ("14" + (":" + ("27" + (":" + "47")))))))));
    assert |r| == 19;
    forall k | 0 <= k < 19
      ensures r[k] == "2024-03-25T14:27:47"[k]
    {
    }
  }

  /** `Mar 25 14:27:47` in 2024 is stored as `2024-03-25T14:27:47`. */
  lemma MarchConversion(p: string)
    requires p == "Mar 25 14:27:47"
    ensures ConvertTime(p, 2024) == Some("2024-03-25T14:27:47")
  {
    MarchParse(p, Stamp(2024, 3, 25, 14, 27, 47));
    MarchFormat(Stamp(2024, 3, 25, 14, 27, 47));
  }

  /** February 29th is a valid log time in a leap year and a ValueError otherwise. */
  lemma LeapDay(p: string)
    requires p == "Feb 29 12:00:00"
    ensures ConvertTime(p, 2024).Some?
    ensures ConvertTime(p, 2023).None?
  {
    LeapDaySlices(p);
    MonthFeb();
    TwoDigits("29", true, 29);
    TwoDigits("12", false, 12);
    TwoDigits("00", false, 0);
    var leap := Stamp(2024, 2, 29, 12, 0, 0);
    var common := Stamp(2023, 2, 29, 12, 0, 0);
    assert IsLeapYear(2024) && !IsLeapYear(2023);
    assert ValidStamp(leap) && !ValidStamp(common);
    ParseFields(p, "Feb", "29", "12", "00", "00", leap);
    ParseFields(p, "Feb", "29", "12", "00", "00", common);
  }

  lemma PostfixUser(user: string)
    requires user == "sasl_username=alice,"
    ensures UserToken(user, Finders[0]) && ExtractBetween(user, Finders[0].userBetween) == Some("alice,")
  {
    assert "sasl_username" + ['='] + "alice," == user;
    ExtractToEnd("sasl_username", '=', "alice,");
  }

  lemma PostfixClient(client: string)
    requires client == "client=[203.0.113.7]"
    ensures !UserToken(client, Finders[0]) && IpToken(client, Finders[0])
    ensures ExtractBetween(client, Finders[0].ipBetween) == Some("203.0.113.7")
  {
    assert "client=" + ['['] + "203.0.113.7" + [']'] + "" == client;
    ExtractBracketed("client=", '[', "203.0.113.7", ']', "");
  }

  /**
   * In a Postfix line the user runs from the `=` to the end of its token,
   * so `sasl_username=alice,` yields `alice,`; the IP is taken from
   * between the brackets of the `client=` token.
   */
  lemma PostfixTokens(user: string, client: string)
    requires user == "sasl_username=alice," && client == "client=[203.0.113.7]"
    ensures ScanTokens([user, client], Finders[0], Found("", "")) == Some(Found("203.0.113.7", "alice,"))
  {
    var rule := Finders[0];
    PostfixUser(user);
    PostfixClient(client);
    assert [user, client][1..] == [client];
    assert [client][1..] == [];
    assert ScanTokens([client], rule, Found("", "alice,"))
        == ScanTokens([], rule, Found("203.0.113.7", "alice,"));
    assert ScanTokens([user, client], rule, Found("", ""))
        == ScanTokens([client], rule, Found("", "alice,"));
  }

  lemma Ipv6Head()
    ensures Count("2001:db8:1:2", ':') == 3
  {
  }

  lemma Ipv6Tail()
    ensures Count("3:4:5:6", ':') == 3
  {
  }

  /** A full IPv6 address is cut to its first four groups and marked `/64`. */
  lemma Ipv6Prefix(head: string, tail: string)
    requires head == "2001:db8:1:2" && tail == "3:4:5:6"
    ensures NormalizeIp(head + ":" + tail) == head + "::/64"
  {
    Ipv6Head();
    Ipv6Tail();
    NormalizeIpKeepsFourGroups(head, tail);
  }
}
