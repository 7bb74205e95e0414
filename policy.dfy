/**
 * What the dictionary of `(username, count)` lists is turned into: the
 * choice of IPs for fail2ban's `ignoreip` (`create_f2b_whitelist`), its
 * layout of at most ten IPs per line, and the four tiers of the comment
 * report (`create_f2b_comments`).
 */
module Policy {
  import opened Text
  import opened StringOrder
  import opened Journal
  import opened Aggregate

  /** The shape of the dictionary `read_db_to_dict` builds: no IP maps to an empty list. */
  predicate WellFormed(records: map<string, seq<Usage>>)
  {
    forall ip :: ip in records ==> records[ip] != []
  }

  // ---------------------------------------------------------------------
  // Selection and tiers
  // ---------------------------------------------------------------------

  /** Whitelisted: used by more than one user, or by one user more than twice. */
  predicate Selected(us: seq<Usage>)
    requires us != []
  {
    |us| > 1 || us[0].count > 2
  }

  /** The four sections of the comment report. */
  datatype Tier = Hard | Soft | Individual | NotUsed

  /** The condition of each section's loop in `create_f2b_comments`. */
  predicate InTier(us: seq<Usage>, t: Tier)
    requires us != []
  {
    match t
    case Hard => |us| > 3
    case Soft => |us| > 1 && |us| <= 3
    case Individual => |us| == 1 && us[0].count >= 3
    case NotUsed => |us| <= 1 && us[0].count < 3
  }

  /**
   * The section an IP is reported in: every IP meets exactly one of the
   * four conditions, and the whitelisted IPs are exactly those reported
   * outside "not used".
   */
  function TierOf(us: seq<Usage>): (t: Tier)
    requires us != []
    ensures InTier(us, t)
    ensures forall t' :: InTier(us, t') ==> t' == t
    ensures Selected(us) <==> t != NotUsed
  {
    if |us| > 3 then Hard
    else if |us| > 1 then Soft
    else if us[0].count >= 3 then Individual
    else NotUsed
  }

  // ---------------------------------------------------------------------
  // keys_reduced
  // ---------------------------------------------------------------------

  /** The keys, in their order, whose lists are selected. */
  function Reduce(keys: seq<string>, records: map<string, seq<Usage>>): (r: seq<string>)
    requires forall i :: 0 <= i < |keys| ==> keys[i] in records && records[keys[i]] != []
    ensures forall x :: x in r <==> x in keys && Selected(records[x])
    ensures Sorted(keys) ==> Sorted(r)
  {
    if keys == [] then []
    else
      var init := keys[..|keys| - 1];
      var last := keys[|keys| - 1];
      var rest := Reduce(init, records);
      assert keys == init + [last];
      if Selected(records[last]) then
        assert Sorted(keys) ==> forall i :: 0 <= i < |rest| ==> Less(rest[i], last) by {
          if Sorted(keys) {
            forall i | 0 <= i < |rest|
              ensures Less(rest[i], last)
            {
              assert rest[i] in rest;
              var k :| 0 <= k < |init| && init[k] == rest[i];
              assert keys[k] == init[k];
            }
          }
        }
        rest + [last]
      else rest
  }

  /** `keys_reduced`: the whitelisted IPs in sorted order. */
  function SelectedKeys(records: map<string, seq<Usage>>): (r: seq<string>)
    requires WellFormed(records)
    ensures Sorted(r)
    ensures forall x :: x in r <==> x in records && Selected(records[x])
  {
    Reduce(SortedKeys(records.Keys), records)
  }

  /** The loop that builds `keys_reduced` from the sorted keys. */
  method ReduceKeys(recKeys: seq<string>, records: map<string, seq<Usage>>) returns (keysReduced: seq<string>)
    requires KeysIn(recKeys, records)
    ensures keysReduced == Reduce(recKeys, records)
  {
    keysReduced := [];
    var i := 0;
    while i < |recKeys|
      invariant 0 <= i <= |recKeys|
      invariant keysReduced == Reduce(recKeys[..i], records)
    {
      var key := recKeys[i];
      ReduceStep(recKeys, i, records);
      if |records[key]| > 1 {
        keysReduced := keysReduced + [key];
      } else if records[key][0].count > 2 {
        keysReduced := keysReduced + [key];
      }
      i := i + 1;
    }
    assert recKeys[..|recKeys|] == recKeys;
  }

  /** One turn of the `keys_reduced` loop. */
  lemma ReduceStep(keys: seq<string>, i: nat, records: map<string, seq<Usage>>)
    requires KeysIn(keys, records) && i < |keys|
    ensures KeysIn(keys[..i], records) && KeysIn(keys[..i + 1], records)
    ensures Reduce(keys[..i + 1], records)
         == Reduce(keys[..i], records) + (if Selected(records[keys[i]]) then [keys[i]] else [])
  {
    assert keys[..i + 1][..i] == keys[..i];
    assert keys[..i + 1][i] == keys[i];
  }

  /** The sorted keys of a well-formed dictionary are all in it with non-empty lists. */
  lemma SortedKeysIn(records: map<string, seq<Usage>>)
    requires WellFormed(records)
    ensures KeysIn(SortedKeys(records.Keys), records)
  {
  }

  // ---------------------------------------------------------------------
  // The ignoreip directive
  // ---------------------------------------------------------------------

  /** Where the last line of IPs starts: at 0 for up to ten IPs, else after the full tens. */
  function TailStart(n: nat): (s: nat)
    ensures s <= n
  {
    if n <= 10 then 0 else 10 * (n / 10)
  }

  /** The first `t` full lines of ten IPs. */
  function FullLines(keys: seq<string>, t: nat): (gs: seq<seq<string>>)
    requires 10 * t <= |keys|
    ensures |gs| == t
    ensures forall i :: 0 <= i < t ==> gs[i] == keys[10 * i..10 * i + 10]
  {
    if t == 0 then [] else FullLines(keys, t - 1) + [keys[10 * (t - 1)..10 * t]]
  }

  /** The lines of IPs the wrap loop and the line after it write. */
  function Layout(keys: seq<string>): seq<seq<string>>
  {
    FullLines(keys, |keys| / 10) + [keys[TailStart(|keys|)..]]
  }

  /** One line of the directive: 17 blanks, the IPs separated by blanks, a blank. */
  function IpLine(group: seq<string>): string
  {
    "                 " + Join(group, ' ') + " \n"
  }

  function Lines(groups: seq<seq<string>>): string
  {
    if groups == [] then "" else Lines(groups[..|groups| - 1]) + IpLine(groups[|groups| - 1])
  }

  lemma LinesSnoc(gs: seq<seq<string>>, g: seq<string>)
    ensures Lines(gs + [g]) == Lines(gs) + IpLine(g)
  {
    assert (gs + [g])[..|gs|] == gs;
  }

  const Header: string := "\n\n[DEFAULT]\n\nignoreip_local =\n"

  /** The text `create_f2b_whitelist` leaves in `ignores` for the reduced keys. */
  function Directive(keys: seq<string>): string
  {
    Header + Lines(Layout(keys)) + "# IPs count: " + NatToString(|keys|) + "\n"
  }

  /**
   * The text after the keys are reduced: the header, the lines of IPs,
   * and the count.
   */
  method WriteDirective(keysReduced: seq<string>) returns (ignores: string)
    ensures ignores == Directive(keysReduced)
  {
    ignores := WriteIpLines(Header, keysReduced);
    DirectiveParts(keysReduced);
    ignores := ignores + "# IPs count: " + NatToString(|keysReduced|) + "\n";
  }

  /**
   * The wrap loop over the full tens of `keysReduced` and the line written
   * after it, appended to `text`.
   */
  method WriteIpLines(text: string, keysReduced: seq<string>) returns (ignores: string)
    ensures ignores == (text + Lines(FullLines(keysReduced, |keysReduced| / 10)))
                       + IpLine(keysReduced[TailStart(|keysReduced|)..])
  {
    ignores := text;
    var n := |keysReduced|;
    var nl := 0;
    var t := 0;
    while t < n / 10
      invariant 0 <= t <= n / 10
      invariant t == 0 ==> nl == 0
      invariant t > 0 ==> nl == t - 1
      invariant ignores == text + Lines(FullLines(keysReduced, t))
    {
      nl := t;
      var s := nl * 10;
      var e := s + 10;
      FullLineStep(text, keysReduced, t);
      ignores := ignores + IpLine(keysReduced[s..e]);
      t := t + 1;
    }
    var s;
    if n <= 10 {
      s := 0;
    } else {
      s := (nl + 1) * 10;
    }
    LastLineStart(n, t, nl, s);
    if s <= n {
      ignores := ignores + IpLine(keysReduced[s..]);
    }
  }

  /** One turn of the wrap loop writes the line of keys `10 * t` to `10 * t + 10`. */
  lemma FullLineStep(text: string, keys: seq<string>, t: nat)
    requires t < |keys| / 10
    ensures t * 10 + 10 <= |keys|
    ensures text + Lines(FullLines(keys, t + 1))
         == (text + Lines(FullLines(keys, t))) + IpLine(keys[t * 10..t * 10 + 10])
  {
    assert 10 * (t + 1) <= 10 * (|keys| / 10);
    assert FullLines(keys, t + 1) == FullLines(keys, t) + [keys[t * 10..t * 10 + 10]];
    LinesSnoc(FullLines(keys, t), keys[t * 10..t * 10 + 10]);
    AppendAssoc(text, Lines(FullLines(keys, t)), IpLine(keys[t * 10..t * 10 + 10]));
  }

  /** `Directive` written in the order the method appends its parts. */
  lemma DirectiveParts(keys: seq<string>)
    ensures Directive(keys)
         == (Header + Lines(FullLines(keys, |keys| / 10))) + IpLine(keys[TailStart(|keys|)..])
            + "# IPs count: " + NatToString(|keys|) + "\n"
  {
    var full := Lines(FullLines(keys, |keys| / 10));
    var tail := IpLine(keys[TailStart(|keys|)..]);
    LinesSnoc(FullLines(keys, |keys| / 10), keys[TailStart(|keys|)..]);
    assert Lines(Layout(keys)) == full + tail;
    AppendAssoc(Header, full, tail);
  }

  lemma AppendAssoc(a: string, b: string, c: string)
    ensures a + (b + c) == (a + b) + c
  {
  }

  /** After the wrap loop, `s` is where the layout's last line starts. */
  lemma LastLineStart(n: nat, t: nat, nl: nat, s: nat)
    requires t == n / 10
    requires t == 0 ==> nl == 0
    requires t > 0 ==> nl == t - 1
    requires s == if n <= 10 then 0 else (nl + 1) * 10
    ensures s == TailStart(n) && s <= n
  {
  }

  /**
   * The layout has one line per full ten IPs and one more; the full lines
   * hold consecutive tens and the last line holds the rest, at most ten.
   */
  lemma LayoutShape(keys: seq<string>)
    ensures var gs := Layout(keys);
      && |gs| == |keys| / 10 + 1
      && (forall i :: 0 <= i < |keys| / 10 ==> gs[i] == keys[10 * i..10 * i + 10])
      && gs[|keys| / 10] == keys[TailStart(|keys|)..]
      && (forall i :: 0 <= i < |gs| ==> |gs[i]| <= 10)
  {
  }

  function Concat(gs: seq<seq<string>>): seq<string>
  {
    if gs == [] then [] else Concat(gs[..|gs| - 1]) + gs[|gs| - 1]
  }

  lemma {:induction false} ConcatFullLines(keys: seq<string>, t: nat)
    requires 10 * t <= |keys|
    ensures Concat(FullLines(keys, t)) == keys[..10 * t]
  {
    if t > 0 {
      ConcatFullLines(keys, t - 1);
      var gs := FullLines(keys, t);
      assert gs[..t - 1] == FullLines(keys, t - 1);
      assert keys[..10 * t] == keys[..10 * (t - 1)] + keys[10 * (t - 1)..10 * t];
    }
  }

  /**
   * Read in order, the lines list every selected IP exactly once, except
   * that exactly ten IPs are listed twice: the wrap loop writes them as a
   * full line and the line after the loop starts again at 0.
   */
  lemma {:induction false} LayoutCovers(keys: seq<string>)
    ensures Concat(Layout(keys)) == if |keys| == 10 then keys + keys else keys
  {
    var n := |keys|;
    var t := n / 10;
    var full := FullLines(keys, t);
    var tail := keys[TailStart(n)..];
    ConcatFullLines(keys, t);
    ConcatSnoc(full, tail);
    assert Layout(keys) == full + [tail];
    if n < 10 {
      assert t == 0;
      assert keys[..10 * t] == [];
      assert tail == keys;
    } else if n == 10 {
      assert t == 1;
      assert keys[..10 * t] == keys;
      assert tail == keys;
    } else {
      assert TailStart(n) == 10 * t;
      assert keys[..10 * t] + keys[10 * t..] == keys;
    }
  }

  lemma ConcatSnoc(gs: seq<seq<string>>, g: seq<string>)
    ensures Concat(gs + [g]) == Concat(gs) + g
  {
    assert (gs + [g])[..|gs|] == gs;
  }

  /**
   * The line after the wrap loop is empty exactly when there is nothing to
   * whitelist or the count is a multiple of ten above ten.
   */
  lemma LastLineEmpty(keys: seq<string>)
    ensures Layout(keys)[|keys| / 10] == [] <==> |keys| == 0 || (|keys| > 10 && |keys| % 10 == 0)
  {
    LayoutShape(keys);
  }

  /** Twenty-three IPs are written as lines of ten, ten and three. */
  lemma LayoutOf23(keys: seq<string>)
    requires |keys| == 23
    ensures |Layout(keys)| == 3
    ensures |Layout(keys)[0]| == 10 && |Layout(keys)[1]| == 10 && |Layout(keys)[2]| == 3
  {
    LayoutShape(keys);
  }

  // ---------------------------------------------------------------------
  // The comment report
  // ---------------------------------------------------------------------

  /** One reported IP: its section, the IP and its `(username, count)` list. */
  datatype Entry = Entry(tier: Tier, ip: string, usage: seq<Usage>)

  /** Every key is in the dictionary with a non-empty list. */
  predicate KeysIn(keys: seq<string>, records: map<string, seq<Usage>>)
  {
    forall i :: 0 <= i < |keys| ==> keys[i] in records && records[keys[i]] != []
  }

  /** One section's loop over the sorted keys: the keys whose lists meet the tier's condition. */
  function Section(keys: seq<string>, records: map<string, seq<Usage>>, t: Tier): seq<Entry>
    requires KeysIn(keys, records)
  {
    if keys == [] then []
    else
      var init := keys[..|keys| - 1];
      var last := keys[|keys| - 1];
      assert keys == init + [last];
      var rest := Section(init, records, t);
      if InTier(records[last], t) then rest + [Entry(t, last, records[last])] else rest
  }

  /** An entry reports a dictionary IP of section `t` with its own list. */
  predicate EntryOf(e: Entry, records: map<string, seq<Usage>>, t: Tier)
  {
    e.tier == t && e.ip in records && e.usage == records[e.ip] && e.usage != [] && InTier(e.usage, t)
  }

  /** A section reports only keys of its tier, each with its own list. */
  lemma {:induction false} SectionSound(keys: seq<string>, records: map<string, seq<Usage>>, t: Tier)
    requires KeysIn(keys, records)
    ensures forall i :: 0 <= i < |Section(keys, records, t)| ==>
      EntryOf(Section(keys, records, t)[i], records, t) && Section(keys, records, t)[i].ip in keys
  {
    if keys != [] {
      var init := keys[..|keys| - 1];
      var last := keys[|keys| - 1];
      assert keys == init + [last];
      SectionSound(init, records, t);
    }
  }

  /** A section reports every key of its tier. */
  lemma {:induction false} SectionComplete(keys: seq<string>, records: map<string, seq<Usage>>, t: Tier, x: string)
    requires KeysIn(keys, records) && x in keys && x in records && records[x] != [] && InTier(records[x], t)
    ensures exists i :: 0 <= i < |Section(keys, records, t)| && Section(keys, records, t)[i].ip == x
  {
    var init := keys[..|keys| - 1];
    var last := keys[|keys| - 1];
    assert keys == init + [last];
    var rest := Section(init, records, t);
    var r := Section(keys, records, t);
    if x == last {
      assert r[|r| - 1].ip == x;
    } else {
      assert x in init;
      SectionComplete(init, records, t, x);
      var i :| 0 <= i < |rest| && rest[i].ip == x;
      assert r[i] == rest[i];
    }
  }

  function Rank(t: Tier): nat
  {
    match t
    case Hard => 0
    case Soft => 1
    case Individual => 2
    case NotUsed => 3
  }

  /** Entries come section by section and, within a section, in IP order. */
  predicate Ordered(r: seq<Entry>)
  {
    forall a, b :: 0 <= a < b < |r| ==>
      Rank(r[a].tier) < Rank(r[b].tier) || (r[a].tier == r[b].tier && Less(r[a].ip, r[b].ip))
  }

  lemma {:induction false} SectionOrdered(keys: seq<string>, records: map<string, seq<Usage>>, t: Tier)
    requires KeysIn(keys, records) && Sorted(keys)
    ensures Ordered(Section(keys, records, t))
  {
    if keys != [] {
      var init := keys[..|keys| - 1];
      var last := keys[|keys| - 1];
      assert keys == init + [last];
      SectionOrdered(init, records, t);
      SectionSound(init, records, t);
      var rest := Section(init, records, t);
      if InTier(records[last], t) {
        var r := rest + [Entry(t, last, records[last])];
        forall a, b | 0 <= a < b < |r|
          ensures r[a].tier == r[b].tier && Less(r[a].ip, r[b].ip)
        {
          assert r[a] == rest[a] && rest[a].tier == t;
          if b < |rest| {
            assert r[b] == rest[b] && rest[b].tier == t;
            assert Rank(rest[a].tier) < Rank(rest[b].tier) || (rest[a].tier == rest[b].tier && Less(rest[a].ip, rest[b].ip));
          } else {
            assert rest[a].ip in init;
            var k :| 0 <= k < |init| && init[k] == rest[a].ip;
            assert keys[k] == init[k];
          }
        }
      }
    }
  }

  lemma SectionTiers(keys: seq<string>, records: map<string, seq<Usage>>, t: Tier)
    requires KeysIn(keys, records)
    ensures forall i :: 0 <= i < |Section(keys, records, t)| ==> Rank(Section(keys, records, t)[i].tier) == Rank(t)
  {
    SectionSound(keys, records, t);
  }

  predicate RanksAtMost(r: seq<Entry>, k: nat)
  {
    forall i :: 0 <= i < |r| ==> Rank(r[i].tier) <= k
  }

  lemma OrderedAppend(a: seq<Entry>, b: seq<Entry>, k: nat)
    requires Ordered(a) && Ordered(b) && RanksAtMost(a, k)
    requires forall j :: 0 <= j < |b| ==> Rank(b[j].tier) == k + 1
    ensures Ordered(a + b) && RanksAtMost(a + b, k + 1)
  {
    var r := a + b;
    forall x, y | 0 <= x < y < |r|
      ensures Rank(r[x].tier) < Rank(r[y].tier) || (r[x].tier == r[y].tier && Less(r[x].ip, r[y].ip))
    {
      if y < |a| {
        assert r[x] == a[x] && r[y] == a[y];
      } else if x >= |a| {
        assert r[x] == b[x - |a|] && r[y] == b[y - |a|];
      } else {
        assert r[x] == a[x] && r[y] == b[y - |a|];
      }
    }
  }

  /** The entries `create_f2b_comments` writes: the four sections in order. */
  function Report(records: map<string, seq<Usage>>): seq<Entry>
    requires WellFormed(records)
  {
    var keys := SortedKeys(records.Keys);
    Section(keys, records, Hard) + Section(keys, records, Soft)
      + Section(keys, records, Individual) + Section(keys, records, NotUsed)
  }

  lemma ReportOrdered(records: map<string, seq<Usage>>)
    requires WellFormed(records)
    ensures Ordered(Report(records))
  {
    var keys := SortedKeys(records.Keys);
    var h, s, d, u := Section(keys, records, Hard), Section(keys, records, Soft),
                      Section(keys, records, Individual), Section(keys, records, NotUsed);
    SectionOrdered(keys, records, Hard);
    SectionOrdered(keys, records, Soft);
    SectionOrdered(keys, records, Individual);
    SectionOrdered(keys, records, NotUsed);
    SectionTiers(keys, records, Hard);
    SectionTiers(keys, records, Soft);
    SectionTiers(keys, records, Individual);
    SectionTiers(keys, records, NotUsed);
    assert Rank(Hard) == 0 && Rank(Soft) == 1 && Rank(Individual) == 2 && Rank(NotUsed) == 3;
    assert RanksAtMost(h, 0);
    OrderedAppend(h, s, 0);
    OrderedAppend(h + s, d, 1);
    OrderedAppend(h + s + d, u, 2);
  }

  /** The entry reports a dictionary IP, with its list, in the section of its tier. */
  predicate Reported(e: Entry, records: map<string, seq<Usage>>)
  {
    e.ip in records && records[e.ip] != [] && EntryOf(e, records, TierOf(records[e.ip]))
  }

  /** Each reported entry carries a dictionary IP, its list and its tier. */
  lemma ReportEntries(records: map<string, seq<Usage>>)
    requires WellFormed(records)
    ensures forall i :: 0 <= i < |Report(records)| ==> Reported(Report(records)[i], records)
  {
    var keys := SortedKeys(records.Keys);
    var h, s, d, u := Section(keys, records, Hard), Section(keys, records, Soft),
                      Section(keys, records, Individual), Section(keys, records, NotUsed);
    SectionSound(keys, records, Hard);
    SectionSound(keys, records, Soft);
    SectionSound(keys, records, Individual);
    SectionSound(keys, records, NotUsed);
    var r := Report(records);
    forall i | 0 <= i < |r|
      ensures Reported(r[i], records)
    {
      if i < |h| {
        assert r[i] == h[i];
      } else if i < |h| + |s| {
        assert r[i] == s[i - |h|];
      } else if i < |h| + |s| + |d| {
        assert r[i] == d[i - |h| - |s|];
      } else {
        assert r[i] == u[i - |h| - |s| - |d|];
      }
    }
  }

  /** Each dictionary IP is reported. */
  lemma ReportComplete(records: map<string, seq<Usage>>, x: string)
    requires WellFormed(records) && x in records
    ensures exists i :: 0 <= i < |Report(records)| && Report(records)[i].ip == x
  {
    var keys := SortedKeys(records.Keys);
    var h, s, d, u := Section(keys, records, Hard), Section(keys, records, Soft),
                      Section(keys, records, Individual), Section(keys, records, NotUsed);
    var r := Report(records);
    var t := TierOf(records[x]);
    var sec := Section(keys, records, t);
    assert x in keys;
    SectionComplete(keys, records, t, x);
    var off := match t
      case Hard => 0
      case Soft => |h|
      case Individual => |h| + |s|
      case NotUsed => |h| + |s| + |d|;
    assert x in keys;
    var k :| 0 <= k < |sec| && sec[k].ip == x;
    assert r[off + k] == sec[k];
  }

  /**
   * Every IP of the dictionary is reported exactly once, in the section of
   * its tier and with its own list; nothing else is reported.
   */
  predicate ReportsEachIpOnce(r: seq<Entry>, records: map<string, seq<Usage>>)
  {
    && (forall i :: 0 <= i < |r| ==> Reported(r[i], records))
    && (forall x :: x in records ==> exists i :: 0 <= i < |r| && r[i].ip == x)
    && (forall i, j :: 0 <= i < j < |r| ==> r[i].ip != r[j].ip)
  }

  lemma ReportListsEachIpOnce(records: map<string, seq<Usage>>)
    requires WellFormed(records)
    ensures ReportsEachIpOnce(Report(records), records)
  {
    var r := Report(records);
    ReportEntries(records);
    ReportOrdered(records);
    forall x | x in records
      ensures exists i :: 0 <= i < |r| && r[i].ip == x
    {
      ReportComplete(records, x);
    }
    forall i, j | 0 <= i < j < |r|
      ensures r[i].ip != r[j].ip
    {
      if r[i].ip == r[j].ip {
        LessIrreflexive(r[i].ip);
      }
    }
  }

  // ---------------------------------------------------------------------
  // From the journal to the whitelist
  // ---------------------------------------------------------------------

  /** Two journal rows of this IP name different users. */
  predicate SharedIp(j: seq<Row>, ip: string)
  {
    exists a, b :: 0 <= a < |j| && 0 <= b < |j| && j[a].ip == ip && j[b].ip == ip
      && j[a].username != j[b].username
  }

  lemma {:induction false} CountPairPositive(j: seq<Row>, ip: string, user: string)
    requires CountPair(j, ip, user) > 0
    ensures exists i :: 0 <= i < |j| && j[i].ip == ip && j[i].username == user
  {
    var init := j[..|j| - 1];
    if CountPair(init, ip, user) > 0 {
      CountPairPositive(init, ip, user);
      var i :| 0 <= i < |init| && init[i].ip == ip && init[i].username == user;
      assert j[i] == init[i];
    }
  }

  /**
   * After one pass of `read_db_to_dict` over the journal, an IP is
   * whitelisted exactly when two different users logged in from it, or
   * when it has at least three journal rows.
   */
  lemma WhitelistedIff(j: seq<Row>, ip: string)
    requires ip in Fill(map[], Query(j))
    ensures Fill(map[], Query(j))[ip] != []
    ensures Selected(Fill(map[], Query(j))[ip]) <==> SharedIp(j, ip) || CountIp(j, ip) >= 3
  {
    RecordsKeys(j, ip);
    RecordsEntry(j, ip);
    var us := Project(Query(j), ip);
    assert SummarizesIp(us, j, ip);
    if |us| > 1 {
      assert us[0].username != us[1].username;
      CountPairPositive(j, ip, us[0].username);
      CountPairPositive(j, ip, us[1].username);
      var a :| 0 <= a < |j| && j[a].ip == ip && j[a].username == us[0].username;
      var b :| 0 <= b < |j| && j[b].ip == ip && j[b].username == us[1].username;
      assert SharedIp(j, ip);
    } else {
      assert us == us[..0] + [us[0]];
      assert Total(us) == us[0].count;
      if SharedIp(j, ip) {
        var a, b :| 0 <= a < |j| && 0 <= b < |j| && j[a].ip == ip && j[b].ip == ip
          && j[a].username != j[b].username;
        RecordsListRow(j, a);
        RecordsListRow(j, b);
      }
    }
  }
}
