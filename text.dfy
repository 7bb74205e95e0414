/**
 * String helpers with the semantics of the Python built-ins the whitelist
 * script relies on: `str.find`, `str.index`, `str.startswith`, `str.count`,
 * `str.split(sep)`, `str.split()`, `sep.join(...)` and `str(int)`.
 */
module Text {

  /** Python's `str.isspace` on a single character. */
  predicate IsSpace(c: char)
  {
    c == ' ' || ('\t' <= c <= '\r') || ('\U{1C}' <= c <= '\U{1F}')
    || c == '\U{85}' || c == '\U{A0}' || c == '\U{1680}'
    || ('\U{2000}' <= c <= '\U{200A}') || c == '\U{2028}' || c == '\U{2029}'
    || c == '\U{202F}' || c == '\U{205F}' || c == '\U{3000}'
  }

  predicate IsDigit(c: char)
  {
    '0' <= c <= '9'
  }

  predicate AllDigits(s: string)
  {
    forall i :: 0 <= i < |s| ==> IsDigit(s[i])
  }

  function DigitValue(c: char): nat
    requires IsDigit(c)
  {
    c as nat - '0' as nat
  }

  function DigitChar(d: nat): (c: char)
    requires d < 10
    ensures IsDigit(c) && DigitValue(c) == d
  {
    ('0' as nat + d) as char
  }

  /** The number a string of decimal digits denotes (most significant first). */
  function DecimalValue(s: string): nat
    requires AllDigits(s)
  {
    if s == [] then 0 else 10 * DecimalValue(s[..|s| - 1]) + DigitValue(s[|s| - 1])
  }

  function Pow10(w: nat): (p: nat)
    ensures p >= 1
  {
    if w == 0 then 1 else 10 * Pow10(w - 1)
  }

  /** `pat` occurs in `s` starting at index `i`. */
  predicate IsAt(s: string, pat: string, i: nat)
  {
    i + |pat| <= |s| && s[i..i + |pat|] == pat
  }

  /** Python's `str.startswith`. */
  predicate StartsWith(s: string, prefix: string)
  {
    prefix <= s
  }

  /** Python's `s.find(pat)`: the lowest index where `pat` occurs, or -1. */
  function Find(s: string, pat: string): (r: int)
    ensures -1 <= r <= |s|
    ensures r >= 0 ==> IsAt(s, pat, r) && forall j :: 0 <= j < r ==> !IsAt(s, pat, j)
    ensures r == -1 <==> forall j :: 0 <= j <= |s| ==> !IsAt(s, pat, j)
  {
    FindFrom(s, pat, 0)
  }

  function FindFrom(s: string, pat: string, i: nat): (r: int)
    requires i <= |s|
    ensures r == -1 || i <= r <= |s|
    ensures r >= 0 ==> IsAt(s, pat, r) && forall j :: i <= j < r ==> !IsAt(s, pat, j)
    ensures r == -1 <==> forall j :: i <= j <= |s| ==> !IsAt(s, pat, j)
    decreases |s| - i
  {
    if IsAt(s, pat, i) then i
    else if i == |s| then -1
    else FindFrom(s, pat, i + 1)
  }

  /** Python's `s.count(c)` for a one-character argument. */
  function Count(s: string, c: char): nat
  {
    if s == [] then 0 else (if s[0] == c then 1 else 0) + Count(s[1..], c)
  }

  lemma {:induction false} CountAppend(a: string, b: string, c: char)
    ensures Count(a + b, c) == Count(a, c) + Count(b, c)
  {
    if a == [] {
      assert a + b == b;
    } else {
      assert (a + b)[0] == a[0];
      assert (a + b)[1..] == a[1..] + b;
      CountAppend(a[1..], b, c);
    }
  }

  /** Counting a character in a longer prefix never gives less. */
  lemma {:induction false} CountPrefixMonotone(s: string, i: nat, j: nat, c: char)
    requires i <= j <= |s|
    ensures Count(s[..i], c) <= Count(s[..j], c)
  {
    assert s[..j] == s[..i] + s[i..j];
    CountAppend(s[..i], s[i..j], c);
  }

  /** Python's `s.split(c)`: the pieces between occurrences of `c`. */
  function Split(s: string, c: char): (parts: seq<string>)
    ensures |parts| == Count(s, c) + 1
    ensures forall k :: 0 <= k < |parts| ==> c !in parts[k]
  {
    if s == [] then [""]
    else if s[0] == c then [""] + Split(s[1..], c)
    else
      var t := Split(s[1..], c);
      [[s[0]] + t[0]] + t[1..]
  }

  /** Python's `c.join(parts)` for a one-character separator. */
  function Join(parts: seq<string>, c: char): string
  {
    if parts == [] then ""
    else if |parts| == 1 then parts[0]
    else parts[0] + [c] + Join(parts[1..], c)
  }

  lemma JoinConsHead(x: char, p: string, rest: seq<string>, c: char)
    ensures Join([[x] + p] + rest, c) == [x] + Join([p] + rest, c)
  {
    assert ([[x] + p] + rest)[1..] == rest;
    assert ([p] + rest)[1..] == rest;
  }

  /**
   * Joining the first `n` pieces of `s.split(c)` gives the prefix of `s`
   * that ends just before the `n`-th occurrence of `c`.
   */
  lemma {:induction false} JoinFirstPieces(s: string, c: char, n: nat)
    requires 1 <= n <= Count(s, c)
    ensures var k := |Join(Split(s, c)[..n], c)|;
      k < |s| && s[..k] == Join(Split(s, c)[..n], c) && s[k] == c && Count(s[..k], c) == n - 1
    decreases |s|, 1
  {
    if s[0] == c {
      JoinPiecesAfterSeparator(s, c, n);
    } else {
      JoinPiecesAfterChar(s, c, n);
    }
  }

  /** `JoinFirstPieces` when `s` starts with the separator. */
  lemma {:induction false} JoinPiecesAfterSeparator(s: string, c: char, n: nat)
    requires 1 <= n <= Count(s, c) && s != [] && s[0] == c
    ensures var k := |Join(Split(s, c)[..n], c)|;
      k < |s| && s[..k] == Join(Split(s, c)[..n], c) && s[k] == c && Count(s[..k], c) == n - 1
    decreases |s|, 0
  {
    var t := Split(s[1..], c);
    assert Split(s, c)[..n] == [""] + t[..n - 1];
    if n == 1 {
      assert Join(Split(s, c)[..n], c) == "";
    } else {
      JoinFirstPieces(s[1..], c, n - 1);
      var j := Join(t[..n - 1], c);
      assert Join(Split(s, c)[..n], c) == "" + [c] + j by {
        assert ([""] + t[..n - 1])[1..] == t[..n - 1];
      }
      assert s[..|j| + 1] == [c] + s[1..][..|j|];
      assert s[..|j| + 1][1..] == s[1..][..|j|];
    }
  }

  /** `JoinFirstPieces` when `s` starts with another character. */
  lemma {:induction false} JoinPiecesAfterChar(s: string, c: char, n: nat)
    requires 1 <= n <= Count(s, c) && s != [] && s[0] != c
    ensures var k := |Join(Split(s, c)[..n], c)|;
      k < |s| && s[..k] == Join(Split(s, c)[..n], c) && s[k] == c && Count(s[..k], c) == n - 1
    decreases |s|, 0
  {
    var t := Split(s[1..], c);
    assert Count(s[1..], c) == Count(s, c);
    JoinFirstPieces(s[1..], c, n);
    var j := Join(t[..n], c);
    assert Split(s, c)[..n] == [[s[0]] + t[0]] + t[1..n];
    JoinConsHead(s[0], t[0], t[1..n], c);
    assert [t[0]] + t[1..n] == t[..n];
    assert s[..|j| + 1] == [s[0]] + s[1..][..|j|];
    assert s[..|j| + 1][1..] == s[1..][..|j|];
  }

  /** Joining the pieces of `s.split(c)` with `c` gives `s` back. */
  lemma {:induction false} SplitJoin(s: string, c: char)
    ensures Join(Split(s, c), c) == s
  {
    if s != [] {
      var t := Split(s[1..], c);
      SplitJoin(s[1..], c);
      if s[0] == c {
        assert Split(s, c)[1..] == t;
        assert Join(Split(s, c), c) == "" + [c] + Join(t, c);
      } else {
        JoinConsHead(s[0], t[0], t[1..], c);
        assert [t[0]] + t[1..] == t;
      }
    }
  }

  /** Python's `s.split()` with no argument: maximal runs of non-whitespace. */
  function Words(s: string): (ws: seq<string>)
    ensures forall k :: 0 <= k < |ws| ==> ws[k] != [] && NoSpace(ws[k])
    ensures Flatten(ws) == NonSpace(s)
    decreases |s|
  {
    if s == [] then []
    else if IsSpace(s[0]) then
      assert NonSpace(s) == NonSpace(s[1..]);
      Words(s[1..])
    else
      var n := RunLength(s);
      NonSpaceAppend(s[..n], s[n..]);
      assert s[..n] + s[n..] == s;
      NonSpaceOfNoSpace(s[..n]);
      [s[..n]] + Words(s[n..])
  }

  /** A non-empty word without blanks is one token of `split()`. */
  lemma WordsOfWord(w: string)
    requires w != [] && NoSpace(w)
    ensures Words(w) == [w]
  {
    RunLengthOfWord(w);
    assert w[..|w|] == w;
    assert w[|w|..] == [];
  }

  lemma {:induction false} RunLengthOfWord(w: string)
    requires NoSpace(w)
    ensures RunLength(w) == |w|
  {
    if w != [] {
      RunLengthOfWord(w[1..]);
    }
  }

  /** A blank cuts the line: the tokens before it, then the tokens after it. */
  lemma {:induction false} WordsAtSpace(a: string, x: char, b: string)
    requires IsSpace(x)
    ensures Words(a + [x] + b) == Words(a) + Words(b)
    decreases |a|
  {
    var s := a + [x] + b;
    if a == [] {
      assert s == [x] + b && s[1..] == b;
    } else if IsSpace(a[0]) {
      assert s[0] == a[0] && s[1..] == a[1..] + [x] + b;
      WordsAtSpace(a[1..], x, b);
    } else {
      var m := RunLength(a);
      RunLengthBeforeSpace(a, x, b);
      assert s[0] == a[0];
      assert s[..m] == a[..m];
      assert s[m..] == a[m..] + [x] + b;
      WordsAtSpace(a[m..], x, b);
      assert Words(a) == [a[..m]] + Words(a[m..]);
    }
  }

  /** The first run of `a` ends before a following blank. */
  lemma {:induction false} RunLengthBeforeSpace(a: string, x: char, b: string)
    requires IsSpace(x)
    ensures RunLength(a + [x] + b) == RunLength(a)
  {
    var s := a + [x] + b;
    if a == [] {
      assert s[0] == x;
    } else {
      assert s[0] == a[0] && s[1..] == a[1..] + [x] + b;
      if !IsSpace(a[0]) {
        RunLengthBeforeSpace(a[1..], x, b);
      }
    }
  }

  predicate NoSpace(w: string)
  {
    forall i :: 0 <= i < |w| ==> !IsSpace(w[i])
  }

  /** The characters of `s` that are not whitespace, in order. */
  function NonSpace(s: string): string
  {
    if s == [] then [] else (if IsSpace(s[0]) then [] else [s[0]]) + NonSpace(s[1..])
  }

  function Flatten(ws: seq<string>): string
  {
    if ws == [] then [] else ws[0] + Flatten(ws[1..])
  }

  /** The length of the longest whitespace-free prefix of `s`. */
  function RunLength(s: string): (n: nat)
    ensures n <= |s|
    ensures forall i :: 0 <= i < n ==> !IsSpace(s[i])
    ensures n < |s| ==> IsSpace(s[n])
  {
    if s == [] || IsSpace(s[0]) then 0 else 1 + RunLength(s[1..])
  }

  lemma {:induction false} NonSpaceAppend(a: string, b: string)
    ensures NonSpace(a + b) == NonSpace(a) + NonSpace(b)
  {
    if a == [] {
      assert a + b == b;
    } else {
      var h := if IsSpace(a[0]) then [] else [a[0]];
      assert (a + b)[0] == a[0];
      assert (a + b)[1..] == a[1..] + b;
      assert NonSpace(a + b) == h + NonSpace(a[1..] + b);
      NonSpaceAppend(a[1..], b);
      assert NonSpace(a) == h + NonSpace(a[1..]);
      assert h + (NonSpace(a[1..]) + NonSpace(b)) == (h + NonSpace(a[1..])) + NonSpace(b);
    }
  }

  lemma {:induction false} NonSpaceOfNoSpace(w: string)
    requires NoSpace(w)
    ensures NonSpace(w) == w
  {
    if w != [] {
      NonSpaceOfNoSpace(w[1..]);
    }
  }

  /** Python's `str(n)` for a natural number. */
  function NatToString(n: nat): (r: string)
    ensures |r| >= 1 && AllDigits(r)
    ensures r[0] == '0' ==> n == 0
    ensures DecimalValue(r) == n
  {
    if n < 10 then [DigitChar(n)]
    else
      var r := NatToString(n / 10) + [DigitChar(n % 10)];
      assert r[..|r| - 1] == NatToString(n / 10);
      r
  }

  /** `n` written with exactly `w` decimal digits, zero-padded (`%02d`, `%04d`). */
  function Pad(n: nat, w: nat): (r: string)
    requires n < Pow10(w)
    ensures |r| == w && AllDigits(r)
    ensures DecimalValue(r) == n
  {
    if w == 0 then []
    else
      var r := Pad(n / 10, w - 1) + [DigitChar(n % 10)];
      assert r[..|r| - 1] == Pad(n / 10, w - 1);
      r
  }
}
