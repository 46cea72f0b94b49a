/**
 * The handful of `str` operations from Rust's standard library that the
 * program relies on: `trim`, `to_lowercase` (ASCII part), `split_once`,
 * `strip_prefix`, `lines`, `join` and the decimal formatting of an
 * unsigned integer.  `SplitOn` (`str::split` on one character) is not
 * used by the program; it only serves to say what a joined message looks
 * like when split back into its lines.  Strings are sequences of Unicode
 * scalar values.
 */
module Text {

  import opened Wrappers

  /** The Unicode White_Space property, which is what `str::trim` removes. */
  predicate IsWhitespace(c: char) {
    var n := c as int;
    (0x09 <= n <= 0x0D) || n == 0x20 || n == 0x85 || n == 0xA0 || n == 0x1680
    || (0x2000 <= n <= 0x200A) || n == 0x2028 || n == 0x2029 || n == 0x202F
    || n == 0x205F || n == 0x3000
  }

  predicate AllWhitespace(s: string) {
    forall k :: 0 <= k < |s| ==> IsWhitespace(s[k])
  }

  /** No whitespace at either end: what `trim` leaves behind. */
  predicate Trimmed(s: string) {
    s == [] || (!IsWhitespace(s[0]) && !IsWhitespace(s[|s| - 1]))
  }

  /** `str::trim_start`: drops the leading whitespace (see `TrimStartSplits`). */
  function TrimStart(s: string): string {
    if s != [] && IsWhitespace(s[0]) then TrimStart(s[1..]) else s
  }

  /** `str::trim_end`: drops the trailing whitespace (see `TrimEndSplits`). */
  function TrimEnd(s: string): string {
    if s != [] && IsWhitespace(s[|s| - 1]) then TrimEnd(s[..|s| - 1]) else s
  }

  /** `str::trim` (see `TrimSplits` and `TrimPadded`). */
  function Trim(s: string): string {
    TrimEnd(TrimStart(s))
  }

  /** `trim_start` keeps a suffix and removes only whitespace, all of it. */
  lemma {:induction false} TrimStartSplits(s: string)
    ensures var r := TrimStart(s);
            |r| <= |s| && r == s[|s| - |r|..]
            && AllWhitespace(s[..|s| - |r|])
            && (r == [] || !IsWhitespace(r[0]))
  {
    if s != [] && IsWhitespace(s[0]) {
      TrimStartSplits(s[1..]);
      var r := TrimStart(s[1..]);
      assert s[1..][..|s[1..]| - |r|] == s[1..|s| - |r|];
      assert s[..|s| - |r|] == [s[0]] + s[1..|s| - |r|];
    } else {
      assert s[..0] == [];
    }
  }

  /** `trim_end` keeps a prefix and removes only whitespace, all of it. */
  lemma {:induction false} TrimEndSplits(s: string)
    ensures var r := TrimEnd(s);
            |r| <= |s| && r == s[..|r|]
            && AllWhitespace(s[|r|..])
            && (r == [] || !IsWhitespace(r[|r| - 1]))
  {
    if s != [] && IsWhitespace(s[|s| - 1]) {
      var t := s[..|s| - 1];
      TrimEndSplits(t);
      var r := TrimEnd(t);
      assert t[|r|..] + [s[|s| - 1]] == s[|r|..];
    } else {
      assert s[|s|..] == [];
    }
  }

  /**
   * `trim` keeps a slice `s[a..b]` with no whitespace at either end and
   * removes only whitespace around it.
   */
  lemma TrimSplits(s: string)
    ensures var r := Trim(s);
            var a := |s| - |TrimStart(s)|;
            |TrimStart(s)| <= |s| && Trimmed(r) && a + |r| <= |s| && r == s[a..a + |r|]
            && AllWhitespace(s[..a]) && AllWhitespace(s[a + |r|..])
  {
    var u := TrimStart(s);
    var r := TrimEnd(u);
    TrimStartSplits(s);
    TrimEndSplits(u);
    var a := |s| - |u|;
    assert u[|r|..] == s[a + |r|..];
    if r != [] {
      assert r[0] == u[0];
    }
  }

  /** Leading whitespace is exactly what `trim_start` removes. */
  lemma {:induction false} TrimStartPadded(w: string, y: string)
    requires AllWhitespace(w)
    requires y == [] || !IsWhitespace(y[0])
    ensures TrimStart(w + y) == y
  {
    if w == [] {
      assert w + y == y;
    } else {
      assert (w + y)[0] == w[0];
      assert (w + y)[1..] == w[1..] + y;
      TrimStartPadded(w[1..], y);
    }
  }

  /** Trailing whitespace is exactly what `trim_end` removes. */
  lemma {:induction false} TrimEndPadded(y: string, w: string)
    requires AllWhitespace(w)
    requires y == [] || !IsWhitespace(y[|y| - 1])
    ensures TrimEnd(y + w) == y
  {
    if w == [] {
      assert y + w == y;
    } else {
      var n := |w| - 1;
      assert (y + w)[|y + w| - 1] == w[n];
      assert (y + w)[..|y + w| - 1] == y + w[..n];
      TrimEndPadded(y, w[..n]);
    }
  }

  /**
   * `trim` undoes any whitespace padding around a trimmed string, and only
   * that: together with `Trim`'s own contract this pins `Trim` down.
   */
  lemma {:induction false} TrimPadded(lead: string, x: string, trail: string)
    requires AllWhitespace(lead) && AllWhitespace(trail) && Trimmed(x)
    ensures Trim(lead + x + trail) == x
  {
    if x == [] {
      assert lead + x + trail == lead + trail;
      TrimStartPadded(lead + trail, []);
      assert lead + trail + [] == lead + trail;
    } else {
      assert lead + x + trail == lead + (x + trail);
      TrimStartPadded(lead, x + trail);
      TrimEndPadded(x, trail);
    }
  }

  /** The ASCII part of `char::to_lowercase`. */
  function LowerChar(c: char): char {
    if 'A' <= c <= 'Z' then (c as int + 32) as char else c
  }

  /** `str::to_lowercase`, restricted to ASCII letters. */
  function Lower(s: string): string {
    if s == [] then [] else [LowerChar(s[0])] + Lower(s[1..])
  }

  /** `to_lowercase` maps each character on its own and keeps the length. */
  lemma {:induction false} LowerEach(s: string)
    ensures |Lower(s)| == |s|
    ensures forall k :: 0 <= k < |s| ==> Lower(s)[k] == LowerChar(s[k])
  {
    if s != [] {
      LowerEach(s[1..]);
    }
  }

  /** Index of the first occurrence of `c` in `s`, or `|s|` when there is none. */
  function Find(s: string, c: char): (i: nat)
    ensures i <= |s|
    ensures c !in s[..i]
    ensures i < |s| ==> s[i] == c
  {
    if s == [] || s[0] == c then 0
    else
      var j := Find(s[1..], c);
      assert s[..j + 1] == [s[0]] + s[1..][..j];
      j + 1
  }

  /** `Find` stops at the first occurrence. */
  lemma {:induction false} FindAt(s: string, c: char, j: nat)
    requires j < |s| && s[j] == c && c !in s[..j]
    ensures Find(s, c) == j
  {
    if j > 0 {
      assert s[0] == s[..j][0];
      assert s[1..][..j - 1] == s[..j][1..];
      FindAt(s[1..], c, j - 1);
    }
  }

  /** `str::split_once`: the text before and after the first `c`. */
  function SplitOnce(s: string, c: char): (r: Option<(string, string)>)
    ensures r.None? <==> c !in s
    ensures r.Some? ==> r.value.0 + [c] + r.value.1 == s && c !in r.value.0
  {
    var i := Find(s, c);
    if i == |s| then
      assert s[..i] == s;
      None
    else
      assert s == s[..i] + [c] + s[i + 1..];
      Some((s[..i], s[i + 1..]))
  }

  /** `str::strip_prefix`. */
  function StripPrefix(s: string, p: string): (r: Option<string>)
    ensures r.Some? <==> p <= s
    ensures r.Some? ==> p + r.value == s
  {
    if p <= s then Some(s[|p|..]) else None
  }

  predicate EndsWithCr(l: string) {
    |l| > 0 && l[|l| - 1] == '\r'
  }

  /** Drops the `\r` of a `\r\n` line ending. */
  function StripCr(l: string): (r: string)
    ensures r <= l
  {
    if EndsWithCr(l) then l[..|l| - 1] else l
  }

  /**
   * `str::lines`: split at every `\n`, dropping a `\r` just before it; a
   * final line ending is optional and produces no empty last line, and a
   * `\r` at the very end (not followed by `\n`) is kept.
   */
  function Lines(s: string): (ls: seq<string>)
    ensures s != [] ==> ls != []
    ensures forall l :: l in ls ==> '\n' !in l
    decreases |s|
  {
    if s == [] then []
    else
      var i := Find(s, '\n');
      if i == |s| then
        assert s[..i] == s;
        [s]
      else
        var head := StripCr(s[..i]);
        assert forall k :: 0 <= k < |head| ==> head[k] == s[..i][k];
        [head] + Lines(s[i + 1..])
  }

  /** What a tool writes when it ends every line with `\n`. */
  function Terminated(ls: seq<string>): string {
    if ls == [] then [] else ls[0] + "\n" + Terminated(ls[1..])
  }

  /** Reading back `\n`-terminated lines gives the lines written. */
  lemma {:induction false} LinesOfTerminated(ls: seq<string>)
    requires forall l :: l in ls ==> '\n' !in l && !EndsWithCr(l)
    ensures Lines(Terminated(ls)) == ls
  {
    if ls != [] {
      var s := Terminated(ls);
      var l := ls[0];
      assert s == l + "\n" + Terminated(ls[1..]);
      assert s[|l|] == '\n' && s[..|l|] == l;
      FindAt(s, '\n', |l|);
      var i := |l|;
      assert s[i + 1..] == Terminated(ls[1..]);
      LinesOfTerminated(ls[1..]);
    }
  }

  /** `[String]::join`. */
  function Join(ls: seq<string>, sep: string): string {
    if |ls| == 0 then ""
    else if |ls| == 1 then ls[0]
    else ls[0] + sep + Join(ls[1..], sep)
  }

  /**
   * `str::split` on one character: always at least one piece.  Used to
   * state contracts about joined text, not by the program.
   */
  function SplitOn(s: string, c: char): (r: seq<string>)
    ensures |r| >= 1
    decreases |s|
  {
    var i := Find(s, c);
    if i == |s| then [s] else [s[..i]] + SplitOn(s[i + 1..], c)
  }

  /** Splitting at `c` undoes joining with `c`, when no piece holds a `c`. */
  lemma {:induction false} SplitOnJoin(ls: seq<string>, c: char)
    requires |ls| >= 1
    requires forall l :: l in ls ==> c !in l
    ensures SplitOn(Join(ls, [c]), c) == ls
  {
    var s := Join(ls, [c]);
    var l := ls[0];
    assert l in ls;
    if |ls| == 1 {
      assert s == l;
      assert Find(s, c) == |s|;
    } else {
      assert s == l + [c] + Join(ls[1..], [c]);
      assert s[|l|] == c && s[..|l|] == l;
      FindAt(s, c, |l|);
      var i := |l|;
      var rest := Join(ls[1..], [c]);
      assert s[i + 1..] == rest;
      assert forall m :: m in ls[1..] ==> m in ls;
      SplitOnJoin(ls[1..], c);
      assert SplitOn(s, c) == [l] + SplitOn(rest, c);
      assert [l] + ls[1..] == ls;
    }
  }

  /** One step of `Lines`: the first line, then the lines of the rest. */
  lemma LinesCons(s: string)
    requires Find(s, '\n') < |s|
    ensures Lines(s) == [StripCr(s[..Find(s, '\n')])] + Lines(s[Find(s, '\n') + 1..])
  {
  }

  lemma JoinCons(head: string, tail: seq<string>, sep: string)
    requires tail != []
    ensures Join([head] + tail, sep) == head + sep + Join(tail, sep)
  {
    assert ([head] + tail)[1..] == tail;
  }

  /** The final `\n` of a text, if it has one. */
  function Ending(s: string): string {
    if s != [] && s[|s| - 1] == '\n' then "\n" else ""
  }

  /**
   * Joining the lines of a text that holds no `\r` with `\n` gives the text
   * back, up to its final line ending.
   */
  lemma {:induction false} JoinLines(s: string)
    requires '\r' !in s
    ensures Join(Lines(s), "\n") + Ending(s) == s
    decreases |s|
  {
    if s != [] {
      var i := Find(s, '\n');
      if i == |s| {
        JoinLinesLast(s);
      } else {
        var rest := s[i + 1..];
        assert '\r' !in rest by {
          assert forall k :: 0 <= k < |rest| ==> rest[k] == s[i + 1 + k];
        }
        JoinLines(rest);
        assert !EndsWithCr(s[..i]) by {
          assert i > 0 ==> s[..i][i - 1] == s[i - 1];
        }
        JoinLinesStep(s, i);
      }
    }
  }

  lemma SplitAround(s: string, i: nat)
    requires i < |s|
    ensures s == s[..i] + [s[i]] + s[i + 1..]
  {
  }

  lemma JoinLinesLast(s: string)
    requires s != [] && Find(s, '\n') == |s|
    ensures Join(Lines(s), "\n") + Ending(s) == s
  {
    assert s[..|s|] == s;
    assert s[|s| - 1] in s[..|s|];
  }

  lemma JoinLinesStep(s: string, i: nat)
    requires i == Find(s, '\n') && i < |s| && !EndsWithCr(s[..i])
    requires Join(Lines(s[i + 1..]), "\n") + Ending(s[i + 1..]) == s[i + 1..]
    ensures Join(Lines(s), "\n") + Ending(s) == s
  {
    var head := s[..i];
    var rest := s[i + 1..];
    LinesCons(s);
    assert StripCr(head) == head;
    SplitAround(s, i);
    var tail := Lines(rest);
    if rest == [] {
      JoinLinesEnd(s, head, tail);
    } else {
      JoinLinesGlue(s, head, rest, tail);
    }
  }

  lemma JoinLinesGlue(s: string, head: string, rest: string, tail: seq<string>)
    requires s == head + "\n" + rest && rest != [] && tail != []
    requires Join(tail, "\n") + Ending(rest) == rest
    ensures Join([head] + tail, "\n") + Ending(s) == s
  {
    JoinCons(head, tail, "\n");
    assert Ending(s) == Ending(rest) by {
      assert s[|s| - 1] == rest[|rest| - 1];
    }
  }

  lemma JoinLinesEnd(s: string, head: string, tail: seq<string>)
    requires s == head + "\n" && tail == Lines([])
    ensures Join([head] + tail, "\n") + Ending(s) == s
  {
    assert [head] + tail == [head];
  }

  /** One decimal digit. */
  function Digit(d: nat): char
    requires d < 10
  {
    ('0' as int + d) as char
  }

  predicate IsDigit(c: char) {
    '0' <= c <= '9'
  }

  /** Rust's `{}` formatting of an unsigned integer. */
  function Decimal(n: nat): (r: string)
    ensures |r| >= 1
    ensures forall k :: 0 <= k < |r| ==> IsDigit(r[k])
    ensures r[0] == '0' ==> n == 0 && r == "0"
  {
    if n < 10 then [Digit(n)] else Decimal(n / 10) + [Digit(n % 10)]
  }

  function DigitValue(c: char): nat
    requires IsDigit(c)
  {
    c as int - '0' as int
  }

  /** The number a string of decimal digits denotes. */
  function DigitsValue(s: string): nat
    requires forall k :: 0 <= k < |s| ==> IsDigit(s[k])
  {
    if s == [] then 0
    else
      var last := s[|s| - 1];
      assert IsDigit(last);
      DigitsValue(s[..|s| - 1]) * 10 + DigitValue(last)
  }

  /** The formatted number reads back as the number. */
  lemma {:induction false} DecimalRoundTrip(n: nat)
    ensures DigitsValue(Decimal(n)) == n
  {
    if n >= 10 {
      DecimalRoundTrip(n / 10);
      var r := Decimal(n);
      assert r[..|r| - 1] == Decimal(n / 10);
    }
  }

  /**
   * A run of digits followed by a non-digit is determined by the text: two
   * such runs that start the same text are the same.
   */
  lemma DigitRun(x: string, y: string, x2: string, y2: string)
    requires forall k :: 0 <= k < |x| ==> IsDigit(x[k])
    requires forall k :: 0 <= k < |x2| ==> IsDigit(x2[k])
    requires y != [] && !IsDigit(y[0]) && y2 != [] && !IsDigit(y2[0])
    requires x + y == x2 + y2
    ensures x == x2 && y == y2
  {
    // at the shorter run's end, each side shows a digit exactly when its run goes on
    var n := if |x| < |x2| then |x| else |x2|;
    assert IsDigit((x + y)[n]) <==> n < |x|;
    assert IsDigit((x2 + y2)[n]) <==> n < |x2|;
    assert x == (x + y)[..|x|];
    assert y == (x + y)[|x|..];
  }

  /** A text trims to nothing exactly when it is all whitespace. */
  lemma TrimEmpty(s: string)
    ensures Trim(s) == [] <==> AllWhitespace(s)
  {
    TrimSplits(s);
    var a := |s| - |TrimStart(s)|;
    var r := Trim(s);
    if r == [] {
      forall k | 0 <= k < |s| ensures IsWhitespace(s[k]) {
        if k < a {
          assert s[k] == s[..a][k];
        } else {
          assert s[k] == s[a..][k - a];
        }
      }
    } else {
      assert r[0] == s[a] && !IsWhitespace(s[a]);
    }
  }
}
