/** String operations the engine relies on: Python's `str.lower()`, the
    substring test `sub in s`, `s.split('\n')`, `'\n'.join(xs)` and `str(i)`
    for a non-negative integer. */
module Text {

  /** `c.lower()` on the ASCII range; every other character is its own
      lower-case form in this model. */
  function LowerChar(c: char): (d: char)
    ensures !('A' <= d <= 'Z')
    ensures !('A' <= c <= 'Z') ==> d == c
    ensures 'A' <= c <= 'Z' ==> d as int == c as int + 32
  {
    if 'A' <= c <= 'Z' then (c as int + 32) as char else c
  }

  /** `s.lower()`: the same length, each character lowered in place. */
  function Lower(s: string): (r: string)
    ensures |r| == |s|
    ensures forall i :: 0 <= i < |s| ==> r[i] == LowerChar(s[i])
  {
    seq(|s|, i requires 0 <= i < |s| => LowerChar(s[i]))
  }

  /** `sub` occurs in `s` starting at index `i`. */
  predicate OccursAt(s: string, sub: string, i: int)
  {
    0 <= i && i + |sub| <= |s| && s[i..i + |sub|] == sub
  }

  /** Python's `sub in s`. */
  predicate Contains(s: string, sub: string)
  {
    exists i | 0 <= i <= |s| - |sub| :: OccursAt(s, sub, i)
  }

  /** A lower-cased string has no upper-case ASCII letter, so no word that
      starts with one can occur in it. */
  lemma LowerHasNoCapital(s: string, word: string)
    requires |word| > 0 && 'A' <= word[0] <= 'Z'
    ensures !Contains(Lower(s), word)
  {
  }

  /** Lowering keeps every occurrence: if `sub` occurs in `s`, then
      `sub.lower()` occurs in `s.lower()` at the same index. */
  lemma LowerKeepsOccurrence(s: string, sub: string, i: int)
    requires OccursAt(s, sub, i)
    ensures OccursAt(Lower(s), Lower(sub), i)
  {
    var l := Lower(s)[i..i + |sub|];
    forall k | 0 <= k < |sub|
      ensures l[k] == Lower(sub)[k]
    {
      assert s[i..i + |sub|][k] == sub[k];
    }
  }

  /** Number of occurrences of the character `c` in `s`. */
  function CountChar(s: string, c: char): nat
  {
    if s == [] then 0 else (if s[0] == c then 1 else 0) + CountChar(s[1..], c)
  }

  /** Python's `s.split('\n')`: the pieces between newlines, blank pieces
      kept; the empty string gives `[""]`. */
  function SplitLines(s: string): (r: seq<string>)
    ensures |r| >= 1
    decreases |s|
  {
    if s == [] then [""]
    else
      var rest := SplitLines(s[1..]);
      if s[0] == '\n' then [""] + rest
      else [[s[0]] + rest[0]] + rest[1..]
  }

  /** Python's `'\n'.join(xs)`. */
  function JoinLines(xs: seq<string>): string
  {
    if xs == [] then ""
    else if |xs| == 1 then xs[0]
    else xs[0] + "\n" + JoinLines(xs[1..])
  }

  /** No piece of a split contains a newline. */
  predicate NoNewlines(xs: seq<string>)
  {
    forall k :: 0 <= k < |xs| ==> '\n' !in xs[k]
  }

  /** Joining the pieces of a split with newlines gives back the text. */
  lemma {:induction false} JoinSplitLines(s: string)
    ensures JoinLines(SplitLines(s)) == s
    decreases |s|
  {
    if s != [] {
      var rest := SplitLines(s[1..]);
      JoinSplitLines(s[1..]);
      if s[0] == '\n' {
        JoinAfterBlank(rest);
      } else {
        JoinExtendFirst(s[0], rest);
      }
      assert s == [s[0]] + s[1..];
    }
  }

  /** A blank first piece adds a newline in front of the join. */
  lemma {:induction false} JoinAfterBlank(xs: seq<string>)
    requires |xs| >= 1
    ensures JoinLines([""] + xs) == "\n" + JoinLines(xs)
  {
    assert ([""] + xs)[1..] == xs;
  }

  /** Extending the first piece by a character extends the join by it. */
  lemma {:induction false} JoinExtendFirst(c: char, xs: seq<string>)
    requires |xs| >= 1
    ensures JoinLines([[c] + xs[0]] + xs[1..]) == [c] + JoinLines(xs)
  {
    var ys := [[c] + xs[0]] + xs[1..];
    if |xs| == 1 {
      assert ys == [[c] + xs[0]];
    } else {
      assert ys[1..] == xs[1..];
      var tail := "\n" + JoinLines(xs[1..]);
      calc {
        JoinLines(ys);
        ys[0] + tail;
        ([c] + xs[0]) + tail;
        [c] + (xs[0] + tail);
        [c] + JoinLines(xs);
      }
    }
  }

  /** A split has one piece more than the text has newlines, and no piece
      contains a newline. */
  lemma {:induction false} SplitLinesShape(s: string)
    ensures |SplitLines(s)| == CountChar(s, '\n') + 1
    ensures NoNewlines(SplitLines(s))
    decreases |s|
  {
    if s != [] {
      SplitLinesShape(s[1..]);
      var rest := SplitLines(s[1..]);
      var r := SplitLines(s);
      if s[0] != '\n' {
        assert r[0] == [s[0]] + rest[0];
        forall k | 1 <= k < |r|
          ensures '\n' !in r[k]
        {
          assert r[k] == rest[k];
        }
      } else {
        forall k | 1 <= k < |r|
          ensures '\n' !in r[k]
        {
          assert r[k] == rest[k - 1];
        }
      }
    }
  }

  /** Splitting text that starts with a newline-free prefix `a`: `a` is
      glued to the front of the first piece. */
  lemma {:induction false} SplitLinesPrefix(a: string, s: string)
    requires '\n' !in a
    ensures SplitLines(a + s) == [a + SplitLines(s)[0]] + SplitLines(s)[1..]
    decreases |a|
  {
    if a != [] {
      assert (a + s)[1..] == a[1..] + s;
      assert a[0] != '\n';
      SplitLinesPrefix(a[1..], s);
      assert [a[0]] + (a[1..] + SplitLines(s)[0]) == a + SplitLines(s)[0];
    } else {
      assert a + s == s;
      var r := SplitLines(s);
      assert r == [r[0]] + r[1..];
      assert a + r[0] == r[0];
    }
  }

  /** Splitting undoes joining, for a non-empty list of newline-free
      pieces. */
  lemma {:induction false} SplitJoinLines(xs: seq<string>)
    requires |xs| >= 1 && NoNewlines(xs)
    ensures SplitLines(JoinLines(xs)) == xs
    decreases |xs|
  {
    if |xs| == 1 {
      SplitLinesPrefix(xs[0], "");
      assert SplitLines("") == [""];
      assert xs[0] + "" == xs[0];
    } else {
      var tail := xs[1..];
      assert NoNewlines(tail) by {
        forall k | 0 <= k < |tail| ensures '\n' !in tail[k] { assert tail[k] == xs[k + 1]; }
      }
      SplitJoinLines(tail);
      var t := "\n" + JoinLines(tail);
      assert xs[0] != "" ==> xs[0][0] != '\n' by { assert '\n' !in xs[0]; }
      assert xs[0] + "\n" + JoinLines(tail) == xs[0] + t;
      SplitLinesPrefix(xs[0], t);
      assert t[1..] == JoinLines(tail);
      assert SplitLines(t) == [""] + SplitLines(t[1..]);
      assert JoinLines(xs) == xs[0] + t;
      assert xs[0] + "" == xs[0];
      assert xs == [xs[0]] + tail;
    }
  }

  /** The decimal digit for `d`. */
  function DigitChar(d: nat): (c: char)
    requires d < 10
    ensures '0' <= c <= '9'
  {
    ('0' as int + d) as char
  }

  /** Python's `str(n)` for a non-negative integer: its decimal digits. */
  function NatToString(n: nat): (s: string)
    ensures |s| >= 1
    ensures (|s| == 1) == (n < 10)
    ensures forall k :: 0 <= k < |s| ==> '0' <= s[k] <= '9'
    decreases n
  {
    if n < 10 then [DigitChar(n)] else NatToString(n / 10) + [DigitChar(n % 10)]
  }

  /** The number a string of decimal digits denotes, most significant digit
      first. */
  function DecimalValue(s: string): nat
    requires forall k :: 0 <= k < |s| ==> '0' <= s[k] <= '9'
    decreases |s|
  {
    if s == [] then 0 else DecimalValue(s[..|s| - 1]) * 10 + (s[|s| - 1] as int - '0' as int)
  }

  /** `str(n)` denotes `n`, and starts with a zero only when it is "0":
      there are no leading zeros. */
  lemma {:induction false} NatToStringValue(n: nat)
    ensures DecimalValue(NatToString(n)) == n
    ensures NatToString(n)[0] == '0' <==> n == 0
    decreases n
  {
    var s := NatToString(n);
    if n >= 10 {
      var q := NatToString(n / 10);
      NatToStringValue(n / 10);
      assert s == q + [DigitChar(n % 10)];
      assert s[..|s| - 1] == q;
      assert s[0] == q[0];
      assert DecimalValue(s) == (n / 10) * 10 + n % 10;
    }
  }

  /** Different numbers have different decimal forms. */
  lemma {:induction false} NatToStringInjective(a: nat, b: nat)
    requires NatToString(a) == NatToString(b)
    ensures a == b
    decreases a
  {
    var s := NatToString(a);
    if a >= 10 && b >= 10 {
      assert s[..|s| - 1] == NatToString(a / 10);
      assert s[..|s| - 1] == NatToString(b / 10);
      NatToStringInjective(a / 10, b / 10);
      assert DigitChar(a % 10) == s[|s| - 1] == DigitChar(b % 10);
    }
  }

  /** The keys `str(0) .. str(n-1)`. */
  function DecimalKeys(n: int): set<string>
  {
    set j | 0 <= j < n :: NatToString(j)
  }

  /** There are exactly `n` such keys (none when `n <= 0`). */
  lemma {:induction false} DecimalKeysCount(n: int)
    ensures |DecimalKeys(n)| == if n <= 0 then 0 else n
    decreases if n <= 0 then 0 else n
  {
    if n <= 0 {
      assert DecimalKeys(n) == {};
    } else {
      DecimalKeysCount(n - 1);
      DecimalKeysStep(n - 1);
    }
  }

  /** The keys up to `m` are those up to `m - 1` and one new key. */
  lemma DecimalKeysStep(m: nat)
    ensures DecimalKeys(m + 1) == DecimalKeys(m) + {NatToString(m)}
    ensures NatToString(m) !in DecimalKeys(m)
  {
    if NatToString(m) in DecimalKeys(m) {
      var j :| 0 <= j < m && NatToString(j) == NatToString(m);
      NatToStringInjective(j, m);
    }
  }
}
