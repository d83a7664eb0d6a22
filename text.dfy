/**
 * The Python `str` operations the project relies on, over `string` (= `seq<char>`):
 * `split` on one character, `join`, `strip()`, `lower()`, `str(n)` for a
 * non-negative int, the `in` test for substrings, and line splitting as
 * `readline` performs it.
 */
module Text {

  /** `s.split(c)` for a one-character separator: the fields between the occurrences of `c`. */
  function Split(s: string, c: char): (r: seq<string>)
    ensures |r| >= 1
    decreases |s|
  {
    if |s| == 0 then [""]
    else
      var rest := Split(s[1..], c);
      if s[0] == c then [""] + rest
      else [[s[0]] + rest[0]] + rest[1..]
  }

  /** `c.join(parts)`: the parts with one `c` between neighbours. */
  function Join(parts: seq<string>, c: char): string
  {
    if |parts| == 0 then ""
    else if |parts| == 1 then parts[0]
    else parts[0] + [c] + Join(parts[1..], c)
  }

  /** The field before the first `c` (`s.split(c)[0]`). */
  function BeforeFirst(s: string, c: char): string
  {
    Split(s, c)[0]
  }

  /** The field after the last `c` (`s.split(c)[-1]`). */
  function AfterLast(s: string, c: char): string
  {
    var fields := Split(s, c);
    fields[|fields| - 1]
  }

  lemma JoinCons(a: string, t: seq<string>, c: char)
    ensures Join([a] + t, c) == if t == [] then a else a + [c] + Join(t, c)
  {
    assert ([a] + t)[1..] == t;
  }

  /** Joining the fields of a split gives back the original string. */
  lemma {:induction false} JoinSplit(s: string, c: char)
    ensures Join(Split(s, c), c) == s
    decreases |s|
  {
    if |s| > 0 {
      var rest := Split(s[1..], c);
      JoinSplit(s[1..], c);
      if s[0] == c {
        JoinCons("", rest, c);
        assert s == [s[0]] + s[1..];
      } else {
        JoinCons([s[0]] + rest[0], rest[1..], c);
        JoinCons(rest[0], rest[1..], c);
        assert rest == [rest[0]] + rest[1..];
        assert s == [s[0]] + s[1..];
      }
    }
  }

  /** No field of a split contains the separator. */
  lemma {:induction false} SplitFieldsLackSeparator(s: string, c: char)
    ensures forall i :: 0 <= i < |Split(s, c)| ==> c !in Split(s, c)[i]
    decreases |s|
  {
    if |s| > 0 {
      SplitFieldsLackSeparator(s[1..], c);
      var rest := Split(s[1..], c);
      if s[0] != c {
        assert c !in rest[0];
        assert c !in [s[0]] + rest[0];
      }
    }
  }

  /** A string without the separator splits into itself alone. */
  lemma {:induction false} SplitWithoutSeparator(s: string, c: char)
    requires c !in s
    ensures Split(s, c) == [s]
    decreases |s|
  {
    if |s| > 0 {
      SplitWithoutSeparator(s[1..], c);
      assert [s[0]] + s[1..] == s;
    }
  }

  /** Splitting `a + t` where `a` has no separator extends the first field of `t`'s split. */
  lemma {:induction false} SplitPrefixWithoutSeparator(a: string, t: string, c: char)
    requires c !in a
    ensures Split(a + t, c) == [a + Split(t, c)[0]] + Split(t, c)[1..]
    decreases |a|
  {
    if |a| > 0 {
      assert (a + t)[1..] == a[1..] + t;
      SplitPrefixWithoutSeparator(a[1..], t, c);
      assert [a[0]] + (a[1..] + Split(t, c)[0]) == a + Split(t, c)[0];
    } else {
      assert a + t == t;
      assert a + Split(t, c)[0] == Split(t, c)[0];
      assert [Split(t, c)[0]] + Split(t, c)[1..] == Split(t, c);
    }
  }

  /** Joining one more part adds the separator and that part at the end. */
  lemma {:induction false} JoinSnoc(parts: seq<string>, x: string, c: char)
    requires |parts| >= 1
    ensures Join(parts + [x], c) == Join(parts, c) + [c] + x
    decreases |parts|
  {
    if |parts| > 1 {
      assert (parts + [x])[1..] == parts[1..] + [x];
      JoinSnoc(parts[1..], x, c);
    }
  }

  /** Splitting at a first separator after a separator-free part gives that part, then the fields of the rest. */
  lemma SplitAtFirst(a: string, t: string, c: char)
    requires c !in a
    ensures Split(a + [c] + t, c) == [a] + Split(t, c)
  {
    assert a + [c] + t == a + ([c] + t);
    SplitPrefixWithoutSeparator(a, [c] + t, c);
    assert ([c] + t)[1..] == t;
    assert Split([c] + t, c) == [""] + Split(t, c);
    assert a + "" == a;
  }

  /** Splitting a join of separator-free fields gives the fields back. */
  lemma {:induction false} SplitJoin(parts: seq<string>, c: char)
    requires |parts| >= 1
    requires forall i :: 0 <= i < |parts| ==> c !in parts[i]
    ensures Split(Join(parts, c), c) == parts
    decreases |parts|
  {
    if |parts| == 1 {
      SplitWithoutSeparator(parts[0], c);
      assert parts == [parts[0]];
    } else {
      var tail := Join(parts[1..], c);
      SplitJoin(parts[1..], c);
      assert ([c] + tail)[1..] == tail;
      assert Split([c] + tail, c) == [""] + parts[1..];
      assert parts[0] + [c] + Join(parts[1..], c) == parts[0] + ([c] + tail);
      SplitPrefixWithoutSeparator(parts[0], [c] + tail, c);
      var after := Split([c] + tail, c);
      assert after[0] == "" && after[1..] == parts[1..];
      assert parts[0] + after[0] == parts[0];
      assert [parts[0]] + parts[1..] == parts;
    }
  }

  /**
   * The first field of a split is the longest prefix free of the separator: it is a
   * prefix of `s`, and it is followed in `s` by `c` exactly when `s` contains `c`.
   */
  lemma {:induction false} BeforeFirstIsPrefix(s: string, c: char)
    ensures var h := BeforeFirst(s, c);
      && h <= s
      && c !in h
      && (c in s <==> |Split(s, c)| > 1)
      && (c in s ==> |h| < |s| && s[|h|] == c)
      && (c !in s ==> h == s)
    decreases |s|
  {
    if |s| > 0 {
      BeforeFirstIsPrefix(s[1..], c);
      if s[0] != c {
        assert c in s <==> c in s[1..] by { assert s == [s[0]] + s[1..]; }
        assert s == [s[0]] + s[1..];
      } else {
        assert c in s;
      }
    }
  }

  /** The field after the last separator is a suffix of the string and holds no separator. */
  lemma {:induction false} AfterLastIsSuffix(s: string, c: char)
    ensures var t := AfterLast(s, c); |t| <= |s| && t == s[|s| - |t|..] && c !in t
    decreases |s|
  {
    SplitFieldsLackSeparator(s, c);
    if |s| > 0 {
      AfterLastIsSuffix(s[1..], c);
      var rest := Split(s[1..], c);
      if s[0] != c && |rest| == 1 {
        BeforeFirstIsPrefix(s[1..], c);
        assert AfterLast(s, c) == [s[0]] + rest[0] == s;
      }
    }
  }

  /** `str.isspace()` for one character (Python's whitespace set). */
  predicate IsSpace(ch: char)
  {
    var n := ch as int;
    || (9 <= n <= 13) || (0x1c <= n <= 0x20) || n == 0x85 || n == 0xa0 || n == 0x1680
    || (0x2000 <= n <= 0x200a) || n == 0x2028 || n == 0x2029 || n == 0x202f || n == 0x205f
    || n == 0x3000
  }

  /** `s.lstrip()`: the suffix left after dropping leading whitespace. */
  function StripLeft(s: string): (r: string)
    ensures |r| <= |s| && r == s[|s| - |r|..]
    ensures r == [] || !IsSpace(r[0])
    ensures forall k :: 0 <= k < |s| - |r| ==> IsSpace(s[k])
    decreases |s|
  {
    if |s| > 0 && IsSpace(s[0]) then StripLeft(s[1..]) else s
  }

  /** `s.rstrip()`: the prefix left after dropping trailing whitespace. */
  function StripRight(s: string): (r: string)
    ensures |r| <= |s| && r == s[..|r|]
    ensures r == [] || !IsSpace(r[|r| - 1])
    ensures forall k :: |r| <= k < |s| ==> IsSpace(s[k])
    decreases |s|
  {
    if |s| > 0 && IsSpace(s[|s| - 1]) then StripRight(s[..|s| - 1]) else s
  }

  /** `s.strip()`. */
  function Strip(s: string): string
  {
    StripRight(StripLeft(s))
  }

  /** Stripping keeps a string whose ends are not whitespace. */
  lemma StripKeeps(s: string)
    requires s == [] || (!IsSpace(s[0]) && !IsSpace(s[|s| - 1]))
    ensures Strip(s) == s
  {
  }

  /** Dropping a prefix that does not hold `ch` keeps `ch` exactly when it was there. */
  lemma DropFreePrefix(s: string, n: nat, ch: char)
    requires n <= |s|
    requires forall k :: 0 <= k < n ==> s[k] != ch
    ensures ch in s[n..] <==> ch in s
  {
    if ch in s {
      var k :| 0 <= k < |s| && s[k] == ch;
      assert s[n..][k - n] == ch;
    }
    if ch in s[n..] {
      var k :| 0 <= k < |s| - n && s[n..][k] == ch;
      assert s[n + k] == ch;
    }
  }

  /** Dropping a suffix that does not hold `ch` keeps `ch` exactly when it was there. */
  lemma DropFreeSuffix(s: string, n: nat, ch: char)
    requires n <= |s|
    requires forall k :: n <= k < |s| ==> s[k] != ch
    ensures ch in s[..n] <==> ch in s
  {
    if ch in s {
      var k :| 0 <= k < |s| && s[k] == ch;
      assert s[..n][k] == ch;
    }
  }

  /** `strip()` removes only whitespace: any other character survives it. */
  lemma StripKeepsOthers(s: string, ch: char)
    requires !IsSpace(ch)
    ensures ch in Strip(s) <==> ch in s
  {
    var l := StripLeft(s);
    DropFreePrefix(s, |s| - |l|, ch);
    var r := StripRight(l);
    DropFreeSuffix(l, |r|, ch);
  }

  /** A string whose ends are not whitespace, followed by whitespace only, strips to itself. */
  lemma StripPadded(s: string, pad: string)
    requires s == [] || (!IsSpace(s[0]) && !IsSpace(s[|s| - 1]))
    requires forall k :: 0 <= k < |pad| ==> IsSpace(pad[k])
    ensures Strip(s + pad) == s
  {
    var t := s + pad;
    var l := StripLeft(t);
    if s == [] {
      assert t == pad;
    } else {
      assert l == t;
      var r := StripRight(t);
      assert t[|s| - 1] == s[|s| - 1];
      assert |r| == |s|;
      assert r == t[..|s|] == s;
    }
  }

  /** `ch.lower()` for ASCII letters; every other character is its own lower case. */
  function LowerChar(ch: char): char
  {
    if 'A' <= ch <= 'Z' then (ch as int + 32) as char else ch
  }

  predicate IsUpper(ch: char)
  {
    'A' <= ch <= 'Z'
  }

  /** `s.lower()`. */
  function Lower(s: string): string
  {
    seq(|s|, i requires 0 <= i < |s| => LowerChar(s[i]))
  }

  /** `lower()` leaves no upper-case letter and is idempotent. */
  lemma LowerIsLower(s: string)
    ensures |Lower(s)| == |s|
    ensures forall i :: 0 <= i < |s| ==> !IsUpper(Lower(s)[i])
    ensures Lower(Lower(s)) == Lower(s)
  {
  }

  /** A character that is not a letter is in `Lower(s)` exactly when it is in `s`. */
  lemma LowerKeepsNonLetters(s: string, ch: char)
    requires !IsUpper(ch) && !('a' <= ch <= 'z')
    ensures ch in Lower(s) <==> ch in s
  {
    if ch in s {
      var i :| 0 <= i < |s| && s[i] == ch;
      assert Lower(s)[i] == ch;
    }
    if ch in Lower(s) {
      var i :| 0 <= i < |s| && Lower(s)[i] == ch;
      assert s[i] == ch;
    }
  }

  /** True if `sub` occurs in `s` (Python's `sub in s`). */
  predicate Contains(s: string, sub: string)
  {
    exists i :: 0 <= i <= |s| - |sub| && OccursAt(s, sub, i)
  }

  /** True if `sub` occurs in `s` starting at index `i`. */
  predicate OccursAt(s: string, sub: string, i: int)
  {
    0 <= i <= |s| - |sub| && s[i..i + |sub|] == sub
  }

  /** A string contains whatever it was built around. */
  lemma ContainsMiddle(a: string, sub: string, b: string)
    ensures Contains(a + sub + b, sub)
  {
    assert OccursAt(a + sub + b, sub, |a|);
  }

  function Digit(d: nat): char
    requires d < 10
  {
    ('0' as int + d) as char
  }

  predicate IsDigit(ch: char)
  {
    '0' <= ch <= '9'
  }

  /** `str(n)` for a non-negative int: its decimal digits, without leading zeros. */
  function DecimalString(n: nat): (r: string)
    ensures |r| >= 1
    ensures forall i :: 0 <= i < |r| ==> IsDigit(r[i])
    ensures |r| > 1 ==> r[0] != '0'
  {
    if n < 10 then [Digit(n)] else DecimalString(n / 10) + [Digit(n % 10)]
  }

  /** `int(s)` for a string of decimal digits. */
  function DecimalValue(s: string): nat
    requires forall i :: 0 <= i < |s| ==> IsDigit(s[i])
  {
    if s == [] then 0
    else
      assert IsDigit(s[|s| - 1]);
      DecimalValue(s[..|s| - 1]) * 10 + (s[|s| - 1] as int - '0' as int)
  }

  /** Reading back the decimal form of `n` gives `n`. */
  lemma {:induction false} DecimalRoundTrip(n: nat)
    ensures DecimalValue(DecimalString(n)) == n
  {
    if n >= 10 {
      DecimalRoundTrip(n / 10);
      var s := DecimalString(n);
      assert s[..|s| - 1] == DecimalString(n / 10);
    }
  }

  /**
   * The lines `readline` returns, in order, until it returns the empty string:
   * every line but the last ends in a newline; the last ends in one too unless
   * the text does not.
   */
  function Lines(s: string): (r: seq<string>)
  {
    var fields := Split(s, '\n');
    var n := |fields| - 1;
    seq(n, i requires 0 <= i < n => fields[i] + "\n")
      + (if fields[n] == "" then [] else [fields[n]])
  }

  /** Writing `b` and then `c` after `a` is writing `b + c` after it. */
  lemma AppendAssociates(a: string, b: string, c: string)
    ensures a + b + c == a + (b + c)
  {
  }

  /** Concatenation of a sequence of strings. */
  function Concat(ss: seq<string>): string
  {
    if ss == [] then "" else ss[0] + Concat(ss[1..])
  }

  lemma {:induction false} ConcatAppend(a: seq<string>, b: seq<string>)
    ensures Concat(a + b) == Concat(a) + Concat(b)
    decreases |a|
  {
    if a != [] {
      assert (a + b)[1..] == a[1..] + b;
      ConcatAppend(a[1..], b);
    } else {
      assert a + b == b;
    }
  }

  lemma {:induction false} ConcatTerminated(fields: seq<string>)
    requires |fields| >= 1
    ensures Concat(seq(|fields| - 1, i requires 0 <= i < |fields| - 1 => fields[i] + "\n"))
        + fields[|fields| - 1] == Join(fields, '\n')
    decreases |fields|
  {
    var n := |fields| - 1;
    var ls := seq(n, i requires 0 <= i < n => fields[i] + "\n");
    if n > 0 {
      var rest := fields[1..];
      var restLines := seq(n - 1, i requires 0 <= i < n - 1 => rest[i] + "\n");
      assert ls[1..] == restLines;
      assert Concat(ls) == (fields[0] + "\n") + Concat(restLines);
      ConcatTerminated(rest);
      assert rest[|rest| - 1] == fields[n];
      assert Concat(restLines) + fields[n] == Join(rest, '\n');
      assert Join(fields, '\n') == fields[0] + ['\n'] + Join(rest, '\n');
    } else {
      assert ls == [];
    }
  }

  /**
   * `readline` loses nothing: the lines put back together are the text, and no
   * line is empty, so a `while line:` loop stops exactly at the end of the text.
   */
  lemma LinesRoundTrip(s: string)
    ensures Concat(Lines(s)) == s
    ensures forall i :: 0 <= i < |Lines(s)| ==> Lines(s)[i] != ""
  {
    var fields := Split(s, '\n');
    var n := |fields| - 1;
    var body := seq(n, i requires 0 <= i < n => fields[i] + "\n");
    var tail: seq<string> := if fields[n] == "" then [] else [fields[n]];
    ConcatAppend(body, tail);
    ConcatTerminated(fields);
    JoinSplit(s, '\n');
    assert Concat(tail) == fields[n];
  }

  /** The lines of newline-free parts, each followed by a newline, are those terminated parts. */
  lemma LinesOfTerminated(parts: seq<string>)
    requires forall i :: 0 <= i < |parts| ==> '\n' !in parts[i]
    ensures Lines(Concat(seq(|parts|, i requires 0 <= i < |parts| => parts[i] + "\n")))
         == seq(|parts|, i requires 0 <= i < |parts| => parts[i] + "\n")
  {
    var fields := parts + [""];
    ConcatTerminated(fields);
    assert seq(|fields| - 1, i requires 0 <= i < |fields| - 1 => fields[i] + "\n")
        == seq(|parts|, i requires 0 <= i < |parts| => parts[i] + "\n");
    SplitJoin(fields, '\n');
    var text := Join(fields, '\n');
    assert Split(text, '\n') == fields;
    assert Concat(seq(|parts|, i requires 0 <= i < |parts| => parts[i] + "\n")) == text;
  }

  /** Every piece of a concatenation occurs in it. */
  lemma {:induction false} ConcatContains(ss: seq<string>, i: nat)
    requires i < |ss|
    ensures Contains(Concat(ss), ss[i])
    decreases |ss|
  {
    if i == 0 {
      ContainsMiddle("", ss[0], Concat(ss[1..]));
      assert "" + ss[0] + Concat(ss[1..]) == Concat(ss);
    } else {
      ConcatContains(ss[1..], i - 1);
      var rest := Concat(ss[1..]);
      var k :| 0 <= k <= |rest| - |ss[i]| && OccursAt(rest, ss[i], k);
      assert Concat(ss) == ss[0] + rest;
      assert OccursAt(Concat(ss), ss[i], |ss[0]| + k);
    }
  }
}
