/** The JavaScript string operations the combine engine is built from,
    modelled on `string` (a sequence of Unicode characters). */
module JsString {

  /** The characters `String.prototype.trim` removes: the ECMAScript
      WhiteSpace and LineTerminator code points. */
  predicate IsWhiteSpace(c: char)
  {
    c == '\t' || c == '\n' || c == '\U{000B}' || c == '\U{000C}' || c == '\r' || c == ' '
    || c == '\U{00A0}' || c == '\U{1680}' || ('\U{2000}' <= c <= '\U{200A}')
    || c == '\U{2028}' || c == '\U{2029}' || c == '\U{202F}' || c == '\U{205F}'
    || c == '\U{3000}' || c == '\U{FEFF}'
  }

  /** A string made of white space only (the empty string included). */
  predicate IsBlank(s: string)
  {
    forall i :: 0 <= i < |s| ==> IsWhiteSpace(s[i])
  }

  lemma BlankAppend(a: string, b: string)
    requires IsBlank(a) && IsBlank(b)
    ensures IsBlank(a + b)
  {
    forall i | 0 <= i < |a + b| ensures IsWhiteSpace((a + b)[i]) {
      if i < |a| {
        assert (a + b)[i] == a[i];
      } else {
        assert (a + b)[i] == b[i - |a|];
      }
    }
  }

  /** `s.trimStart()`: the suffix left after dropping the leading white space. */
  function TrimStart(s: string): (r: string)
    ensures |r| <= |s| && r == s[|s| - |r|..]
    ensures IsBlank(s[..|s| - |r|])
    ensures r != "" ==> !IsWhiteSpace(r[0])
  {
    if |s| > 0 && IsWhiteSpace(s[0]) then
      var r := TrimStart(s[1..]);
      var n := |s[1..]| - |r|;
      assert r == s[1..][n..] && IsBlank(s[1..][..n]);
      DropBlankFirst(s, n);
      assert |s| - |r| == n + 1;
      r
    else s
  }

  /** A blank run after a leading white-space character extends it. */
  lemma DropBlankFirst(s: string, n: nat)
    requires |s| > 0 && IsWhiteSpace(s[0]) && n < |s| && IsBlank(s[1..][..n])
    ensures IsBlank(s[..n + 1]) && s[1..][n..] == s[n + 1..]
  {
    assert s[..n + 1] == [s[0]] + s[1..][..n];
    BlankAppend([s[0]], s[1..][..n]);
  }

  /** `s.trimEnd()`: the prefix left after dropping the trailing white space. */
  function TrimEnd(s: string): (r: string)
    ensures |r| <= |s| && r == s[..|r|]
    ensures IsBlank(s[|r|..])
    ensures r != "" ==> !IsWhiteSpace(r[|r| - 1])
  {
    if |s| > 0 && IsWhiteSpace(s[|s| - 1]) then
      var r := TrimEnd(s[..|s| - 1]);
      assert s[|r|..] == s[..|s| - 1][|r|..] + [s[|s| - 1]];
      BlankAppend(s[..|s| - 1][|r|..], [s[|s| - 1]]);
      r
    else s
  }

  /** `s.trim()`. */
  function Trim(s: string): string
  {
    TrimEnd(TrimStart(s))
  }

  /** `s.trim() === ""` holds exactly of the blank strings. */
  lemma TrimEmptyIffBlank(s: string)
    ensures Trim(s) == "" <==> IsBlank(s)
  {
    var t := TrimStart(s);
    assert s == s[..|s| - |t|] + t;
    if Trim(s) == "" {
      assert IsBlank(t[|TrimEnd(t)|..]);
      assert t[|TrimEnd(t)|..] == t;
    }
  }

  /** `s.replace(/c/g, "")`: every occurrence of `c` removed. */
  function RemoveAll(s: string, c: char): (r: string)
    ensures c !in r
  {
    if |s| == 0 then ""
    else (if s[0] == c then "" else [s[0]]) + RemoveAll(s[1..], c)
  }

  /** All characters other than `c` are kept with their multiplicities, so a
      string without `c` is left as it is. */
  lemma {:induction false} RemoveAllKeepsOthers(s: string, c: char)
    ensures multiset(RemoveAll(s, c)) == multiset(s)[c := 0]
    ensures c !in s ==> RemoveAll(s, c) == s
  {
    if |s| > 0 {
      assert s == [s[0]] + s[1..];
      RemoveAllKeepsOthers(s[1..], c);
    }
  }

  /** Removal works piecewise, so the kept characters stay in their order
      and repeats are kept. */
  lemma {:induction false} RemoveAllAppend(a: string, b: string, c: char)
    ensures RemoveAll(a + b, c) == RemoveAll(a, c) + RemoveAll(b, c)
    decreases |a|
  {
    if |a| == 0 {
      assert a + b == b;
    } else {
      var kept := if a[0] == c then "" else [a[0]];
      assert (a + b)[0] == a[0] && (a + b)[1..] == a[1..] + b;
      assert RemoveAll(a + b, c) == kept + RemoveAll(a[1..] + b, c);
      RemoveAllAppend(a[1..], b, c);
      assert RemoveAll(a, c) == kept + RemoveAll(a[1..], c);
    }
  }

  /** Removing '\r' turns lines ended by "\r\n" into lines ended by "\n". */
  lemma {:induction false} RemoveAllCrLf(lines: seq<string>)
    requires forall k :: 0 <= k < |lines| ==> '\r' !in lines[k]
    ensures RemoveAll(Join(lines, "\r\n"), '\r') == Join(lines, "\n")
  {
    if |lines| == 1 {
      RemoveAllKeepsOthers(lines[0], '\r');
    } else if |lines| > 1 {
      var rest := Join(lines[1..], "\r\n");
      RemoveAllCrLf(lines[1..]);
      RemoveAllKeepsOthers(lines[0], '\r');
      RemoveAllAppend(lines[0] + "\r\n", rest, '\r');
      RemoveAllAppend(lines[0], "\r\n", '\r');
      assert RemoveAll("\r\n", '\r') == "\n" by {
        assert "\r\n"[1..] == "\n";
        assert "\n"[1..] == "";
      }
    }
  }

  /** `sep` occurs in `s` starting at index `i`. */
  predicate Occurs(s: string, sep: string, i: int)
  {
    0 <= i && i + |sep| <= |s| && s[i..i + |sep|] == sep
  }

  /** `s.includes(sep)`. */
  predicate Contains(s: string, sep: string)
  {
    exists i | 0 <= i <= |s| :: Occurs(s, sep, i)
  }

  lemma OccursInPrefix(s: string, sep: string, n: nat, p: int)
    requires n <= |s| && Occurs(s[..n], sep, p)
    ensures Occurs(s, sep, p) && p + |sep| <= n
  {
    assert s[..n][p..p + |sep|] == s[p..p + |sep|];
  }


  /** A one-character separator occurs exactly where that character does. */
  lemma ContainsChar(s: string, ch: char)
    ensures Contains(s, [ch]) <==> ch in s
  {
    if ch in s {
      var i :| 0 <= i < |s| && s[i] == ch;
      assert s[i..i + 1] == [ch];
      assert Occurs(s, [ch], i);
    }
    if Contains(s, [ch]) {
      var i :| 0 <= i <= |s| && Occurs(s, [ch], i);
      assert i + 1 <= |s| && s[i..i + 1] == [ch];
      assert s[i..i + 1][0] == s[i];
    }
  }

  /** `s.indexOf(sep, from)`: the first occurrence at or after `from`, or -1
      (see `IndexOfFromFirst`). */
  function IndexOfFrom(s: string, sep: string, from: nat): (r: int)
    requires |sep| > 0
    ensures r == -1 || (from <= r && r + |sep| <= |s|)
    decreases |s| - from
  {
    if from + |sep| > |s| then -1
    else if s[from..from + |sep|] == sep then from
    else IndexOfFrom(s, sep, from + 1)
  }

  /** `IndexOfFrom` finds an occurrence, and none is skipped before it. */
  lemma {:induction false} IndexOfFromFirst(s: string, sep: string, from: nat)
    requires |sep| > 0
    ensures IndexOfFrom(s, sep, from) == -1 || Occurs(s, sep, IndexOfFrom(s, sep, from))
    ensures forall p ::
              from <= p && (IndexOfFrom(s, sep, from) == -1 || p < IndexOfFrom(s, sep, from)) ==> !Occurs(s, sep, p)
    decreases |s| - from
  {
    if from + |sep| <= |s| && s[from..from + |sep|] != sep {
      IndexOfFromFirst(s, sep, from + 1);
    }
  }

  /** `s.indexOf(sep)` (see `IndexOfFirst`). */
  function IndexOf(s: string, sep: string): (r: int)
    requires |sep| > 0
    ensures r == -1 || (0 <= r && r + |sep| <= |s|)
  {
    IndexOfFrom(s, sep, 0)
  }

  /** `s.indexOf(sep)` is -1 exactly when `sep` does not occur, and
      otherwise the position of the first occurrence. */
  lemma IndexOfFirst(s: string, sep: string)
    requires |sep| > 0
    ensures IndexOf(s, sep) == -1 <==> !Contains(s, sep)
    ensures IndexOf(s, sep) != -1 ==>
              Occurs(s, sep, IndexOf(s, sep)) && forall p :: 0 <= p < IndexOf(s, sep) ==> !Occurs(s, sep, p)
  {
    IndexOfFromFirst(s, sep, 0);
  }

  /** `s.split(sep)` for a non-empty separator: the pieces between the
      successive left-to-right occurrences of `sep`. */
  function Split(s: string, sep: string): (r: seq<string>)
    requires |sep| > 0
    ensures |r| >= 1
    decreases |s|
  {
    var i := IndexOf(s, sep);
    if i < 0 then [s] else [s[..i]] + Split(s[i + |sep|..], sep)
  }

  /** No piece contains the separator, and every character of a piece comes
      from `s`. */
  lemma {:induction false} SplitPieces(s: string, sep: string)
    requires |sep| > 0
    ensures forall k :: 0 <= k < |Split(s, sep)| ==> !Contains(Split(s, sep)[k], sep)
    ensures forall k, c :: 0 <= k < |Split(s, sep)| && c in Split(s, sep)[k] ==> c in s
    decreases |s|
  {
    var i := IndexOf(s, sep);
    IndexOfFirst(s, sep);
    if i >= 0 {
      var head, rest := s[..i], s[i + |sep|..];
      SplitPieces(rest, sep);
      assert !Contains(head, sep) by {
        forall p | Occurs(head, sep, p) ensures false {
          OccursInPrefix(s, sep, i, p);
        }
      }
      forall c | c in rest ensures c in s {
        var k :| 0 <= k < |rest| && rest[k] == c;
        assert s[i + |sep| + k] == c;
      }
      var r := Split(s, sep);
      assert r == [head] + Split(rest, sep);
      forall k | 0 < k < |r| ensures r[k] == Split(rest, sep)[k - 1] {
      }
    }
  }

  /** `parts.join(sep)`. */
  function Join(parts: seq<string>, sep: string): string
  {
    if |parts| == 0 then ""
    else if |parts| == 1 then parts[0]
    else parts[0] + sep + Join(parts[1..], sep)
  }

  /** The first piece of `s.split(sep)` is the prefix of `s` that ends
      just before the first occurrence of `sep`, or all of `s`. */
  lemma SplitHead(s: string, sep: string)
    requires |sep| > 0
    ensures var h := Split(s, sep)[0];
      h == s[..|h|]
      && (forall p :: 0 <= p < |h| ==> !Occurs(s, sep, p))
      && (|h| == |s| || Occurs(s, sep, |h|))
  {
    IndexOfFirst(s, sep);
  }

  /** Splitting and joining again with the same separator gives back the string. */
  lemma {:induction false} SplitThenJoin(s: string, sep: string)
    requires |sep| > 0
    ensures Join(Split(s, sep), sep) == s
    decreases |s|
  {
    var i := IndexOf(s, sep);
    if i >= 0 {
      var head, rest := s[..i], s[i + |sep|..];
      SplitAtOccurrence(s, sep, i);
      SplitThenJoin(rest, sep);
      JoinCons(head, Split(rest, sep), sep);
    } else {
      assert Split(s, sep) == [s];
    }
  }

  /** Where `IndexOf` finds `sep`, the string is the first piece, `sep` and
      the rest, and the split continues in the rest. */
  lemma SplitAtOccurrence(s: string, sep: string, i: int)
    requires |sep| > 0 && i == IndexOf(s, sep) && i >= 0
    ensures Split(s, sep) == [s[..i]] + Split(s[i + |sep|..], sep)
    ensures s == s[..i] + sep + s[i + |sep|..]
  {
    assert s[i..i + |sep|] == sep by {
      IndexOfFromFirst(s, sep, 0);
    }
    SliceAround(s, i, i + |sep|);
  }

  /** A string is its prefix, a middle slice and its suffix. */
  lemma SliceAround(s: string, i: nat, j: nat)
    requires i <= j <= |s|
    ensures s == s[..i] + s[i..j] + s[j..]
  {
  }

  lemma JoinCons(head: string, r: seq<string>, sep: string)
    requires |r| > 0
    ensures Join([head] + r, sep) == head + sep + Join(r, sep)
  {
    assert ([head] + r)[1..] == r;
  }

  /** Joining appends the two joins with one separator between them. */
  lemma {:induction false} JoinAppend(a: seq<string>, b: seq<string>, sep: string)
    requires |a| > 0 && |b| > 0
    ensures Join(a + b, sep) == Join(a, sep) + sep + Join(b, sep)
  {
    if |a| > 1 {
      JoinAppend(a[1..], b, sep);
      assert (a + b)[1..] == a[1..] + b;
    }
  }

  /** Joining pieces free of a one-character separator and splitting again
      gives back the pieces. */
  lemma {:induction false} JoinThenSplit(parts: seq<string>, ch: char)
    requires |parts| > 0
    requires forall k :: 0 <= k < |parts| ==> ch !in parts[k]
    ensures Split(Join(parts, [ch]), [ch]) == parts
  {
    var p0 := parts[0];
    ContainsChar(p0, ch);
    IndexOfFirst(p0, [ch]);
    if |parts| > 1 {
      var tail := Join(parts[1..], [ch]);
      SplitAtFirst(p0, ch, tail);
      JoinThenSplit(parts[1..], ch);
      assert parts == [p0] + parts[1..];
    }
  }

  /** The first piece ends at the first separator. */
  lemma SplitAtFirst(p0: string, ch: char, tail: string)
    requires ch !in p0
    ensures Split(p0 + [ch] + tail, [ch]) == [p0] + Split(tail, [ch])
  {
    var s := p0 + [ch] + tail;
    assert s[|p0|..|p0| + 1] == [ch];
    assert Occurs(s, [ch], |p0|);
    forall p | 0 <= p < |p0| ensures !Occurs(s, [ch], p) {
      assert s[p..p + 1][0] == p0[p];
    }
    IndexOfFirst(s, [ch]);
    assert IndexOf(s, [ch]) == |p0|;
    assert s[..|p0|] == p0;
    assert s[|p0| + 1..] == tail;
  }

  /** Splitting at a one-character separator placed between two strings
      gives the pieces of the first followed by the pieces of the second. */
  lemma {:induction false} SplitAround(a: string, ch: char, b: string)
    ensures Split(a + [ch] + b, [ch]) == Split(a, [ch]) + Split(b, [ch])
    decreases |a|
  {
    if ch !in a {
      ContainsChar(a, ch);
      IndexOfFirst(a, [ch]);
      SplitAtFirst(a, ch, b);
      assert Split(a, [ch]) == [a];
    } else {
      var i := IndexOf(a, [ch]);
      FirstChar(a, ch, i);
      var head, rest := a[..i], a[i + 1..];
      var tail := rest + [ch] + b;
      Regroup(head, ch, rest, b);
      assert a + [ch] + b == head + [ch] + tail;
      SplitAtFirst(head, ch, tail);
      SplitAtFirst(head, ch, rest);
      assert Split(a, [ch]) == [head] + Split(rest, [ch]);
      SplitAround(rest, ch, b);
      assert Split(a + [ch] + b, [ch]) == [head] + (Split(rest, [ch]) + Split(b, [ch]));
    }
  }

  /** `IndexOf` finds the first `ch` in `a`. */
  lemma FirstChar(a: string, ch: char, i: int)
    requires ch in a && i == IndexOf(a, [ch])
    ensures 0 <= i < |a| && a[i] == ch && ch !in a[..i]
    ensures a == a[..i] + [ch] + a[i + 1..]
  {
    ContainsChar(a, ch);
    IndexOfFirst(a, [ch]);
    assert a[i..i + 1][0] == a[i];
    forall p | 0 <= p < i ensures a[p] != ch {
      assert !Occurs(a, [ch], p);
      assert a[p..p + 1][0] == a[p];
    }
    assert a == a[..i] + [a[i]] + a[i + 1..];
  }

  /** Concatenation regrouped around the second separator. */
  lemma Regroup(head: string, ch: char, rest: string, b: string)
    ensures head + [ch] + rest + [ch] + b == head + [ch] + (rest + [ch] + b)
  {
  }

  /** A character in neither the parts nor the separator is not in the join. */
  lemma {:induction false} JoinFreeOf(parts: seq<string>, sep: string, c: char)
    requires c !in sep
    requires forall k :: 0 <= k < |parts| ==> c !in parts[k]
    ensures c !in Join(parts, sep)
  {
    if |parts| > 1 {
      JoinFreeOf(parts[1..], sep, c);
    }
  }

  /** The decimal digit `d`. */
  function DigitChar(d: nat): (c: char)
    requires d < 10
    ensures '0' <= c <= '9'
  {
    (48 + d) as char
  }

  /** `${n}`: the decimal representation of a natural number. */
  function Decimal(n: nat): (r: string)
    ensures |r| >= 1
    ensures forall k :: 0 <= k < |r| ==> '0' <= r[k] <= '9'
  {
    if n < 10 then [DigitChar(n)] else Decimal(n / 10) + [DigitChar(n % 10)]
  }

  /** Distinct numbers have distinct decimal representations. */
  lemma {:induction false} DecimalInjective(m: nat, n: nat)
    requires Decimal(m) == Decimal(n)
    ensures m == n
  {
    if m >= 10 && n >= 10 {
      var dm, dn := Decimal(m), Decimal(n);
      assert dm[..|dm| - 1] == Decimal(m / 10);
      assert dn[..|dn| - 1] == Decimal(n / 10);
      DecimalInjective(m / 10, n / 10);
      assert DigitChar(m % 10) == dm[|dm| - 1];
    } else if m < 10 && n < 10 {
      assert Decimal(m)[0] == DigitChar(m);
    }
  }

  /** The number of decimal digits at the end of `s`. */
  function DigitRun(s: string): nat
  {
    if |s| > 0 && '0' <= s[|s| - 1] <= '9' then 1 + DigitRun(s[..|s| - 1]) else 0
  }

  /** Digits appended after a non-digit form the whole digit run. */
  lemma {:induction false} DigitRunAppend(p: string, ds: string)
    requires |p| > 0 && !('0' <= p[|p| - 1] <= '9')
    requires forall k :: 0 <= k < |ds| ==> '0' <= ds[k] <= '9'
    ensures DigitRun(p + ds) == |ds|
  {
    if |ds| == 0 {
      assert p + ds == p;
    } else {
      var n := |ds| - 1;
      assert (p + ds)[..|p + ds| - 1] == p + ds[..n];
      DigitRunAppend(p, ds[..n]);
    }
  }

  /** `s.lastIndexOf(c)` for a one-character search string. */
  function LastIndexOf(s: string, c: char): (r: int)
    ensures -1 <= r < |s|
    ensures r == -1 <==> c !in s
    ensures r >= 0 ==> s[r] == c && forall k :: r < k < |s| ==> s[k] != c
  {
    if |s| == 0 then -1
    else if s[|s| - 1] == c then |s| - 1
    else
      assert s == s[..|s| - 1] + [s[|s| - 1]];
      LastIndexOf(s[..|s| - 1], c)
  }
}
