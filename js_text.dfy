/**
 * The JavaScript string operations the pipeline relies on. A string is a
 * `seq<char>`; each `char` stands for one UTF-16 code unit of the Basic
 * Multilingual Plane. A `char` cannot be half of a surrogate pair, so text
 * outside that plane is not modelled.
 */
module JsText {
  import opened Outcomes

  /** The characters `String.prototype.trim` removes and the regular-expression class `\s` matches
    * (ECMAScript WhiteSpace and LineTerminator). */
  predicate IsSpace(c: char) {
    c == '\t' || c == '\n' || c == '\U{B}' || c == '\U{C}' || c == '\r' || c == ' ' ||
    c == '\U{A0}' || c == '\U{1680}' || ('\U{2000}' <= c <= '\U{200A}') ||
    c == '\U{2028}' || c == '\U{2029}' || c == '\U{202F}' || c == '\U{205F}' ||
    c == '\U{3000}' || c == '\U{FEFF}'
  }

  /** True when `s` is empty or neither starts nor ends with white space. */
  predicate Trimmed(s: string) {
    |s| == 0 || (!IsSpace(s[0]) && !IsSpace(s[|s| - 1]))
  }

  function TrimStart(s: string): (r: string)
    ensures |r| <= |s| && r == s[|s| - |r|..]
    ensures forall i :: 0 <= i < |s| - |r| ==> IsSpace(s[i])
    ensures |r| > 0 ==> !IsSpace(r[0])
  {
    if |s| > 0 && IsSpace(s[0]) then TrimStart(s[1..]) else s
  }

  function TrimEnd(s: string): (r: string)
    ensures |r| <= |s| && r == s[..|r|]
    ensures forall i :: |r| <= i < |s| ==> IsSpace(s[i])
    ensures |r| > 0 ==> !IsSpace(r[|r| - 1])
  {
    if |s| > 0 && IsSpace(s[|s| - 1]) then TrimEnd(s[..|s| - 1]) else s
  }

  /** `s.trim()`: `s` without its leading and trailing white space. */
  function Trim(s: string): (r: string)
    ensures Trimmed(r)
    ensures |r| <= |s|
    ensures r == "" <==> forall i :: 0 <= i < |s| ==> IsSpace(s[i])
    ensures Trimmed(s) ==> r == s
  {
    var t := TrimStart(s);
    if TrimEnd(t) == "" then TrimAllSpace(s, t); "" else TrimEnd(t)
  }

  lemma TrimAllSpace(s: string, t: string)
    requires t == TrimStart(s) && TrimEnd(t) == ""
    ensures forall i :: 0 <= i < |s| ==> IsSpace(s[i])
  {
    assert t == "";
  }

  /** Trimming never introduces a character that was not already there. */
  lemma TrimKeepsAbsent(s: string, c: char)
    requires c !in s
    ensures c !in Trim(s)
  {
    var t := TrimStart(s);
    if Trim(s) != "" {
      assert Trim(s) == TrimEnd(t);
      AbsentFromSlice(s, c, |s| - |t|, |TrimEnd(t)|);
    }
  }

  lemma AbsentFromSlice(s: string, c: char, lo: nat, m: nat)
    requires c !in s && lo + m <= |s|
    ensures c !in s[lo..][..m]
  {
    forall k | 0 <= k < m ensures s[lo..][..m][k] != c {
      assert s[lo..][..m][k] == s[lo + k];
    }
  }

  lemma TrimIdempotent(s: string)
    ensures Trim(Trim(s)) == Trim(s)
  {
  }

  /** `s.split(sep)` for a one-character separator; the empty string gives `[""]`. */
  function Split(s: string, sep: char): (parts: seq<string>)
    ensures |parts| >= 1
    ensures forall k :: 0 <= k < |parts| ==> sep !in parts[k]
    decreases |s|
  {
    if |s| == 0 then [""]
    else
      var rest := Split(s[1..], sep);
      if s[0] == sep then [""] + rest
      else [[s[0]] + rest[0]] + rest[1..]
  }

  /** `s.split(/\s+/)`: the pieces between maximal runs of white space; `""` gives `[""]`. */
  function SplitWs(s: string): (parts: seq<string>)
    ensures |parts| >= 1
    ensures forall k, i :: 0 <= k < |parts| && 0 <= i < |parts[k]| ==> !IsSpace(parts[k][i])
    decreases |s|
  {
    if |s| == 0 then [""]
    else if IsSpace(s[0]) then [""] + SplitWs(TrimStart(s[1..]))
    else
      var rest := SplitWs(s[1..]);
      [[s[0]] + rest[0]] + rest[1..]
  }

  /** Trailing white space gives a last part that is empty, after at least one other part. */
  lemma {:induction false} SplitWsTrailing(s: string)
    requires |s| > 0 && IsSpace(s[|s| - 1])
    ensures |SplitWs(s)| >= 2 && SplitWs(s)[|SplitWs(s)| - 1] == ""
    decreases |s|, 1
  {
    if IsSpace(s[0]) {
      SplitWsAfterSpace(s);
      TrimStartTail(s);
      SplitWsTrailingAfterSpace(s, TrimStart(s[1..]));
    } else {
      SplitWsTrailingAfterWord(s);
    }
  }

  lemma {:induction false} SplitWsTrailingAfterSpace(s: string, t: string)
    requires SplitWs(s) == [""] + SplitWs(t) && |t| < |s|
    requires |t| > 0 ==> IsSpace(t[|t| - 1])
    ensures |SplitWs(s)| >= 2 && SplitWs(s)[|SplitWs(s)| - 1] == ""
    decreases |s|, 0
  {
    if |t| > 0 {
      SplitWsTrailing(t);
    } else {
      SplitWsEmpty(t);
    }
    EmptyThenLast(SplitWs(t));
  }

  lemma SplitWsEmpty(t: string)
    requires |t| == 0
    ensures SplitWs(t) == [""]
  {
  }

  lemma TrimStartTail(s: string)
    requires |s| > 0
    ensures var t := TrimStart(s[1..]); |t| < |s| && (|t| > 0 ==> t[|t| - 1] == s[|s| - 1])
  {
    var t := TrimStart(s[1..]);
    if |t| > 0 {
      TrimStartKeepsLast(s[1..]);
    }
  }

  lemma SplitWsAfterSpace(s: string)
    requires |s| > 0 && IsSpace(s[0])
    ensures SplitWs(s) == [""] + SplitWs(TrimStart(s[1..]))
  {
  }

  lemma TrimStartKeepsLast(s: string)
    requires |TrimStart(s)| > 0
    ensures TrimStart(s)[|TrimStart(s)| - 1] == s[|s| - 1]
  {
  }

  lemma {:induction false} SplitWsTrailingAfterWord(s: string)
    requires |s| > 0 && IsSpace(s[|s| - 1]) && !IsSpace(s[0])
    ensures |SplitWs(s)| >= 2 && SplitWs(s)[|SplitWs(s)| - 1] == ""
    decreases |s|, 0
  {
    assert |s| >= 2;
    var rest := SplitWs(s[1..]);
    assert SplitWs(s) == [[s[0]] + rest[0]] + rest[1..];
    SplitWsTrailing(s[1..]);
    MergedKeepsLast(s[0], rest);
  }

  lemma EmptyThenLast(x: seq<string>)
    requires |x| >= 1 && x[|x| - 1] == ""
    ensures |[""] + x| >= 2 && ([""] + x)[|[""] + x| - 1] == ""
  {
  }

  lemma MergedKeepsLast(c: char, rest: seq<string>)
    requires |rest| >= 2 && rest[|rest| - 1] == ""
    ensures var m := [[c] + rest[0]] + rest[1..]; |m| >= 2 && m[|m| - 1] == ""
  {
  }

  /** `parts.join(sep)`; an empty array gives the empty string. */
  function Join(parts: seq<string>, sep: string): string
  {
    if |parts| == 0 then ""
    else if |parts| == 1 then parts[0]
    else parts[0] + sep + Join(parts[1..], sep)
  }

  /** Splitting and joining back with the same separator gives the original string. */
  lemma {:induction false} JoinSplit(s: string, sep: char)
    ensures Join(Split(s, sep), [sep]) == s
    decreases |s|
  {
    if |s| > 0 {
      var rest := Split(s[1..], sep);
      JoinSplit(s[1..], sep);
      if s[0] == sep {
        assert ([""] + rest)[1..] == rest;
      } else if |rest| > 1 {
        var parts := [[s[0]] + rest[0]] + rest[1..];
        assert parts[1..] == rest[1..];
      }
    }
  }

  lemma {:induction false} SplitNoSep(a: string, sep: char)
    requires sep !in a
    ensures Split(a, sep) == [a]
    decreases |a|
  {
    if |a| > 0 {
      SplitNoSep(a[1..], sep);
      assert [a[0]] + a[1..] == a;
    }
  }

  lemma {:induction false} SplitAt(a: string, sep: char, b: string)
    requires sep !in a
    ensures Split(a + [sep] + b, sep) == [a] + Split(b, sep)
    decreases |a|
  {
    var s := a + [sep] + b;
    if |a| == 0 {
      assert s[1..] == b;
    } else {
      assert s[1..] == a[1..] + [sep] + b;
      SplitAt(a[1..], sep, b);
      assert [a[0]] + a[1..] == a;
    }
  }

  /** Joining separator-free parts and splitting again gives the parts back. */
  lemma {:induction false} SplitJoin(parts: seq<string>, sep: char)
    requires |parts| > 0
    requires forall k :: 0 <= k < |parts| ==> sep !in parts[k]
    ensures Split(Join(parts, [sep]), sep) == parts
  {
    if |parts| == 1 {
      SplitNoSep(parts[0], sep);
    } else {
      SplitJoin(parts[1..], sep);
      SplitAt(parts[0], sep, Join(parts[1..], [sep]));
      assert [parts[0]] + parts[1..] == parts;
    }
  }

  lemma {:induction false} JoinAppend(a: seq<string>, b: seq<string>, sep: string)
    requires |a| > 0 && |b| > 0
    ensures Join(a + b, sep) == Join(a, sep) + sep + Join(b, sep)
  {
    if |a| == 1 {
      assert (a + b)[1..] == b;
    } else {
      assert (a + b)[1..] == a[1..] + b;
      JoinAppend(a[1..], b, sep);
    }
  }

  /** The summed lengths of the parts. */
  function TotalLength(parts: seq<string>): nat
  {
    if |parts| == 0 then 0 else |parts[0]| + TotalLength(parts[1..])
  }

  /** Joining `n` parts inserts exactly `n - 1` separators. */
  lemma {:induction false} JoinLength(parts: seq<string>, sep: string)
    requires |parts| > 0
    ensures |Join(parts, sep)| == TotalLength(parts) + (|parts| - 1) * |sep|
  {
    if |parts| > 1 {
      JoinLength(parts[1..], sep);
    }
  }

  /** `s.substring(0, n)`: the first `n` characters, or all of `s` when it is shorter. */
  function Prefix(s: string, n: nat): (r: string)
    ensures |r| == if n < |s| then n else |s|
    ensures r == s[..|r|]
  {
    if n < |s| then s[..n] else s
  }

  predicate StartsWith(s: string, p: string) {
    |p| <= |s| && s[..|p|] == p
  }

  /** A prefix of a prefix is a prefix. */
  lemma StartsWithTrans(s: string, t: string, p: string)
    requires StartsWith(s, t) && StartsWith(t, p)
    ensures StartsWith(s, p)
  {
    assert s[..|p|] == s[..|t|][..|p|];
  }

  /** `s.includes(sub)`. */
  predicate Includes(s: string, sub: string)
    decreases |s|
  {
    StartsWith(s, sub) || (|s| > 0 && Includes(s[1..], sub))
  }

  /** `pat` occurs in `s` at index `i`. */
  predicate MatchAt(s: string, pat: string, i: nat) {
    i + |pat| <= |s| && s[i..i + |pat|] == pat
  }

  /** The first index at or after `from` at which `pat` occurs in `s` (`s.indexOf(pat)`, None for -1). */
  function IndexOf(s: string, pat: string, from: nat := 0): (r: Option<nat>)
    requires from <= |s|
    ensures r.Some? ==> from <= r.value && MatchAt(s, pat, r.value)
    ensures forall i: nat :: from <= i <= |s| && (r.None? || i < r.value) ==> !MatchAt(s, pat, i)
    decreases |s| - from
  {
    if MatchAt(s, pat, from) then Some(from)
    else if from == |s| then None
    else IndexOf(s, pat, from + 1)
  }

  /** `s.replace(pat, rep)` with a string pattern: only the first occurrence is replaced. */
  function ReplaceFirst(s: string, pat: string, rep: string): string
  {
    match IndexOf(s, pat)
    case None => s
    case Some(i) => s[..i] + rep + s[i + |pat|..]
  }

  /** Replacing the first occurrence of a prefix of `s` by nothing drops that prefix. */
  lemma ReplaceFirstPrefix(s: string, pat: string)
    requires StartsWith(s, pat)
    ensures ReplaceFirst(s, pat, "") == s[|pat|..]
  {
    assert MatchAt(s, pat, 0);
    assert s[..0] + "" + s[|pat|..] == s[|pat|..];
  }

  function DigitChar(d: nat): (c: char)
    requires d < 10
    ensures '0' <= c <= '9'
  {
    ['0', '1', '2', '3', '4', '5', '6', '7', '8', '9'][d]
  }

  lemma DigitCharInjective(a: nat, b: nat)
    requires a < 10 && b < 10
    ensures DigitChar(a) == DigitChar(b) ==> a == b
  {
  }

  /** The decimal form of a natural number, as JavaScript prints it. */
  function NatToString(n: nat): (r: string)
    ensures |r| >= 1
    ensures forall k :: 0 <= k < |r| ==> '0' <= r[k] <= '9'
    ensures n >= 10 <==> |r| >= 2
    decreases n
  {
    if n < 10 then [DigitChar(n)] else NatToString(n / 10) + [DigitChar(n % 10)]
  }

  /** Different numbers print differently. */
  lemma {:induction false} NatToStringInjective(a: nat, b: nat)
    requires NatToString(a) == NatToString(b)
    ensures a == b
    decreases a
  {
    var s := NatToString(a);
    if a >= 10 && b >= 10 {
      assert NatToString(a / 10) == s[..|s| - 1] == NatToString(b / 10);
      assert DigitChar(a % 10) == s[|s| - 1] == DigitChar(b % 10);
      DigitCharInjective(a % 10, b % 10);
      NatToStringInjective(a / 10, b / 10);
    } else if a < 10 && b < 10 {
      DigitCharInjective(a, b);
    }
  }

  /** The decimal form of an integer, with a leading `-` when it is negative. */
  function IntToString(x: int): (r: string)
    ensures |r| >= 1
    ensures x < 0 <==> r[0] == '-'
  {
    if x < 0 then "-" + NatToString(-x) else NatToString(x)
  }
}
