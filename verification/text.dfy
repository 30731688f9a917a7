/**
 * The JavaScript string operations the core of `eco` relies on, stated over
 * `seq<char>`: `trim`, `toLowerCase` (as far as it matters here), `endsWith`,
 * `replace(/c/g, ...)`, `replace(substring, "")`, and a split on one
 * separator character used to state the IPv4 pattern.
 */
module Text {

  import opened Optional

  /** JavaScript's WhiteSpace and LineTerminator code points: what `trim` strips. */
  predicate IsJsSpace(c: char) {
    var n := c as int;
    || n == 0x09 || n == 0x0A || n == 0x0B || n == 0x0C || n == 0x0D
    || n == 0x20 || n == 0xA0 || n == 0x1680
    || (0x2000 <= n <= 0x200A)
    || n == 0x2028 || n == 0x2029 || n == 0x202F || n == 0x205F
    || n == 0x3000 || n == 0xFEFF
  }

  /** Drops the leading whitespace: what remains is a suffix of `s`. */
  function TrimStart(s: string): (r: string)
    ensures |r| <= |s| && r == s[|s| - |r|..]
    ensures r != [] ==> !IsJsSpace(r[0])
    ensures forall i :: 0 <= i < |s| - |r| ==> IsJsSpace(s[i])
  {
    if s != [] && IsJsSpace(s[0]) then TrimStart(s[1..]) else s
  }

  /** Drops the trailing whitespace: what remains is a prefix of `s`. */
  function TrimEnd(s: string): (r: string)
    ensures |r| <= |s| && r == s[..|r|]
    ensures r != [] ==> !IsJsSpace(r[|r| - 1])
    ensures forall i :: |r| <= i < |s| ==> IsJsSpace(s[i])
  {
    if s != [] && IsJsSpace(s[|s| - 1]) then TrimEnd(s[..|s| - 1]) else s
  }

  /** `String.prototype.trim`: the middle of `s` between its leading and
      trailing whitespace. It is empty exactly when `s` is all whitespace. */
  function Trim(s: string): (r: string)
    ensures |r| <= |s|
    ensures r == [] <==> forall i :: 0 <= i < |s| ==> IsJsSpace(s[i])
    ensures r != [] ==> !IsJsSpace(r[0]) && !IsJsSpace(r[|r| - 1])
    ensures exists k :: && OccursAt(s, r, k)
                        && (forall i :: 0 <= i < k ==> IsJsSpace(s[i]))
                        && (forall i :: k + |r| <= i < |s| ==> IsJsSpace(s[i]))
  {
    var t := TrimStart(s);
    var r := TrimEnd(t);
    TrimmedMiddle(s, t, r, |s| - |t|);
    r
  }

  /** A prefix `r` of the suffix `t` of `s` that starts at `k`, where
      everything before `k` and everything in `t` after `r` is whitespace,
      and `r` neither starts nor ends with whitespace: `r` is `s` with the
      whitespace at both ends removed. */
  lemma TrimmedMiddle(s: string, t: string, r: string, k: nat)
    requires k <= |s| && t == s[k..] && |r| <= |t| && r == t[..|r|]
    requires forall i :: 0 <= i < k ==> IsJsSpace(s[i])
    requires forall i :: |r| <= i < |t| ==> IsJsSpace(t[i])
    requires r != [] ==> !IsJsSpace(r[0]) && !IsJsSpace(r[|r| - 1])
    ensures |r| <= |s|
    ensures r == [] <==> forall i :: 0 <= i < |s| ==> IsJsSpace(s[i])
    ensures exists j :: && OccursAt(s, r, j)
                        && (forall i :: 0 <= i < j ==> IsJsSpace(s[i]))
                        && (forall i :: j + |r| <= i < |s| ==> IsJsSpace(s[i]))
  {
    forall i | k + |r| <= i < |s|
      ensures IsJsSpace(s[i])
    {
      assert s[i] == t[i - k];
    }
    assert OccursAt(s, r, k);
    if r != [] {
      assert s[k] == r[0];
    }
  }

  /** `toLowerCase` on one character, for the ASCII letters. */
  function LowerAscii(c: char): (l: char)
  {
    if 'A' <= c <= 'Z' then (c as int + 32) as char else c
  }

  /** `toLowerCase` on a string, character by character over ASCII. */
  function ToLowerAscii(s: string): (r: string)
    ensures |r| == |s|
    ensures forall i :: 0 <= i < |s| ==> r[i] == LowerAscii(s[i])
  {
    seq(|s|, i requires 0 <= i < |s| => LowerAscii(s[i]))
  }

  /** `String.prototype.endsWith`. */
  predicate EndsWith(s: string, suffix: string) {
    |suffix| <= |s| && s[|s| - |suffix|..] == suffix
  }

  /** `s.replace(/from/g, to)` for a one-character pattern: every `from`
      becomes `to`, nothing else moves. */
  function ReplaceAllChar(s: string, from: char, to: char): (r: string)
    ensures |r| == |s|
    ensures forall i :: 0 <= i < |s| ==> r[i] == (if s[i] == from then to else s[i])
    ensures from != to ==> from !in r
  {
    seq(|s|, i requires 0 <= i < |s| => if s[i] == from then to else s[i])
  }

  /** `pat` occurs in `s` starting at index `j`. */
  predicate OccursAt(s: string, pat: string, j: int) {
    0 <= j && j + |pat| <= |s| && s[j..j + |pat|] == pat
  }

  /** The first index at or after `from` where `pat` occurs in `s`, the
      search `String.prototype.replace` performs for a string pattern. */
  function IndexOfFrom(s: string, pat: string, from: nat): (r: Option<nat>)
    ensures r.Some? ==> from <= r.value && OccursAt(s, pat, r.value)
    ensures r.Some? ==> forall j :: from <= j < r.value ==> !OccursAt(s, pat, j)
    ensures r.None? ==> forall j :: from <= j ==> !OccursAt(s, pat, j)
    decreases |s| - from
  {
    if from + |pat| > |s| then None
    else if s[from..from + |pat|] == pat then Some(from)
    else IndexOfFrom(s, pat, from + 1)
  }

  /** `s.replace(pat, "")` with a string pattern: the FIRST occurrence of
      `pat`, and only that one, is deleted; with no occurrence `s` is kept. */
  function RemoveFirst(s: string, pat: string): (r: string)
    ensures (forall k :: !OccursAt(s, pat, k)) ==> r == s
    ensures (exists k :: OccursAt(s, pat, k)) ==> |r| + |pat| == |s|
  {
    match IndexOfFrom(s, pat, 0)
    case None => s
    case Some(i) => s[..i] + s[i + |pat|..]
  }

  /** With `pat` first occurring at `i`, that occurrence is cut out. */
  lemma RemoveFirstAt(s: string, pat: string, i: nat)
    requires OccursAt(s, pat, i) && forall k :: 0 <= k < i ==> !OccursAt(s, pat, k)
    ensures RemoveFirst(s, pat) == s[..i] + s[i + |pat|..]
  {
    assert IndexOfFrom(s, pat, 0) == Some(i);
  }

  /** Deleting never adds a character. */
  lemma RemoveFirstSubset(s: string, pat: string)
    ensures forall c :: c in RemoveFirst(s, pat) ==> c in s
  {
    match IndexOfFrom(s, pat, 0)
    case None =>
    case Some(i) =>
      var r := s[..i] + s[i + |pat|..];
      forall c | c in r
        ensures c in s
      {
        var k :| 0 <= k < |r| && r[k] == c;
        if k < i {
          assert r[k] == s[k];
        } else {
          assert r[k] == s[k + |pat|];
        }
      }
  }

  /** `replace(/from/g, to)` works piece by piece. */
  lemma ReplaceAllCharAppend(a: string, b: string, from: char, to: char)
    ensures ReplaceAllChar(a + b, from, to) == ReplaceAllChar(a, from, to) + ReplaceAllChar(b, from, to)
  {
    var l, r := ReplaceAllChar(a + b, from, to), ReplaceAllChar(a, from, to) + ReplaceAllChar(b, from, to);
    assert forall k :: 0 <= k < |l| ==> l[k] == r[k] by {
      forall k | 0 <= k < |l|
        ensures l[k] == r[k]
      {
        if k < |a| {
          assert (a + b)[k] == a[k];
        } else {
          assert (a + b)[k] == b[k - |a|];
        }
      }
    }
  }

  /** A string without `from` is left alone. */
  lemma ReplaceAllCharAbsent(a: string, from: char, to: char)
    requires from !in a
    ensures ReplaceAllChar(a, from, to) == a
  {
  }

  /** When `pat` starts `s`, deleting its first occurrence drops that prefix. */
  lemma RemoveFirstAtStart(s: string, pat: string)
    requires OccursAt(s, pat, 0)
    ensures RemoveFirst(s, pat) == s[|pat|..]
  {
    RemoveFirstAt(s, pat, 0);
    assert s[..0] + s[|pat|..] == s[|pat|..];
  }

  /** A colon path led by a colon-free `pat`: after the colon rewrite and
      the deletion of the first `pat`, a slash path is left. */
  lemma RemoveLeadingThenSlash(pat: string, rest: string)
    requires ':' !in pat
    ensures RemoveFirst(ReplaceAllChar(pat + ":" + rest, ':', '/'), pat) == "/" + ReplaceAllChar(rest, ':', '/')
  {
    var head := pat + ":";
    var tail := ReplaceAllChar(rest, ':', '/');
    ReplaceAllCharAppend(head, rest, ':', '/');
    ReplaceAllCharAppend(pat, ":", ':', '/');
    ReplaceAllCharAbsent(pat, ':', '/');
    assert ReplaceAllChar(":", ':', '/') == "/";
    var s := (pat + "/") + tail;
    assert ReplaceAllChar(head + rest, ':', '/') == s;
    assert OccursAt(s, pat, 0) by {
      assert s[..|pat|] == pat;
    }
    RemoveFirstAtStart(s, pat);
    assert s[|pat|..] == "/" + tail;
  }

  /** Occurrences after the first one survive the deletion, shifted left. */
  lemma RemoveFirstKeepsLater(s: string, pat: string, i: nat, j: nat)
    requires OccursAt(s, pat, i) && forall k :: 0 <= k < i ==> !OccursAt(s, pat, k)
    requires i + |pat| <= j && OccursAt(s, pat, j)
    ensures OccursAt(RemoveFirst(s, pat), pat, j - |pat|)
  {
    var n := |pat|;
    RemoveFirstAt(s, pat, i);
    var r := s[..i] + s[i + n..];
    assert forall x :: i <= x < |r| ==> r[x] == s[x + n];
    assert r[j - n..j] == s[j..j + n];
  }

  /** Splits `s` at every `sep`; there is always at least one part. */
  function Split(s: string, sep: char): (parts: seq<string>)
    ensures |parts| >= 1
    ensures forall k :: 0 <= k < |parts| ==> sep !in parts[k]
  {
    if s == [] then [[]]
    else
      var rest := Split(s[1..], sep);
      if s[0] == sep then [[]] + rest
      else [[s[0]] + rest[0]] + rest[1..]
  }

  /** Glues the parts back together with `sep` between neighbours. */
  function Join(parts: seq<string>, sep: char): string
    requires |parts| >= 1
  {
    if |parts| == 1 then parts[0] else parts[0] + [sep] + Join(parts[1..], sep)
  }

  /** Joining four parts spelled out. */
  lemma Join4(a: string, b: string, c: string, d: string, sep: char)
    ensures Join([a, b, c, d], sep) == a + [sep] + b + [sep] + c + [sep] + d
  {
    var p := [a, b, c, d];
    assert p[1..] == [b, c, d];
    assert p[1..][1..] == [c, d];
    assert p[1..][1..][1..] == [d];
    assert Join([c, d], sep) == c + [sep] + d;
    assert Join([b, c, d], sep) == b + [sep] + (c + [sep] + d);
  }

  /** Splitting loses nothing: joining the parts gives `s` back. */
  lemma {:induction false} JoinSplit(s: string, sep: char)
    ensures Join(Split(s, sep), sep) == s
  {
    if s != [] {
      JoinSplit(s[1..], sep);
      var rest := Split(s[1..], sep);
      if s[0] != sep {
        if |rest| > 1 {
          assert Join(rest, sep) == rest[0] + [sep] + Join(rest[1..], sep);
        }
      }
    }
  }

  /** A piece without `sep` followed by `sep` splits off as one part. */
  lemma {:induction false} SplitCons(a: string, sep: char, b: string)
    requires sep !in a
    ensures Split(a + [sep] + b, sep) == [a] + Split(b, sep)
  {
    if a != [] {
      SplitCons(a[1..], sep, b);
      assert (a + [sep] + b)[1..] == a[1..] + [sep] + b;
      assert [a[0]] + a[1..] == a;
    } else {
      assert (a + [sep] + b)[1..] == b;
    }
  }

  /** A string without `sep` is a single part. */
  lemma {:induction false} SplitNone(a: string, sep: char)
    requires sep !in a
    ensures Split(a, sep) == [a]
  {
    if a != [] {
      SplitNone(a[1..], sep);
      assert [a[0]] + a[1..] == a;
    }
  }

  /** Joining parts without `sep`, then splitting, gives the parts back. */
  lemma {:induction false} SplitJoin(parts: seq<string>, sep: char)
    requires |parts| >= 1
    requires forall k :: 0 <= k < |parts| ==> sep !in parts[k]
    ensures Split(Join(parts, sep), sep) == parts
  {
    if |parts| == 1 {
      SplitNone(parts[0], sep);
    } else {
      SplitJoin(parts[1..], sep);
      SplitCons(parts[0], sep, Join(parts[1..], sep));
      assert [parts[0]] + parts[1..] == parts;
    }
  }
}
