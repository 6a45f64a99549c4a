/**
 * The Python string built-ins the renamer relies on (`str.lower`, `in`,
 * `str.replace(old, "")`, `str.split()`, `str.split('\n')`, `" ".join`,
 * `str.strip`), restricted to ASCII text.
 */
module PyStr {

  /** `c.isspace()` for an ASCII character: space, \t \n \v \f \r and the separators 0x1C..0x1F.
      Python's `str.split()` and the regular-expression class `\s` use this same set. */
  predicate IsSpace(c: char) {
    c == ' ' || (9 <= c as int <= 13) || (28 <= c as int <= 31)
  }

  /** `c.lower()` for an ASCII character. */
  function LowerChar(c: char): char {
    if 'A' <= c <= 'Z' then (c as int + 32) as char else c
  }

  /** `s.lower()`. */
  function Lower(s: string): string {
    seq(|s|, i requires 0 <= i < |s| => LowerChar(s[i]))
  }

  /** `p` occurs in `s` starting at index `i`. */
  predicate OccursAt(s: string, p: string, i: nat) {
    i + |p| <= |s| && s[i..i + |p|] == p
  }

  /** `p in s`. */
  predicate Contains(s: string, p: string) {
    exists i: nat :: i <= |s| && OccursAt(s, p, i)
  }

  /** A piece of `str.split()`'s result: non-empty and free of whitespace. */
  predicate IsToken(t: string) {
    |t| > 0 && forall i :: 0 <= i < |t| ==> !IsSpace(t[i])
  }

  /** `s.replace(p, "")`: drops the non-overlapping occurrences of `p`, found left to right. */
  function RemoveAll(s: string, p: string): string
    requires p != []
    decreases |s|
  {
    if |s| < |p| then s
    else if s[..|p|] == p then RemoveAll(s[|p|..], p)
    else [s[0]] + RemoveAll(s[1..], p)
  }

  /** Length of the leading run of non-whitespace characters of `s`. */
  function TokenEnd(s: string): (n: nat)
    ensures n <= |s|
    ensures forall i :: 0 <= i < n ==> !IsSpace(s[i])
    ensures n == |s| || IsSpace(s[n])
  {
    if s == [] || IsSpace(s[0]) then 0 else 1 + TokenEnd(s[1..])
  }

  /** `s.split()`: the maximal runs of non-whitespace characters, in order. */
  function Split(s: string): (r: seq<string>)
    ensures forall k :: 0 <= k < |r| ==> IsToken(r[k])
    decreases |s|
  {
    if s == [] then []
    else if IsSpace(s[0]) then Split(s[1..])
    else
      var n := TokenEnd(s);
      [s[..n]] + Split(s[n..])
  }

  /** `sep.join(ts)`. */
  function JoinWith(sep: string, ts: seq<string>): string {
    if |ts| == 0 then ""
    else if |ts| == 1 then ts[0]
    else ts[0] + sep + JoinWith(sep, ts[1..])
  }

  /** `" ".join(ts)`. */
  function Join(ts: seq<string>): string {
    JoinWith(" ", ts)
  }

  function StripStart(s: string): string {
    if s != [] && IsSpace(s[0]) then StripStart(s[1..]) else s
  }

  function StripEnd(s: string): string {
    if s != [] && IsSpace(s[|s| - 1]) then StripEnd(s[..|s| - 1]) else s
  }

  /** `s.strip()`. */
  function Strip(s: string): string {
    StripEnd(StripStart(s))
  }

  /** `s.split('\n')`: always at least one piece; empty pieces are kept. */
  function SplitLines(s: string): (r: seq<string>)
    ensures |r| >= 1
  {
    if s == [] then [""]
    else
      var rest := SplitLines(s[1..]);
      if s[0] == '\n' then [""] + rest else [[s[0]] + rest[0]] + rest[1..]
  }

  // ---------------------------------------------------------------------
  // Properties

  lemma {:induction false} OccursInSuffix(s: string, p: string, j: nat, i: nat)
    requires j <= |s| && OccursAt(s[j..], p, i)
    ensures OccursAt(s, p, i + j)
  {
    assert s[j..][i..i + |p|] == s[i + j..i + j + |p|];
  }

  /** Something that occurs in `t` occurs in every string that contains `t`. */
  lemma ContainsTransitive(s: string, t: string, p: string)
    requires Contains(s, t) && Contains(t, p)
    ensures Contains(s, p)
  {
    var i: nat :| i <= |s| && OccursAt(s, t, i);
    var j: nat :| j <= |t| && OccursAt(t, p, j);
    assert t == s[i..i + |t|];
    assert p == t[j..j + |p|];
    assert forall k :: 0 <= k < |p| ==> p[k] == s[i + j + k];
    assert OccursAt(s, p, i + j);
  }

  /** A string without `p` is left alone by `replace(p, "")`. */
  lemma {:induction false} RemoveAllAbsent(s: string, p: string)
    requires p != [] && !Contains(s, p)
    ensures RemoveAll(s, p) == s
    decreases |s|
  {
    if |s| < |p| {
    } else if s[..|p|] == p {
      assert OccursAt(s, p, 0);
    } else {
      forall i: nat | i <= |s[1..]| ensures !OccursAt(s[1..], p, i) {
        if OccursAt(s[1..], p, i) {
          OccursInSuffix(s, p, 1, i);
        }
      }
      RemoveAllAbsent(s[1..], p);
      assert s == [s[0]] + s[1..];
    }
  }

  /** Every piece of `s.split()` is a substring of `s`. */
  lemma {:induction false} SplitTokensOccur(s: string)
    ensures forall k :: 0 <= k < |Split(s)| ==> Contains(s, Split(s)[k])
    decreases |s|
  {
    if s == [] {
    } else if IsSpace(s[0]) {
      SplitTokensOccur(s[1..]);
      forall k | 0 <= k < |Split(s)| ensures Contains(s, Split(s)[k]) {
        var i: nat :| i <= |s[1..]| && OccursAt(s[1..], Split(s[1..])[k], i);
        OccursInSuffix(s, Split(s)[k], 1, i);
      }
    } else {
      var n := TokenEnd(s);
      SplitTokensOccur(s[n..]);
      assert OccursAt(s, s[..n], 0);
      forall k | 1 <= k < |Split(s)| ensures Contains(s, Split(s)[k]) {
        assert Split(s)[k] == Split(s[n..])[k - 1];
        var i: nat :| i <= |s[n..]| && OccursAt(s[n..], Split(s[n..])[k - 1], i);
        OccursInSuffix(s, Split(s)[k], n, i);
      }
    }
  }

  /** A token followed by whitespace is split off whole. */
  lemma SplitTokenThenRest(t: string, rest: string)
    requires IsToken(t)
    ensures Split(t + " " + rest) == [t] + Split(rest)
  {
    var s := t + " " + rest;
    assert s[..|t|] == t;
    assert TokenEnd(s) == |t| by {
      TokenEndAt(s, |t|);
    }
    assert s[|t|..][1..] == rest;
  }

  lemma {:induction false} TokenEndAt(s: string, n: nat)
    requires n < |s| && IsSpace(s[n]) && forall i :: 0 <= i < n ==> !IsSpace(s[i])
    ensures TokenEnd(s) == n
    decreases n
  {
    if n > 0 {
      TokenEndAt(s[1..], n - 1);
    }
  }

  /** `" ".join` then `split()` gives back the tokens: the split/join round trip. */
  lemma {:induction false} SplitJoin(ts: seq<string>)
    requires forall k :: 0 <= k < |ts| ==> IsToken(ts[k])
    ensures Split(Join(ts)) == ts
  {
    if |ts| == 0 {
    } else if |ts| == 1 {
      var t := ts[0];
      assert TokenEnd(t) == |t|;
      assert t[..|t|] == t && t[|t|..] == [];
    } else {
      SplitJoin(ts[1..]);
      SplitTokenThenRest(ts[0], Join(ts[1..]));
      assert ts == [ts[0]] + ts[1..];
    }
  }

  /** `'\n'.join` of the lines of `s.split('\n')` gives `s` back: the split/join round trip. */
  lemma {:induction false} SplitLinesJoin(s: string)
    ensures JoinWith("\n", SplitLines(s)) == s
  {
    if s != [] {
      SplitLinesJoin(s[1..]);
      var rest := SplitLines(s[1..]);
      if s[0] == '\n' {
        JoinWithCons("\n", "", rest);
        assert s == "\n" + s[1..];
      } else {
        JoinWithExtendHead("\n", s[0], rest);
        assert s == [s[0]] + s[1..];
      }
    }
  }

  lemma JoinWithCons(sep: string, t: string, ts: seq<string>)
    requires |ts| >= 1
    ensures JoinWith(sep, [t] + ts) == t + sep + JoinWith(sep, ts)
  {
    assert ([t] + ts)[1..] == ts;
  }

  lemma JoinWithExtendHead(sep: string, c: char, ts: seq<string>)
    requires |ts| >= 1
    ensures JoinWith(sep, [[c] + ts[0]] + ts[1..]) == [c] + JoinWith(sep, ts)
  {
    var us := [[c] + ts[0]] + ts[1..];
    if |ts| > 1 {
      assert us[1..] == ts[1..];
    }
  }

  /** No line of `s.split('\n')` holds a newline. */
  lemma {:induction false} SplitLinesNoNewline(s: string)
    ensures forall k, i :: 0 <= k < |SplitLines(s)| && 0 <= i < |SplitLines(s)[k]| ==> SplitLines(s)[k][i] != '\n'
  {
    if s != [] {
      SplitLinesNoNewline(s[1..]);
      var rest := SplitLines(s[1..]);
      var r := SplitLines(s);
      if s[0] != '\n' {
        forall k, i | 0 <= k < |r| && 0 <= i < |r[k]| ensures r[k][i] != '\n' {
          if k == 0 && i > 0 {
            assert r[0][i] == rest[0][i - 1];
          } else if k > 0 {
            assert r[k] == rest[k];
          }
        }
      }
    }
  }
}
