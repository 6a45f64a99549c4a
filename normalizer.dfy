/**
 * The name normaliser `normalize` (manual_certificate_renamer.py, line 15): lower-case,
 * delete every "mr.", then every "ms.", then every "mrs.", collapse whitespace runs into
 * single spaces and trim.
 */
module Normalizer {
  import opened PyStr

  /** `" ".join(str(name).lower().replace("mr.", "").replace("ms.", "").replace("mrs.", "").split()).strip()` */
  function Normalize(name: string): string {
    Strip(Join(Split(RemoveAll(RemoveAll(RemoveAll(Lower(name), "mr."), "ms."), "mrs."))))
  }

  /** Whitespace only as single ' ' characters standing between two non-whitespace characters. */
  predicate Canonical(s: string) {
    forall i :: 0 <= i < |s| && IsSpace(s[i]) ==>
      s[i] == ' ' && 0 < i < |s| - 1 && !IsSpace(s[i - 1]) && !IsSpace(s[i + 1])
  }

  /** Every character is its own lower case. */
  predicate LowerFixed(s: string) {
    forall i :: 0 <= i < |s| ==> LowerChar(s[i]) == s[i]
  }

  /** The shape of every normalised name: no leading or trailing whitespace, no whitespace
      other than ' ', never two spaces in a row, and it is the single-space join of its own tokens. */
  lemma NormalizeCanonical(name: string)
    ensures var r := Normalize(name);
      && (|r| > 0 ==> !IsSpace(r[0]) && !IsSpace(r[|r| - 1]))
      && (forall i :: 0 <= i < |r| && IsSpace(r[i]) ==> r[i] == ' ')
      && (forall i :: 0 <= i < |r| - 1 ==> !(r[i] == ' ' && r[i + 1] == ' '))
      && Join(Split(r)) == r
  {
    var ts := Split(RemoveAll(RemoveAll(RemoveAll(Lower(name), "mr."), "ms."), "mrs."));
    JoinCanonical(ts);
    StripCanonical(Join(ts));
    SplitJoin(ts);
  }

  /** The lower-cased name holds none of the three honorifics. */
  predicate HonorificFree(name: string) {
    !Contains(Lower(name), "mr.") && !Contains(Lower(name), "ms.") && !Contains(Lower(name), "mrs.")
  }

  /** Normalising twice changes nothing when the lower-cased name holds no honorific. */
  lemma NormalizeIdempotentWithoutHonorifics(name: string)
    requires HonorificFree(name)
    ensures Normalize(Normalize(name)) == Normalize(name)
  {
    var l := Lower(name);
    RemoveAllAbsent(l, "mr.");
    RemoveAllAbsent(l, "ms.");
    RemoveAllAbsent(l, "mrs.");
    var ts := Split(l);
    JoinCanonical(ts);
    StripCanonical(Join(ts));
    var n := Join(ts);
    assert Normalize(name) == n;

    SplitTokensOccur(l);
    forall k | 0 <= k < |ts| ensures LowerFixed(ts[k]) {
      LowerFixedSubstring(l, ts[k]);
    }
    JoinLowerFixed(ts);
    assert Lower(n) == n;

    HonorificAbsentFromJoin(l, ts, "mr.");
    HonorificAbsentFromJoin(l, ts, "ms.");
    HonorificAbsentFromJoin(l, ts, "mrs.");
    RemoveAllAbsent(n, "mr.");
    RemoveAllAbsent(n, "ms.");
    RemoveAllAbsent(n, "mrs.");
    SplitJoin(ts);
  }

  /** Without that condition normalising is not idempotent: deleting "mr." from "mmr.r."
      leaves a new "mr.", which only a second call deletes. */
  lemma NormalizeNotIdempotent()
    ensures Normalize("mmr.r.") == "mr."
    ensures Normalize(Normalize("mmr.r.")) == ""
  {
    RemoveMrFromMmrr();
    assert Lower("mmr.r.") == "mmr.r.";
    assert RemoveAll("mr.", "ms.") == "mr.";
    assert RemoveAll("mr.", "mrs.") == "mr.";
    SplitJoin(["mr."]);
    StripCanonical("mr.");
    NormalizeMr();
  }

  lemma RemoveMrFromMmrr()
    ensures RemoveAll("mmr.r.", "mr.") == "mr."
  {
    var s := "mmr.r.";
    assert s[..3][1] == 'm';
    assert s[1..][..3] == "mr.";
    assert s[1..][3..] == "r.";
  }

  lemma NormalizeMr()
    ensures Normalize("mr.") == ""
  {
    assert Lower("mr.") == "mr.";
    assert RemoveAll("mr.", "mr.") == "";
    assert RemoveAll("", "ms.") == "";
    assert RemoveAll("", "mrs.") == "";
  }

  // ---------------------------------------------------------------------
  // Helper lemmas

  lemma {:induction false} JoinCanonical(ts: seq<string>)
    requires forall k :: 0 <= k < |ts| ==> IsToken(ts[k])
    ensures Canonical(Join(ts))
    ensures |ts| > 0 ==> |Join(ts)| > 0
  {
    if |ts| > 1 {
      JoinCanonical(ts[1..]);
      var t, rest := ts[0], Join(ts[1..]);
      var s := Join(ts);
      assert s == t + " " + rest;
      forall i | 0 <= i < |s| && IsSpace(s[i])
        ensures s[i] == ' ' && 0 < i < |s| - 1 && !IsSpace(s[i - 1]) && !IsSpace(s[i + 1])
      {
        if i == |t| {
          assert s[i + 1] == rest[0];
        } else {
          assert s[i] == rest[i - |t| - 1];
          assert s[i + 1] == rest[i - |t|];
          if i > |t| + 1 {
            assert s[i - 1] == rest[i - |t| - 2];
          }
        }
      }
    }
  }

  lemma StripCanonical(s: string)
    requires Canonical(s)
    ensures Strip(s) == s
  {
  }

  lemma LowerFixedSubstring(s: string, t: string)
    requires LowerFixed(s) && Contains(s, t)
    ensures LowerFixed(t)
  {
    var i: nat :| i <= |s| && OccursAt(s, t, i);
    forall k | 0 <= k < |t| ensures LowerChar(t[k]) == t[k] {
      assert t[k] == s[i + k];
    }
  }

  lemma {:induction false} JoinLowerFixed(ts: seq<string>)
    requires forall k :: 0 <= k < |ts| ==> LowerFixed(ts[k])
    ensures LowerFixed(Join(ts))
  {
    if |ts| > 1 {
      JoinLowerFixed(ts[1..]);
      var t, rest := ts[0], Join(ts[1..]);
      var s := Join(ts);
      assert s == t + " " + rest;
      forall i | 0 <= i < |s| ensures LowerChar(s[i]) == s[i] {
        if i < |t| {
          assert s[i] == t[i];
        } else if i > |t| {
          assert s[i] == rest[i - |t| - 1];
        }
      }
    }
  }

  /** A whitespace-free pattern found in a space-join lies within one of the joined pieces. */
  lemma {:induction false} JoinOccurrence(ts: seq<string>, p: string, i: nat)
    requires |ts| > 0 && forall k :: 0 <= k < |p| ==> p[k] != ' '
    requires OccursAt(Join(ts), p, i)
    ensures exists k :: 0 <= k < |ts| && Contains(ts[k], p)
  {
    if |ts| == 1 {
      assert OccursAt(ts[0], p, i);
    } else {
      var t, rest := ts[0], Join(ts[1..]);
      var s := Join(ts);
      assert s == t + " " + rest;
      // the pattern cannot straddle the separating space
      assert s[|t|] == ' ';
      OccurrenceChar(s, p, i, |t|);
      if i + |p| <= |t| {
        assert s[i..i + |p|] == t[i..i + |p|];
        assert OccursAt(t, p, i);
      } else if i > |t| {
        assert s[i..i + |p|] == rest[i - |t| - 1..i - |t| - 1 + |p|];
        JoinOccurrence(ts[1..], p, i - |t| - 1);
        var k :| 0 <= k < |ts[1..]| && Contains(ts[1..][k], p);
        assert ts[k + 1] == ts[1..][k];
      }
    }
  }

  lemma OccurrenceChar(s: string, p: string, i: nat, j: nat)
    ensures OccursAt(s, p, i) && i <= j < i + |p| ==> p[j - i] == s[j]
  {
    if OccursAt(s, p, i) && i <= j < i + |p| {
      assert s[i..i + |p|][j - i] == s[j];
    }
  }

  lemma HonorificAbsentFromJoin(l: string, ts: seq<string>, h: string)
    requires ts == Split(l) && |h| > 0 && forall k :: 0 <= k < |h| ==> h[k] != ' '
    requires !Contains(l, h)
    requires forall k :: 0 <= k < |ts| ==> Contains(l, ts[k])
    ensures !Contains(Join(ts), h)
  {
    if Contains(Join(ts), h) {
      var i: nat :| i <= |Join(ts)| && OccursAt(Join(ts), h, i);
      JoinOccurrence(ts, h, i);
      var k :| 0 <= k < |ts| && Contains(ts[k], h);
      ContainsTransitive(l, ts[k], h);
    }
  }
}
