// Colon-delimited account paths (`Expenses:Food:Groceries`): the splitting,
// joining, truncation and prefix reasoning that every core file repeats with
// `account.split(":")` and `":".join(...)`.
module AccountPath {

  const Sep: char := ':'

  /** Python's `s.split(sep)`: never empty, and `"".split(sep) == [""]`. */
  function SplitOn(s: string, sep: char): (r: seq<string>)
    ensures |r| >= 1
    ensures forall i :: 0 <= i < |r| ==> sep !in r[i]
  {
    if |s| == 0 then [""]
    else
      var rest := SplitOn(s[1..], sep);
      if s[0] == sep then [""] + rest
      else [[s[0]] + rest[0]] + rest[1..]
  }

  /** Python's `sep.join(segs)`. */
  function JoinOn(segs: seq<string>, sep: char): string
  {
    if |segs| == 0 then ""
    else if |segs| == 1 then segs[0]
    else segs[0] + [sep] + JoinOn(segs[1..], sep)
  }

  lemma {:induction false} JoinSplit(s: string, sep: char)
    ensures JoinOn(SplitOn(s, sep), sep) == s
  {
    if |s| > 0 {
      var rest := SplitOn(s[1..], sep);
      JoinSplit(s[1..], sep);
      if s[0] == sep {
        assert ([""] + rest)[1..] == rest;
      } else if |rest| == 1 {
        assert [s[0]] + s[1..] == s;
      } else {
        var r := [[s[0]] + rest[0]] + rest[1..];
        assert r[1..] == rest[1..];
        assert JoinOn(rest, sep) == rest[0] + [sep] + JoinOn(rest[1..], sep);
        assert [s[0]] + s[1..] == s;
      }
    }
  }

  lemma {:induction false} SplitNoSep(s: string, sep: char)
    requires sep !in s
    ensures SplitOn(s, sep) == [s]
  {
    if |s| > 0 {
      SplitNoSep(s[1..], sep);
      assert [s[0]] + s[1..] == s;
    }
  }

  /** One step of `SplitOn` on a string with a known first character. */
  lemma SplitCons(c: char, t: string, sep: char)
    ensures var R := SplitOn(t, sep);
      SplitOn([c] + t, sep) == if c == sep then [""] + R else [[c] + R[0]] + R[1..]
  {
    assert ([c] + t)[0] == c && ([c] + t)[1..] == t;
  }

  /** Prepending a character to the first segment of a split with more after it. */
  lemma ConsFirst(c: string, R: seq<string>, Y: seq<string>)
    requires |R| >= 1
    ensures [c + (R + Y)[0]] + (R + Y)[1..] == ([c + R[0]] + R[1..]) + Y
  {
    assert (R + Y)[0] == R[0];
    assert (R + Y)[1..] == R[1..] + Y;
  }

  /** Splitting distributes over a separator placed between two strings. */
  lemma {:induction false} SplitConcat(x: string, y: string, sep: char)
    ensures SplitOn(x + [sep] + y, sep) == SplitOn(x, sep) + SplitOn(y, sep)
  {
    var Y := SplitOn(y, sep);
    if |x| == 0 {
      assert x + [sep] + y == [sep] + y;
      SplitCons(sep, y, sep);
    } else {
      var tail := x[1..] + [sep] + y;
      assert x + [sep] + y == [x[0]] + tail;
      assert x == [x[0]] + x[1..];
      SplitConcat(x[1..], y, sep);
      SplitCons(x[0], tail, sep);
      SplitCons(x[0], x[1..], sep);
      var R := SplitOn(x[1..], sep);
      if x[0] != sep {
        ConsFirst([x[0]], R, Y);
      }
    }
  }

  lemma {:induction false} SplitJoin(segs: seq<string>, sep: char)
    requires |segs| >= 1
    requires forall i :: 0 <= i < |segs| ==> sep !in segs[i]
    ensures SplitOn(JoinOn(segs, sep), sep) == segs
  {
    if |segs| == 1 {
      SplitNoSep(segs[0], sep);
    } else {
      SplitJoin(segs[1..], sep);
      SplitNoSep(segs[0], sep);
      SplitConcat(segs[0], JoinOn(segs[1..], sep), sep);
      assert [segs[0]] + segs[1..] == segs;
    }
  }

  /** Joining splits back at every inner boundary. */
  lemma {:induction false} JoinAppend(segs: seq<string>, k: nat, sep: char)
    requires 1 <= k < |segs|
    ensures JoinOn(segs, sep) == JoinOn(segs[..k], sep) + [sep] + JoinOn(segs[k..], sep)
  {
    if k > 1 {
      JoinAppend(segs[1..], k - 1, sep);
      assert segs[1..][..k - 1] == segs[..k][1..];
      assert segs[1..][k - 1..] == segs[k..];
    } else {
      assert segs[..1] == [segs[0]];
      assert segs[1..] == segs[k..];
    }
  }

  // ---- account-level vocabulary ------------------------------------------

  function Segments(account: string): seq<string>
  {
    SplitOn(account, Sep)
  }

  function Join(segs: seq<string>): string
  {
    JoinOn(segs, Sep)
  }

  /** `account.split(":")[-1]`, the node's display name. */
  function LastSegment(account: string): string
  {
    var s := Segments(account);
    s[|s| - 1]
  }

  /** `account.split(":", 1)[0]`, the root account class. */
  function FirstSegment(account: string): string
  {
    Segments(account)[0]
  }

  /** `":".join(account.split(":")[:-1])`: the parent path, "" for a top-level account. */
  function Parent(account: string): string
  {
    var s := Segments(account);
    Join(s[..|s| - 1])
  }

  /** The end index of Python's slice `xs[:d]` on a list of length n. */
  function SliceEnd(n: nat, d: int): (e: nat)
    ensures e <= n
  {
    if d >= 0 then (if d <= n then d else n)
    else if n + d >= 0 then n + d else 0
  }

  /** `truncate_account`: keep the first `maxdepth` segments. */
  function Truncate(account: string, maxdepth: int): (r: string)
    ensures r <= account
    ensures SliceEnd(|Segments(account)|, maxdepth) == 0 ==> r == ""
  {
    var s := Segments(account);
    var k := SliceEnd(|s|, maxdepth);
    if k == 0 then Join(s[..0])
    else
      JoinedPrefix(account, k);
      Join(s[..k])
  }

  /** The paths `":".join(splits[:i+1])` for every i, shortest first. */
  function SegmentPrefixes(account: string): (r: seq<string>)
    ensures |r| == |Segments(account)|
  {
    var s := Segments(account);
    seq(|s|, i requires 0 <= i < |s| => Join(s[..i + 1]))
  }

  // ---- properties ----------------------------------------------------------

  /** Joining the first k segments of an account gives a prefix that ends at a
      segment boundary. */
  lemma JoinedPrefix(account: string, k: nat)
    requires 1 <= k <= |Segments(account)|
    ensures Join(Segments(account)[..k]) <= account
    ensures k == |Segments(account)| ==> Join(Segments(account)[..k]) == account
    ensures k < |Segments(account)| ==>
      |Join(Segments(account)[..k])| < |account| && account[|Join(Segments(account)[..k])|] == Sep
  {
    var s := Segments(account);
    JoinSplit(account, Sep);
    if k < |s| {
      JoinAppend(s, k, Sep);
    } else {
      assert s[..k] == s;
    }
  }

  lemma SegmentsOfPrefix(account: string, k: nat)
    requires 1 <= k <= |Segments(account)|
    ensures Segments(Join(Segments(account)[..k])) == Segments(account)[..k]
  {
    SplitJoin(Segments(account)[..k], Sep);
  }

  /** When at least one segment is kept, truncation keeps exactly the first
      `maxdepth` segments. */
  lemma TruncateSegments(account: string, maxdepth: int)
    requires SliceEnd(|Segments(account)|, maxdepth) >= 1
    ensures Segments(Truncate(account, maxdepth))
         == Segments(account)[..SliceEnd(|Segments(account)|, maxdepth)]
  {
    SegmentsOfPrefix(account, SliceEnd(|Segments(account)|, maxdepth));
  }

  /** Truncating twice to the same non-negative depth changes nothing more. */
  lemma TruncateIdempotent(account: string, maxdepth: int)
    requires maxdepth >= 0
    ensures Truncate(Truncate(account, maxdepth), maxdepth) == Truncate(account, maxdepth)
  {
    var s := Segments(account);
    var t := Truncate(account, maxdepth);
    if maxdepth == 0 {
      assert t == "";
    } else {
      var k := SliceEnd(|s|, maxdepth);
      TruncateSegments(account, maxdepth);
      assert SliceEnd(|Segments(t)|, maxdepth) == k;
      assert Segments(t)[..k] == s[..k];
    }
  }

  /** A truncation that keeps a segment is a segment-prefix of its input. */
  lemma TruncateIsSegmentPrefix(account: string, maxdepth: int)
    requires SliceEnd(|Segments(account)|, maxdepth) >= 1
    ensures Truncate(account, maxdepth) <= account
    ensures Truncate(account, maxdepth) == account
         || account[|Truncate(account, maxdepth)|] == Sep
  {
    JoinedPrefix(account, SliceEnd(|Segments(account)|, maxdepth));
  }

  /** A path is one of an account's segment prefixes exactly when the account
      equals it or starts with it followed by a colon. */
  lemma SegmentPrefixIff(k: string, account: string)
    ensures k in SegmentPrefixes(account) <==> (account == k || k + [Sep] <= account)
  {
    var s := Segments(account);
    var P := SegmentPrefixes(account);
    if k in P {
      var j :| 0 <= j < |P| && P[j] == k;
      JoinedPrefix(account, j + 1);
      if j + 1 < |s| {
        assert account[..|k| + 1] == k + [Sep];
      }
    }
    if account == k {
      JoinedPrefix(account, |s|);
      assert s[..|s|] == s;
      assert P[|s| - 1] == k;
    } else if k + [Sep] <= account {
      var y := account[|k| + 1..];
      assert account == k + [Sep] + y;
      SplitConcat(k, y, Sep);
      var m := |Segments(k)|;
      assert s == Segments(k) + Segments(y);
      assert s[..m] == Segments(k);
      JoinSplit(k, Sep);
      assert P[m - 1] == Join(s[..m]);
    }
  }

  /** The parent is the last proper segment prefix: "" or a string prefix of
      the account followed there by a colon. */
  lemma ParentIsPrefix(account: string)
    ensures Parent(account) <= account
    ensures Parent(account) == "" || Parent(account) + [Sep] <= account
  {
    var s := Segments(account);
    if |s| >= 2 {
      JoinedPrefix(account, |s| - 1);
      assert account[..|Parent(account)| + 1] == Parent(account) + [Sep];
    } else {
      assert s[..|s| - 1] == [];
    }
  }

  lemma ParentOfTopLevel(account: string)
    requires Sep !in account
    ensures Parent(account) == ""
    ensures LastSegment(account) == account
    ensures FirstSegment(account) == account
  {
    SplitNoSep(account, Sep);
  }

  /** The first segment of the first segment is itself. */
  lemma FirstSegmentIdempotent(account: string)
    ensures FirstSegment(FirstSegment(account)) == FirstSegment(account)
  {
    SplitNoSep(FirstSegment(account), Sep);
  }

  /** The last segment is the longest colon-free suffix of the account. */
  lemma LastSegmentIsSuffix(account: string)
    ensures Sep !in LastSegment(account)
    ensures |LastSegment(account)| <= |account|
    ensures account[|account| - |LastSegment(account)|..] == LastSegment(account)
    ensures |LastSegment(account)| < |account| ==> account[|account| - |LastSegment(account)| - 1] == Sep
    ensures Sep !in account ==> LastSegment(account) == account
  {
    var s := Segments(account);
    JoinSplit(account, Sep);
    if |s| > 1 {
      JoinAppend(s, |s| - 1, Sep);
      assert s[|s| - 1..] == [s[|s| - 1]];
    } else {
      SplitNoSep(account, Sep);
    }
    if Sep !in account {
      SplitNoSep(account, Sep);
    }
  }

  /** An account is top-level (one segment) exactly when it has no colon. */
  lemma TopLevelIff(account: string)
    ensures |Segments(account)| == 1 <==> Sep !in account
  {
    if Sep !in account {
      SplitNoSep(account, Sep);
    }
    if |Segments(account)| == 1 {
      JoinSplit(account, Sep);
    }
  }
}
