/** `path`: splitting a string into branches, printing them, and joining two paths. */
module Path {

  type Branches = seq<string>

  /** Appending a branch, trimming `..` and `.` against the branches already there. */
  function Push(bs: Branches, b: string): Branches
  {
    if b == ".." && |bs| >= 1 then bs[..|bs| - 1]
    else if b == "." && |bs| >= 1 then bs
    else bs + [b]
  }

  function PushAll(bs: Branches, more: Branches): Branches
    decreases |more|
  {
    if more == [] then bs else PushAll(Push(bs, more[0]), more[1..])
  }

  /** Where a scan is: the branches so far, the branch being read, and whether no divider was seen yet. */
  datatype Scan = Scan(branches: Branches, cur: string, first: bool)

  function Feed(st: Scan, c: char): Scan
  {
    if c != '/' then st.(cur := st.cur + [c])
    else Scan(if st.first || st.cur != "" then Push(st.branches, st.cur) else st.branches, "", false)
  }

  function FeedAll(st: Scan, s: string): Scan
    decreases |s|
  {
    if s == "" then st else FeedAll(Feed(st, s[0]), s[1..])
  }

  function Finish(st: Scan): Branches
  {
    if st.cur != "" then Push(st.branches, st.cur) else st.branches
  }

  const Start := Scan([], "", true)

  /** What a string is as a path. */
  function Build(s: string): Branches
  {
    Finish(FeedAll(Start, s))
  }

  lemma {:induction false} FeedConcat(st: Scan, a: string, b: string)
    ensures FeedAll(st, a + b) == FeedAll(FeedAll(st, a), b)
    decreases |a|
  {
    if a == "" {
      assert a + b == b;
    } else {
      assert (a + b)[1..] == a[1..] + b;
      FeedConcat(Feed(st, a[0]), a[1..], b);
    }
  }

  /** The loop of `build_path`, with the start and size of the branch being read. */
  method BuildPath(s: string) returns (branches: Branches)
    ensures branches == Build(s)
  {
    branches := [];
    var start, size, i := 0, 0, 0;
    while i < |s|
      invariant 0 <= i <= |s| && 0 <= start <= i && size == i - start
      invariant FeedAll(Start, s[..i]) == Scan(branches, s[start..i], start == 0)
    {
      FeedConcat(Start, s[..i], [s[i]]);
      assert s[..i + 1] == s[..i] + [s[i]];
      if s[i] == '/' {
        if start == 0 || size > 0 {
          branches := Append(branches, s[start..start + size]);
        }
        start, size := i + 1, 0;
      } else {
        size := size + 1;
        assert s[start..i + 1] == s[start..i] + [s[i]];
      }
      i := i + 1;
    }
    assert s[..|s|] == s;
    if size != 0 {
      branches := Append(branches, s[start..start + size]);
    }
  }

  /** Adding a branch, then taking off what it cancels: `..` the branch before it, `.` itself. */
  method Append(branches: Branches, b: string) returns (branches': Branches)
    ensures branches' == Push(branches, b)
    ensures b == ".." && branches != [] ==> exists last :: branches == branches' + [last]
    ensures b == "." && branches != [] ==> branches' == branches
    ensures branches == [] || (b != ".." && b != ".") ==> branches' == branches + [b]
  {
    branches' := branches + [b];
    if branches != [] {
      assert branches == branches[..|branches| - 1] + [branches[|branches| - 1]];
    }
    if b == ".." && |branches'| >= 2 {
      branches' := branches'[..|branches'| - 1];
      branches' := branches'[..|branches'| - 1];
    } else if b == "." && |branches'| >= 2 {
      branches' := branches'[..|branches'| - 1];
    }
  }

  // ----- printing

  /** Each branch followed by a divider. */
  function Joined(bs: Branches): string
  {
    if bs == [] then "" else bs[0] + "/" + Joined(bs[1..])
  }

  function String(bs: Branches): string
  {
    if |Joined(bs)| > 1 then Joined(bs)[..|Joined(bs)| - 1] else Joined(bs)
  }

  lemma {:induction false} JoinedConcat(a: Branches, b: Branches)
    ensures Joined(a + b) == Joined(a) + Joined(b)
  {
    if a == [] {
      assert a + b == b;
    } else {
      assert (a + b)[1..] == a[1..] + b;
      JoinedConcat(a[1..], b);
    }
  }

  /** The loop of `string`. */
  method ToString(bs: Branches) returns (s: string)
    ensures s == String(bs)
  {
    s := "";
    var i := 0;
    while i < |bs|
      invariant 0 <= i <= |bs| && s == Joined(bs[..i])
    {
      JoinedConcat(bs[..i], [bs[i]]);
      assert bs[..i + 1] == bs[..i] + [bs[i]];
      assert Joined([bs[i]]) == bs[i] + "/";
      s := s + (bs[i] + "/");
      i := i + 1;
    }
    assert bs[..|bs|] == bs;
    if |s| > 1 {
      s := s[..|s| - 1];
    }
  }

  // ----- what parsing produces

  predicate Plain(b: string) { forall i :: 0 <= i < |b| ==> b[i] != '/' }

  /** Branches as parsing leaves them: no dividers; after the first, none empty and none relative. */
  predicate Canonical(bs: Branches)
  {
    && (forall i :: 0 <= i < |bs| ==> Plain(bs[i]))
    && (forall i :: 1 <= i < |bs| ==> bs[i] != "" && bs[i] != "." && bs[i] != "..")
  }

  predicate ScanOk(st: Scan)
  {
    Canonical(st.branches) && Plain(st.cur) && (st.first ==> st.branches == [])
  }

  lemma {:induction false} FeedAllOk(st: Scan, s: string)
    requires ScanOk(st)
    ensures ScanOk(FeedAll(st, s))
    decreases |s|
  {
    if s != "" {
      FeedAllOk(Feed(st, s[0]), s[1..]);
    }
  }

  /** Every parsed path is canonical. */
  lemma BuildCanonical(s: string)
    ensures Canonical(Build(s))
  {
    FeedAllOk(Start, s);
  }

  // ----- parsing what was printed

  lemma {:induction false} FeedPlain(st: Scan, b: string)
    requires Plain(b)
    ensures FeedAll(st, b) == st.(cur := st.cur + b)
    decreases |b|
  {
    if b != "" {
      FeedPlain(Feed(st, b[0]), b[1..]);
      assert (st.cur + [b[0]]) + b[1..] == st.cur + b;
    } else {
      assert st.cur + b == st.cur;
    }
  }

  /** Printed branches are pushed one by one; an empty one counts only at the very start. */
  lemma {:induction false} FeedJoined(st: Scan, bs: Branches)
    requires st.cur == "" && (forall i :: 0 <= i < |bs| ==> Plain(bs[i])) && forall i :: 0 <= i < |bs| ==> (i == 0 && st.first) || bs[i] != ""
    ensures FeedAll(st, Joined(bs)) == Scan(PushAll(st.branches, bs), "", st.first && bs == [])
    decreases |bs|
  {
    if bs != [] {
      var b, rest := bs[0], Joined(bs[1..]);
      assert Joined(bs) == b + ("/" + rest);
      FeedConcat(st, b, "/" + rest);
      FeedPlain(st, b);
      var st' := st.(cur := st.cur + b);
      assert st.cur + b == b;
      assert ("/" + rest)[1..] == rest;
      FeedJoined(Feed(st', '/'), bs[1..]);
    }
  }

  /** A divider at the end of a path that is not empty changes nothing. */
  lemma LastDivider(st: Scan)
    requires !st.first || st.cur != ""
    ensures Finish(Feed(st, '/')) == Finish(st)
  {
  }

  /** Parsing a printed path from any state is pushing its branches. */
  lemma FinishString(st: Scan, bs: Branches)
    requires st.cur == "" && (forall i :: 0 <= i < |bs| ==> Plain(bs[i])) && forall i :: 0 <= i < |bs| ==> (i == 0 && st.first) || bs[i] != ""
    ensures Finish(FeedAll(st, String(bs))) == PushAll(st.branches, bs)
  {
    FeedJoined(st, bs);
    Trimmed(bs);
    if String(bs) != Joined(bs) {
      FinishTrimmed(st, String(bs));
    }
  }

  /** Printing drops the last divider, unless it is all there is. */
  lemma Trimmed(bs: Branches)
    ensures String(bs) == Joined(bs) || (String(bs) != "" && Joined(bs) == String(bs) + "/")
  {
    if |Joined(bs)| > 1 {
      EndsWithDivider(bs);
    }
  }

  /** The divider at the end of a printed path adds nothing. */
  lemma FinishTrimmed(st: Scan, x: string)
    requires x != ""
    ensures Finish(FeedAll(st, x)) == Finish(FeedAll(st, x + "/"))
  {
    FeedConcat(st, x, "/");
    assert FeedAll(FeedAll(st, x), "/") == Feed(FeedAll(st, x), '/');
    StillFirst(st, x);
    LastDivider(FeedAll(st, x));
  }

  lemma {:induction false} EndsWithDivider(bs: Branches)
    requires bs != []
    ensures Joined(bs) != "" && Joined(bs)[|Joined(bs)| - 1] == '/'
  {
    if |bs| > 1 {
      EndsWithDivider(bs[1..]);
    }
  }

  /** A scan that read something and saw no divider has it in hand. */
  lemma {:induction false} StillFirst(st: Scan, x: string)
    requires x != "" || !st.first || st.cur != ""
    ensures !FeedAll(st, x).first || FeedAll(st, x).cur != ""
    decreases |x|
  {
    if x != "" {
      StillFirst(Feed(st, x[0]), x[1..]);
    }
  }

  lemma {:induction false} PushCanonical(a: Branches, b: Branches)
    requires Canonical(a + b) && a != []
    ensures PushAll(a, b) == a + b
    decreases |b|
  {
    if b == [] {
      assert a + b == a;
    } else {
      assert (a + b)[|a|] == b[0];
      assert (a + [b[0]]) + b[1..] == a + b;
      PushCanonical(a + [b[0]], b[1..]);
    }
  }

  lemma PushFromNothing(bs: Branches)
    requires Canonical(bs)
    ensures PushAll([], bs) == bs
  {
    if bs != [] {
      assert [bs[0]] + bs[1..] == bs;
      assert Push([], bs[0]) == [bs[0]];
      PushCanonical([bs[0]], bs[1..]);
    }
  }

  /** Printing and parsing undo each other. */
  lemma ParsePrinted(bs: Branches)
    requires Canonical(bs)
    ensures Build(String(bs)) == bs
  {
    FinishString(Start, bs);
    PushFromNothing(bs);
  }

  lemma RoundTrip(s: string)
    ensures Build(String(Build(s))) == Build(s)
  {
    BuildCanonical(s);
    ParsePrinted(Build(s));
  }

  /** So two parsed paths print alike exactly when they have the same branches, which is how paths are compared. */
  lemma PrintedAlikeIff(a: Branches, b: Branches)
    requires Canonical(a) && Canonical(b)
    ensures String(a) == String(b) <==> a == b
  {
    ParsePrinted(a);
    ParsePrinted(b);
  }

  // ----- what each branch does, whatever comes before it

  predicate Ordinary(b: string) { Plain(b) && b != "" && b != "." && b != ".." }

  lemma {:induction false} FeedLast(s: string, b: string)
    requires Plain(b)
    ensures FeedAll(Start, s + "/" + b) == Feed(FeedAll(Start, s), '/').(cur := b)
  {
    var st := Feed(FeedAll(Start, s), '/');
    assert (s + "/" + b) == s + ("/" + b) && ("/" + b)[1..] == b;
    FeedConcat(Start, s, "/" + b);
    FeedPlain(st, b);
    assert st.cur + b == b;
  }

  /** A string without a divider is one branch. */
  lemma OneBranch(b: string)
    requires Plain(b)
    ensures Build(b) == if b == "" then [] else [b]
  {
    FeedPlain(Start, b);
    assert Start.cur + b == b;
  }

  /** A leading divider is an empty branch, which `..` cancels like any other. */
  lemma FirstDivider(b: string)
    requires Plain(b)
    ensures b == "" || b == "." ==> Build("/" + b) == [""]
    ensures b == ".." ==> Build("/" + b) == []
    ensures Ordinary(b) ==> Build("/" + b) == ["", b]
  {
    assert "" + "/" + b == "/" + b;
    FeedLast("", b);
  }

  lemma PushLast(s: string, b: string)
    requires s != "" && Plain(b)
    ensures Build(s + "/" + b) == if b == "" then Build(s) else Push(Build(s), b)
  {
    FeedLast(s, b);
    StillFirst(Start, s);
    LastDivider(FeedAll(Start, s));
  }

  /** What a last branch does to a path: these laws and the two above decide what every string is. */
  lemma LastBranch(s: string, b: string)
    requires s != "" && Plain(b)
    ensures b == "" ==> Build(s + "/" + b) == Build(s)
    ensures b == "." ==> Build(s + "/" + b) == if Build(s) == [] then ["."] else Build(s)
    ensures b == ".." && Build(s) == [] ==> Build(s + "/" + b) == [".."]
    ensures b == ".." && Build(s) != [] ==> exists last :: Build(s) == Build(s + "/" + b) + [last]
    ensures Ordinary(b) ==> Build(s + "/" + b) == Build(s) + [b]
  {
    PushLast(s, b);
    var bs := Build(s);
    if bs != [] {
      assert bs == bs[..|bs| - 1] + [bs[|bs| - 1]];
    }
  }

  predicate IsRoot(bs: Branches) { bs == [""] }

  /** A divider, unless the printed path ends in one. */
  function Divider(p: Branches): string { if IsRoot(p) then "" else "/" }

  lemma LongPrinted(p: Branches)
    requires Canonical(p) && p != [] && !IsRoot(p)
    ensures |Joined(p)| > 1
  {
    if p[0] == "" {
      assert p == [""] <==> |p| == 1;
      LongerThanDivider(p[1..]);
    } else {
      LongerThanDivider(p);
    }
  }

  lemma LastOfPrinted(p: Branches, b: string)
    requires Canonical(p) && p != [] && Plain(b) && b != ""
    ensures Build(String(p) + Divider(p) + b) == Push(p, b)
  {
    if IsRoot(p) {
      assert p[1..] == [] && Joined(p) == "/";
      assert String(p) + Divider(p) + b == "/" + b;
      FirstDivider(b);
    } else {
      ParsePrinted(p);
      LongPrinted(p);
      PushLast(String(p), b);
    }
  }

  /** Going into a branch adds it, and the way back is `..`; `.` stays. */
  lemma InAndOut(p: Branches, b: string)
    requires Canonical(p) && p != [] && Ordinary(b)
    ensures Build(String(p) + Divider(p) + b) == p + [b]
    ensures Build(String(p) + Divider(p) + b + "/..") == p
    ensures Build(String(p) + Divider(p) + ".") == p
  {
    LastOfPrinted(p, b);
    LastOfPrinted(p, ".");
    var s := String(p) + Divider(p) + b;
    LastBranch(s, "..");
    assert s + "/" + ".." == s + "/..";
    var last :| p + [b] == Build(s + "/..") + [last];
    assert p == (p + [b])[..|p|];
  }

  /** The parent of a path has all its branches but the last. */
  lemma ParentDropsLast(p: Branches)
    requires Canonical(p) && p != []
    ensures Build(String(p) + Divider(p) + "..") == p[..|p| - 1]
  {
    LastOfPrinted(p, "..");
  }

  // ----- joining

  /** `operator+`. */
  function Join(p: Branches, q: Branches): Branches
  {
    Build(String(p) + Divider(p) + String(q))
  }

  /** The branches a joined path contributes: the divider an absolute one begins with is swallowed. */
  function Relative(q: Branches): Branches
  {
    if q != [] && q[0] == "" then q[1..] else q
  }

  lemma PrintedWithDivider(p: Branches)
    requires p != []
    ensures String(p) + Divider(p) == Joined(p)
  {
  }

  /** `q` as seen from `p`: only the first branch of a parsed path can be relative. */
  function From(p: Branches, q: Branches): Branches
    requires p != []
  {
    if q == [] then p
    else if q[0] == ".." then p[..|p| - 1] + q[1..]
    else if q[0] == "." || q[0] == "" then p + q[1..]
    else p + q
  }

  lemma PushOrdinary(p: Branches, bs: Branches)
    requires Canonical(p) && forall i :: 0 <= i < |bs| ==> Ordinary(bs[i])
    ensures PushAll(p, bs) == p + bs
  {
    if p == [] {
      PushFromNothing(bs);
      assert p + bs == bs;
    } else {
      PushCanonical(p, bs);
    }
  }

  lemma PushedCanonical(p: Branches, b: string)
    requires Canonical(p) && p != [] && Plain(b) && b != ""
    ensures Canonical(Push(p, b))
  {
  }

  lemma PushedFirst(p: Branches, b: string, bs: Branches)
    requires Canonical(p) && p != [] && Plain(b) && b != "" && forall i :: 0 <= i < |bs| ==> Ordinary(bs[i])
    ensures PushAll(p, [b] + bs) == From(p, [b] + bs)
  {
    var q := [b] + bs;
    assert q[0] == b && q[1..] == bs;
    PushedCanonical(p, b);
    PushOrdinary(Push(p, b), bs);
    assert (p + [b]) + bs == p + q;
  }

  lemma PushedBranches(p: Branches, q: Branches)
    requires Canonical(p) && p != [] && Canonical(q)
    ensures PushAll(p, Relative(q)) == From(p, q)
  {
    if q != [] {
      var first, rest := q[0], q[1..];
      assert q == [first] + rest;
      assert forall i :: 0 <= i < |rest| ==> rest[i] == q[i + 1];
      if first == "" {
        PushOrdinary(p, rest);
      } else {
        PushedFirst(p, first, rest);
      }
    }
  }

  /** Joining two parsed paths is the second as seen from the first. */
  lemma JoinPushes(p: Branches, q: Branches)
    requires Canonical(p) && p != [] && Canonical(q)
    ensures Join(p, q) == From(p, q)
  {
    PrintedWithDivider(p);
    FeedConcat(Start, Joined(p), String(q));
    FeedJoined(Start, p);
    PushFromNothing(p);
    var st := Scan(p, "", false);
    if q != [] && q[0] == "" {
      AbsoluteString(st, q);
    } else {
      FinishString(st, q);
    }
    PushedBranches(p, q);
  }

  /** Printed after a divider, an absolute path begins with one more, which adds nothing. */
  lemma AbsoluteString(st: Scan, q: Branches)
    requires Canonical(q) && q != [] && q[0] == "" && st.cur == "" && !st.first
    ensures Finish(FeedAll(st, String(q))) == PushAll(st.branches, q[1..])
  {
    var rest := q[1..];
    assert Joined(q) == "/" + Joined(rest);
    if rest == [] {
      assert String(q) == "/";
      assert FeedAll(st, "/") == Feed(st, '/');
    } else {
      EndsWithDivider(rest);
      LongerThanDivider(rest);
      assert String(q) == "/" + String(rest);
      FeedConcat(st, "/", String(rest));
      assert FeedAll(st, "/") == Feed(st, '/') == st;
      FinishString(st, rest);
    }
  }

  lemma LongerThanDivider(bs: Branches)
    requires bs != [] && bs[0] != ""
    ensures |Joined(bs)| > 1
  {
  }
}
