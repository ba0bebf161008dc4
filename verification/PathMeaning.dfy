/** Where a path leads from a working directory, and when parsing it leads to the same place. */
module PathMeaning {
  import opened Path

  /** A place in the directory tree: the names from the root down. */
  type Place = seq<string>

  /** One component: the parent of the root is the root. */
  function Step(at: Place, b: string): Place
  {
    if b == "" || b == "." then at
    else if b == ".." then (if at == [] then [] else at[..|at| - 1])
    else at + [b]
  }

  function Walk(at: Place, bs: Branches): Place
  {
    if bs == [] then at else Step(Walk(at, bs[..|bs| - 1]), bs[|bs| - 1])
  }

  predicate Absolute(bs: Branches) { bs != [] && bs[0] == "" }

  /** Where branches lead from `cwd`: an empty first one starts at the root. */
  function PlaceOf(cwd: Place, bs: Branches): Place
  {
    Walk(if Absolute(bs) then [] else cwd, bs)
  }

  /** The last divider of a string, -1 when it has none. */
  function LastSlash(s: string): (k: int)
    ensures -1 <= k < |s| && (k >= 0 ==> s[k] == '/') && forall j :: k < j < |s| ==> s[j] != '/'
  {
    if s == "" then -1
    else if s[|s| - 1] == '/' then |s| - 1
    else LastSlash(s[..|s| - 1])
  }

  /** Where a string leads from `cwd`, component by component; a leading divider starts at the root. */
  function Named(cwd: Place, s: string): Place
  {
    var k := LastSlash(s);
    if k < 0 then Step(cwd, s)
    else if k == 0 then Step([], s[1..])
    else Step(Named(cwd, s[..k]), s[k + 1..])
  }

  predicate Rooted(s: string) { s != "" && s[0] == '/' }

  /** A single branch that parsing lets a following `..` cancel although it is not a name. */
  predicate NoName(bs: Branches) { bs == [""] || bs == ["."] || bs == [".."] }

  /** A component `..` at `i`, after a divider, with such a branch before it. */
  predicate MisreadAt(s: string, i: int)
  {
    && 0 < i <= |s| - 2 && s[i - 1] == '/' && s[i] == '.' && s[i + 1] == '.' && (i + 2 == |s| || s[i + 2] == '/')
    && NoName(Build(s[..i]))
  }

  predicate Misread(s: string)
  {
    exists i :: 0 < i < |s| && MisreadAt(s, i)
  }

  // ----- components

  lemma SplitLast(s: string)
    requires LastSlash(s) >= 0
    ensures var k := LastSlash(s); s == s[..k] + "/" + s[k + 1..] && s[..k + 1] == s[..k] + "/" && Plain(s[k + 1..])
  {
  }

  /** Parsing reads the last component after everything before it, the divider included. */
  lemma BuildSplit(s: string)
    requires LastSlash(s) >= 0
    ensures var k := LastSlash(s); var b := s[k + 1..];
            && Build(s) == (if b == "" then Build(s[..k + 1]) else Push(Build(s[..k + 1]), b))
            && (k == 0 ==> Build(s[..k + 1]) == [""]) && (k > 0 ==> Build(s[..k + 1]) == Build(s[..k]))
  {
    var k := LastSlash(s);
    SplitLast(s);
    if k == 0 {
      assert s[..k] == "" && s[..k + 1] == "/" && s == "/" + s[k + 1..];
      FirstDivider("");
      assert "/" + "" == "/";
      FirstDivider(s[k + 1..]);
    } else {
      PushLast(s[..k], "");
      assert s[..k] + "/" + "" == s[..k + 1];
      PushLast(s[..k], s[k + 1..]);
    }
  }

  lemma MisreadSplit(s: string)
    ensures Misread(s) <==>
              var k := LastSlash(s);
              k >= 0 && ((s[k + 1..] == ".." && NoName(Build(s[..k + 1]))) || Misread(s[..k]))
  {
    var k := LastSlash(s);
    if Misread(s) {
      var i :| 0 < i < |s| && MisreadAt(s, i);
      MisreadHere(s, i);
    }
    if k >= 0 && s[k + 1..] == ".." && NoName(Build(s[..k + 1])) {
      assert s[k + 1] == s[k + 1..][0] && s[k + 2] == s[k + 1..][1];
      assert MisreadAt(s, k + 1);
    }
    if k >= 0 && Misread(s[..k]) {
      var i :| 0 < i < |s[..k]| && MisreadAt(s[..k], i);
      assert s[..k][..i] == s[..i];
      assert MisreadAt(s, i);
    }
  }

  /** The branches read before a component, a leading divider being one. */
  function Head(t: string): Branches { if t == "" then [""] else Build(t) }

  /** Everything of a string that its last component decides. */
  lemma Cut(cwd: Place, s: string) returns (cut: bool, t: string, b: string)
    ensures Plain(b) && Canonical(Head(t)) && (cut ==> s == t + "/" + b) && (!cut ==> s == b) && !Misread("")
    ensures cut ==> Build(s) == if b == "" then Head(t) else Push(Head(t), b)
    ensures cut ==> Named(cwd, s) == Step(if t == "" then [] else Named(cwd, t), b)
    ensures cut ==> (Misread(s) <==> (b == ".." && NoName(Head(t))) || Misread(t)) && (Rooted(s) <==> t == "" || Rooted(t))
    ensures !cut ==> Build(b) == (if b == "" then [] else [b]) && Named(cwd, b) == Step(cwd, b) && !Misread(b) && !Rooted(b)
  {
    var k := LastSlash(s);
    cut := k >= 0;
    if !cut {
      t, b := "", s;
      Whole(cwd, s);
      return;
    }
    t, b := s[..k], s[k + 1..];
    SplitLast(s);
    BuildSplit(s);
    MisreadSplit(s);
    BuildCanonical(t);
  }

  lemma Whole(cwd: Place, s: string)
    requires LastSlash(s) < 0
    ensures Plain(s) && Build(s) == (if s == "" then [] else [s]) && Named(cwd, s) == Step(cwd, s)
    ensures !Misread(s) && !Rooted(s)
  {
    OneBranch(s);
    MisreadSplit(s);
  }

  lemma MisreadHere(s: string, i: int)
    requires MisreadAt(s, i)
    ensures var k := LastSlash(s); k >= 0 && ((s[k + 1..] == ".." && NoName(Build(s[..k + 1]))) || Misread(s[..k]))
  {
    var k := LastSlash(s);
    assert k >= i - 1;
    if k == i - 1 {
      assert s[k + 1..] == "..";
    } else {
      assert s[..k][..i] == s[..i];
      assert MisreadAt(s[..k], i);
    }
  }

  // ----- what parsing keeps

  /** One component read where it leads there. */
  lemma PushLeads(cwd: Place, bs: Branches, b: string)
    requires Canonical(bs) && Plain(b) && b != "" && !(b == ".." && NoName(bs))
    ensures PlaceOf(cwd, Push(bs, b)) == Step(PlaceOf(cwd, bs), b)
  {
    if b == ".." && bs != [] {
      assert Ordinary(bs[|bs| - 1]) by {
        assert bs == [bs[0]] || |bs| > 1;
      }
    } else if b != "." || bs == [] {
      assert (bs + [b])[..|bs|] == bs;
    }
  }

  lemma WalkOne(at: Place, b: string)
    ensures Walk(at, [b]) == Step(at, b)
  {
    assert [b][..0] == [];
    assert Walk(at, [b]) == Step(Walk(at, [b][..0]), [b][0]);
  }

  /** A path that is not misread leads where it says, from every working directory. */
  lemma {:induction false} BuildLeads(cwd: Place, s: string)
    requires !Misread(s)
    ensures PlaceOf(cwd, Build(s)) == Named(cwd, s)
    decreases |s|
  {
    var cut, t, b := Cut(cwd, s);
    if !cut {
      WalkOne(cwd, s);
    } else {
      WalkOne([], "");
      if t != "" {
        BuildLeads(cwd, t);
      }
      if b != "" {
        PushLeads(cwd, Head(t), b);
      }
    }
  }

  // ----- what a misread path loses

  /** How much deeper than the working directory relative branches lead. */
  function Level(bs: Branches): int
  {
    if bs == [] then 0 else |bs| - 1 + (if bs[0] == ".." then -1 else if bs[0] == "." then 0 else 1)
  }

  lemma {:induction false} PlaceDepth(cwd: Place, bs: Branches)
    requires Canonical(bs) && cwd != []
    ensures |PlaceOf(cwd, bs)| == if Absolute(bs) then |bs| - 1 else |cwd| + Level(bs)
    decreases |bs|
  {
    if |bs| == 1 {
      assert bs == [bs[0]];
      WalkOne(if Absolute(bs) then [] else cwd, bs[0]);
    } else if |bs| > 1 {
      PlaceDepth(cwd, bs[..|bs| - 1]);
    }
  }

  /** What a component does to the depth of the place, and to that of the branches read so far. */
  function Deeper(b: string): int
  {
    if b == "" || b == "." then 0 else if b == ".." then -1 else 1
  }

  lemma StepDepth(at: Place, b: string)
    ensures at != [] ==> |Step(at, b)| == |at| + Deeper(b)
    ensures |Step(at, b)| <= |at| + |b|
  {
  }

  lemma PushDepth(bs: Branches, b: string)
    requires Canonical(bs) && Plain(b) && b != ""
    ensures Absolute(Push(bs, b)) ==> Absolute(bs) && !(b == ".." && NoName(bs))
    ensures !Absolute(bs) ==> Level(Push(bs, b)) >= Level(bs) + Deeper(b) + if b == ".." && NoName(bs) then 1 else 0
  {
    if b == ".." && bs != [] {
      assert |bs| == 1 ==> bs == [bs[0]];
    }
  }

  /** An absolute string leads no deeper than it is long, and once misread it is parsed as relative. */
  lemma {:induction false} RootedDepth(cwd: Place, s: string)
    requires Rooted(s)
    ensures |Named(cwd, s)| <= |s| && (Misread(s) ==> !Absolute(Build(s)))
    decreases |s|
  {
    var _, t, b := Cut(cwd, s);
    if t != "" {
      RootedDepth(cwd, t);
    }
    StepDepth(if t == "" then [] else Named(cwd, t), b);
    if b != "" {
      PushDepth(Head(t), b);
    }
  }

  /** A relative one is parsed as relative, and every misreading leads it too deep. */
  lemma {:induction false} RelativeDepth(cwd: Place, s: string)
    requires !Rooted(s) && |cwd| > |s|
    ensures !Absolute(Build(s)) && |Named(cwd, s)| >= |cwd| - |s|
    ensures |cwd| + Level(Build(s)) >= |Named(cwd, s)| + if Misread(s) then 1 else 0
    decreases |s|
  {
    var cut, t, b := Cut(cwd, s);
    if !cut {
      TooDeepStep(|cwd|, cwd, [], b);
    } else {
      RelativeDepth(cwd, t);
      TooDeepStep(|cwd|, Named(cwd, t), Build(t), b);
    }
  }

  lemma TooDeepStep(n: int, at: Place, bs: Branches, b: string)
    requires Canonical(bs) && !Absolute(bs) && Plain(b) && at != [] && n + Level(bs) >= |at|
    ensures var bs' := if b == "" then bs else Push(bs, b);
            && !Absolute(bs') && |Step(at, b)| >= |at| - 1 && n + Level(bs') - |Step(at, b)| >= n + Level(bs) - |at|
            && (b == ".." && NoName(bs) ==> n + Level(bs') > |Step(at, b)|)
  {
    StepDepth(at, b);
    if b != "" {
      PushDepth(bs, b);
    }
  }

  lemma MisreadLoses(cwd: Place, s: string)
    requires Misread(s) && |cwd| >= |s| + 2
    ensures PlaceOf(cwd, Build(s)) != Named(cwd, s)
  {
    BuildCanonical(s);
    PlaceDepth(cwd, Build(s));
    if Rooted(s) {
      RootedDepth(cwd, s);
    } else {
      RelativeDepth(cwd, s);
    }
  }

  /** Parsing keeps where a string leads, from every working directory, exactly when it is not misread. */
  lemma MeaningKeptIff(s: string)
    ensures (forall cwd :: PlaceOf(cwd, Build(s)) == Named(cwd, s)) <==> !Misread(s)
  {
    if Misread(s) {
      MisreadLoses(seq(|s| + 2, _ => "d"), s);
    } else {
      forall cwd ensures PlaceOf(cwd, Build(s)) == Named(cwd, s) {
        BuildLeads(cwd, s);
      }
    }
  }

  /** The three shortest misread paths: each is parsed as the empty path, which leads nowhere. */
  lemma ShortestMisread()
    ensures forall s :: s == "/.." || s == "./.." || s == "../.." ==> Build(s) == [] && Misread(s)
    ensures PlaceOf(["home"], Build("/..")) == ["home"] && Named(["home"], "/..") == []
  {
    assert "/" + ".." == "/.." && "." + "/" + ".." == "./.." && ".." + "/" + ".." == "../..";
    FirstDivider("..");
    FirstDivider("");
    assert "/" + "" == "/" == "/.."[..1];
    assert MisreadAt("/..", 1);
    SingleUp(".");
    SingleUp("..");
    assert LastSlash("/..") == 0;
  }

  lemma SingleUp(b: string)
    requires b == "." || b == ".."
    ensures Build(b + "/" + "..") == [] && Misread(b + "/" + "..")
  {
    var s := b + "/" + "..";
    OneBranch(b);
    PushLast(b, "..");
    PushLast(b, "");
    assert s[..|b| + 1] == b + "/" + "";
    assert MisreadAt(s, |b| + 1);
  }

  // ----- joining

  lemma {:induction false} WalkConcat(at: Place, a: Branches, b: Branches)
    ensures Walk(at, a + b) == Walk(Walk(at, a), b)
    decreases |b|
  {
    if b == [] {
      assert a + b == a;
    } else {
      assert (a + b)[..|a + b| - 1] == a + b[..|b| - 1];
      WalkConcat(at, a, b[..|b| - 1]);
    }
  }

  lemma {:induction false} OrdinaryDepth(at: Place, bs: Branches)
    requires forall i :: 0 <= i < |bs| ==> Ordinary(bs[i])
    ensures |Walk(at, bs)| == |at| + |bs|
    decreases |bs|
  {
    if bs != [] {
      OrdinaryDepth(at, bs[..|bs| - 1]);
    }
  }

  /** A joined path's first branch, and the rest, which are names. */
  lemma WalkFirst(at: Place, q: Branches)
    requires Canonical(q) && q != []
    ensures Walk(at, q) == Walk(Step(at, q[0]), q[1..]) && forall i :: 0 <= i < |q[1..]| ==> Ordinary(q[1..][i])
  {
    assert q == [q[0]] + q[1..];
    WalkConcat(at, [q[0]], q[1..]);
    WalkOne(at, q[0]);
  }

  /**
   Joining leads where the second path leads from where the first does, exactly when no `..` meets a first path without
   a name.
   */
  lemma JoinMeansIff(p: Branches, q: Branches)
    requires Canonical(p) && p != [] && Canonical(q)
    ensures (forall cwd :: PlaceOf(cwd, Join(p, q)) == Walk(PlaceOf(cwd, p), q)) <==> !(q != [] && q[0] == ".." && NoName(p))
  {
    JoinPushes(p, q);
    if q != [] && q[0] == ".." && NoName(p) {
      JoinTooDeep(["d", "d"], p, q);
    } else {
      forall cwd ensures PlaceOf(cwd, Join(p, q)) == Walk(PlaceOf(cwd, p), q) {
        JoinLeads(cwd, p, q);
      }
    }
  }

  lemma JoinLeads(cwd: Place, p: Branches, q: Branches)
    requires Canonical(p) && p != [] && Canonical(q) && !(q != [] && q[0] == ".." && NoName(p))
    ensures PlaceOf(cwd, From(p, q)) == Walk(PlaceOf(cwd, p), q)
  {
    if q != [] {
      WalkFirst(PlaceOf(cwd, p), q);
      var p' := FromFirst(p, q);
      if q[0] != "" {
        PushLeads(cwd, p, q[0]);
      }
      KeepsStart(cwd, p', q[1..]);
    }
  }

  lemma FromFirst(p: Branches, q: Branches) returns (p': Branches)
    requires p != [] && q != []
    ensures p' == (if q[0] == "" then p else Push(p, q[0])) && From(p, q) == p' + q[1..]
  {
    p' := if q[0] == "" then p else Push(p, q[0]);
    var first, rest := q[0], q[1..];
    assert q == [first] + rest;
    assert p + q == (p + [first]) + rest;
  }

  /** Names after branches lead on from where those lead. */
  lemma KeepsStart(cwd: Place, p: Branches, bs: Branches)
    requires forall i :: 0 <= i < |bs| ==> Ordinary(bs[i])
    ensures PlaceOf(cwd, p + bs) == Walk(PlaceOf(cwd, p), bs)
  {
    WalkConcat(if Absolute(p) then [] else cwd, p, bs);
    assert p == [] ==> p + bs == bs;
  }

  lemma JoinTooDeep(cwd: Place, p: Branches, q: Branches)
    requires NoName(p) && Canonical(q) && q != [] && q[0] == ".." && |cwd| == 2
    ensures PlaceOf(cwd, From(p, q)) != Walk(PlaceOf(cwd, p), q)
  {
    WalkFirst(PlaceOf(cwd, p), q);
    assert p == [p[0]];
    WalkOne(if Absolute(p) then [] else cwd, p[0]);
    assert From(p, q) == q[1..];
    OrdinaryDepth(cwd, q[1..]);
    OrdinaryDepth(Step(PlaceOf(cwd, p), ".."), q[1..]);
  }
}
