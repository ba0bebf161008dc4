/** What a call of `kmalloc` asks for, what it may answer, and how far its search of the majors has come. */
module HeapSearch {
  import opened HeapView
  import opened Sums

  /** Pages `allocate_new_page` asks for. */
  function PagesFor(size: int): (pages: int)
    requires 0 <= size
    ensures PAGE_COUNT <= pages
    ensures size + MAJOR_SIZE + MINOR_SIZE <= pages * 4096
    ensures pages == PAGE_COUNT || (pages - 1) * 4096 < size + MAJOR_SIZE + MINOR_SIZE
  {
    var st := size + MAJOR_SIZE + MINOR_SIZE;
    var pages := if st % 4096 == 0 then st / 4096 else st / 4096 + 1;
    if pages < PAGE_COUNT then PAGE_COUNT else pages
  }

  /** The request plus the room ALIGN may use. */
  function SizeFor(req: int): int { req + ALIGNMENT + ALIGN_INFO }

  /** No `unsigned int` in a call for `req` bytes is truncated. */
  predicate RequestFits(req: int)
  {
    0 <= req && SizeFor(req) + MAJOR_SIZE + MINOR_SIZE + 4096 < WORD_LIMIT
  }

  /** The page hook fails, or returns pages no live major uses, high in the address space. */
  ghost predicate HookOk(runs: seq<Run>, req: int, hook: int)
    requires RequestFits(req)
  {
    hook == 0 || FreshRun(runs, Run(hook, PagesFor(SizeFor(req)), []))
  }

  /** The lowest gap of `r` that takes `need` bytes. */
  ghost predicate FirstGap(r: Run, j: int, need: int)
  {
    GapFits(r, j, need) && forall i :: 0 <= i < j ==> !GapFits(r, i, need)
  }

  /** The major `allocate_new_page` makes for a request of `size` bytes. */
  function NewRun(hook: int, size: int): Run
    requires 0 <= size
  {
    Run(hook, PagesFor(size), [])
  }

  ghost predicate NoneFits(runs: seq<Run>, need: int)
  {
    forall k :: 0 <= k < |runs| ==> !Fits(runs[k], need)
  }

  function NewBlock(addr: int, req: int): Block { Block(addr, SizeFor(req), req) }

  ghost predicate ServedFromGap(before: seq<Run>, after: seq<Run>, req: int, p: int, k: int, j: int)
  {
    && 0 <= k < |before| && FirstGap(before[k], j, SizeFor(req) + MINOR_SIZE)
    && after == InsertBlock(before, k, j, NewBlock(GapStart(before[k], j), req))
    && p == UserPtr(GapStart(before[k], j))
  }

  ghost predicate ServedFromHook(before: seq<Run>, after: seq<Run>, req: int, hook: int, p: int)
    requires 0 <= req
  {
    && hook != 0 && NoneFits(before, SizeFor(req) + MINOR_SIZE)
    && after == before + [NewRun(hook, SizeFor(req)).(blocks := [NewBlock(hook + MAJOR_SIZE, req)])]
    && p == UserPtr(hook + MAJOR_SIZE)
  }

  /**
   What `kmalloc` may do: use the first fitting gap of some major; or, only when no major has such a gap,
   open one new major; or, only when moreover the hook gave nothing, return null and change nothing.
   */
  ghost predicate Served(before: seq<Run>, after: seq<Run>, req: int, hook: int, p: int)
    requires 0 <= req
  {
    if p == 0 then after == before && hook == 0 && NoneFits(before, SizeFor(req) + MINOR_SIZE)
    else (exists k, j :: ServedFromGap(before, after, req, p, k, j)) || ServedFromHook(before, after, req, hook, p)
  }

  // ----- the search

  /** The free total of a major, and of the one at `bet` (0 when there is none). */
  function Free(r: Run): int { RunSize(r) - Usage(r) }

  function FreeAt(runs: seq<Run>, bet: int): int
  {
    if runs == [] then 0 else if runs[0].base == bet then Free(runs[0]) else FreeAt(runs[1..], bet)
  }

  /** A search starts at the best bet when its free total is more than needed, and otherwise at the root. */
  ghost predicate StartsAt(runs: seq<Run>, bet: int, need: int, start: int)
  {
    if bet != 0 && FreeAt(runs, bet) > need then 0 <= start < |runs| && runs[start].base == bet else start == 0
  }

  /** Of `n` majors, `i` comes before `k` in the order of a search: from `start` on, then from the root. */
  predicate Sooner(n: int, start: int, k: int, i: int)
  {
    if start <= k then start <= i < k else start <= i < n || 0 <= i < k
  }

  function NeedFor(req: int): int { SizeFor(req) + MINOR_SIZE }

  /** `k` is the first major with a gap, and no major up to it has a larger free total than `bet`. */
  ghost predicate FirstInOrder(runs: seq<Run>, start: int, k: int, need: int, bet: int)
  {
    && 0 <= k < |runs| && Fits(runs[k], need) && Free(runs[k]) <= FreeAt(runs, bet)
    && forall i {:trigger Sooner(|runs|, start, k, i)} :: 0 <= i < |runs| && Sooner(|runs|, start, k, i) ==>
         !Fits(runs[i], need) && Free(runs[i]) <= FreeAt(runs, bet)
  }

  /** A request without a new major: `bet0` and `bet` are the best bets before and after. */
  ghost predicate ServedInOrder(before: seq<Run>, after: seq<Run>, req: int, p: int, bet0: int, bet: int)
  {
    exists start, k, j ::
      StartsAt(before, bet0, NeedFor(req), start) && ServedFromGap(before, after, req, p, k, j) &&
      FirstInOrder(before, start, k, NeedFor(req), bet)
  }

  /** The majors a search has passed when it stands at `k`; it came round to the root unless `startedBet`. */
  predicate Passed(n: int, start: int, startedBet: bool, k: int, i: int)
  {
    if startedBet then start <= i < k else (0 <= i < k || 0 < start <= i < n)
  }

  ghost predicate PassedFull(runs0: seq<Run>, start: int, startedBet: bool, k: int, need: int)
  {
    forall i {:trigger Passed(|runs0|, start, startedBet, k, i)} ::
      0 <= i < |runs0| && Passed(|runs0|, start, startedBet, k, i) ==> !Fits(runs0[i], need)
  }

  /**
   The search stands at major `k`, and every major it passed was too full.
   `grown` says that the last major is the new one, in which case every other major was too full.
   */
  ghost predicate Searching(runs0: seq<Run>, runs: seq<Run>, k: int, grown: bool, startedBet: bool, start: int,
      hook: int, size: int)
    requires 0 <= size
  {
    && 0 <= k < |runs| && 0 <= start && (startedBet ==> start <= k)
    && NoEmptyRun(runs0)
    && runs == (if grown then runs0 + [NewRun(hook, size)] else runs0)
    && (grown ==> hook != 0 && k == |runs0| && NoneFits(runs0, size + MINOR_SIZE))
    && (!grown ==> PassedFull(runs0, start, startedBet, k, size + MINOR_SIZE))
  }

  lemma NextMajor(runs0: seq<Run>, runs: seq<Run>, k: int, grown: bool, startedBet: bool, start: int, hook: int,
      size: int)
    requires 0 <= size && Searching(runs0, runs, k, grown, startedBet, start, hook, size)
    requires k + 1 < |runs| && !Fits(runs[k], size + MINOR_SIZE)
    ensures !grown && Searching(runs0, runs, k + 1, grown, startedBet, start, hook, size)
  {
    forall i | 0 <= i < |runs0| && Passed(|runs0|, start, startedBet, k + 1, i) ensures !Fits(runs0[i], size + MINOR_SIZE) {
      assert i == k || Passed(|runs0|, start, startedBet, k, i);
    }
  }

  /** At the last major a search that started at the best bet goes on at the root. */
  lemma ComeRound(runs0: seq<Run>, runs: seq<Run>, k: int, start: int, hook: int, size: int)
    requires 0 <= size && Searching(runs0, runs, k, false, true, start, hook, size)
    requires k + 1 == |runs| && !Fits(runs[k], size + MINOR_SIZE)
    ensures Searching(runs0, runs, 0, false, false, start, hook, size)
  {
    forall i | 0 <= i < |runs0| && Passed(|runs0|, start, false, 0, i) ensures !Fits(runs0[i], size + MINOR_SIZE) {
      assert i == k || Passed(|runs0|, start, true, k, i);
    }
  }

  /** At the last major, with nothing left to try, no major fits. */
  lemma Exhausted(runs0: seq<Run>, runs: seq<Run>, k: int, start: int, hook: int, size: int)
    requires 0 <= size && Searching(runs0, runs, k, false, false, start, hook, size)
    requires k + 1 == |runs| && !Fits(runs[k], size + MINOR_SIZE)
    ensures runs == runs0 && NoneFits(runs0, size + MINOR_SIZE)
    ensures hook != 0 ==> Searching(runs0, runs0 + [NewRun(hook, size)], k + 1, true, false, start, hook, size)
  {
    forall i | 0 <= i < |runs0| ensures !Fits(runs0[i], size + MINOR_SIZE) {
      assert i < k ==> Passed(|runs0|, start, false, k, i);
    }
  }

  /** A new major always satisfies the request it was made for, so the search never grows twice. */
  lemma NewRunFits(hook: int, size: int)
    requires 0 <= size
    ensures Fits(NewRun(hook, size), size + MINOR_SIZE)
    ensures RunSize(NewRun(hook, size)) - Usage(NewRun(hook, size)) >= size + MINOR_SIZE
  {
    assert GapFits(NewRun(hook, size), 0, size + MINOR_SIZE);
  }

  /** Placing the block ends the search with an allowed answer, and no major is left empty. */
  lemma Finish(runs0: seq<Run>, runs: seq<Run>, k: int, j: int, grown: bool, startedBet: bool, start: int, hook: int,
      req: int)
    requires 0 <= req && Searching(runs0, runs, k, grown, startedBet, start, hook, SizeFor(req))
    requires FirstGap(runs[k], j, SizeFor(req) + MINOR_SIZE)
    requires forall l :: 0 <= l < |runs| ==> RunOk(runs[l])
    ensures var b := NewBlock(GapStart(runs[k], j), req);
            && NoEmptyRun(InsertBlock(runs, k, j, b))
            && UserPtr(b.addr) != 0
            && Served(runs0, InsertBlock(runs, k, j, b), req, hook, UserPtr(b.addr))
            && (!grown ==> ServedFromGap(runs0, InsertBlock(runs, k, j, b), req, UserPtr(b.addr), k, j))
  {
    var b := NewBlock(GapStart(runs[k], j), req);
    var after := InsertBlock(runs, k, j, b);
    assert b.addr > 0 by { assert RunOk(runs[k]); }
    if grown {
      var r := NewRun(hook, SizeFor(req));
      assert runs[k] == r && j == 0;
      assert InsertAt(r, 0, b) == r.(blocks := [b]);
      assert after == runs0 + [r.(blocks := [b])];
      assert ServedFromHook(runs0, after, req, hook, UserPtr(b.addr));
    } else {
      assert ServedFromGap(runs0, after, req, UserPtr(b.addr), k, j);
    }
  }

  lemma BetFree(runs: seq<Run>, bet: int, b: int)
    requires WellFormed(runs) && 0 <= b < |runs| && runs[b].base == bet
    ensures FreeAt(runs, bet) == Free(runs[b])
  {
    forall l | 0 <= l < b ensures runs[l].base != bet {
      assert RunOk(runs[l]) && RunOk(runs[b]) && Apart(runs[l], runs[b]);
    }
    FirstFree(runs, bet, b);
  }

  lemma {:induction false} FirstFree(runs: seq<Run>, bet: int, b: int)
    requires 0 <= b < |runs| && runs[b].base == bet && forall l :: 0 <= l < b ==> runs[l].base != bet
    ensures FreeAt(runs, bet) == Free(runs[b])
  {
    if b > 0 {
      assert runs[1..][b - 1] == runs[b];
      FirstFree(runs[1..], bet, b - 1);
    }
  }

  lemma {:induction false} NoBet(runs: seq<Run>)
    requires forall l :: 0 <= l < |runs| ==> RunOk(runs[l])
    ensures FreeAt(runs, 0) == 0
  {
    if runs != [] {
      assert RunOk(runs[0]);
      NoBet(runs[1..]);
    }
  }

  /** The best bet noted so far: no major passed has more free bytes. */
  ghost predicate BetOk(runs0: seq<Run>, k: int, startedBet: bool, start: int, bet: int, size: int)
  {
    && size == FreeAt(runs0, bet)
    && forall i {:trigger Passed(|runs0|, start, startedBet, k, i)} ::
         0 <= i < |runs0| && Passed(|runs0|, start, startedBet, k, i) ==> Free(runs0[i]) <= size
  }

  /** Where the search ends is the first major in its order that fits. */
  lemma EndsAtFirst(runs0: seq<Run>, k: int, startedBet: bool, start: int, hook: int, size: int, bet: int,
      bestSize: int)
    requires 0 <= size && Searching(runs0, runs0, k, false, startedBet, start, hook, size) &&
        Fits(runs0[k], size + MINOR_SIZE)
    requires BetOk(runs0, k, startedBet, start, bet, bestSize) && Free(runs0[k]) <= bestSize
    ensures FirstInOrder(runs0, start, k, size + MINOR_SIZE, bet)
  {
    assert !Passed(|runs0|, start, startedBet, k, k);
    forall i | 0 <= i < |runs0| && Sooner(|runs0|, start, k, i)
      ensures !Fits(runs0[i], size + MINOR_SIZE) && Free(runs0[i]) <= FreeAt(runs0, bet)
    {
      assert Passed(|runs0|, start, startedBet, k, i);
    }
  }

  /** The bet after `k` was passed too: the search goes on behind it, or at the root. */
  lemma BetPassed(runs0: seq<Run>, k: int, startedBet: bool, start: int, bet: int, bestSize: int, k': int,
      startedBet': bool)
    requires BetOk(runs0, k, startedBet, start, bet, bestSize) && 0 <= k < |runs0|
    requires 0 <= start && (startedBet ==> start <= k)
    requires Free(runs0[k]) <= bestSize
    requires (startedBet && !startedBet' && k' == 0 && k + 1 == |runs0|) || (startedBet' == startedBet && k' == k + 1)
    ensures BetOk(runs0, k', startedBet', start, bet, bestSize)
  {
    forall i | 0 <= i < |runs0| && Passed(|runs0|, start, startedBet', k', i) ensures Free(runs0[i]) <= bestSize {
      assert i == k || Passed(|runs0|, start, startedBet, k, i);
    }
  }

  /** A search that has passed nothing yet. */
  lemma StartBet(runs0: seq<Run>, k: int, startedBet: bool, bet: int)
    requires startedBet || k == 0
    ensures BetOk(runs0, k, startedBet, k, bet, FreeAt(runs0, bet))
  {
  }

  /** A major whose free total is too small has no gap for the request. */
  lemma TooFull(r: Run, need: int)
    requires RunOk(r) && 0 <= need && Free(r) < need
    ensures !Fits(r, need)
  {
    if Fits(r, need) {
      FitsNeedsFree(r, need);
    }
  }

  /** All that is known of a search standing at major `k`; `bet0` was the best bet when it began. */
  ghost predicate SearchOk(req: int, hook: int, runs0: seq<Run>, runs: seq<Run>, bet0: int, bet: int, startedBet: bool,
      bestSize: int, fellThrough: bool, k: int, grown: bool, start: int)
  {
    && RequestFits(req) && Searching(runs0, runs, k, grown, startedBet, start, hook, SizeFor(req)) && (fellThrough ==> grown)
    && (!grown ==>
        && HookOk(runs, req, hook) && BetOk(runs0, k, startedBet, start, bet, bestSize)
        && StartsAt(runs0, bet0, NeedFor(req), start))
  }

  /** Noting the better of the bet and the major visited. */
  lemma SearchVisit(req: int, hook: int, runs0: seq<Run>, runs: seq<Run>, bet0: int, bet: int, bet': int,
      startedBet: bool, bestSize: int, bestSize': int, fellThrough: bool, k: int, grown: bool, start: int)
    requires WellFormed(runs) && SearchOk(req, hook, runs0, runs, bet0, bet, startedBet, bestSize, fellThrough, k, grown, start)
    requires !grown ==> bet' == if bestSize < Free(runs[k]) then runs[k].base else bet
    requires !grown ==> bestSize' == if bestSize < Free(runs[k]) then Free(runs[k]) else bestSize
    ensures SearchOk(req, hook, runs0, runs, bet0, bet', startedBet, bestSize', fellThrough, k, grown, start)
    ensures !grown ==> Free(runs0[k]) <= bestSize'
  {
    BetFree(runs, runs[k].base, k);
  }

  /** A request served without a new major is served in the order of the search. */
  lemma SearchEnds(req: int, hook: int, runs0: seq<Run>, after: seq<Run>, bet0: int, bet: int, startedBet: bool,
      bestSize: int, k: int, start: int, p: int)
    requires SearchOk(req, hook, runs0, runs0, bet0, bet, startedBet, bestSize, false, k, false, start)
    requires Free(runs0[k]) <= bestSize && exists j :: ServedFromGap(runs0, after, req, p, k, j)
    ensures ServedInOrder(runs0, after, req, p, bet0, bet)
  {
    var j :| ServedFromGap(runs0, after, req, p, k, j);
    assert GapFits(runs0[k], j, SizeFor(req) + MINOR_SIZE);
    EndsAtFirst(runs0, k, startedBet, start, hook, SizeFor(req), bet, bestSize);
  }

  /** Going on behind a major that is too full, or at the root. */
  lemma SearchNext(req: int, hook: int, runs0: seq<Run>, runs: seq<Run>, bet0: int, bet: int, startedBet: bool,
      bestSize: int, fellThrough: bool, k: int, grown: bool, start: int, k': int, startedBet': bool)
    requires SearchOk(req, hook, runs0, runs, bet0, bet, startedBet, bestSize, fellThrough, k, grown, start)
    requires !Fits(runs[k], NeedFor(req)) && (!grown ==> Free(runs0[k]) <= bestSize)
    requires
      || (startedBet && !startedBet' && k' == 0 && k + 1 == |runs|)
      || (startedBet' == startedBet && k' == k + 1 < |runs|)
    ensures !grown && SearchOk(req, hook, runs0, runs, bet0, bet, startedBet', bestSize, false, k', false, start)
  {
    NewRunFits(hook, SizeFor(req));
    BetPassed(runs0, k, startedBet, start, bet, bestSize, k', startedBet');
    if k' == 0 {
      ComeRound(runs0, runs, k, start, hook, SizeFor(req));
    } else {
      NextMajor(runs0, runs, k, grown, startedBet, start, hook, SizeFor(req));
    }
  }

  /** Nothing is left but a new major. */
  lemma SearchGrows(req: int, hook: int, runs0: seq<Run>, runs: seq<Run>, bet0: int, bet: int, bestSize: int,
      fellThrough: bool, k: int, grown: bool, start: int)
    requires SearchOk(req, hook, runs0, runs, bet0, bet, false, bestSize, fellThrough, k, grown, start)
    requires !Fits(runs[k], NeedFor(req)) && k + 1 == |runs|
    ensures !grown && runs == runs0 && NoneFits(runs0, NeedFor(req))
    ensures hook == 0 || FreshRun(runs, NewRun(hook, SizeFor(req)))
    ensures hook != 0 ==> SearchOk(req, hook, runs0, runs0 + [NewRun(hook, SizeFor(req))], bet0, bet, false, bestSize, true, k + 1, true, start)
  {
    NewRunFits(hook, SizeFor(req));
    Exhausted(runs0, runs, k, start, hook, SizeFor(req));
  }

  // ----- freeing and resizing

  /** The minor with header `a`, and nothing else, is gone (and its major too, if that emptied it). */
  ghost predicate Freed(before: seq<Run>, after: seq<Run>, a: int)
  {
    exists k, j :: At(before, k, j) && before[k].blocks[j].addr == a && after == RemoveBlock(before, k, j)
  }

  lemma FreedFrom(before: seq<Run>, after: seq<Run>, a: int, k: int, j: int)
    requires WellFormed(before) && Freed(before, after, a)
    requires At(before, k, j) && before[k].blocks[j].addr == a
    ensures after == RemoveBlock(before, k, j)
  {
    var l, i :| At(before, l, i) && before[l].blocks[i].addr == a && after == RemoveBlock(before, l, i);
    AddressesUnique(before, k, j, l, i);
  }

  lemma RemoveUndoesInsert(runs: seq<Run>, k: int, j: int, b: Block)
    requires 0 <= k < |runs| && 0 <= j <= |runs[k].blocks| && runs[k].blocks != []
    ensures RemoveBlock(InsertBlock(runs, k, j, b), k, j) == runs
  {
    var bs := runs[k].blocks;
    assert bs == bs[..j] + bs[j..];
    assert RemoveAt(InsertAt(runs[k], j, b), j).blocks == bs;
  }

  /** Where the block of an answered request stands. */
  lemma ServedAt(before: seq<Run>, after: seq<Run>, req: int, hook: int, p: int) returns (k: int, j: int)
    requires 0 <= req && Served(before, after, req, hook, p) && p != 0
    ensures At(after, k, j) && after[k].blocks[j] == NewBlock(after[k].blocks[j].addr, req) &&
        p == UserPtr(after[k].blocks[j].addr)
    ensures NoEmptyRun(before) ==> RemoveBlock(after, k, j) == before
  {
    if l, i :| ServedFromGap(before, after, req, p, l, i) {
      k, j := l, i;
      if NoEmptyRun(before) {
        RemoveUndoesInsert(before, k, j, NewBlock(GapStart(before[k], j), req));
      }
    } else {
      k, j := |before|, 0;
      assert after[..k] + after[k + 1..] == before;
    }
  }

  /** `kfree` of the pointer `kmalloc` just returned restores the layout exactly. */
  lemma FreeUndoesAlloc(before: seq<Run>, mid: seq<Run>, after: seq<Run>, req: int, hook: int, p: int, a: int)
    requires 0 <= req && WellFormed(mid) && NoEmptyRun(before)
    requires Served(before, mid, req, hook, p) && p != 0
    requires Live(mid, a) && UserPtr(a) == p && Freed(mid, after, a)
    ensures after == before
  {
    var k, j := ServedAt(before, mid, req, hook, p);
    var l, i :| At(mid, l, i) && mid[l].blocks[i].addr == a;
    assert (l, i) == (k, j) by {
      if (l, i) != (k, j) {
        BlocksApart(mid, k, j, l, i);
      }
    }
    FreedFrom(mid, after, a, k, j);
  }

  /** Every answer of `kmalloc` is one of the steps of `HeapView.HeapStep`; so are a free and a shrink. */
  lemma ServedIsStep(before: seq<Run>, after: seq<Run>, req: int, hook: int, p: int)
    requires RequestFits(req) && HookOk(before, req, hook) && Served(before, after, req, hook, p)
    ensures HeapStep(before, after)
  {
  }

  /** Live minors stay where they are while a request is served, and the new one is none of them. */
  lemma ServedKeepsBlock(before: seq<Run>, after: seq<Run>, req: int, hook: int, p: int, k: int, j: int)
    returns (l: int, i: int, k': int, j': int)
    requires 0 <= req && Served(before, after, req, hook, p) && At(before, k, j)
    ensures At(after, l, i) && after[l].blocks[i] == before[k].blocks[j]
    ensures p != 0 ==> At(after, k', j') && (k', j') != (l, i) && after[k'].blocks[j'].req == req && p == UserPtr(after[k'].blocks[j'].addr)
  {
    l, i, k', j' := k, j, |before|, 0;
    if p != 0 {
      if x, y :| ServedFromGap(before, after, req, p, x, y) {
        k', j' := x, y;
        i := if x == k && y <= j then j + 1 else j;
        assert after[l].blocks[i] == before[k].blocks[j];
      }
    }
  }

  /** No byte a caller may write holds an alignment distance. */
  lemma UserByteIsNoSlot(runs: seq<Run>, k: int, j: int, a: int, l: int, i: int)
    requires WellFormed(runs) && At(runs, k, j) && UserByte(runs[k].blocks[j], a) && At(runs, l, i)
    ensures a != AlignSlot(runs[l].blocks[i].addr)
  {
  }

  /** What `krealloc` may do with a live block: shrink it in place, or serve a new request and free it. */
  ghost predicate Resized(before: seq<Run>, after: seq<Run>, a: int, size: int, hook: int, p: int, q: int)
    requires 0 <= size
  {
    exists k, j :: ResizedAt(before, after, a, size, hook, p, q, k, j)
  }

  ghost predicate ResizedAt(before: seq<Run>, after: seq<Run>, a: int, size: int, hook: int, p: int, q: int, k: int,
      j: int)
    requires 0 <= size
  {
    && At(before, k, j) && before[k].blocks[j].addr == a
    && if before[k].blocks[j].req >= size then q == p && after == SetRequest(before, k, j, size)
       else exists mid :: Served(before, mid, size, hook, q) && Freed(mid, after, a)
  }

  /**
   A failed `krealloc` does not leave the old block alone: asked to grow a live block when no major has
   room and the hook gives nothing, it returns null and the block is gone. For a live block that is the
   only way it returns null.
   */
  lemma FailedResizeLosesBlock(before: seq<Run>, after: seq<Run>, a: int, size: int, hook: int, p: int, q: int)
    requires 0 <= size && p != 0 && WellFormed(before) && Resized(before, after, a, size, hook, p, q)
    ensures q == 0 <==> hook == 0 && NoneFits(before, SizeFor(size) + MINOR_SIZE)
                        && exists k, j :: At(before, k, j) && before[k].blocks[j].addr == a && before[k].blocks[j].req < size
    ensures q == 0 ==> Freed(before, after, a)
  {
    var k, j :| ResizedAt(before, after, a, size, hook, p, q, k, j);
    if before[k].blocks[j].req >= size {
      forall l, i | At(before, l, i) && before[l].blocks[i].addr == a
        ensures before[l].blocks[i].req >= size
      {
        AddressesUnique(before, k, j, l, i);
      }
    } else {
      var mid :| Served(before, mid, size, hook, q) && Freed(mid, after, a);
      if q != 0 && hook == 0 {
        var x, y :| ServedFromGap(before, mid, size, q, x, y);
        assert GapFits(before[x], y, SizeFor(size) + MINOR_SIZE);
      } 
    }
  }
}
