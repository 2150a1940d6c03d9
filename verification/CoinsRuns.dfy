/** Runs over a stack of coins caches, compared with plain maps: a flush into the
    database takes off the coin stake flags, and nothing else that the program's
    comparison of records would tell. */
module CoinsRuns {
  import opened Common
  import opened Coins
  import opened OutputCodec
  import opened CoinsCodec
  import opened CoinsStore
  import opened CoinsCache

  ghost predicate AllStorable(view: Contents) {
    forall t :: t in view ==> Writable(view[t]) && Storable(view[t])
  }

  ghost predicate AllExact(view: Contents) {
    forall t :: t in view ==> Exact(view[t])
  }

  /** What comes back of a view. */
  ghost function BackView(view: Contents): Contents { map t | t in view :: Back(view[t]) }

  /** A view of storable records goes into the database as what comes back of each. */
  lemma FlushedBack(c: Curve, top: Contents, base: Contents, next: Contents)
    requires Lawful(c) && FlushedInto(c, top, base, next) && AllStorable(top) && AllExact(base)
    ensures next == BackView(top) && AllExact(next) && SameView(next, top)
  {
    hide Lawful, Reread, Writable, Storable, Exact, Back, SameRecord;
    forall t ensures At(next, t) == At(BackView(top), t) {
      if t in top {
        RereadSame(c, top[t]);
        if t in base && top[t] == base[t] { ExactBack(top[t]); }
      }
    }
    SameEverywhere(next, BackView(top));
    forall t | t in top ensures Exact(Back(top[t])) && SameRecord(Back(top[t]), top[t]) { BackStays(top[t]); }
  }

  lemma ExactBack(r: CoinRecord)
    requires Exact(r)
    ensures Back(r) == r
  {
    hide Storable, NormalAt;
    BackExact(r);
  }

  /** Where exact records alone are shown, a flush below other caches is harmless. */
  lemma ExactComesBack(c: Curve, view: Contents)
    requires Lawful(c) && AllExact(view) && AllStorable(view)
    ensures ComesBack(c, view)
  {
    hide Lawful, Reread, Writable, Storable, Exact;
    forall t | t in view ensures Reread(c, view[t]) == Some(view[t]) { RereadExact(c, view[t]); }
  }

  /** A cache that holds a copy of a coin stake record is no longer right when the
      cache below it goes into the database. */
  lemma CopyGoesStale(c: Curve, t: Txid)
    requires Lawful(c)
    ensures var above, below := map[t := Entry(STAKED, false, false)], map[t := Entry(STAKED, true, true)];
      && Coherent(map[], below) && Coherent(Overlay(map[], below), above)
      && !Coherent(Rewritten(c, map[], below), above)
  {
    hide Lawful, Rewritten, Overlay, SameView;
    StakeFlushed(c, t);
    var above := map[t := Entry(STAKED, false, false)];
    assert !STAKED.vout[0].IsNull();
    assert !EntryCoherent(map[t := STAKED.(coinStake := false)], t, above[t]);
  }

  // ---- plain maps ----

  /** The call on plain maps, with every flush exact. */
  ghost function StepAt(views: seq<Contents>, call: Call): (next: seq<Contents>)
    requires call.level + 2 <= |views|
    ensures |next| == |views|
  {
    views[..call.level] + Step(views[call.level..], call.op)
  }

  /** The same levels, and on each the same records as the program compares them. */
  ghost predicate SameViews(a: seq<Contents>, b: seq<Contents>) {
    |a| == |b| && forall i :: 0 <= i < |a| ==> SameView(a[i], b[i])
  }

  lemma SameTransitive(a: CoinRecord, b: CoinRecord, c: CoinRecord)
    requires SameRecord(a, b) && SameRecord(b, c) && !b.IsPruned()
    ensures SameRecord(a, c)
  {
  }

  lemma {:induction false} DroppedSame(a: seq<TxOut>, b: seq<TxOut>)
    requires SameOutputs(a, b)
    ensures SameOutputs(DropTrailingNulls(a), DropTrailingNulls(b))
  {
    if a != [] { DroppedSame(a[..|a| - 1], b[..|a| - 1]); }
  }

  /** Equal records stay equal, and pruned alike, when the same output is spent. */
  lemma SpentSame(a: CoinRecord, b: CoinRecord, pos: nat)
    requires SameRecord(a, b) && !a.IsPruned() && !b.IsPruned()
    ensures SameRecord(a.Spend(pos).1, b.Spend(pos).1)
    ensures a.Spend(pos).1.IsPruned() <==> b.Spend(pos).1.IsPruned()
  {
    hide SameOutput, DropTrailingNulls;
    SameNulls(a.vout, b.vout);
    if a.IsAvailable(pos) {
      var x, y := a.vout[pos := NULL_TXOUT], b.vout[pos := NULL_TXOUT];
      SameNull();
      DroppedSame(x, y);
      SameNulls(DropTrailingNulls(x), DropTrailingNulls(y));
    }
  }

  lemma SameNull()
    ensures SameOutput(NULL_TXOUT, NULL_TXOUT)
  {
  }

  lemma SameNulls(a: seq<TxOut>, b: seq<TxOut>)
    requires SameOutputs(a, b)
    ensures forall i :: 0 <= i < |a| ==> (a[i].IsNull() <==> b[i].IsNull())
  {
    forall i | 0 <= i < |a| ensures a[i].IsNull() <==> b[i].IsNull() { assert SameOutput(a[i], b[i]); }
  }

  lemma PutSame(v: Contents, w: Contents, t: Txid, a: CoinRecord, b: CoinRecord)
    requires SameView(v, w) && SameRecord(a, b) && (a.IsPruned() <==> b.IsPruned())
    ensures SameView(Put(v, t, a), Put(w, t, b))
  {
    hide SameRecord;
  }

  /** Views are views of unpruned records. */
  ghost predicate Lively(view: Contents) {
    forall t :: t in view ==> !view[t].IsPruned()
  }

  /** Plain maps keep the equality of records. */
  lemma StepSame(a: seq<Contents>, b: seq<Contents>, op: Operation)
    requires |a| >= 2 && SameViews(a, b) && Lively(a[0]) && Lively(b[0])
    ensures SameViews(Step(a, op), Step(b, op)) && Lively(Step(a, op)[0]) && Lively(Step(b, op)[0])
  {
    hide SameRecord, SameView, CoinRecord.Spend, CoinRecord.Cleanup;
    match op
    case Modify(t, c) =>
      SameItself(c.Cleanup());
      PutSame(a[0], b[0], t, c.Cleanup(), c.Cleanup());
    case Create(t, _, c) =>
      SameItself(c.Cleanup());
      PutSame(a[0], b[0], t, c.Cleanup(), c.Cleanup());
    case Spend(t, pos) =>
      KeysSame(a[0], b[0], t);
      if t in a[0] {
        SpentSame(a[0][t], b[0][t], pos);
        PutSame(a[0], b[0], t, a[0][t].Spend(pos).1, b[0][t].Spend(pos).1);
      }
    case _ =>
  }

  lemma KeysSame(v: Contents, w: Contents, t: Txid)
    requires SameView(v, w)
    ensures (t in v <==> t in w) && (t in v ==> SameRecord(v[t], w[t]))
  {
    assert t in v <==> t in v.Keys;
    assert t in w <==> t in w.Keys;
  }

  lemma ViewTransitive(a: Contents, b: Contents, c: Contents)
    requires SameView(a, b) && SameView(b, c) && Lively(b)
    ensures SameView(a, c)
  {
    hide SameRecord;
    forall t | t in a ensures SameRecord(a[t], c[t]) {
      KeysSame(a, b, t);
      KeysSame(b, c, t);
      SameTransitive(a[t], b[t], c[t]);
    }
  }

  // ---- whole runs ----

  /** A call that flushes into the database finds storable records only. */
  ghost predicate Keeps(views: seq<Contents>, call: Call)
    requires call.level + 2 <= |views|
  {
    IntoDatabase(views[call.level..], call.op) ==> AllStorable(views[call.level])
  }

  ghost predicate AllLively(views: seq<Contents>) {
    forall i :: 0 <= i < |views| ==> Lively(views[i])
  }

  /** What holds along a run: as on plain maps, up to the equality of records, and
      what the database shows would come back from it as it is. */
  ghost predicate Along(views: seq<Contents>, ideal: seq<Contents>) {
    && |views| >= 2 && SameViews(views, ideal) && AllLively(views) && AllLively(ideal)
    && AllExact(views[|views| - 1])
  }

  lemma ViewSame(view: Contents)
    ensures SameView(view, view)
  {
    hide SameRecord;
    forall t | t in view ensures SameRecord(view[t], view[t]) { SameItself(view[t]); }
  }

  lemma AlongStart(views: seq<Contents>)
    requires |views| >= 2 && AllLively(views) && AllExact(views[|views| - 1])
    ensures Along(views, views)
  {
    hide SameView;
    forall i | 0 <= i < |views| ensures SameView(views[i], views[i]) { ViewSame(views[i]); }
  }

  /** No level of a stack shows a pruned record. */
  lemma {:induction false} ViewsLively(cache: Cache)
    requires cache.Valid()
    ensures AllLively(cache.Views())
    decreases cache.below
  {
    hide RowsShow;
    cache.BaseClean();
    cache.ViewsAre();
    match cache.base
    case Bottom(db) =>
    case Layer(c) =>
      ViewsLively(c);
  }

  /** Any stack whose database shows exact records, such as an empty one, is a
      start for RunSame, with the views themselves as the plain maps. */
  lemma StackStarts(cache: Cache)
    requires cache.Valid() && AllExact(cache.Views()[|cache.Views()| - 1])
    ensures Along(cache.Views(), cache.Views())
  {
    hide AllExact, AllLively;
    ViewsLively(cache);
    AlongStart(cache.Views());
  }

  lemma FollowsAlong(c: Curve, views: seq<Contents>, ideal: seq<Contents>, call: Call, next: seq<Contents>)
    requires Lawful(c) && Along(views, ideal) && call.level + 2 <= |views|
    requires Follows(c, views, call, next) && Keeps(views, call)
    ensures Along(next, StepAt(ideal, call))
  {
    hide Along, AllStorable, Performs, Step, Lawful;
    var l := call.level;
    AlongParts(views, ideal, l);
    PerformsAlong(c, views[l..], ideal[l..], call.op, next[l..]);
    AlongJoined(views, ideal, l, next[l..], Step(ideal[l..], call.op));
    assert next == next[..l] + next[l..];
  }

  lemma AlongParts(views: seq<Contents>, ideal: seq<Contents>, l: nat)
    requires Along(views, ideal) && l + 2 <= |views|
    ensures |views| == |ideal| && Along(views[l..], ideal[l..])
  {
    hide SameView, Lively, AllExact;
  }

  lemma AlongJoined(views: seq<Contents>, ideal: seq<Contents>, l: nat, n: seq<Contents>, r: seq<Contents>)
    requires Along(views, ideal) && l <= |views| && l <= |ideal| && Along(n, r)
    ensures Along(views[..l] + n, ideal[..l] + r)
  {
    hide SameView, Lively, AllExact;
    var a, b := views[..l] + n, ideal[..l] + r;
    assert |n| == |r|;
    forall i | 0 <= i < |a| ensures SameView(a[i], b[i]) && Lively(a[i]) && Lively(b[i]) {
      if i < l {
        assert a[i] == views[i] && b[i] == ideal[i];
      } else {
        assert a[i] == n[i - l] && b[i] == r[i - l];
      }
    }
  }

  /** The same from the cache called down. */
  lemma PerformsAlong(c: Curve, v: seq<Contents>, w: seq<Contents>, op: Operation, n: seq<Contents>)
    requires Lawful(c) && Along(v, w) && Performs(c, v, op, n)
    requires IntoDatabase(v, op) ==> AllStorable(v[0])
    ensures Along(n, Step(w, op))
  {
    hide SameView, Lively, AllExact, AllStorable, FlushedInto, Step, Lawful;
    StepBelow(w, op);
    if IntoDatabase(v, op) {
      DatabaseAlong(c, v[0], v[1], n[1], w[0]);
    } else {
      StepSame(v, w, op);
      StepBelow(v, op);
      assert n[|n| - 1] == v[|v| - 1];
    }
  }

  lemma DatabaseAlong(c: Curve, top: Contents, base: Contents, next: Contents, ideal: Contents)
    requires Lawful(c) && FlushedInto(c, top, base, next) && AllStorable(top) && AllExact(base)
    requires SameView(top, ideal) && Lively(top)
    ensures SameView(next, ideal) && Lively(next) && AllExact(next)
  {
    hide Lawful, FlushedInto, SameRecord, Storable, Exact, Writable;
    FlushedBack(c, top, base, next);
    ViewTransitive(next, top, ideal);
    forall t | t in next ensures !next[t].IsPruned() {
      assert Writable(top[t]);
      WritableLives(top[t]);
    }
  }

  lemma WritableLives(r: CoinRecord)
    requires Writable(r)
    ensures !Back(r).IsPruned()
  {
    BackLives(r);
  }

  /** Every level below the one called, or the one below that for a flush, stays. */
  lemma StepBelow(views: seq<Contents>, op: Operation)
    requires |views| >= 2
    ensures var next := Step(views, op);
      && (forall i :: 2 <= i < |views| ==> next[i] == views[i])
      && next[1] == (if op.Flush? then views[0] else views[1])
      && (op.Flush? ==> next[0] == views[0])
  {
    hide CoinRecord.Spend, CoinRecord.Cleanup;
  }

  /** The same calls on plain maps. */
  ghost predicate PlainHistory(ideal: seq<seq<Contents>>, calls: seq<Call>) {
    && |ideal| == |calls| + 1
    && forall i :: 0 <= i < |calls| ==>
         calls[i].level + 2 <= |ideal[i]| && ideal[i + 1] == StepAt(ideal[i], calls[i])
  }

  /** A run in which only storable records go into the database shows, at every
      moment and on every level, what the same calls make of plain maps, up to the
      equality of records that the program has. */
  lemma {:induction false} RunSame(c: Curve, states: seq<seq<Contents>>, ideal: seq<seq<Contents>>, calls: seq<Call>,
          i: nat)
    requires Lawful(c) && History(c, states, calls) && PlainHistory(ideal, calls) && i <= |calls|
    requires Along(states[0], ideal[0])
    requires forall k :: 0 <= k < |calls| ==> Keeps(states[k], calls[k])
    ensures Along(states[i], ideal[i])
  {
    hide Lawful, Along, Follows, StepAt, Keeps;
    if i > 0 {
      RunSame(c, states, ideal, calls, i - 1);
      assert Follows(c, states[i - 1], calls[i - 1], states[i]);
      assert Keeps(states[i - 1], calls[i - 1]);
      FollowsAlong(c, states[i - 1], ideal[i - 1], calls[i - 1], states[i]);
    }
  }
}
