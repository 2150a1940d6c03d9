/** The layered write-back cache over the coins database: CStateViewCache and
    CStateViewDB, restricted to coins (src/coins.cpp, src/txdb.cpp).

    The specification of a view is a plain map holding exactly its unpruned
    records; "absent" and "pruned" are identified. */
module CoinsCache {
  import opened Common
  import opened Coins
  import opened Streams
  import opened OutputCodec
  import opened CoinsStore
  import CoinsCodec

  type Txid = nat
  type Contents = map<Txid, CoinRecord>

  /** A cache entry with its two flags. */
  datatype Entry = Entry(coins: CoinRecord, isDirty: bool, isFresh: bool)

  type Entries = map<Txid, Entry>

  /** What a cache holding `entries` shows on top of a base showing `base`. */
  ghost function Overlay(base: Contents, entries: Entries): Contents {
    map t | t in base.Keys + entries.Keys && (t in entries ==> !entries[t].coins.IsPruned())
      :: if t in entries then entries[t].coins else base[t]
  }

  function Put(view: Contents, t: Txid, c: CoinRecord): Contents {
    if c.IsPruned() then view - {t} else view[t := c]
  }

  /** Records in a view are unpruned and carry no trailing nulls. */
  ghost predicate Clean(view: Contents) {
    forall t :: t in view ==> !view[t].IsPruned() && view[t].IsTrimmed()
  }

  /** Record c is what the view has at t, a pruned record standing for none. */
  ghost predicate Shows(view: Contents, t: Txid, c: CoinRecord) {
    if c.IsPruned() then t !in view else t in view && view[t] == c
  }

  /** The meaning of the flags: FRESH says the base has nothing unpruned here,
      not DIRTY says the entry repeats the base. */
  ghost predicate EntryCoherent(base: Contents, t: Txid, e: Entry) {
    && (e.isFresh ==> t !in base)
    && (!e.isDirty ==> Shows(base, t, e.coins))
  }

  ghost predicate Coherent(base: Contents, entries: Entries) {
    forall t :: t in entries ==> EntryCoherent(base, t, entries[t])
  }

  ghost predicate Trimmed(entries: Entries) {
    forall t :: t in entries ==> entries[t].coins.IsTrimmed()
  }

  lemma OverlayEmpty(base: Contents)
    ensures Overlay(base, map[]) == base
  {
  }

  lemma OverlayAt(base: Contents, entries: Entries, t: Txid)
    ensures t in Overlay(base, entries) <==> if t in entries then !entries[t].coins.IsPruned() else t in base
    ensures t in Overlay(base, entries) ==>
            Overlay(base, entries)[t] == if t in entries then entries[t].coins else base[t]
  {
  }

  /** Overwriting one entry overwrites one record of the view. */
  lemma OverlayUpdate(base: Contents, entries: Entries, t: Txid, e: Entry)
    ensures Overlay(base, entries[t := e]) == Put(Overlay(base, entries), t, e.coins)
  {
  }

  /** Erasing an entry is invisible exactly when it showed what the base shows. */
  lemma OverlayErase(base: Contents, entries: Entries, t: Txid)
    requires t in entries
    ensures Overlay(base, entries - {t}) == Overlay(base, entries)
            <==> Shows(base, t, entries[t].coins)
  {
    var l, r := Overlay(base, entries - {t}), Overlay(base, entries);
    var e := entries[t];
    assert forall k :: k != t ==> (k in l <==> k in r) && (k in l ==> l[k] == r[k]);
    if Shows(base, t, e.coins) {
      assert t in l <==> t in r;
      assert l == r;
    } else if e.coins.IsPruned() {
      assert t in l && t !in r;
    } else if t !in base {
      assert t in r && t !in l;
    } else {
      assert t in r && t in l && l[t] != r[t];
    }
  }

  lemma OverlayDrop(base: Contents, entries: Entries, t: Txid)
    requires t !in base
    ensures Overlay(base, entries - {t}) == Overlay(base, entries) - {t}
  {
  }

  /** A flush may process the child's entries one at a time, in any order. */
  lemma OverlayStep(view: Contents, child: Entries, t: Txid)
    requires t in child && EntryCoherent(view, t, child[t])
    ensures Overlay(Put(view, t, child[t].coins), child - {t}) == Overlay(view, child)
    ensures !child[t].isDirty ==> Put(view, t, child[t].coins) == view
  {
  }

  /** One step of a flush into a plain map: the record is written and nothing
      else about the remaining entries changes. */
  lemma FlushStep(view: Contents, child: Entries, t: Txid)
    requires Coherent(view, child) && t in child
    ensures EntryCoherent(view, t, child[t])
    ensures var next := if child[t].isDirty then Put(view, t, child[t].coins) else view;
            && Coherent(next, child - {t})
            && Overlay(next, child - {t}) == Overlay(view, child)
  {
    OverlayStep(view, child, t);
    CoherentElsewhere(view, Put(view, t, child[t].coins), child, t);
  }

  lemma CoherentElsewhere(view: Contents, view': Contents, child: Entries, t: Txid)
    requires Coherent(view, child)
    requires forall k :: k != t ==> (k in view <==> k in view') && (k in view ==> view[k] == view'[k])
    ensures Coherent(view', child - {t})
  {
  }

  /** The entry BatchWrite leaves for a DIRTY child entry, or None to erase. */
  function Absorb(us: Option<Entry>, them: Entry): Option<Entry> {
    match us
    case None =>
      if them.isFresh && them.coins.IsPruned() then None
      else Some(Entry(them.coins, true, them.isFresh))
    case Some(e) =>
      if e.isFresh && them.coins.IsPruned() then None
      else Some(Entry(them.coins, true, e.isFresh))
  }

  function Find(entries: Entries, t: Txid): Option<Entry> {
    if t in entries then Some(entries[t]) else None
  }

  function Store(entries: Entries, t: Txid, e: Option<Entry>): Entries {
    match e
    case None => entries - {t}
    case Some(x) => entries[t := x]
  }

  /** Absorbing one coherent child entry writes exactly that record into the
      parent's view and keeps the parent's own flags truthful, including FRESH
      propagation and erasure. */
  lemma AbsorbCorrect(base: Contents, ours: Entries, t: Txid, them: Entry)
    requires Coherent(base, ours)
    requires EntryCoherent(Overlay(base, ours), t, them) && them.isDirty
    ensures var next := Store(ours, t, Absorb(Find(ours, t), them));
            && Overlay(base, next) == Put(Overlay(base, ours), t, them.coins)
            && Coherent(base, next)
  {
    var next := Absorb(Find(ours, t), them);
    assert t in ours ==> EntryCoherent(base, t, ours[t]);
    match next {
      case Some(e) =>
        OverlayUpdate(base, ours, t, e);
      case None =>
        OverlayDrop(base, ours, t);
    }
    CoherentElsewhere(base, base, ours, t);
  }

  /** Caching a copy of what the base holds changes nothing visible. */
  lemma CopyFromBase(base: Contents, entries: Entries, t: Txid, e: Entry)
    requires Coherent(base, entries) && EntryCoherent(base, t, e) && !e.isDirty && t !in entries
    ensures var next := Store(entries, t, Some(e));
            && Overlay(base, next) == Overlay(base, entries) && Coherent(base, next)
            && next == entries[t := e]
  {
    OverlayUpdate(base, entries, t, e);
    assert Put(Overlay(base, entries), t, e.coins) == Overlay(base, entries);
  }

  /** Why ModifyNewCoins may mark an entry FRESH only where the base shows
      nothing: written unpruned the flag lies, written pruned the erased entry
      lets the base show through. Exactly one of the two goes wrong otherwise. */
  lemma FreshCreationExact(base: Contents, entries: Entries, t: Txid, c: CoinRecord)
    requires Coherent(base, entries)
    ensures var next := if c.IsPruned() then entries - {t} else entries[t := Entry(c, true, true)];
            && (Overlay(base, next) == Put(Overlay(base, entries), t, c) <==> t !in base || !c.IsPruned())
            && (Coherent(base, next) <==> t !in base || c.IsPruned())
  {
    if c.IsPruned() {
      CoherentElsewhere(base, base, entries, t);
      if t !in base {
        OverlayDrop(base, entries, t);
      } else {
        assert t in Overlay(base, entries - {t}) && t !in Put(Overlay(base, entries), t, c);
      }
    } else {
      var next := entries[t := Entry(c, true, true)];
      OverlayUpdate(base, entries, t, next[t]);
      assert t in base ==> !EntryCoherent(base, t, next[t]);
    }
  }

  // ---- memory accounting ----

  /** Sum of the memory used by the cached records. */
  ghost function Total(usageOf: CoinRecord -> nat, entries: Entries): nat
    decreases |entries|
  {
    if entries == map[] then 0
    else
      var t :| t in entries;
      usageOf(entries[t].coins) + Total(usageOf, entries - {t})
  }

  lemma {:induction false} TotalSplit(usageOf: CoinRecord -> nat, entries: Entries, t: Txid)
    requires t in entries
    ensures Total(usageOf, entries) == usageOf(entries[t].coins) + Total(usageOf, entries - {t})
    decreases |entries|
  {
    var k :| k in entries && Total(usageOf, entries) == usageOf(entries[k].coins) + Total(usageOf, entries - {k});
    if k != t {
      TotalSplit(usageOf, entries - {k}, t);
      TotalSplit(usageOf, entries - {t}, k);
      assert entries - {k} - {t} == entries - {t} - {k};
    }
  }

  ghost function UsageAt(usageOf: CoinRecord -> nat, entries: Entries, t: Txid): nat {
    if t in entries then usageOf(entries[t].coins) else 0
  }

  /** Any single store moves the total by the difference of the two usages. */
  lemma TotalStore(usageOf: CoinRecord -> nat, entries: Entries, t: Txid, e: Option<Entry>)
    ensures var next := Store(entries, t, e);
            Total(usageOf, next) == Total(usageOf, entries) - UsageAt(usageOf, entries, t) + UsageAt(usageOf, next, t)
  {
    var next := Store(entries, t, e);
    assert next - {t} == entries - {t};
    if t in entries { TotalSplit(usageOf, entries, t); } else { assert entries - {t} == entries; }
    if t in next { TotalSplit(usageOf, next, t); } else { assert next - {t} == next; }
  }

  // ---- the database at the bottom of the stack ----

  type Rows = map<Txid, Items>

  /** What the rows show when they are read. */
  ghost function RowsShow(c: Curve, rows: Rows): Contents {
    map t | t in rows && Shown(c, rows[t]).Some? :: Shown(c, rows[t]).value
  }

  ghost function At(view: Contents, t: Txid): Option<CoinRecord> {
    if t in view then Some(view[t]) else None
  }

  /** What the base shows after the DIRTY entries are written into it and read back. */
  ghost function Rewritten(c: Curve, base: Contents, entries: Entries): Contents {
    map t | t in base.Keys + entries.Keys
            && (if t in entries && entries[t].isDirty then Reread(c, entries[t].coins).Some? else t in base)
      :: if t in entries && entries[t].isDirty then Reread(c, entries[t].coins).value else base[t]
  }

  lemma RewrittenAt(c: Curve, base: Contents, entries: Entries, t: Txid)
    ensures At(Rewritten(c, base, entries), t) ==
      if t in entries && entries[t].isDirty then Reread(c, entries[t].coins) else At(base, t)
  {
    hide Reread;
  }

  /** The next view of a database: of every transaction what comes back of its
      record, or what the database showed before, if the cache showed the same. */
  ghost predicate FlushedInto(c: Curve, top: Contents, base: Contents, next: Contents) {
    forall t :: At(next, t) == RereadAt(c, top, t) || At(next, t) == At(base, t) == At(top, t)
  }

  ghost function RereadAt(c: Curve, view: Contents, t: Txid): Option<CoinRecord> {
    if t in view then Reread(c, view[t]) else None
  }

  lemma RewrittenFlushes(c: Curve, base: Contents, entries: Entries)
    requires Coherent(base, entries)
    ensures FlushedInto(c, Overlay(base, entries), base, Rewritten(c, base, entries))
  {
    hide Shown, Overlay, Rewritten;
    forall t
      ensures var top, next := Overlay(base, entries), Rewritten(c, base, entries);
        At(next, t) == RereadAt(c, top, t) || At(next, t) == At(base, t) == At(top, t)
    {
      OverlayAt(base, entries, t);
      RewrittenAt(c, base, entries, t);
      assert t in entries ==> EntryCoherent(base, t, entries[t]);
    }
  }

  /** Equal as the program compares records. */
  ghost predicate SameView(a: Contents, b: Contents) {
    a.Keys == b.Keys && forall t :: t in a ==> CoinsCodec.SameRecord(a[t], b[t])
  }

  /** The entries that a flush writes. */
  ghost predicate Writes(entries: Entries, t: Txid) {
    t in entries && entries[t].isDirty && !entries[t].coins.IsPruned()
  }

  ghost predicate AllWritable(entries: Entries) {
    forall t :: Writes(entries, t) ==> Writable(entries[t].coins)
  }

  /** Writing to the database and reading back keeps the view, as the program
      compares records, exactly when every record written is storable. */
  lemma FlushSame(c: Curve, base: Contents, entries: Entries)
    requires Lawful(c) && Coherent(base, entries) && AllWritable(entries)
    ensures SameView(Rewritten(c, base, entries), Overlay(base, entries))
            <==> forall t :: Writes(entries, t) ==> CoinsCodec.Storable(entries[t].coins)
  {
    hide Lawful, Overlay, Rewritten, Reread, CoinsCodec.SameRecord, CoinsCodec.Storable, Writable;
    var old_, new_ := Overlay(base, entries), Rewritten(c, base, entries);
    forall t ensures SameAt(old_, new_, t) <==> (Writes(entries, t) ==> CoinsCodec.Storable(entries[t].coins)) {
      SameEntry(c, base, entries, t);
    }
    SameAtAll(old_, new_);
  }

  lemma SameAtAll(a: Contents, b: Contents)
    ensures SameView(b, a) <==> forall t :: SameAt(a, b, t)
  {
    hide CoinsCodec.SameRecord;
    if forall t :: SameAt(a, b, t) {
      forall t ensures t in a.Keys <==> t in b.Keys { assert SameAt(a, b, t); }
      forall t | t in b ensures CoinsCodec.SameRecord(b[t], a[t]) { assert SameAt(a, b, t); }
    }
    if SameView(b, a) {
      forall t ensures SameAt(a, b, t) { assert t in a <==> t in a.Keys; assert t in b <==> t in b.Keys; }
    }
  }

  ghost predicate SameAt(a: Contents, b: Contents, t: Txid) {
    (t in a <==> t in b) && (t in a ==> CoinsCodec.SameRecord(b[t], a[t]))
  }

  lemma SameEntry(c: Curve, base: Contents, entries: Entries, t: Txid)
    requires Lawful(c) && Coherent(base, entries) && (Writes(entries, t) ==> Writable(entries[t].coins))
    ensures SameAt(Overlay(base, entries), Rewritten(c, base, entries), t)
            <==> (Writes(entries, t) ==> CoinsCodec.Storable(entries[t].coins))
  {
    hide Lawful, Overlay, Rewritten, CoinsCodec.SameRecord, CoinsCodec.Storable, Writable, Shown;
    OverlayAt(base, entries, t);
    RewrittenAt(c, base, entries, t);
    if t in base { SameItself(base[t]); }
    assert t in entries ==> EntryCoherent(base, t, entries[t]);
    if Writes(entries, t) { RereadSame(c, entries[t].coins); }
  }

  /** It keeps the view as it is exactly when every record written is an exact
      one; a coin stake flag is never among what is kept. */
  lemma FlushExact(c: Curve, base: Contents, entries: Entries)
    requires Lawful(c) && Coherent(base, entries) && AllWritable(entries)
    ensures Rewritten(c, base, entries) == Overlay(base, entries)
            <==> forall t :: Writes(entries, t) ==> Exact(entries[t].coins)
  {
    hide Lawful, Overlay, Rewritten, Reread, Exact, Writable;
    var old_, new_ := Overlay(base, entries), Rewritten(c, base, entries);
    forall t ensures At(old_, t) == At(new_, t) <==> (Writes(entries, t) ==> Exact(entries[t].coins)) {
      ExactEntry(c, base, entries, t);
    }
    if forall t :: Writes(entries, t) ==> Exact(entries[t].coins) {
      SameEverywhere(old_, new_);
    }
  }

  lemma SameEverywhere(a: Contents, b: Contents)
    requires forall t :: At(a, t) == At(b, t)
    ensures a == b
  {
    assert forall t :: t in a.Keys <==> At(a, t).Some?;
    assert forall t :: t in b.Keys <==> At(b, t).Some?;
    forall t | t in a ensures t in b && a[t] == b[t] { assert At(a, t) == At(b, t); }
    assert a.Keys == b.Keys;
  }

  lemma ExactEntry(c: Curve, base: Contents, entries: Entries, t: Txid)
    requires Lawful(c) && Coherent(base, entries) && (Writes(entries, t) ==> Writable(entries[t].coins))
    ensures At(Overlay(base, entries), t) == At(Rewritten(c, base, entries), t)
            <==> (Writes(entries, t) ==> Exact(entries[t].coins))
  {
    hide Lawful, Overlay, Rewritten, Exact, Writable, Shown;
    OverlayAt(base, entries, t);
    RewrittenAt(c, base, entries, t);
    assert t in entries ==> EntryCoherent(base, t, entries[t]);
    if Writes(entries, t) { RereadExact(c, entries[t].coins); }
  }

  /** A coin stake transaction created in a cache and flushed into an empty
      database: the database shows it, but not as a coin stake. */
  lemma StakeFlushed(c: Curve, t: Txid)
    requires Lawful(c)
    ensures var entries := map[t := Entry(STAKED, true, true)];
      && Coherent(map[], entries) && AllWritable(entries)
      && Overlay(map[], entries) == map[t := STAKED]
      && Rewritten(c, map[], entries) == map[t := STAKED.(coinStake := false)]
      && SameView(Rewritten(c, map[], entries), Overlay(map[], entries))
  {
    hide Lawful, Reread, Writable, CoinsCodec.Storable, CoinsCodec.SameRecord;
    StakeForgotten(c);
    FlushSame(c, map[], map[t := Entry(STAKED, true, true)]);
  }

  class Database {
    const curve: Curve
    var rows: Rows

    constructor (curve: Curve)
      ensures this.curve == curve && rows == map[]
    {
      this.curve := curve;
      rows := map[];
    }

    /** What the database shows. */
    ghost function View(): Contents
      reads this
    {
      RowsShow(curve, rows)
    }

    /** A row that cannot be decoded is answered like a missing one. */
    method GetCoins(txid: Txid) returns (r: Option<CoinRecord>)
      ensures match r
              case None => txid !in View()
              case Some(c) => c.IsTrimmed() && Shows(View(), txid, c)
    {
      hide CoinsCodec.ReadRecord, Shown, RowsShow;
      RowsShowAt(curve, rows, txid);
      if txid !in rows { return None; }
      ReadTrimmed(curve, rows[txid]);
      var s := new Stream(rows[txid]);
      r := CoinsCodec.Unserialize(curve, EMPTY_RECORD, s);
    }

    /** Writes every DIRTY entry, erasing the pruned ones. */
    method BatchWrite(child: Entries)
      modifies this
      ensures View() == Rewritten(curve, old(View()), child)
    {
      hide Rewritten, RowsShow, Shown, CoinsCodec.WriteRecord;
      var rest := child;
      while rest != map[]
        invariant Rewritten(curve, View(), rest) == Rewritten(curve, old(View()), child)
        decreases |rest|
      {
        var t :| t in rest;
        ghost var before := rows;
        if rest[t].isDirty {
          if rest[t].coins.IsPruned() {
            rows := rows - {t};
          } else {
            rows := rows[t := CoinsCodec.WriteRecord(curve, rest[t].coins)];
          }
        }
        RewriteStep(curve, before, rows, rest, t);
        rest := rest - {t};
      }
      RewrittenNone(curve, View());
    }
  }

  lemma RowsShowAt(c: Curve, rows: Rows, t: Txid)
    ensures At(RowsShow(c, rows), t) == if t in rows then Shown(c, rows[t]) else None
  {
    hide Shown;
  }

  /** The row of one entry, written before the rest. */
  lemma RewriteStep(c: Curve, rows: Rows, rows': Rows, rest: Entries, t: Txid)
    requires t in rest
    requires rows' ==
      if !rest[t].isDirty then rows
      else if rest[t].coins.IsPruned() then rows - {t}
      else rows[t := CoinsCodec.WriteRecord(c, rest[t].coins)]
    ensures Rewritten(c, RowsShow(c, rows'), rest - {t}) == Rewritten(c, RowsShow(c, rows), rest)
  {
    hide Rewritten, RowsShow, Shown, CoinsCodec.WriteRecord;
    forall k
      ensures At(Rewritten(c, RowsShow(c, rows'), rest - {t}), k) == At(Rewritten(c, RowsShow(c, rows), rest), k)
    {
      RewrittenAt(c, RowsShow(c, rows'), rest - {t}, k);
      RewrittenAt(c, RowsShow(c, rows), rest, k);
      RowsShowAt(c, rows, k);
      RowsShowAt(c, rows', k);
    }
    SameEverywhere(Rewritten(c, RowsShow(c, rows'), rest - {t}), Rewritten(c, RowsShow(c, rows), rest));
  }

  lemma RewrittenNone(c: Curve, base: Contents)
    ensures Rewritten(c, base, map[]) == base
  {
  }

  lemma RowsClean(c: Curve, rows: Rows)
    ensures Clean(RowsShow(c, rows))
  {
    hide Shown;
  }

  // ---- a cache over a database or over another cache ----

  datatype Base = Bottom(db: Database) | Layer(cache: Cache)

  class Cache {
    const base: Base
    const usageOf: CoinRecord -> nat
    var cacheCoins: Entries
    /** The entry an open modifier points at, if any (hasModifier). */
    var modifier: Option<Txid>
    /** The usage the open modifier will subtract when it closes. */
    var recorded: nat
    var usage: int

    /** Every object under this one. */
    ghost const below: set<object>
    /** Usage of the records that ModifyNewCoins overwrote since the last flush. */
    ghost var drift: nat

    ghost predicate Linked()
      ensures Linked() ==> this !in below
      decreases below
    {
      && this !in below
      && match base
         case Bottom(db) => below == {db}
         case Layer(c) => c !in c.below && below == c.below + {c} && c.Linked()
    }

    /** The database at the bottom of the stack. */
    ghost function Ground(): Database
      requires Linked()
      decreases below
    {
      match base
      case Bottom(db) => db
      case Layer(c) => c.Ground()
    }

    ghost function BaseContents(): Contents
      requires Linked()
      reads below
      decreases below, 0
    {
      match base
      case Bottom(db) => db.View()
      case Layer(c) => c.Contents()
    }

    /** What this cache shows. */
    ghost function Contents(): Contents
      requires Linked()
      reads this, below
      decreases below, 1
    {
      Overlay(BaseContents(), cacheCoins)
    }

    ghost function BaseViews(): (vs: seq<Contents>)
      requires Linked()
      reads below
      ensures |vs| >= 1 && vs[0] == BaseContents()
      decreases below, 0
    {
      match base
      case Bottom(db) => [db.View()]
      case Layer(c) => c.Views()
    }

    /** What every level shows, this cache first and the database last. */
    ghost function Views(): (vs: seq<Contents>)
      requires Linked()
      reads this, below
      ensures |vs| >= 2 && vs[0] == Contents()
      decreases below, 1
    {
      [Contents()] + BaseViews()
    }

    lemma ViewsAre()
      requires Linked()
      ensures Views() == [Contents()] + BaseViews()
    {
    }

    lemma OneBelow()
      requires Linked() && |Views()| > 2
      ensures base.Layer? && BaseViews() == base.cache.Views()
    {
    }

    ghost predicate BaseValid()
      requires Linked()
      reads below
      decreases below, 0
    {
      match base
      case Bottom(db) => true
      case Layer(c) => c.Valid() && c.modifier.None?
    }

    ghost predicate Accounted()
      reads this
    {
      match modifier
      case None => usage == Total(usageOf, cacheCoins) + drift
      case Some(t) => usage == Total(usageOf, cacheCoins - {t}) + recorded + drift
    }

    ghost predicate Valid()
      reads this, below
      ensures Valid() ==> Linked() && (modifier.Some? ==> modifier.value in cacheCoins)
      decreases below, 1
    {
      && Linked()
      && BaseValid()
      && Coherent(BaseContents(), cacheCoins)
      && (forall t :: t in cacheCoins && modifier != Some(t) ==> cacheCoins[t].coins.IsTrimmed())
      && (modifier.Some? ==> modifier.value in cacheCoins && cacheCoins[modifier.value].isDirty)
      && Accounted()
    }

    lemma {:induction false} BaseClean()
      requires Valid()
      ensures Clean(BaseContents())
      decreases below
    {
      match base
      case Bottom(db) =>
        RowsClean(db.curve, db.rows);
      case Layer(c) =>
        c.BaseClean();
    }

    constructor (base: Base, usageOf: CoinRecord -> nat)
      requires base.Layer? ==> base.cache.Valid() && base.cache.modifier.None?
      ensures Valid() && modifier == None && this.base == base && cacheCoins == map[]
      ensures Contents() == BaseContents() && drift == 0
    {
      this.base := base;
      this.usageOf := usageOf;
      cacheCoins, modifier, recorded, usage, drift := map[], None, 0, 0, 0;
      below := match base case Bottom(db) => {db} case Layer(c) => c.below + {c};
      new;
      OverlayEmpty(BaseContents());
    }

    method BaseGetCoins(txid: Txid) returns (r: Option<CoinRecord>)
      requires Valid()
      modifies below
      ensures Valid() && BaseViews() == old(BaseViews())
      ensures match r
              case None => txid !in BaseContents()
              case Some(c) => c.IsTrimmed() && Shows(BaseContents(), txid, c)
      decreases below, 0
    {
      BaseClean();
      match base {
        case Bottom(db) =>
          r := db.GetCoins(txid);
        case Layer(c) =>
          r := c.GetCoins(txid);
      }
    }

    /** Brings txid into the cache if the base has it. */
    method FetchCoins(txid: Txid)
      requires Valid()
      modifies this, below
      ensures Valid() && Views() == old(Views())
      ensures modifier == old(modifier) && recorded == old(recorded) && drift == old(drift)
      ensures old(cacheCoins).Keys <= cacheCoins.Keys <= old(cacheCoins).Keys + {txid}
      ensures forall t :: t in old(cacheCoins) ==> cacheCoins[t] == old(cacheCoins)[t]
      ensures txid !in cacheCoins ==> txid !in Contents()
      decreases below, 1
    {
      hide RowsShow, Overlay, Coherent, Total, Store, Clean;
      if txid in cacheCoins { return; }
      var tmp := BaseGetCoins(txid);
      if tmp.None? {
        OverlayAt(BaseContents(), cacheCoins, txid);
        return;
      }
      var entry := Entry(tmp.value, false, tmp.value.IsPruned());
      CopyFromBase(BaseContents(), cacheCoins, txid, entry);
      NoteUsage(txid, Some(entry));
      cacheCoins := Store(cacheCoins, txid, Some(entry));
      usage := usage + usageOf(entry.coins);
    }

    /** The totals move as the counter does. */
    lemma NoteUsage(txid: Txid, e: Option<Entry>)
      ensures var next := Store(cacheCoins, txid, e);
        && Total(usageOf, next)
           == Total(usageOf, cacheCoins) - UsageAt(usageOf, cacheCoins, txid) + UsageAt(usageOf, next, txid)
        && (modifier.Some? && modifier.value != txid ==>
              Total(usageOf, next - {modifier.value})
              == Total(usageOf, cacheCoins - {modifier.value}) - UsageAt(usageOf, cacheCoins, txid)
                 + UsageAt(usageOf, next, txid))
    {
      TotalStore(usageOf, cacheCoins, txid, e);
      if modifier.Some? && modifier.value != txid {
        TotalStore(usageOf, cacheCoins - {modifier.value}, txid, e);
        assert Store(cacheCoins, txid, e) - {modifier.value} == Store(cacheCoins - {modifier.value}, txid, e);
      }
    }

    method GetCoins(txid: Txid) returns (r: Option<CoinRecord>)
      requires Valid()
      modifies this, below
      ensures Valid() && Views() == old(Views())
      ensures modifier == old(modifier) && recorded == old(recorded) && drift == old(drift)
      ensures match r
              case None => txid !in Contents()
              case Some(c) => (modifier != Some(txid) ==> c.IsTrimmed()) && Shows(Contents(), txid, c)
      decreases below, 2
    {
      FetchCoins(txid);
      r := if txid in cacheCoins then Some(cacheCoins[txid].coins) else None;
    }

    method HaveCoins(txid: Txid) returns (r: bool)
      requires Valid()
      modifies this, below
      ensures Valid() && Views() == old(Views()) && modifier == old(modifier) && drift == old(drift)
      ensures r <==> if modifier == Some(txid) then cacheCoins[txid].coins.vout != [] else txid in Contents()
      ensures modifier.Some? ==> cacheCoins[modifier.value] == old(cacheCoins[modifier.value])
    {
      FetchCoins(txid);
      r := txid in cacheCoins && cacheCoins[txid].coins.vout != [];
    }

    /** Starts a modification of txid: its current record is brought in, marked
        FRESH when the base shows nothing there, and assumed DIRTY. */
    method ModifyCoins(txid: Txid)
      requires Valid() && modifier == None
      modifies this, below
      ensures Valid() && modifier == Some(txid) && drift == old(drift)
      ensures Views() == old(Views())
      ensures cacheCoins[txid].coins.IsTrimmed()
      ensures Shows(Contents(), txid, cacheCoins[txid].coins)
    {
      hide Valid, BaseViews, BaseContents, Overlay;
      ViewsAre();
      if txid in cacheCoins {
        OpenModifier(txid, cacheCoins[txid].(isDirty := true));
      } else {
        var tmp := BaseGetCoins(txid);
        var entry := match tmp
          case None => Entry(EMPTY_RECORD, true, true)
          case Some(c) => Entry(c, true, c.IsPruned());
        OpenModifier(txid, entry);
      }
      ViewsAre();
    }

    /** Puts the DIRTY entry in place and opens the modifier on it. */
    method OpenModifier(txid: Txid, entry: Entry)
      requires Valid() && modifier == None && entry.isDirty
      requires txid in cacheCoins ==> entry == cacheCoins[txid].(isDirty := true)
      requires txid !in cacheCoins ==>
                 entry.coins.IsTrimmed() && EntryCoherent(BaseContents(), txid, entry.(isDirty := false))
      modifies this
      ensures Valid() && modifier == Some(txid) && drift == old(drift)
      ensures Contents() == old(Contents()) && cacheCoins == old(cacheCoins)[txid := entry]
      ensures entry.coins.IsTrimmed() && Shows(Contents(), txid, entry.coins)
    {
      hide RowsShow, Overlay, Coherent, Total, Store, Clean;
      recorded := if txid in cacheCoins then usageOf(cacheCoins[txid].coins) else 0;
      OpenEntry(BaseContents(), cacheCoins, txid, entry);
      OverlayAt(BaseContents(), cacheCoins[txid := entry], txid);
      TotalStore(usageOf, cacheCoins, txid, None);
      RemoveIsStore(cacheCoins, txid, entry);
      cacheCoins := cacheCoins[txid := entry];
      modifier := Some(txid);
    }

    /** Starts the creation of txid. A coinbase is never marked FRESH; any other
        transaction is, so the base must not show txid. */
    method ModifyNewCoins(txid: Txid, coinbase: bool)
      requires Valid() && modifier == None
      requires !coinbase ==> txid !in BaseContents()
      modifies this
      ensures Valid() && modifier == Some(txid)
      ensures Contents() == old(Contents()) - {txid} && cacheCoins[txid].coins == EMPTY_RECORD
      ensures drift == old(drift) + UsageAt(usageOf, old(cacheCoins), txid)
    {
      hide RowsShow, Overlay, Coherent, Total, Store, Clean;
      var entry := Entry(EMPTY_RECORD, true, !coinbase || (txid in cacheCoins && cacheCoins[txid].isFresh));
      WriteEntry(BaseContents(), cacheCoins, txid, entry);
      TotalStore(usageOf, cacheCoins, txid, None);
      RemoveIsStore(cacheCoins, txid, entry);
      drift := drift + UsageAt(usageOf, cacheCoins, txid);
      recorded := 0;
      cacheCoins := cacheCoins[txid := entry];
      modifier := Some(txid);
    }

    /** Any assignment through the open modifier. */
    method Assign(c: CoinRecord)
      requires Valid() && modifier.Some?
      modifies this`cacheCoins
      ensures Valid() && Contents() == Put(old(Contents()), modifier.value, c)
      ensures cacheCoins == old(cacheCoins)[modifier.value := old(cacheCoins)[modifier.value].(coins := c)]
    {
      hide RowsShow, Overlay, Coherent, Total, Clean, Put;
      var txid := modifier.value;
      var entry := cacheCoins[txid].(coins := c);
      WriteEntry(BaseContents(), cacheCoins, txid, entry);
      assert cacheCoins[txid := entry] - {txid} == cacheCoins - {txid};
      cacheCoins := cacheCoins[txid := entry];
    }

    /** The modifier's destructor: trims the record, settles the memory counter
        and erases the entry when it is both FRESH and pruned. */
    method CloseModifier()
      requires Valid() && modifier.Some?
      modifies this
      ensures Valid() && modifier == None && drift == old(drift)
      ensures var t, c := old(modifier).value, old(cacheCoins[modifier.value].coins).Cleanup();
              Contents() == Put(old(Contents()), t, c)
    {
      hide RowsShow, Overlay, Coherent, Total, Clean, Put, Store;
      var txid := modifier.value;
      var entry := cacheCoins[txid].(coins := cacheCoins[txid].coins.Cleanup());
      modifier := None;
      usage := usage - recorded;
      WriteEntry(BaseContents(), cacheCoins, txid, entry);
      RemoveIsStore(cacheCoins, txid, entry);
      TotalStore(usageOf, cacheCoins - {txid}, txid, Some(entry));
      if entry.isFresh && entry.coins.IsPruned() {
        EraseEntry(BaseContents(), cacheCoins, txid, entry);
        cacheCoins := cacheCoins - {txid};
      } else {
        RestoreEntry(cacheCoins, txid, entry);
        cacheCoins := cacheCoins[txid := entry];
        usage := usage + usageOf(entry.coins);
      }
    }

    method ReplaceCoins(txid: Txid, c: CoinRecord)
      requires Valid() && modifier == None
      modifies this, below
      ensures Valid() && modifier == None
      ensures Views() == old(Views())[0 := Put(old(Contents()), txid, c.Cleanup())]
    {
      hide *;
      ModifyCoins(txid);
      ViewsAre();
      PutTwice(Contents(), txid, c, c.Cleanup());
      Assign(c);
      CloseModifier();
      ViewsAre();
    }

    method CreateCoins(txid: Txid, coinbase: bool, c: CoinRecord)
      requires Valid() && modifier == None
      requires !coinbase ==> txid !in BaseContents()
      modifies this, below
      ensures Valid() && modifier == None
      ensures Views() == old(Views())[0 := Put(old(Contents()), txid, c.Cleanup())]
    {
      hide *;
      ViewsAre();
      PutTwice(Contents(), txid, c, c.Cleanup());
      ModifyNewCoins(txid, coinbase);
      Assign(c);
      CloseModifier();
      ViewsAre();
    }

    /** Spends one output; nothing happens where there is nothing to spend. */
    method SpendCoins(txid: Txid, pos: nat)
      requires Valid() && modifier == None
      modifies this, below
      ensures Valid() && modifier == None
      ensures var v := old(Contents());
              Views() == old(Views())[0 := if txid in v then Put(v, txid, v[txid].Spend(pos).1) else v]
    {
      hide *;
      ModifyCoins(txid);
      ViewsAre();
      PutShown(Contents(), txid, cacheCoins[txid].coins, pos);
      SpendOpen(txid, pos);
      ViewsAre();
    }

    /** Spends an output of the record under the modifier and closes it. */
    method SpendOpen(txid: Txid, pos: nat)
      requires Valid() && modifier == Some(txid) && cacheCoins[txid].coins.IsTrimmed()
      requires Shows(Contents(), txid, cacheCoins[txid].coins)
      modifies this
      ensures Valid() && modifier == None
      ensures Contents() == Put(old(Contents()), txid, old(cacheCoins[txid].coins).Spend(pos).1)
    {
      hide *;
      var c := cacheCoins[txid].coins.Spend(pos).1;
      PutTwice(Contents(), txid, c, c.Cleanup());
      PutShown(Contents(), txid, cacheCoins[txid].coins, pos);
      Assign(c);
      CloseModifier();
    }

    /** Drops an entry that was never modified. */
    method Uncache(txid: Txid)
      requires Valid()
      modifies this
      ensures Valid() && Views() == old(Views()) && modifier == old(modifier) && drift == old(drift)
      ensures modifier.Some? ==> cacheCoins[modifier.value] == old(cacheCoins[modifier.value])
      ensures txid in cacheCoins <==>
              txid in old(cacheCoins) && (old(cacheCoins)[txid].isDirty || old(cacheCoins)[txid].isFresh)
    {
      hide RowsShow, Overlay, Coherent, EntryCoherent, Total, Clean;
      if txid in cacheCoins && !cacheCoins[txid].isDirty && !cacheCoins[txid].isFresh {
        CleanEntryHidden(BaseContents(), cacheCoins, txid);
        NoteUsage(txid, None);
        usage := usage - usageOf(cacheCoins[txid].coins);
        cacheCoins := cacheCoins - {txid};
      }
    }

    /** Receives a child's entries. */
    method BatchWrite(child: Entries)
      requires Valid() && modifier == None
      requires Coherent(Contents(), child) && Trimmed(child)
      modifies this
      ensures Valid() && modifier == None && drift == old(drift)
      ensures Contents() == Overlay(old(Contents()), child)
    {
      hide RowsShow, Overlay, Coherent, Total, Clean, Store, Absorb;
      ghost var target := Overlay(Contents(), child);
      var rest := child;
      while rest != map[]
        invariant Valid() && modifier == None && drift == old(drift)
        invariant Coherent(Contents(), rest) && Trimmed(rest)
        invariant Overlay(Contents(), rest) == target
        decreases |rest|
      {
        var t :| t in rest;
        FlushStep(Contents(), rest, t);
        if rest[t].isDirty {
          AbsorbEntry(t, rest[t]);
        }
        rest := rest - {t};
      }
      OverlayEmpty(Contents());
    }

    /** One DIRTY entry of a child, merged into this cache. */
    method AbsorbEntry(t: Txid, them: Entry)
      requires Valid() && modifier == None
      requires them.isDirty && them.coins.IsTrimmed() && EntryCoherent(Contents(), t, them)
      modifies this
      ensures Valid() && modifier == None && drift == old(drift)
      ensures Contents() == Put(old(Contents()), t, them.coins)
    {
      hide RowsShow, Overlay, Coherent, Total, Clean, Put, Absorb, Store, Find;
      AbsorbCorrect(BaseContents(), cacheCoins, t, them);
      TotalStore(usageOf, cacheCoins, t, Absorb(Find(cacheCoins, t), them));
      AbsorbTrimmed(cacheCoins, t, them);
      Merge(t, them);
    }

    /** The four ways a DIRTY entry of a child meets this cache. */
    method Merge(t: Txid, them: Entry)
      modifies this`cacheCoins, this`usage
      ensures cacheCoins == Store(old(cacheCoins), t, Absorb(Find(old(cacheCoins), t), them))
      ensures usage == old(usage) - UsageAt(usageOf, old(cacheCoins), t) + UsageAt(usageOf, cacheCoins, t)
    {
      if t !in cacheCoins {
        if them.isFresh && them.coins.IsPruned() {
          assert Store(cacheCoins, t, None) == cacheCoins;
        } else {
          cacheCoins := cacheCoins[t := Entry(them.coins, true, them.isFresh)];
          usage := usage + usageOf(them.coins);
        }
      } else {
        usage := usage - usageOf(cacheCoins[t].coins);
        if cacheCoins[t].isFresh && them.coins.IsPruned() {
          cacheCoins := cacheCoins - {t};
        } else {
          cacheCoins := cacheCoins[t := cacheCoins[t].(coins := them.coins, isDirty := true)];
          usage := usage + usageOf(them.coins);
        }
      }
    }

    /** Pushes every change into the base and empties this cache. A cache below
        takes the view as it is; a database shows what comes back of it, and so
        does this cache from then on. */
    method Flush()
      requires Valid() && modifier == None
      modifies this, below
      ensures Valid() && modifier == None && drift == 0 && cacheCoins == map[]
      ensures base.Layer? ==> Views() == old(Views())[1 := old(Contents())]
      ensures base.Bottom? ==>
                var w := Rewritten(base.db.curve, old(BaseContents()), old(cacheCoins)); Views() == [w, w]
    {
      hide RowsShow, Overlay, Rewritten, Coherent, Total, Clean, BaseViews, BaseValid, BaseContents;
      ViewsAre();
      FlushBase();
      OverlayEmpty(BaseContents());
      EmptyCoherent(BaseContents(), usageOf);
      cacheCoins, usage, drift := map[], 0, 0;
      ViewsAre();
    }

    /** Writes every change into the base. */
    method FlushBase()
      requires Valid() && modifier == None
      modifies below
      ensures BaseValid()
      ensures base.Layer? ==> BaseViews() == old(BaseViews())[0 := old(Contents())]
      ensures base.Bottom? ==> BaseViews() == [Rewritten(base.db.curve, old(BaseContents()), old(cacheCoins))]
    {
      hide RowsShow, Overlay, Rewritten, Coherent, Total, Clean;
      match base {
        case Bottom(db) => db.BatchWrite(cacheCoins);
        case Layer(c) =>
          c.ViewsAre();
          c.BatchWrite(cacheCoins);
          c.ViewsAre();
      }
    }

    /** Flushing each level in turn brings the whole stack to one view: what comes
        back from the database of the view that the top showed. */
    method FlushAll()
      requires Valid() && modifier == None
      modifies this, below
      ensures Valid() && modifier == None
      ensures |Views()| == |old(Views())|
      ensures forall i :: 0 <= i < |Views()| ==> Views()[i] == Contents()
      ensures FlushedInto(Ground().curve, old(Contents()), old(Views())[|old(Views())| - 1], Contents())
      decreases below
    {
      hide RowsShow, Overlay, Rewritten, FlushedInto, Coherent, Total, Clean;
      match base {
        case Bottom(db) =>
          RewrittenFlushes(db.curve, BaseContents(), cacheCoins);
          Flush();
        case Layer(c) =>
          ghost var views := Views();
          Flush();
          assert c.Views() == views[1..][0 := views[0]] by { assert Views()[1..] == c.Views(); }
          assert c.Views()[|c.Views()| - 1] == views[|views| - 1];
          c.FlushAll();
          OverlayEmpty(BaseContents());
          EmptyCoherent(BaseContents(), usageOf);
      }
    }
  }

  // ---- whole runs ----

  /** What a caller does with a cache; a modification is opened, written and closed. */
  datatype Operation =
    | Get(txid: Txid)
    | Have(txid: Txid)
    | Modify(txid: Txid, coins: CoinRecord)
    | Create(txid: Txid, coinbase: bool, coins: CoinRecord)
    | Spend(txid: Txid, pos: nat)
    | Uncache(txid: Txid)
    | Flush

  /** The same operation on plain maps, one per level. */
  ghost function Step(views: seq<Contents>, op: Operation): (next: seq<Contents>)
    requires |views| >= 2
    ensures |next| == |views|
  {
    match op
    case Modify(t, c) => views[0 := Put(views[0], t, c.Cleanup())]
    case Create(t, _, c) => views[0 := Put(views[0], t, c.Cleanup())]
    case Spend(t, pos) => if t in views[0] then views[0 := Put(views[0], t, views[0][t].Spend(pos).1)] else views
    case Flush => views[1 := views[0]]
    case _ => views
  }

  ghost predicate IntoDatabase(views: seq<Contents>, op: Operation) { op.Flush? && |views| == 2 }

  /** What an operation makes of the views from its cache down: what it does to
      plain maps, except that a database need not take a view as it is. */
  ghost predicate Performs(c: Curve, views: seq<Contents>, op: Operation, next: seq<Contents>)
    requires |views| >= 2
  {
    && |next| == |views|
    && if IntoDatabase(views, op) then next[0] == next[1] && FlushedInto(c, views[0], views[1], next[1])
       else next == Step(views, op)
  }

  /** An operation on one cache of a stack, counted from the top. */
  datatype Call = Call(level: nat, op: Operation)

  /** Every record of the view comes back from the database as it is. */
  ghost predicate ComesBack(c: Curve, view: Contents) {
    forall t :: t in view ==> Reread(c, view[t]) == Some(view[t])
  }

  /** Records are changed only through the top of a stack; a transaction that is
      not a coinbase is created only where the level below shows none; and a cache
      with others on top goes into the database only if that changes nothing. */
  ghost predicate Allowed(c: Curve, views: seq<Contents>, call: Call) {
    && call.level + 2 <= |views|
    && (call.level > 0 ==> call.op.Get? || call.op.Have? || call.op.Uncache? || call.op.Flush?)
    && (call.op.Create? && !call.op.coinbase ==> call.op.txid !in views[call.level + 1])
    && (call.level > 0 && IntoDatabase(views[call.level..], call.op) ==> ComesBack(c, views[call.level]))
  }

  ghost predicate Follows(c: Curve, views: seq<Contents>, call: Call, next: seq<Contents>)
    requires call.level + 2 <= |views|
  {
    && |next| == |views| && next[..call.level] == views[..call.level]
    && Performs(c, views[call.level..], call.op, next[call.level..])
  }

  ghost predicate Legal(c: Curve, views: seq<Contents>, calls: seq<Call>)
    decreases |calls|
  {
    calls != [] ==>
      && Allowed(c, views, calls[0])
      && forall next :: Follows(c, views, calls[0], next) ==> Legal(c, next, calls[1..])
  }

  ghost predicate History(c: Curve, states: seq<seq<Contents>>, calls: seq<Call>) {
    && |states| == |calls| + 1
    && forall i :: 0 <= i < |calls| ==>
         calls[i].level + 2 <= |states[i]| && Follows(c, states[i], calls[i], states[i + 1])
  }

  method Perform(cache: Cache, op: Operation)
    requires cache.Valid() && cache.modifier == None
    requires op.Create? && !op.coinbase ==> op.txid !in cache.BaseContents()
    modifies cache, cache.below
    ensures cache.Valid() && cache.modifier == None
    ensures Performs(cache.Ground().curve, old(cache.Views()), op, cache.Views())
  {
    hide RowsShow, Overlay, Rewritten, FlushedInto, Coherent, Total, Clean, EntryCoherent;
    cache.ViewsAre();
    match op {
      case Get(t) =>
        var _ := cache.GetCoins(t);
      case Have(t) =>
        var _ := cache.HaveCoins(t);
      case Modify(t, c) =>
        cache.ReplaceCoins(t, c);
      case Create(t, coinbase, c) =>
        cache.CreateCoins(t, coinbase, c);
      case Spend(t, pos) =>
        cache.SpendCoins(t, pos);
      case Uncache(t) =>
        cache.Uncache(t);
      case Flush =>
        if cache.base.Bottom? {
          RewrittenFlushes(cache.base.db.curve, cache.BaseContents(), cache.cacheCoins);
        }
        cache.Flush();
    }
  }

  lemma FlushedExactly(c: Curve, top: Contents, base: Contents, next: Contents)
    requires FlushedInto(c, top, base, next) && ComesBack(c, top)
    ensures next == top
  {
    hide Reread;
    forall t ensures At(next, t) == At(top, t) {}
    SameEverywhere(next, top);
  }

  /** Nothing that the upper levels rest on changes under a call below the top. */
  lemma FollowsBelow(c: Curve, views: seq<Contents>, call: Call, next: seq<Contents>)
    requires Allowed(c, views, call) && call.level > 0
    requires Follows(c, views[1..], Call(call.level - 1, call.op), next)
    ensures next[0] == views[1] && Follows(c, views, call, [views[0]] + next)
  {
    hide FlushedInto, ComesBack;
    var level, all := call.level - 1, [views[0]] + next;
    assert views[1..][level..] == views[call.level..] && all[call.level..] == next[level..];
    assert views[..call.level] == [views[0]] + views[1..][..level];
    assert all[..call.level] == [views[0]] + next[..level];
    if level > 0 {
      assert next[..level][0] == views[1..][..level][0];
    } else if IntoDatabase(views[1..], call.op) {
      FlushedExactly(c, views[1], views[2], next[1]);
    }
  }

  lemma AllowedBelow(c: Curve, views: seq<Contents>, call: Call)
    requires Allowed(c, views, call) && call.level > 0
    ensures Allowed(c, views[1..], Call(call.level - 1, call.op))
  {
    hide ComesBack;
    assert views[1..][call.level - 1..] == views[call.level..];
  }

  /** The operation is done to one cache of the stack, and the caches above it
      keep showing what they showed. */
  method PerformAt(cache: Cache, call: Call)
    requires cache.Valid() && cache.modifier == None && Allowed(cache.Ground().curve, cache.Views(), call)
    modifies cache, cache.below
    ensures cache.Valid() && cache.modifier == None
    ensures Follows(cache.Ground().curve, old(cache.Views()), call, cache.Views())
    decreases cache.below
  {
    hide RowsShow, Overlay, Coherent, Total, Clean, EntryCoherent, Step, FlushedInto, ComesBack;
    if call.level == 0 {
      Perform(cache, call.op);
      assert old(cache.Views())[0..] == old(cache.Views()) && cache.Views()[0..] == cache.Views();
    } else {
      cache.ViewsAre();
      AllowedBelow(cache.Ground().curve, cache.Views(), call);
      cache.OneBelow();
      PerformAt(cache.base.cache, Call(call.level - 1, call.op));
      FollowsBelow(cache.Ground().curve, old(cache.Views()), call, cache.BaseViews());
      cache.ViewsAre();
    }
  }

  /** Any legal run over any stack of caches, whichever level each call is made
      on, takes the views of all levels through such steps. */
  method Run(cache: Cache, calls: seq<Call>) returns (ghost states: seq<seq<Contents>>)
    requires cache.Valid() && cache.modifier == None
    requires Legal(cache.Ground().curve, cache.Views(), calls)
    modifies cache, cache.below
    ensures cache.Valid() && cache.modifier == None
    ensures History(cache.Ground().curve, states, calls)
    ensures states[0] == old(cache.Views()) && states[|calls|] == cache.Views()
  {
    hide RowsShow, Overlay, Coherent, Total, Clean, EntryCoherent, Follows, Allowed;
    ghost var c := cache.Ground().curve;
    states := [cache.Views()];
    for i := 0 to |calls|
      invariant cache.Valid() && cache.modifier == None
      invariant Legal(c, cache.Views(), calls[i..])
      invariant |states| == i + 1 && states[0] == old(cache.Views()) && states[i] == cache.Views()
      invariant forall k :: 0 <= k < i ==>
                  calls[k].level + 2 <= |states[k]| && Follows(c, states[k], calls[k], states[k + 1])
    {
      assert calls[i..][0] == calls[i] && calls[i..][1..] == calls[i + 1..];
      AllowedLevel(c, cache.Views(), calls[i]);
      PerformAt(cache, calls[i]);
      states := states + [cache.Views()];
    }
  }

  lemma AllowedLevel(c: Curve, views: seq<Contents>, call: Call)
    requires Allowed(c, views, call)
    ensures call.level + 2 <= |views|
  {
  }

  lemma AbsorbTrimmed(entries: Entries, t: Txid, them: Entry)
    requires Trimmed(entries) && them.coins.IsTrimmed()
    ensures Trimmed(Store(entries, t, Absorb(Find(entries, t), them)))
  {
  }

  lemma EmptyCoherent(base: Contents, usageOf: CoinRecord -> nat)
    ensures Coherent(base, map[]) && Total(usageOf, map[]) == 0
  {
  }

  lemma PutTwice(view: Contents, t: Txid, c: CoinRecord, d: CoinRecord)
    ensures Put(Put(view, t, c), t, d) == Put(view, t, d)
    ensures Put(Put(view - {t}, t, c), t, d) == Put(view, t, d)
  {
  }

  lemma PutShown(view: Contents, t: Txid, c: CoinRecord, pos: nat)
    requires Shows(view, t, c) && c.IsTrimmed()
    ensures c.Spend(pos).1.Cleanup() == c.Spend(pos).1
    ensures Put(view, t, c.Spend(pos).1) == if t in view then Put(view, t, view[t].Spend(pos).1) else view
  {
  }

  lemma RestoreEntry(entries: Entries, t: Txid, e: Entry)
    ensures Store(entries - {t}, t, Some(e)) == entries[t := e]
  {
  }

  /** A FRESH pruned entry may be erased instead of written. */
  lemma EraseEntry(base: Contents, entries: Entries, t: Txid, e: Entry)
    requires Coherent(base, entries) && t in entries && entries[t].isFresh && e.coins.IsPruned()
    ensures Overlay(base, entries - {t}) == Put(Overlay(base, entries), t, e.coins)
    ensures Coherent(base, entries - {t})
  {
    OverlayDrop(base, entries, t);
  }

  /** An entry that is neither DIRTY nor FRESH may be dropped. */
  lemma CleanEntryHidden(base: Contents, entries: Entries, t: Txid)
    requires Coherent(base, entries) && t in entries && !entries[t].isDirty
    ensures Overlay(base, entries - {t}) == Overlay(base, entries)
    ensures Coherent(base, entries - {t})
  {
    assert EntryCoherent(base, t, entries[t]);
    OverlayErase(base, entries, t);
  }

  /** Writing any DIRTY entry whose FRESH flag is truthful. */
  lemma WriteEntry(base: Contents, entries: Entries, t: Txid, e: Entry)
    requires Coherent(base, entries) && e.isDirty
    requires e.isFresh ==> t !in base || (t in entries && entries[t].isFresh)
    ensures Overlay(base, entries[t := e]) == Put(Overlay(base, entries), t, e.coins)
    ensures Coherent(base, entries[t := e])
  {
  }

  lemma RemoveIsStore(entries: Entries, t: Txid, e: Entry)
    ensures entries[t := e] - {t} == Store(entries, t, None) && t !in Store(entries, t, None)
    ensures t !in entries ==> Store(entries, t, None) == entries
  {
  }

  /** Marking an entry DIRTY in place, or bringing in what the base shows, is invisible. */
  lemma OpenEntry(base: Contents, entries: Entries, t: Txid, e: Entry)
    requires Coherent(base, entries) && e.isDirty
    requires t in entries ==> e == entries[t].(isDirty := true)
    requires t !in entries ==> EntryCoherent(base, t, e.(isDirty := false))
    ensures Overlay(base, entries[t := e]) == Overlay(base, entries)
    ensures Coherent(base, entries[t := e])
  {
    assert t in entries ==> EntryCoherent(base, t, entries[t]);
    OverlayUpdate(base, entries, t, e);
    assert Put(Overlay(base, entries), t, e.coins) == Overlay(base, entries);
  }
}
