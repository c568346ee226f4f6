/**
 * The data manager: the cache of data items over the page cache, the
 * insert path through the free-space index and the log, and the bootstrap
 * of a data file (page 1 and its clean-shutdown marker).
 *
 * Every cached data item holds one reference on the page it lies on, and
 * the marker page is held from bootstrap to `close`. The ghost list `items`
 * of cached uids lets the invariant count those references, so a cached
 * item's page is always cached too, as the Java page object an item keeps
 * is.
 */
module DataManager {
  import opened Wrappers
  import opened Bytes
  import opened Pages
  import opened PageCache
  import opened PageIndex
  import opened DataItems
  import Cache
  import Logger
  import LogRecords
  import Ledger
  import Recovery

  // ---------------------------------------------------------------
  // Counting page references held by cached items

  /** How many of the uids lie on page `p` (a uid's page is its bits from 32 on). */
  ghost function Pins(items: seq<int>, p: int): nat
  {
    if items == [] then 0 else (if UidPage(items[0]) == p then 1 else 0) + Pins(items[1..], p)
  }

  ghost predicate Distinct(items: seq<int>)
  {
    forall i, j :: 0 <= i < j < |items| ==> items[i] != items[j]
  }

  /** `items` without `k`. */
  ghost function Without(items: seq<int>, k: int): seq<int>
  {
    if items == [] then [] else if items[0] == k then items[1..] else [items[0]] + Without(items[1..], k)
  }

  /** The keys of `m` in the order `hash` lists them: how a `HashMap` iterates its key set. */
  function Present<V>(hash: seq<int>, m: map<int, V>): (r: seq<int>)
    ensures forall x :: x in r <==> x in hash && x in m
    ensures Distinct(hash) ==> Distinct(r)
  {
    if hash == [] then []
    else
      var rest := Present(hash[1..], m);
      assert Distinct(hash) ==> Distinct(hash[1..]) && hash[0] !in hash[1..];
      if hash[0] in m then [hash[0]] + rest else rest
  }

  lemma {:induction false} PinsSnoc(items: seq<int>, k: int, p: int)
    ensures Pins(items + [k], p) == Pins(items, p) + (if UidPage(k) == p then 1 else 0)
  {
    if items != [] {
      assert (items + [k])[1..] == items[1..] + [k];
      PinsSnoc(items[1..], k, p);
    } else {
      assert [k][1..] == [];
    }
  }

  lemma {:induction false} PinsMember(items: seq<int>, k: int)
    requires k in items
    ensures Pins(items, UidPage(k)) >= 1
  {
    if items[0] != k {
      PinsMember(items[1..], k);
    }
  }

  /** Dropping a cached uid drops one reference on its page and keeps the others. */
  lemma {:induction false} PinsWithout(items: seq<int>, k: int, p: int)
    requires k in items && Distinct(items)
    ensures Pins(Without(items, k), p) == Pins(items, p) - (if UidPage(k) == p then 1 else 0)
    ensures Distinct(Without(items, k))
    ensures forall x :: x in Without(items, k) <==> x in items && x != k
  {
    if items[0] == k {
      forall x
        ensures x in items[1..] <==> x in items && x != k
      {
        if x in items[1..] {
          var i :| 0 <= i < |items[1..]| && items[1..][i] == x;
          assert items[i + 1] == x;
        }
      }
    } else {
      var rest := items[1..];
      assert Distinct(rest);
      PinsWithout(rest, k, p);
      var w := [items[0]] + Without(rest, k);
      assert w[1..] == Without(rest, k);
      assert items[0] !in rest by {
        forall i | 0 <= i < |rest|
          ensures rest[i] != items[0]
        {
          assert rest[i] == items[i + 1];
        }
      }
      forall i, j | 0 <= i < j < |w|
        ensures w[i] != w[j]
      {
        if i == 0 {
          assert w[j] in Without(rest, k);
        }
      }
    }
  }

  /** The references held on page `p`: one per cached item on it, and one if it is the marker page. */
  ghost function HeldBy(items: seq<int>, pageOne: Option<int>, p: int): nat
  {
    Pins(items, p) + (if pageOne == Some(p) then 1 else 0)
  }

  /** The reference counts `refs` cover every page held through `items` and `pageOne`. */
  ghost predicate Covers(items: seq<int>, pageOne: Option<int>, refs: map<int, int>)
  {
    forall p :: HeldBy(items, pageOne, p) > 0 ==> p in refs && refs[p] >= HeldBy(items, pageOne, p)
  }

  /** A newly cached item is covered by the reference its load took on its page. */
  lemma {:induction false} CoversAddItem(items: seq<int>, pageOne: Option<int>, refs: map<int, int>, uid: int)
    requires Covers(items, pageOne, refs) && (UidPage(uid) in refs ==> refs[UidPage(uid)] >= 1)
    ensures Covers(items + [uid], pageOne, Cache.Bump(refs, UidPage(uid)))
  {
    var r := Cache.Bump(refs, UidPage(uid));
    forall p | HeldBy(items + [uid], pageOne, p) > 0
      ensures p in r && r[p] >= HeldBy(items + [uid], pageOne, p)
    {
      PinsSnoc(items, uid, p);
      assert HeldBy(items + [uid], pageOne, p) == HeldBy(items, pageOne, p) + (if UidPage(uid) == p then 1 else 0);
    }
  }

  /** Pointing the marker at page `n` is covered by the reference fetching it took. */
  lemma {:induction false} CoversMarker(items: seq<int>, pageOne: Option<int>, refs: map<int, int>, n: int)
    requires Covers(items, pageOne, refs) && (n in refs ==> refs[n] >= 1)
    ensures Covers(items, Some(n), Cache.Bump(refs, n))
  {
    var r := Cache.Bump(refs, n);
    forall p | HeldBy(items, Some(n), p) > 0
      ensures p in r && r[p] >= HeldBy(items, Some(n), p)
    {
      var h := HeldBy(items, pageOne, p);
      assert HeldBy(items, Some(n), p) <= h + (if p == n then 1 else 0);
      if h > 0 {
        assert p in refs && refs[p] >= h;
      }
    }
  }

  /** One more reference on any page keeps the cover. */
  lemma {:induction false} CoversBump(items: seq<int>, pageOne: Option<int>, refs: map<int, int>, n: int)
    requires Covers(items, pageOne, refs)
    ensures Covers(items, pageOne, Cache.Bump(refs, n))
  {
    var r := Cache.Bump(refs, n);
    forall p | HeldBy(items, pageOne, p) > 0
      ensures p in r && r[p] >= HeldBy(items, pageOne, p)
    {
    }
  }

  /**
   * Evicting a cached item gives back the reference on its page: with
   * more than one reference left the page stays, with one it is the only
   * holder and the page goes.
   */
  lemma {:induction false} CoversDropItem(items: seq<int>, pageOne: Option<int>, refs: map<int, int>, uid: int)
    requires Covers(items, pageOne, refs) && uid in items && Distinct(items)
    ensures UidPage(uid) in refs && refs[UidPage(uid)] >= 1
    ensures Distinct(Without(items, uid))
    ensures forall x :: x in Without(items, uid) <==> x in items && x != uid
    ensures Covers(Without(items, uid), pageOne, Cache.Drop(refs, UidPage(uid)))
  {
    var p := UidPage(uid);
    PinsMember(items, uid);
    PinsWithout(items, uid, p);
    assert HeldBy(items, pageOne, p) > 0;
    forall q
      ensures HeldBy(Without(items, uid), pageOne, q) == HeldBy(items, pageOne, q) - (if p == q then 1 else 0)
    {
      PinsWithout(items, uid, q);
    }
  }

  /** The slot cached under `k`, if any, is the item at the address `k` names. */
  ghost predicate Shaped(cache: map<int, Slot>, k: int)
  {
    k in cache ==> cache[k].uid == AddressToUid(UidPage(k), UidOffset(k)) && cache[k].start == UidOffset(k)
  }

  ghost predicate AllShaped(cache: map<int, Slot>)
  {
    forall k {:trigger Shaped(cache, k)} :: Shaped(cache, k)
  }

  lemma {:induction false} AllShapedRemove(cache: map<int, Slot>, uid: int)
    requires AllShaped(cache)
    ensures AllShaped(cache - {uid})
  {
    var c := cache - {uid};
    forall k
      ensures Shaped(c, k)
    {
      assert Shaped(cache, k);
    }
  }

  lemma {:induction false} AllShapedAdd(cache: map<int, Slot>, uid: int, s: Slot)
    requires AllShaped(cache)
    requires s.uid == AddressToUid(UidPage(uid), UidOffset(uid)) && s.start == UidOffset(uid)
    ensures AllShaped(cache[uid := s])
  {
    var c := cache[uid := s];
    forall k
      ensures Shaped(c, k)
    {
      assert Shaped(cache, k);
    }
  }

  /** Listing a newly cached uid keeps the list distinct and in step with the cache. */
  lemma {:induction false} ItemsSnoc(items: seq<int>, cache: map<int, Slot>, uid: int, v: Slot)
    requires Distinct(items) && (forall k :: k in cache <==> k in items) && uid !in cache
    ensures Distinct(items + [uid])
    ensures forall k :: k in cache[uid := v] <==> k in items + [uid]
  {
    var s := items + [uid];
    forall i, j | 0 <= i < j < |s|
      ensures s[i] != s[j]
    {
      if j == |items| {
        assert s[i] == items[i];
        assert items[i] in items;
      }
    }
  }

  /** Adding a fresh key and removing it again gives the map back. */
  lemma {:induction false} AddRemove<V>(m: map<int, V>, k: int, v: V)
    requires k !in m
    ensures m[k := v] - {k} == m
  {
    assert (m[k := v] - {k}).Keys == m.Keys;
  }

  /** A uid whose offset field fits 16 bits and whose middle bits are clear: the form `addressToUid` produces. */
  predicate Canonical(uid: int)
  {
    AddressToUid(UidPage(uid), UidOffset(uid)) == uid
  }

  /** The buckets after `add` ran on each entry in order (every entry within the 41 buckets). */
  function Filed(b: seq<seq<PageInfo>>, infos: seq<PageInfo>): (r: seq<seq<PageInfo>>)
    ensures |r| == |b|
  {
    if infos == [] then b
    else
      var last := infos[|infos| - 1];
      var c := Filed(b, infos[..|infos| - 1]);
      var j := Bucket(last.freeSpace);
      if 0 <= j < |c| then c[j := c[j] + [last]] else c
  }

  lemma {:induction false} FiledSnoc(b: seq<seq<PageInfo>>, infos: seq<PageInfo>, info: PageInfo)
    requires 0 <= Bucket(info.freeSpace) < |b|
    ensures var c := Filed(b, infos); var j := Bucket(info.freeSpace);
      Filed(b, infos + [info]) == c[j := c[j] + [info]]
  {
    assert (infos + [info])[..|infos|] == infos;
  }

  /**
   * What `fillPageIndex` files for pages 2 to `n + 1`, given the cached
   * pages and the file: each page with the free space its bytes show,
   * in page order (`SurveyAt` reads off one entry).
   */
  ghost function Survey(px: PageX, cache: map<int, Page>, f: seq<byte>, n: nat): (r: seq<PageInfo>)
    ensures |r| == n
  {
    seq(n, k => PageInfo(k + 2, px.getFreeSpace(PageBytes(cache, f, k + 2))))
  }

  /**
   * Pages 2 to `pages` each show a free space with a bucket in the page
   * index, so `add` takes every one of them.
   */
  ghost predicate Fileable(px: PageX, cache: map<int, Page>, f: seq<byte>, pages: int)
    decreases pages
  {
    pages < 2 || (0 <= Bucket(px.getFreeSpace(PageBytes(cache, f, pages))) <= INTERVALS_NO && Fileable(px, cache, f, pages - 1))
  }

  /** The page cache can load one more page: it is unbounded or below its bound. */
  ghost predicate Room(pc: PageCacheImpl)
    reads pc.rc
  {
    pc.rc.maxResource <= 0 || pc.rc.count < pc.rc.maxResource
  }

  /** The bytes of page `p` if it has a place in the file. */
  ghost function PageBytes(cache: map<int, Page>, f: seq<byte>, p: int): seq<byte>
  {
    if Placeable(p) then View(cache, f, p) else []
  }

  lemma {:induction false} SurveyAt(px: PageX, cache: map<int, Page>, f: seq<byte>, n: nat, k: nat)
    requires k < n < TWO_31 - 1
    ensures Placeable(k + 2) && Survey(px, cache, f, n)[k] == PageInfo(k + 2, px.getFreeSpace(View(cache, f, k + 2)))
  {
    PageOffsetOfNumber(k + 2);
    assert PageBytes(cache, f, k + 2) == View(cache, f, k + 2);
  }

  /** Page `i` of fileable pages has a bucket: the survey up to it files its entry. */
  lemma {:induction false} FileableAt(px: PageX, cache: map<int, Page>, f: seq<byte>, pages: int, i: int)
    requires Fileable(px, cache, f, pages) && 2 <= i <= pages
    ensures 0 <= Bucket(Survey(px, cache, f, i - 1)[i - 2].freeSpace) <= INTERVALS_NO
    decreases pages
  {
    if i < pages {
      FileableAt(px, cache, f, pages - 1, i);
    }
  }

  /** Surveying one page more appends that page's entry. */
  lemma {:induction false} SurveySnoc(px: PageX, cache: map<int, Page>, f: seq<byte>, n: nat)
    requires n < TWO_31 - 2
    ensures Placeable(n + 2)
    ensures Survey(px, cache, f, n + 1) == Survey(px, cache, f, n) + [PageInfo(n + 2, px.getFreeSpace(View(cache, f, n + 2)))]
  {
    PageOffsetOfNumber(n + 2);
    assert PageBytes(cache, f, n + 2) == View(cache, f, n + 2);
  }

  /** A file with every page other than `n` written leaves page `n` as it reads. */
  lemma {:induction false} FlushAllElsewhere(f: seq<byte>, ps: seq<Page>, n: int)
    requires Placeable(n)
    requires forall i :: 0 <= i < |ps| ==> Placed(ps[i]) && ps[i].number != n
    ensures ReadAt(FlushAll(f, ps), PageOffset(n), PAGE_SIZE) == ReadAt(f, PageOffset(n), PAGE_SIZE)
  {
    if ps != [] {
      var last := ps[|ps| - 1];
      var g := FlushAll(f, ps[..|ps| - 1]);
      FlushAllElsewhere(f, ps[..|ps| - 1], n);
      if last.dirty {
        PagesDisjoint(last.number, n);
        ReadElsewhere(g, PageOffset(last.number), last.data, PageOffset(n), PAGE_SIZE);
      }
    }
  }

  /**
   * Closing the page cache `cache` over the file `f`, evicting the pages
   * `order` lists: page `n` ends up in the file with the bytes `d` it had,
   * whether it was cached (dirty) or already written.
   */
  lemma {:induction false} CloseKeepsPage(f: seq<byte>, cache: map<int, Page>, order: seq<int>, evicted: seq<Page>, n: int, d: seq<byte>)
    requires forall k :: k in cache ==> cache[k].number == k && Placed(cache[k])
    requires Distinct(order) && forall k :: k in cache ==> k in order
    requires |evicted| == |order| && forall i :: 0 <= i < |order| ==> order[i] in cache && evicted[i] == cache[order[i]]
    requires Placeable(n)
    requires n in cache ==> cache[n].data == d && cache[n].dirty
    requires n !in cache ==> ReadAt(f, PageOffset(n), PAGE_SIZE) == d
    ensures ReadAt(FlushAll(f, evicted), PageOffset(n), PAGE_SIZE) == d
  {
    forall i | 0 <= i < |evicted|
      ensures Placed(evicted[i]) && evicted[i].number == order[i]
    {
      var k := order[i];
      assert k in cache && evicted[i] == cache[k];
    }
    if n in cache {
      var j :| 0 <= j < |order| && order[j] == n;
      CloseDurable(f, evicted, j);
    } else {
      FlushAllElsewhere(f, evicted, n);
    }
  }

  /** Every page of `pc` reads as it did with the cached pages `cache0` over the file `file0`. */
  ghost predicate SameView(pc: PageCacheImpl, cache0: map<int, Page>, file0: seq<byte>)
    reads pc, pc.rc
  {
    forall q :: Placeable(q) ==> pc.Content(q) == View(cache0, file0, q)
  }

  /** The loop of `fillPageIndex`, over the page cache and the index alone. */
  method FillIndex(pc: PageCacheImpl, pidx: PageIndexImpl, px: PageX) returns (res: Outcome, ghost infos: seq<PageInfo>)
    requires pc.Valid() && pidx.Valid()
    modifies pidx.pageInfos, pc`file, pc.rc
    ensures pc.Valid() && pidx.Valid() && pc.rc.references == old(pc.rc.references)
    ensures SameView(pc, old(pc.rc.cache), old(pc.file))
    ensures res.Pass? ==>
      && infos == Survey(px, old(pc.rc.cache), old(pc.file), if pc.pageNumbers >= 2 then pc.pageNumbers - 1 else 0)
      && pidx.pageInfos[..] == Filed(old(pidx.pageInfos[..]), infos)
    ensures old(Room(pc) && Fileable(px, pc.rc.cache, pc.file, pc.pageNumbers)) ==> res.Pass?
  {
    var pageNumber := pc.GetPageNumber();
    ghost var cache0, file0, index0 := pc.rc.cache, pc.file, pidx.pageInfos[..];
    infos := [];
    var i := 2;
    while i <= pageNumber
      invariant pc.Valid() && pidx.Valid() && pc.rc.references == old(pc.rc.references)
      invariant pc.pageNumbers == pageNumber
      invariant 2 <= i <= (if pageNumber >= 2 then pageNumber + 1 else 2)
      invariant SameView(pc, cache0, file0)
      invariant infos == Survey(px, cache0, file0, i - 2)
      invariant pidx.pageInfos[..] == Filed(index0, infos)
      invariant pc.rc.count == old(pc.rc.count)
    {
      var ok;
      ok, infos := IndexPage(pc, pidx, px, i, cache0, file0, index0, infos);
      if ok.Fail? {
        if Room(pc) && Fileable(px, cache0, file0, pageNumber) {
          FileableAt(px, cache0, file0, pageNumber, i);
        }
        return ok, infos;
      }
      i := i + 1;
    }
    res := Pass;
  }

  /**
   * The body of `fillPageIndex` for page `i`: its free space is read and
   * the page is filed under it; `infos` grows by that entry.
   */
  method IndexPage(pc: PageCacheImpl, pidx: PageIndexImpl, px: PageX, i: int,
                   ghost cache0: map<int, Page>, ghost file0: seq<byte>, ghost index0: seq<seq<PageInfo>>,
                   ghost infos: seq<PageInfo>) returns (res: Outcome, ghost infos': seq<PageInfo>)
    requires pc.Valid() && pidx.Valid() && 2 <= i < TWO_31
    requires SameView(pc, cache0, file0)
    requires infos == Survey(px, cache0, file0, i - 2)
    requires pidx.pageInfos[..] == Filed(index0, infos)
    modifies pidx.pageInfos, pc`file, pc.rc
    ensures pc.Valid() && pidx.Valid() && pc.rc.references == old(pc.rc.references)
    ensures SameView(pc, cache0, file0)
    ensures res.Pass? ==> infos' == Survey(px, cache0, file0, i - 1) && pidx.pageInfos[..] == Filed(index0, infos')
    ensures pc.rc.count == old(pc.rc.count)
    ensures old(Room(pc)) && 0 <= Bucket(Survey(px, cache0, file0, i - 1)[i - 2].freeSpace) <= INTERVALS_NO ==> res.Pass?
  {
    PageOffsetOfNumber(i);
    infos' := infos;
    var fs := FreeSpaceOf(pc, px, i);
    if fs.Err? {
      return Fail(fs.error), infos';
    }
    var a := pidx.Add(i, fs.value);
    if a.Fail? {
      SurveyAt(px, cache0, file0, i - 1, i - 2);
      return a, infos';
    }
    FiledSnoc(index0, infos, PageInfo(i, fs.value));
    SurveySnoc(px, cache0, file0, i - 2);
    infos' := infos + [PageInfo(i, fs.value)];
    res := Pass;
  }

  /**
   * One step of `fillPageIndex`: fetch page `i`, read its free space and
   * release it again; the page keeps its bytes whether or not the release
   * evicts it. (The source registers the page before releasing it; the
   * index and the page cache are apart, so the order does not show.)
   */
  method FreeSpaceOf(pc: PageCacheImpl, px: PageX, i: int) returns (r: Result<int>)
    requires pc.Valid() && Placeable(i)
    modifies pc`file, pc.rc
    ensures pc.Valid() && pc.rc.references == old(pc.rc.references)
    ensures forall q :: Placeable(q) ==> pc.Content(q) == old(pc.Content(q))
    ensures r.Ok? ==> r.value == px.getFreeSpace(old(pc.Content(i)))
    ensures pc.rc.count == old(pc.rc.count)
    ensures old(Room(pc)) ==> r.Ok?
  {
    ghost var refs0 := pc.rc.references;
    var gp := pc.GetPage(i);
    if gp.Err? {
      return Err(gp.error);
    }
    var page := gp.value;
    r := Ok(px.getFreeSpace(page.data));
    ghost var loaded := i !in old(pc.rc.cache);
    var _ := pc.Release(i);
    Cache.DropBump(refs0, i);
    if loaded {
      assert page.data == old(pc.Content(i));
    }
  }

  /** `DataManagerImpl`. */
  class DataManagerImpl {
    /** The `AbstractCache` of data items, without a bound (`super(0)`). */
    const rc: Cache.RefCache<Slot>
    const pc: PageCacheImpl
    const lg: Logger.LoggerImpl
    const pidx: PageIndexImpl
    const px: PageX
    /** `pageOne`: the number of the page held as the marker page, if any. */
    var pageOne: Option<int>
    /** The uids of the cached items. */
    ghost var items: seq<int>

    /** Every page the data manager holds is cached with at least as many references. */
    ghost predicate Pinned()
      reads this`items, this`pageOne, pc.rc
    {
      Covers(items, pageOne, pc.rc.references)
    }

    /** The item cache holds exactly the listed uids, each slot at its uid's address. */
    ghost predicate ItemsValid()
      reads this`items, rc
    {
      ItemsLoading({})
    }

    /** As `ItemsValid`, while the uids `getting` are being loaded. */
    ghost predicate ItemsLoading(getting: set<int>)
      reads this`items, rc
    {
      && rc.Valid() && rc.maxResource == 0 && rc.getting == getting
      && Distinct(items) && (forall k :: k in rc.cache <==> k in items)
      && AllShaped(rc.cache)
    }

    /** The item side: the item cache, the page cache, and the page references the items hold. */
    ghost predicate ItemsOk()
      reads this`items, this`pageOne, rc, pc.rc
    {
      ItemsValid() && pc.Valid() && Pinned() && rc as object != pc.rc as object
    }

    /**
     * The page index as `fillPageIndex` leaves it on an empty index: the
     * survey of pages 2 on of the page cache `cache` over the file `f`,
     * filed bucket by bucket.
     */
    ghost predicate IndexFilled(cache: map<int, Page>, f: seq<byte>)
      reads pc`pageNumbers, pidx.pageInfos
    {
      pidx.pageInfos[..] == Filed(NoEntries(pidx.pageInfos.Length),
        Survey(px, cache, f, if pc.pageNumbers >= 2 then pc.pageNumbers - 1 else 0))
    }

    ghost predicate Valid()
      reads this`items, this`pageOne, rc, pc.rc, lg`position, lg`xCheckNum, pidx, pidx.pageInfos
    {
      ItemsOk() && lg.Valid() && pidx.Valid() && Sound(px)
    }

    constructor (pc: PageCacheImpl, lg: Logger.LoggerImpl, px: PageX)
      requires pc.Valid() && lg.Valid() && Sound(px)
      ensures Valid() && fresh(rc) && fresh(pidx) && fresh(pidx.pageInfos)
      ensures this.pc == pc && this.lg == lg && this.px == px && pageOne == None && items == [] && rc.cache == map[]
      ensures forall i :: 0 <= i < pidx.pageInfos.Length ==> pidx.pageInfos[i] == []
    {
      rc := new Cache.RefCache(0);
      this.pc := pc;
      this.lg := lg;
      this.px := px;
      pidx := new PageIndexImpl();
      pageOne := None;
      items := [];
    }

    // -------------------------------------------------------------
    // The item cache

    /**
     * `getForCache`: the offset is the uid's low 16 bits and the page number
     * its bits from 32 on; the page is fetched (the item keeps that
     * reference) and the item is parsed from it.
     */
    method GetForCache(uid: int) returns (r: Result<Slot>)
      requires pc.Valid()
      modifies pc.rc
      ensures pc.Valid() && pc.rc.getting == old(pc.rc.getting)
      ensures forall q :: Placeable(q) ==> pc.Content(q) == old(pc.Content(q))
      ensures r.Err? ==> pc.rc.references == old(pc.rc.references) || pc.rc.references == Cache.Bump(old(pc.rc.references), UidPage(uid))
      ensures r.Ok? ==> var p := UidPage(uid);
        && p in pc.rc.cache && Placeable(p)
        && pc.rc.references == Cache.Bump(old(pc.rc.references), p)
        && r == ParseDataItem(pc.rc.cache[p].data, p, UidOffset(uid))
    {
      var offset := UidOffset(uid);
      var pgNo := UidPage(uid);
      var pg :- pc.GetPage(pgNo);
      r := ParseDataItem(pg.data, pgNo, offset);
    }

    /** `get` with `getForCache` as its loader (no other caller is ever loading). */
    method GetItem(uid: int) returns (r: Result<Slot>)
      requires ItemsOk()
      modifies rc, pc.rc, this`items
      ensures ItemsOk()
      ensures forall q :: Placeable(q) ==> pc.Content(q) == old(pc.Content(q))
      ensures uid in old(rc.cache) ==> r == Ok(old(rc.cache[uid])) && rc.cache == old(rc.cache)
      ensures uid !in old(rc.cache) && r.Ok? ==>
        && rc.cache == old(rc.cache)[uid := r.value]
        && Placeable(UidPage(uid))
        && r == ParseDataItem(old(pc.Content(UidPage(uid))), UidPage(uid), UidOffset(uid))
      ensures r.Ok? ==> rc.references == Cache.Bump(old(rc.references), uid)
      ensures r.Err? ==> uid !in old(rc.cache) && rc.cache == old(rc.cache) && rc.references == old(rc.references)
      ensures r.Ok? ==> uid in rc.cache && Placeable(UidPage(uid)) && UidPage(uid) in pc.rc.cache
      ensures r.Ok? ==> r.value.uid == AddressToUid(UidPage(uid), UidOffset(uid)) && r.value.start == UidOffset(uid)
    {
      var lookup := rc.Lookup(uid);
      if lookup.Err? {
        assert false;
      }
      match lookup.value
      case Hit(v) =>
        PinsMember(items, uid);
        assert HeldBy(items, pageOne, UidPage(uid)) > 0;
        assert pc.rc.cache[UidPage(uid)].number == UidPage(uid);
        assert Shaped(rc.cache, uid);
        r := Ok(v);
      case Busy =>
        assert false;
      case Loading =>
        r := LoadItem(uid);
    }

    /** The loading half of `get`: the slot is reserved, `getForCache` runs, and the slot is filled or given back. */
    method LoadItem(uid: int) returns (r: Result<Slot>)
      requires ItemsLoading({uid}) && pc.Valid() && Pinned() && uid !in rc.cache && rc as object != pc.rc as object
      modifies rc, pc.rc, this`items
      ensures ItemsOk()
      ensures forall q :: Placeable(q) ==> pc.Content(q) == old(pc.Content(q))
      ensures r.Ok? ==>
        && rc.cache == old(rc.cache)[uid := r.value]
        && rc.references == Cache.Bump(old(rc.references), uid)
        && Placeable(UidPage(uid)) && UidPage(uid) in pc.rc.cache
        && r == ParseDataItem(old(pc.Content(UidPage(uid))), UidPage(uid), UidOffset(uid))
      ensures r.Err? ==> rc.cache == old(rc.cache) && rc.references == old(rc.references)
    {
      ghost var refs0 := pc.rc.references;
      r := GetForCache(uid);
      if r.Err? {
        AbortItem(uid, refs0);
        return;
      }
      CoversAddItem(items, pageOne, refs0, uid);
      FillItem(uid, r.value);
    }

    /** The critical section of a failed load: the reserved slot is given back. */
    method AbortItem(uid: int, ghost refs0: map<int, int>)
      requires ItemsLoading({uid}) && uid !in rc.cache && Covers(items, pageOne, refs0)
      requires pc.rc.references == refs0 || pc.rc.references == Cache.Bump(refs0, UidPage(uid))
      requires rc as object != pc.rc as object
      modifies rc`count, rc`getting
      ensures ItemsValid() && Pinned()
      ensures rc.cache == old(rc.cache) && rc.references == old(rc.references)
    {
      if pc.rc.references != refs0 {
        CoversBump(items, pageOne, refs0, UidPage(uid));
      }
      rc.AbortLoad(uid);
    }

    /** The critical section of a successful load: the slot is cached with one reference and listed. */
    method FillItem(uid: int, v: Slot)
      requires ItemsLoading({uid}) && uid !in rc.cache
      requires v.uid == AddressToUid(UidPage(uid), UidOffset(uid)) && v.start == UidOffset(uid)
      requires Covers(items + [uid], pageOne, pc.rc.references)
      modifies rc, this`items
      ensures ItemsValid() && Pinned()
      ensures rc.cache == old(rc.cache)[uid := v] && rc.references == Cache.Bump(old(rc.references), uid)
    {
      AllShapedAdd(rc.cache, uid, v);
      ItemsSnoc(items, rc.cache, uid, v);
      rc.FinishLoad(uid, v);
      items := items + [uid];
    }

    /**
     * `releaseDataItem` followed by `releaseForCache`: one reference on the
     * item is dropped; the last one evicts the item and releases its page.
     */
    method Release(uid: int) returns (res: Outcome)
      requires ItemsOk()
      modifies rc, pc`file, pc.rc, this`items
      ensures ItemsOk()
      ensures uid !in old(rc.cache) ==>
        && res == Fail(NullPointer) && rc.cache == old(rc.cache) && rc.references == old(rc.references)
        && pc.file == old(pc.file) && pc.rc.cache == old(pc.rc.cache) && pc.rc.references == old(pc.rc.references)
      ensures uid in old(rc.cache) ==> res == Pass && rc.references == Cache.Drop(old(rc.references), uid)
      ensures uid in old(rc.cache) && old(rc.references[uid]) > 1 ==>
        && rc.cache == old(rc.cache)
        && pc.file == old(pc.file) && pc.rc.cache == old(pc.rc.cache) && pc.rc.references == old(pc.rc.references)
      ensures uid in old(rc.cache) && old(rc.references[uid]) == 1 ==>
        && rc.cache == old(rc.cache) - {uid}
        && var p := UidPage(uid);
        && p in old(pc.rc.cache)
        && (old(pc.rc.references[p]) > 1 ==>
              pc.rc.cache == old(pc.rc.cache) && pc.rc.references == old(pc.rc.references)[p := old(pc.rc.references[p]) - 1])
        && (old(pc.rc.references[p]) == 1 ==>
              pc.rc.cache == old(pc.rc.cache) - {p} && pc.file == FlushIfDirty(old(pc.file), old(pc.rc.cache[p])))
    {
      var evicted := DropItem(uid);
      if evicted.Err? {
        return Fail(evicted.error);
      }
      if evicted.value {
        res := pc.Release(UidPage(uid));
      } else {
        res := Pass;
      }
    }

    /** `release` on the item cache: the item loses a reference, and on its last one leaves the cache and the list. */
    method DropItem(uid: int) returns (r: Result<bool>)
      requires ItemsValid() && Covers(items, pageOne, pc.rc.references)
      modifies rc, this`items
      ensures ItemsValid()
      ensures uid !in old(rc.cache) ==> r == Err(NullPointer) && rc.cache == old(rc.cache) && rc.references == old(rc.references) && items == old(items)
      ensures uid in old(rc.cache) ==> r == Ok(old(rc.references[uid]) == 1) && rc.references == Cache.Drop(old(rc.references), uid)
      ensures r == Ok(false) ==> rc.cache == old(rc.cache) && items == old(items)
      ensures r == Ok(true) ==>
        && rc.cache == old(rc.cache) - {uid}
        && UidPage(uid) in pc.rc.references
        && Covers(items, pageOne, Cache.Drop(pc.rc.references, UidPage(uid)))
    {
      var rel :- rc.Release(uid);
      if rel.None? {
        return Ok(false);
      }
      AllShapedRemove(old(rc.cache), uid);
      CoversDropItem(items, pageOne, pc.rc.references, uid);
      items := Without(items, uid);
      r := Ok(true);
    }

    /**
     * `read`: the item at `uid` with one more reference, or none, with the
     * reference given back, when its valid byte is set; the valid byte is
     * read from the page as it was before the call.
     */
    method Read(uid: int) returns (r: Result<Option<Slot>>)
      requires ItemsOk()
      modifies rc, pc`file, pc.rc, this`items
      ensures ItemsOk()
      ensures r.Ok? ==> var p, s := UidPage(uid), UidOffset(uid);
        && Placeable(p) && 0 <= s < PAGE_SIZE
        && (r.value.Some? <==> old(pc.Content(p))[s] == 0)
      ensures r.Ok? && r.value.Some? ==>
        && uid in rc.cache && rc.cache[uid] == r.value.value
        && rc.references[uid] == (if uid in old(rc.cache) then old(rc.references[uid]) + 1 else 1)
      ensures r == Ok(None) && Canonical(uid) ==> rc.cache == old(rc.cache) && rc.references == old(rc.references)
    {
      var item :- GetItem(uid);
      var p := UidPage(uid);
      var data := pc.rc.cache[p].data;
      if item.start < 0 || item.start >= |data| {
        return Err(IndexOutOfBounds);
      }
      if data[item.start] == 0 {
        return Ok(Some(item));
      }
      ghost var cache1 := rc.cache;
      var rel := Release(item.uid);
      if rel.Fail? {
        return Err(rel.error);
      }
      r := Ok(None);
      if Canonical(uid) {
        assert item.uid == uid;
        Cache.DropBump(old(rc.references), uid);
        if uid !in old(rc.cache) {
          AddRemove(old(rc.cache), uid, item);
        }
      }
    }

    // -------------------------------------------------------------
    // Inserting

    /**
     * The retry loop of `insert`: up to five `select`s; after each miss a
     * new page is allocated and registered with the largest free space.
     * When that free space falls in the last bucket, the second `select`
     * always finds the new page, so the busy error needs other inserters.
     */
    method SelectPage(need: nat) returns (r: Result<PageInfo>, misses: nat)
      requires pc.Valid() && pidx.Valid() && Sound(px)
      modifies pidx.pageInfos, pc`file, pc`pageNumbers
      ensures pc.Valid() && pidx.Valid()
      ensures misses <= 5 && (r == Err(DatabaseBusy) <==> misses == 5)
      ensures r.Err? ==> r.error == DatabaseBusy || r.error == IllegalArgument
      ensures r.Ok? ==> IsInt32(r.value.pgNo) && (Bucket(need) < INTERVALS_NO ==> r.value.freeSpace > need)
      ensures need <= px.maxFreeSpace && Bucket(px.maxFreeSpace) == INTERVALS_NO ==> misses <= 1
    {
      misses := 0;
      assert THRESHOLD == 204;
      JavaDivBounds(need, THRESHOLD);
      JavaDivBounds(px.maxFreeSpace, THRESHOLD);
      while misses < 5
        invariant pc.Valid() && pidx.Valid() && misses <= 5
        invariant misses >= 1 ==> pidx.pageInfos[Bucket(px.maxFreeSpace)] != []
        invariant need <= px.maxFreeSpace && Bucket(px.maxFreeSpace) == INTERVALS_NO ==> misses <= 1
      {
        var sel := pidx.Select(need);
        if sel.value.Some? {
          return Ok(sel.value.value), misses;
        }
        var n := pc.NewPage(px.initRaw);
        if n.Err? {
          return Err(n.error), misses;
        }
        var a := pidx.Add(n.value, px.maxFreeSpace);
        misses := misses + 1;
      }
      r := Err(DatabaseBusy);
    }

    /**
     * The tail of `insert` on the chosen page: fetch it, log the insert
     * record made from the page as it is, insert into the page, release
     * it, and in the `finally` register the page again with the free
     * space it has left (0 if it could not be fetched). `before` is the
     * page's bytes when fetched, none if it could not be.
     */
    method InsertAt(xid: int, pgNo: int, raw: seq<byte>) returns (r: Result<int>, ghost before: Option<seq<byte>>)
      requires pc.Valid() && pidx.Valid() && lg.Valid() && Sound(px) && IsInt64(xid) && IsInt32(pgNo) && |raw| <= PAGE_SIZE
      modifies pidx.pageInfos, pc`file, pc.rc, lg`file, lg`xCheckNum
      ensures pc.Valid() && pidx.Valid() && lg.Valid() && pc.rc.references == old(pc.rc.references)
      ensures before.None? ==>
        && r.Err? && lg.file == old(lg.file)
        && pidx.pageInfos[..] == old(pidx.pageInfos[..])[0 := old(pidx.pageInfos[0]) + [PageInfo(pgNo, 0)]]
      ensures before.Some? ==>
        && Placeable(pgNo) && before.value == old(pc.Content(pgNo))
        && var (after, offset) := px.insert(before.value, raw);
        && pc.Content(pgNo) == after
        && lg.file == WriteAt(old(lg.file) + Logger.WrapLog(LogRecords.InsertLog(xid, pgNo, px.getFso(before.value), raw)), 0, Codec.Int2Byte(lg.xCheckNum))
        && var fs := px.getFreeSpace(after);
        && (r.Ok? <==> 0 <= Bucket(fs) <= INTERVALS_NO)
        && (r.Ok? ==>
              && r.value == AddressToUid(pgNo, offset)
              && pidx.pageInfos[..] == old(pidx.pageInfos[..])[Bucket(fs) := old(pidx.pageInfos[Bucket(fs)]) + [PageInfo(pgNo, fs)]])
      ensures forall q :: Placeable(q) && q != pgNo ==> pc.Content(q) == old(pc.Content(q))
      ensures r != Err(DatabaseBusy)
    {
      var placed;
      placed, before := PlaceInPage(xid, pgNo, raw);
      if placed.Err? {
        JavaDivBounds(0, THRESHOLD);
        var _ := pidx.Add(pgNo, 0);
        return Err(placed.error), None;
      }
      var (offset, fs) := placed.value;
      var a := pidx.Add(pgNo, fs);
      if a.Fail? {
        return Err(a.error), before;
      }
      r := Ok(AddressToUid(pgNo, offset));
    }

    /**
     * The `try` block of `insert` on the chosen page: fetch it, log the
     * insert record made from the page as it is, insert into the page and
     * release it. The result is the offset and the free space left; the page
     * holds no more references than before.
     */
    method PlaceInPage(xid: int, pgNo: int, raw: seq<byte>) returns (r: Result<(int, int)>, ghost before: Option<seq<byte>>)
      requires pc.Valid() && lg.Valid() && Sound(px) && IsInt64(xid) && IsInt32(pgNo) && |raw| <= PAGE_SIZE
      modifies pc`file, pc.rc, lg`file, lg`xCheckNum
      ensures pc.Valid() && lg.Valid() && pc.rc.references == old(pc.rc.references)
      ensures r.Err? <==> before.None?
      ensures r.Err? ==> lg.file == old(lg.file) && r.error != DatabaseBusy
      ensures r.Ok? ==>
        && Placeable(pgNo) && before.value == old(pc.Content(pgNo))
        && var (after, offset) := px.insert(before.value, raw);
        && pc.Content(pgNo) == after
        && r.value == (offset, px.getFreeSpace(after))
        && lg.file == WriteAt(old(lg.file) + Logger.WrapLog(LogRecords.InsertLog(xid, pgNo, px.getFso(before.value), raw)), 0, Codec.Int2Byte(lg.xCheckNum))
      ensures forall q :: Placeable(q) && q != pgNo ==> pc.Content(q) == old(pc.Content(q))
    {
      ghost var refs0 := pc.rc.references;
      var gp := pc.GetPage(pgNo);
      if gp.Err? {
        return Err(gp.error), None;
      }
      var page := gp.value;
      before := Some(page.data);
      var offset, fs := WriteInsert(xid, page, raw);
      Cache.DropBump(refs0, pgNo);
      r := Ok((offset, fs));
    }

    /** The fetched page's part of `insert`: log, insert, release; the free space is read from the page after. */
    method WriteInsert(xid: int, page: Page, raw: seq<byte>) returns (offset: int, fs: int)
      requires pc.Valid() && lg.Valid() && Sound(px) && IsInt64(xid) && |raw| <= PAGE_SIZE
      requires page.number in pc.rc.cache && pc.rc.cache[page.number] == page
      modifies pc`file, pc.rc, lg`file, lg`xCheckNum
      ensures pc.Valid() && lg.Valid() && pc.rc.references == Cache.Drop(old(pc.rc.references), page.number)
      ensures Placeable(page.number)
      ensures var (after, off) := px.insert(page.data, raw);
        pc.Content(page.number) == after && offset == off && fs == px.getFreeSpace(after)
      ensures lg.file == WriteAt(old(lg.file) + Logger.WrapLog(LogRecords.InsertLog(xid, page.number, px.getFso(page.data), raw)), 0, Codec.Int2Byte(lg.xCheckNum))
      ensures forall q :: Placeable(q) && q != page.number ==> pc.Content(q) == old(pc.Content(q))
    {
      var log := LogRecords.InsertLog(xid, page.number, px.getFso(page.data), raw);
      lg.Log(log);
      var placed := Pages.Insert(px, page, raw);
      var updated := placed.0;
      offset := placed.1;
      pc.UpdatePage(updated);
      var _ := pc.Release(page.number);
      fs := px.getFreeSpace(updated.data);
    }

    /**
     * `insert`: a payload whose wrapped item exceeds the largest free space
     * of a page is fatal; otherwise a page is chosen and the item goes in
     * there, after its insert record is logged. On success the uid names
     * the chosen page and the offset `PageX.insert` reports.
     */
    method Insert(xid: int, data: seq<byte>) returns (r: Result<int>, ghost chosen: int, ghost before: seq<byte>)
      requires Valid() && IsInt64(xid)
      modifies pidx.pageInfos, pc`file, pc`pageNumbers, pc.rc, lg`file, lg`xCheckNum
      ensures Valid()
      ensures |WrapDataItemRaw(data)| > px.maxFreeSpace ==>
        r == Err(DataTooLarge) && lg.file == old(lg.file) && pc.file == old(pc.file) && pidx.pageInfos[..] == old(pidx.pageInfos[..])
      ensures Bucket(px.maxFreeSpace) == INTERVALS_NO ==> r != Err(DatabaseBusy)
      ensures r.Ok? ==>
        && |WrapDataItemRaw(data)| <= px.maxFreeSpace && Placeable(chosen)
        && var (after, offset) := px.insert(before, WrapDataItemRaw(data));
        && r.value == AddressToUid(chosen, offset)
        && pc.Content(chosen) == after
        && lg.file == WriteAt(old(lg.file) + Logger.WrapLog(LogRecords.InsertLog(xid, chosen, px.getFso(before), WrapDataItemRaw(data))), 0, Codec.Int2Byte(lg.xCheckNum))
    {
      var raw := WrapDataItemRaw(data);
      if |raw| > px.maxFreeSpace {
        return Err(DataTooLarge), 0, [];
      }
      var sel, misses := SelectPage(|raw|);
      if sel.Err? {
        return Err(sel.error), 0, [];
      }
      var pgNo := sel.value.pgNo;
      ghost var b;
      r, b := InsertAt(xid, pgNo, raw);
      chosen := pgNo;
      before := if b.Some? then b.value else [];
    }

    // -------------------------------------------------------------
    // Bootstrap and shutdown

    /**
     * `fillPageIndex`: every page from 2 to the page count is fetched,
     * registered with its free space, and released; page 1 never is. A
     * page that cannot be fetched is fatal. No page's bytes change.
     */
    method FillPageIndex() returns (res: Outcome, ghost infos: seq<PageInfo>)
      requires Valid()
      modifies pidx.pageInfos, pc`file, pc.rc
      ensures Valid()
      ensures forall q :: Placeable(q) ==> pc.Content(q) == old(pc.Content(q))
      ensures res.Pass? ==>
        && infos == Survey(px, old(pc.rc.cache), old(pc.file), if pc.pageNumbers >= 2 then pc.pageNumbers - 1 else 0)
        && pidx.pageInfos[..] == Filed(old(pidx.pageInfos[..]), infos)
      ensures old(Room(pc) && Fileable(px, pc.rc.cache, pc.file, pc.pageNumbers)) ==> res.Pass?
    {
      res, infos := FillIndex(pc, pidx, px);
    }

    /**
     * Fetches page `n` and holds it as the marker page (the reference stays
     * until `close`). No page's bytes change.
     */
    method FetchMarker(n: int) returns (r: Result<Page>)
      requires Valid() && IsInt32(n)
      modifies pc.rc, this`pageOne
      ensures Valid()
      ensures forall q :: Placeable(q) ==> pc.Content(q) == old(pc.Content(q))
      ensures r.Ok? ==>
        && pageOne == Some(n) && Placeable(n) && n in pc.rc.cache
        && r.value == pc.rc.cache[n] && r.value.data == pc.Content(n)
        && (n !in old(pc.rc.cache) ==> r.value.data == ReadAt(pc.file, PageOffset(n), PAGE_SIZE))
      ensures r.Err? ==> pageOne == old(pageOne)
      ensures pc.rc.cache.Keys <= old(pc.rc.cache.Keys) + {n}
      ensures n !in old(pc.rc.cache) && Placeable(n) && old(Room(pc)) ==> r.Ok?
      ensures n !in old(pc.rc.cache) && r.Ok? ==> pc.rc.count == old(pc.rc.count) + 1
    {
      ghost var refs0 := pc.rc.references;
      r := pc.GetPage(n);
      if r.Err? {
        return;
      }
      CoversMarker(items, pageOne, refs0, n);
      pageOne := Some(n);
    }

    /**
     * `initPageOne`: a new page carrying a fresh open marker, held as the
     * marker page and flushed at once. A page number still cached from
     * before is fetched as cached.
     */
    method InitPageOne(rnd: seq<byte>) returns (res: Outcome)
      requires Valid() && |rnd| == LEN_VC
      modifies pc`file, pc`pageNumbers, pc.rc, this`pageOne
      ensures Valid()
      ensures res.Pass? ==>
        && pc.pageNumbers == Wrap32(old(pc.pageNumbers) + 1) && pageOne == Some(pc.pageNumbers)
        && Placeable(pc.pageNumbers)
        && (pc.pageNumbers !in old(pc.rc.cache) ==>
              ReadAt(pc.file, PageOffset(pc.pageNumbers), PAGE_SIZE) == InitRaw(rnd) && pc.Content(pc.pageNumbers) == InitRaw(rnd))
      ensures pc.rc.cache.Keys <= old(pc.rc.cache.Keys) + {pc.pageNumbers}
      ensures res.Pass? ==>
                |pc.file| == if |old(pc.file)| > PageOffset(pc.pageNumbers) + PAGE_SIZE then |old(pc.file)| else PageOffset(pc.pageNumbers) + PAGE_SIZE
      ensures old(pc.pageNumbers) == 0 && 1 !in old(pc.rc.cache) && pc.rc.maxResource > old(pc.rc.count) ==> res.Pass?
    {
      var n := NewMarkerPage(rnd);
      if n.Err? {
        return Fail(n.error);
      }
      var gp := FetchMarker(n.value);
      if gp.Err? {
        return Fail(gp.error);
      }
      res := FlushMarker(gp.value);
    }

    /**
     * `initPageOne` on a store without pages and with room in the page
     * cache: it cannot fail, and the marker page is page 1.
     */
    method FirstPageOne(rnd: seq<byte>)
      requires Valid() && |rnd| == LEN_VC
      requires pc.pageNumbers == 0 && pc.rc.cache == map[] && pc.rc.maxResource > pc.rc.count
      modifies pc`file, pc`pageNumbers, pc.rc, this`pageOne
      ensures Valid() && pageOne == Some(1) && pc.pageNumbers == 1 && pc.rc.cache.Keys <= {1} && Placeable(1)
      ensures pc.Content(1) == InitRaw(rnd) && ReadAt(pc.file, PageOffset(1), PAGE_SIZE) == InitRaw(rnd)
      ensures |pc.file| == if |old(pc.file)| > PAGE_SIZE then |old(pc.file)| else PAGE_SIZE
    {
      PageOffsetOfNumber(1);
      ghost var n0: int := pc.pageNumbers;
      var res := InitPageOne(rnd);
      assert res.Pass?;
      Wrap32Id(n0 + 1);
    }

    /**
     * `newPage(initRaw())`: the page count grows by one and the new page's
     * bytes, a fresh open marker `rnd`, go straight to the file. On a store
     * with no pages the new page is page 1.
     */
    method NewMarkerPage(rnd: seq<byte>) returns (r: Result<int>)
      requires pc.Valid() && |rnd| == LEN_VC
      modifies pc`file, pc`pageNumbers
      ensures pc.Valid()
      ensures pc.pageNumbers == Wrap32(old(pc.pageNumbers) + 1)
      ensures r.Ok? ==> r.value == pc.pageNumbers && Placeable(r.value)
      ensures r.Ok? ==> ReadAt(pc.file, PageOffset(r.value), PAGE_SIZE) == InitRaw(rnd)
      ensures r.Ok? ==> pc.file == WriteAt(old(pc.file), PageOffset(r.value), InitRaw(rnd))
      ensures old(pc.pageNumbers) == 0 ==> r == Ok(1)
    {
      ghost var n0, f0 := pc.pageNumbers, pc.file;
      r := pc.NewPage(InitRaw(rnd));
      NewPageResult(n0, r, f0, pc.file, InitRaw(rnd));
    }

    /**
     * `flushPage` on the marker page: its cached buffer is written to the
     * file, so the file holds what the engine sees of it; no page's bytes
     * change.
     */
    method FlushMarker(p: Page) returns (res: Outcome)
      requires Valid() && p.number in pc.rc.cache && pc.rc.cache[p.number] == p
      modifies pc`file
      ensures Valid() && res == Pass && Placeable(p.number)
      ensures ReadAt(pc.file, PageOffset(p.number), PAGE_SIZE) == p.data
      ensures pc.file == WriteAt(old(pc.file), PageOffset(p.number), p.data)
      ensures forall q :: Placeable(q) ==> pc.Content(q) == old(pc.Content(q))
    {
      ghost var f0 := pc.file;
      res := pc.FlushPage(p);
      ReadAfterWrite(f0, PageOffset(p.number), p.data);
      forall q | Placeable(q) && q !in pc.rc.cache
        ensures pc.Content(q) == old(pc.Content(q))
      {
        PagesDisjoint(q, p.number);
        ReadElsewhere(f0, PageOffset(p.number), p.data, PageOffset(q), PAGE_SIZE);
      }
    }

    /** `loadCheckPageOne`: page 1 is fetched and held; the result is its marker check. */
    method LoadCheckPageOne() returns (r: Result<bool>)
      requires Valid()
      modifies pc.rc, this`pageOne
      ensures Valid()
      ensures forall q :: Placeable(q) ==> pc.Content(q) == old(pc.Content(q))
      ensures Placeable(1)
      ensures r.Ok? ==> pageOne == Some(1) && r.value == CheckVcRaw(pc.Content(1))
      ensures r.Err? ==> pageOne == old(pageOne)
      ensures pc.rc.cache.Keys <= old(pc.rc.cache.Keys) + {1}
      ensures 1 !in old(pc.rc.cache) && old(Room(pc)) ==> r.Ok?
      ensures 1 !in old(pc.rc.cache) && r.Ok? ==> pc.rc.count == old(pc.rc.count) + 1
      ensures old(pc.rc.cache) == map[] && (pc.rc.maxResource <= 0 || pc.rc.maxResource >= 2)
        && Fileable(px, map[], pc.file, pc.pageNumbers)
        ==> Room(pc) && Fileable(px, pc.rc.cache, pc.file, pc.pageNumbers)
    {
      PageOffsetOfNumber(1);
      ghost var cache0 := pc.rc.cache;
      var gp :- FetchMarker(1);
      r := Ok(CheckVcRaw(gp.data));
      if cache0 == map[] {
        forall q | Placeable(q)
          ensures View(pc.rc.cache, pc.file, q) == ReadAt(pc.file, PageOffset(q), PAGE_SIZE)
        {
          assert View(pc.rc.cache, pc.file, q) == old(pc.Content(q));
        }
        FileableUncached(px, pc.rc.cache, pc.file, pc.file, pc.pageNumbers);
      }
    }

    /**
     * `setVcOpen(pageOne)` then `flushPage(pageOne)`: page 1 gets the new
     * open marker `rnd`, is marked dirty, and goes to the file at once.
     */
    method OpenMarker(rnd: seq<byte>)
      requires Valid() && pageOne == Some(1) && |rnd| == LEN_VC
      modifies pc`file, pc.rc`cache
      ensures Valid() && Placeable(1)
      ensures pc.Content(1) == SetVcOpenRaw(old(pc.Content(1)), rnd)
      ensures ReadAt(pc.file, PageOffset(1), PAGE_SIZE) == pc.Content(1)
      ensures forall q :: Placeable(q) && q != 1 ==> pc.Content(q) == old(pc.Content(q))
    {
      PageOffsetOfNumber(1);
      assert HeldBy(items, pageOne, 1) > 0;
      var p := SetVcOpen(pc.rc.cache[1], rnd);
      pc.UpdatePage(p);
      var _ := FlushMarker(p);
    }

    /**
     * The end of `open`: the page index is filled from the pages as they
     * are, then page 1 gets the new open marker `rnd` and is flushed. Only
     * page 1's bytes change. `cache0` over `file0` are the pages and
     * `index0` the index before.
     */
    method FillAndMark(rnd: seq<byte>, ghost cache0: map<int, Page>, ghost file0: seq<byte>, ghost index0: seq<seq<PageInfo>>)
      returns (res: Outcome, ghost infos: seq<PageInfo>)
      requires Valid() && pageOne == Some(1) && |rnd| == LEN_VC
      requires pc.rc.cache == cache0 && pc.file == file0 && pidx.pageInfos[..] == index0
      modifies pidx.pageInfos, pc`file, pc.rc
      ensures Valid() && Placeable(1) && pc.pageNumbers == old(pc.pageNumbers)
      ensures forall q {:trigger pc.Content(q)} :: Placeable(q) && q != 1 ==> pc.Content(q) == View(cache0, file0, q)
      ensures res.Pass? ==>
        && pc.Content(1) == SetVcOpenRaw(View(cache0, file0, 1), rnd)
        && ReadAt(pc.file, PageOffset(1), PAGE_SIZE) == pc.Content(1)
        && infos == Survey(px, cache0, file0, if pc.pageNumbers >= 2 then pc.pageNumbers - 1 else 0)
        && pidx.pageInfos[..] == Filed(index0, infos)
      ensures old(Room(pc) && Fileable(px, cache0, file0, pc.pageNumbers)) ==> res.Pass?
    {
      res, infos := FillPageIndex();
      if res.Fail? {
        return;
      }
      OpenMarker(rnd);
    }

    /**
     * The start of `open` on a store nothing is cached of yet: page 1 is
     * fetched and held, and when its marker check fails `recover` runs, with
     * `hash` the undo pass's iteration order. `recovered` says whether it
     * ran.
     */
    method CheckAndRecover(tm: Ledger.LedgerImpl, hash: seq<int>) returns (res: Outcome, ghost recovered: bool)
      requires Valid() && pc.rc.cache == map[]
      modifies pc`file, pc`pageNumbers, pc.rc, this`pageOne, lg`position, tm`file
      ensures Valid() && items == old(items)
      ensures res.Pass? ==>
        && pageOne == Some(1) && Placeable(1)
        && (recovered <==> !CheckVcRaw(ReadAt(old(pc.file), PageOffset(1), PAGE_SIZE)))
      ensures res.Pass? && !recovered ==>
        && tm.file == old(tm.file) && pc.pageNumbers == old(pc.pageNumbers)
        && forall q {:trigger View(pc.rc.cache, pc.file, q)} :: Placeable(q) ==> View(pc.rc.cache, pc.file, q) == ReadAt(old(pc.file), PageOffset(q), PAGE_SIZE)
      ensures res.Pass? && recovered ==>
        && Recovery.LogOf(lg.file, lg.fileSize).Ok?
        && RecoveredFrom(px, hash, old(tm.file), Recovery.LogOf(lg.file, lg.fileSize).value, old(pc.file),
                         tm.file, pc.pageNumbers, pc.rc.cache, pc.file)
      ensures CheckVcRaw(ReadAt(old(pc.file), PageOffset(1), PAGE_SIZE)) ==> res.Pass? && !recovered && pc.rc.count == 1
      ensures (pc.rc.maxResource <= 0 || pc.rc.maxResource >= 2) && CheckVcRaw(ReadAt(old(pc.file), PageOffset(1), PAGE_SIZE))
        && Fileable(px, map[], old(pc.file), old(pc.pageNumbers))
        ==> Room(pc) && Fileable(px, pc.rc.cache, pc.file, pc.pageNumbers)
    {
      var check := LoadCheckPageOne();
      // page 1 is fetched into an empty cache, which always has room for it
      assert check.Ok?;
      recovered := !check.value;
      if check.value {
        return Pass, false;
      }
      res := RecoverPages(tm, hash);
    }

    /**
     * `recover` as `open` runs it, with page 1 the only page cached: the
     * pages, the page count and the ledger are then as `RecoveredFrom`
     * describes them for the page file as it was.
     */
    method RecoverPages(tm: Ledger.LedgerImpl, hash: seq<int>) returns (res: Outcome)
      requires Valid() && pc.rc.cache.Keys <= {1}
      modifies pc`file, pc`pageNumbers, pc.rc, lg`position, tm`file
      ensures Valid()
      ensures res.Pass? ==>
        && Recovery.LogOf(lg.file, lg.fileSize).Ok?
        && RecoveredFrom(px, hash, old(tm.file), Recovery.LogOf(lg.file, lg.fileSize).value, old(pc.file),
                         tm.file, pc.pageNumbers, pc.rc.cache, pc.file)
    {
      ghost var cache0, file0 := pc.rc.cache, pc.file;
      res := Recovery.Recover(tm, lg, pc, px, hash);
      if res.Pass? {
        ghost var logs := Recovery.LogOf(lg.file, lg.fileSize).value;
        ghost var g := Recovery.Collect(old(tm.file), logs).value;
        ghost var patches := Recovery.RedoPlan(old(tm.file), logs).value
          + Recovery.PatchesOf(Recovery.UndoOrder(Recovery.IterOrder(hash, g), g.logs), Recovery.Undo).value;
        forall q {:trigger PatchedPage(px, patches, file0, pc.pageNumbers, pc.rc.cache, pc.file, q)} | Placeable(q) && q != 1
          ensures PatchedPage(px, patches, file0, pc.pageNumbers, pc.rc.cache, pc.file, q)
        {
          assert q !in cache0;
          assert pc.Content(q) == View(pc.rc.cache, pc.file, q);
        }
      }
    }

    /**
     * `open` past building the caches and the logger: the marker check and
     * recovery, then the page index fill and the new open marker `rnd` on
     * page 1, which is flushed. `recovered` says whether recovery ran, and
     * `cacheR` over `fileR` are the pages as the check or the recovery left
     * them; the fill changes none of them but page 1.
     */
    method OpenStore(tm: Ledger.LedgerImpl, hash: seq<int>, rnd: seq<byte>)
      returns (res: Outcome, ghost recovered: bool, ghost cacheR: map<int, Page>, ghost fileR: seq<byte>)
      requires Valid() && pc.rc.cache == map[] && |rnd| == LEN_VC
      requires pidx.pageInfos[..] == NoEntries(pidx.pageInfos.Length)
      modifies pc`file, pc`pageNumbers, pc.rc, this`pageOne, lg`position, tm`file, pidx.pageInfos
      ensures Valid() && items == old(items)
      ensures res.Pass? ==>
        && pageOne == Some(1) && Placeable(1)
        && (recovered <==> !CheckVcRaw(ReadAt(old(pc.file), PageOffset(1), PAGE_SIZE)))
        && pc.Content(1)[OF_VC..OF_VC + LEN_VC] == rnd
        && ReadAt(pc.file, PageOffset(1), PAGE_SIZE) == pc.Content(1)
        && IndexFilled(cacheR, fileR)
        && forall q {:trigger pc.Content(q)} :: Placeable(q) && q != 1 ==> pc.Content(q) == View(cacheR, fileR, q)
      ensures res.Pass? && !recovered ==>
        && tm.file == old(tm.file) && pc.pageNumbers == old(pc.pageNumbers)
        && pc.Content(1) == SetVcOpenRaw(ReadAt(old(pc.file), PageOffset(1), PAGE_SIZE), rnd)
        && forall q {:trigger View(cacheR, fileR, q)} :: Placeable(q) ==> View(cacheR, fileR, q) == ReadAt(old(pc.file), PageOffset(q), PAGE_SIZE)
      ensures res.Pass? && recovered ==>
        && Recovery.LogOf(lg.file, lg.fileSize).Ok?
        && RecoveredFrom(px, hash, old(tm.file), Recovery.LogOf(lg.file, lg.fileSize).value, old(pc.file),
                         tm.file, pc.pageNumbers, cacheR, fileR)
      ensures (pc.rc.maxResource <= 0 || pc.rc.maxResource >= 2) && CheckVcRaw(ReadAt(old(pc.file), PageOffset(1), PAGE_SIZE))
        && Fileable(px, map[], old(pc.file), old(pc.pageNumbers))
        ==> res.Pass? && !recovered
    {
      res, recovered := CheckAndRecover(tm, hash);
      cacheR, fileR := pc.rc.cache, pc.file;
      if res.Fail? {
        return;
      }
      ghost var infos;
      res, infos := FillAndMark(rnd, cacheR, fileR, NoEntries(pidx.pageInfos.Length));
    }

    /**
     * `close`, with the item cache and the page cache closed as intended:
     * every cached key is released once, in the order `itemHash` and
     * `pageHash` list them. Each cached item gives back the reference on its
     * page; then the marker page is stamped with the close marker and
     * released, and the page cache is closed, so the stamped page is in the
     * file. Without a marker page the stamp fails with NullPointer and the
     * page cache stays open.
     */
    method Close(itemHash: seq<int>, pageHash: seq<int>) returns (res: Outcome)
      requires Valid()
      requires Distinct(itemHash) && forall k :: k in rc.cache ==> k in itemHash
      requires Distinct(pageHash) && forall k :: k in pc.rc.cache ==> k in pageHash
      modifies rc, pc`file, pc.rc, this`items, this`pageOne
      ensures rc.cache == map[] && items == []
      ensures forall n :: Within(old(pc.rc.cache), old(pc.file), n) ==> Within(pc.rc.cache, pc.file, n)
      ensures old(pageOne).None? ==> res == Fail(NullPointer)
      ensures old(pageOne).Some? ==>
        && var n := old(pageOne).value;
        && res == Pass && pageOne == None && pc.rc.cache == map[] && Placeable(n)
        && ReadAt(pc.file, PageOffset(n), PAGE_SIZE) == SetVcCloseRaw(old(pc.Content(n)))
    {
      var order := Present(itemHash, rc.cache);
      var _ := rc.CloseAll(order);
      assert rc.cache.Keys == {} by {
        forall k
          ensures k !in rc.cache.Keys
        {
        }
      }
      ReleaseItems(order);
      if pageOne.None? {
        return Fail(NullPointer);
      }
      res := CloseMarker(pageHash);
    }

    /**
     * The `releaseForCache` half of closing the item cache: each item in
     * `order` gives back the reference it holds on its page. The marker
     * page keeps its reference and its bytes.
     */
    method ReleaseItems(order: seq<int>)
      requires pc.Valid() && Distinct(items) && Distinct(order) && Covers(items, pageOne, pc.rc.references)
      requires forall x :: x in items <==> x in order
      requires rc as object != pc.rc as object
      modifies pc`file, pc.rc, this`items
      ensures pc.Valid() && items == [] && Covers([], pageOne, pc.rc.references)
      ensures pc.rc.cache.Keys <= old(pc.rc.cache.Keys)
      ensures pageOne.Some? ==> Placeable(pageOne.value) && pc.Content(pageOne.value) == old(pc.Content(pageOne.value))
      ensures forall n :: Within(old(pc.rc.cache), old(pc.file), n) ==> Within(pc.rc.cache, pc.file, n)
    {
      if pageOne.Some? {
        assert HeldBy(items, pageOne, pageOne.value) > 0;
      }
      for i := 0 to |order|
        invariant pc.Valid() && Distinct(items)
        invariant forall x :: x in items <==> x in order[i..]
        invariant Covers(items, pageOne, pc.rc.references)
        invariant pc.rc.cache.Keys <= old(pc.rc.cache.Keys)
        invariant pageOne.Some? ==> Placeable(pageOne.value) && pc.Content(pageOne.value) == old(pc.Content(pageOne.value))
        invariant forall n :: Within(old(pc.rc.cache), old(pc.file), n) ==> Within(pc.rc.cache, pc.file, n)
      {
        var k := order[i];
        assert order[i..] == [k] + order[i + 1..];
        CoversDropItem(items, pageOne, pc.rc.references, k);
        if pageOne == Some(UidPage(k)) {
          PinsMember(items, k);
          assert HeldBy(items, pageOne, UidPage(k)) >= 2;
        }
        items := Without(items, k);
        var _ := pc.Release(UidPage(k));
      }
      // no uid is left listed; every page reference the items held is given back
      items := [];
    }

    /**
     * The rest of `close`: the marker page is stamped with the close marker
     * and released, then the page cache is closed in the order `pageHash`
     * lists its pages; the stamped page ends up in the file.
     */
    method CloseMarker(pageHash: seq<int>) returns (res: Outcome)
      requires pc.Valid() && pageOne.Some? && Covers([], pageOne, pc.rc.references)
      requires Distinct(pageHash) && forall k :: k in pc.rc.cache ==> k in pageHash
      modifies pc`file, pc.rc, this`pageOne
      ensures var n := old(pageOne).value;
        && res == Pass && pageOne == None && pc.rc.cache == map[] && Placeable(n)
        && ReadAt(pc.file, PageOffset(n), PAGE_SIZE) == SetVcCloseRaw(old(pc.Content(n)))
      ensures forall n :: Within(old(pc.rc.cache), old(pc.file), n) ==> Within(pc.rc.cache, pc.file, n)
    {
      var n := pageOne.value;
      StampMarker();
      pageOne := None;
      ghost var f1, c1 := pc.file, pc.rc.cache;
      var evictOrder := Present(pageHash, pc.rc.cache);
      var evicted := pc.Close(evictOrder);
      CloseKeepsPage(f1, c1, evictOrder, evicted, n, SetVcCloseRaw(old(pc.Content(n))));
      res := Pass;
    }

    /**
     * `setVcClose(pageOne)` then `pageOne.release()`: the marker page's
     * buffer gets the close marker and is marked dirty; if that was its last
     * reference it is evicted and so written to the file.
     */
    method StampMarker()
      requires pc.Valid() && pageOne.Some? && Covers([], pageOne, pc.rc.references)
      modifies pc`file, pc.rc
      ensures pc.Valid() && pc.rc.cache.Keys <= old(pc.rc.cache.Keys) && Placeable(pageOne.value)
      ensures var n := pageOne.value;
        if n in pc.rc.cache then pc.rc.cache[n].data == SetVcCloseRaw(old(pc.Content(n))) && pc.rc.cache[n].dirty
        else ReadAt(pc.file, PageOffset(n), PAGE_SIZE) == SetVcCloseRaw(old(pc.Content(n)))
      ensures forall n :: Within(old(pc.rc.cache), old(pc.file), n) ==> Within(pc.rc.cache, pc.file, n)
    {
      var n := pageOne.value;
      assert HeldBy([], pageOne, n) > 0;
      var p := SetVcClose(pc.rc.cache[n]);
      pc.UpdatePage(p);
      ghost var f0 := pc.file;
      var _ := pc.Release(n);
      if n !in pc.rc.cache {
        ReadAfterWrite(f0, PageOffset(n), p.data);
      }
    }
  }

  /** An index with every bucket empty, as a new `PageIndex` starts. */
  function NoEntries(n: nat): (r: seq<seq<PageInfo>>)
    ensures |r| == n && forall i :: 0 <= i < n ==> r[i] == []
  {
    seq(n, _ => [])
  }

  /** The survey reads pages 2 on only: two states that agree on those pages survey alike. */
  lemma {:induction false} SurveySame(px: PageX, c1: map<int, Page>, f1: seq<byte>, c2: map<int, Page>, f2: seq<byte>, n: nat)
    requires forall q :: Placeable(q) && q >= 2 ==> View(c1, f1, q) == View(c2, f2, q)
    ensures Survey(px, c1, f1, n) == Survey(px, c2, f2, n)
  {
    forall k | 0 <= k < n
      ensures Survey(px, c1, f1, n)[k] == Survey(px, c2, f2, n)[k]
    {
      assert PageBytes(c1, f1, k + 2) == PageBytes(c2, f2, k + 2);
    }
  }

  /** A file of at most one page counts at most one page, so a reopen surveys none. */
  lemma {:induction false} ClosedOnePage(f: seq<byte>)
    requires |f| <= PAGE_SIZE
    ensures 0 <= Wrap32(|f| / PAGE_SIZE) <= 1
  {
    Wrap32Id(|f| / PAGE_SIZE);
  }

  /** Pages fileable as the file `f0` reads are fileable over pages that read as `f0`. */
  lemma {:induction false} FileableUncached(px: PageX, cache: map<int, Page>, f: seq<byte>, f0: seq<byte>, pages: int)
    requires forall q {:trigger View(cache, f, q)} :: Placeable(q) ==> View(cache, f, q) == ReadAt(f0, PageOffset(q), PAGE_SIZE)
    ensures Fileable(px, map[], f0, pages) ==> Fileable(px, cache, f, pages)
    decreases pages
  {
    if pages >= 2 {
      FileableUncached(px, cache, f, f0, pages - 1);
      assert PageBytes(cache, f, pages) == PageBytes(map[], f0, pages);
    }
  }

  // ---------------------------------------------------------------
  // Creating, opening and closing a store

  /**
   * `DataManager.create`: a page cache over a new, empty page file with the
   * page budget `memory` gives, a new log, and page 1 made with the open
   * marker `rnd` and flushed. Creating the files is not modelled.
   */
  method Create(memory: int, px: PageX, rnd: seq<byte>) returns (r: Result<DataManagerImpl>)
    requires IsInt64(memory) && Sound(px) && |rnd| == LEN_VC
    ensures r.Err? <==> MaxResourceOf(memory) < MEM_MIN_LIM
    ensures r.Err? ==> r.error == MemTooSmall
    ensures r.Ok? ==>
      && var d := r.value;
      && fresh(d) && fresh(d.rc) && fresh(d.pc) && fresh(d.pc.rc) && fresh(d.lg) && d.Valid()
      && d.items == [] && d.rc.cache == map[] && d.pageOne == Some(1)
      && d.pc.pageNumbers == 1 && d.pc.rc.cache.Keys <= {1} && Placeable(1)
      && d.pc.Content(1) == InitRaw(rnd) && ReadAt(d.pc.file, PageOffset(1), PAGE_SIZE) == InitRaw(rnd)
      && |d.pc.file| == PAGE_SIZE && d.lg.file == Logger.LogFile([])
  {
    var c := NewPageCache(MaxResourceOf(memory), []);
    if c.Err? {
      return Err(c.error);
    }
    var lg := new Logger.LoggerImpl.Create();
    var dm := new DataManagerImpl(c.value, lg, px);
    Wrap32Id(0);
    dm.FirstPageOne(rnd);
    r := Ok(dm);
  }

  /**
   * What `recover` leaves behind when the log `logs` is replayed against
   * the ledger `tmf` and the page file `pageFile`: the page count is the
   * highest page the log names, the ledger `tmfAfter` has every undone
   * transaction aborted, and every page but page 1 reads, in `cache` over
   * `file`, as the cut page file with the redo patches and then the undo
   * patches applied.
   */
  ghost predicate RecoveredFrom(px: PageX, hash: seq<int>, tmf: seq<byte>, logs: seq<seq<byte>>, pageFile: seq<byte>,
                                tmfAfter: seq<byte>, pageNumbers: int, cache: map<int, Page>, file: seq<byte>)
  {
    && Sound(px)
    && Recovery.MaxPgNo(logs).Ok?
    && var top := Recovery.Top(Recovery.MaxPgNo(logs).value);
    && pageNumbers == top && Recovery.CutFits(top)
    && Recovery.RedoPlan(tmf, logs).Ok?
    && Recovery.Collect(tmf, logs).Ok?
    && var g := Recovery.Collect(tmf, logs).value;
    && var order := Recovery.IterOrder(hash, g);
    && Recovery.PatchesOf(Recovery.UndoOrder(order, g.logs), Recovery.Undo).Ok?
    && tmfAfter == Recovery.AbortAll(tmf, order)
    && var patches := Recovery.RedoPlan(tmf, logs).value + Recovery.PatchesOf(Recovery.UndoOrder(order, g.logs), Recovery.Undo).value;
    && forall q {:trigger PatchedPage(px, patches, pageFile, top, cache, file, q)} :: Placeable(q) && q != 1 ==> PatchedPage(px, patches, pageFile, top, cache, file, q)
  }

  /** Page `q` of `cache` over `file` is page `q` of the page file cut after page `top`, with `patches` applied. */
  ghost predicate PatchedPage(px: PageX, patches: seq<Recovery.Patch>, pageFile: seq<byte>, top: int, cache: map<int, Page>, file: seq<byte>, q: int)
    requires Sound(px) && Recovery.CutFits(top) && Placeable(q)
  {
    View(cache, file, q) == Recovery.ApplyAt(px, patches, q, Recovery.TruncatedView(map[], pageFile, top, q))
  }

  /**
   * What `create` and `open` share: a page cache over the page file
   * `pageFile` with the page budget `memory` gives, and a data manager over
   * it and the logger `lg`, with nothing cached and an empty page index.
   */
  method Assemble(memory: int, px: PageX, pageFile: seq<byte>, lg: Logger.LoggerImpl) returns (r: Result<DataManagerImpl>)
    requires IsInt64(memory) && Sound(px) && lg.Valid()
    ensures r.Err? <==> MaxResourceOf(memory) < MEM_MIN_LIM
    ensures r.Err? ==> r.error == MemTooSmall
    ensures r.Ok? ==>
      && var d := r.value;
      && fresh(d) && fresh(d.rc) && fresh(d.pc) && fresh(d.pc.rc) && fresh(d.pidx) && fresh(d.pidx.pageInfos)
      && d.Valid() && d.lg == lg && d.items == [] && d.rc.cache == map[] && d.pageOne == None && d.px == px
      && d.pc.rc.cache == map[] && d.pc.rc.count == 0 && d.pc.rc.maxResource == MaxResourceOf(memory)
      && d.pc.file == pageFile && d.pc.pageNumbers == Wrap32(|pageFile| / PAGE_SIZE)
      && d.pidx.pageInfos[..] == NoEntries(d.pidx.pageInfos.Length)
  {
    var c := NewPageCache(MaxResourceOf(memory), pageFile);
    if c.Err? {
      return Err(c.error);
    }
    var dm := new DataManagerImpl(c.value, lg, px);
    assert dm.pidx.pageInfos[..] == NoEntries(dm.pidx.pageInfos.Length);
    r := Ok(dm);
  }

  /**
   * `DataManager.open` over the page file `pageFile` and the log file
   * `logFile`: page 1 is fetched and its marker checked, and a failed
   * check runs recovery (`hash` being the undo pass's iteration order).
   * The page index is then filled from the pages as recovery left them,
   * and page 1 gets the new open marker `rnd` and is flushed. `recovered`
   * says whether recovery ran; `cacheR` over `fileR` are the pages as the
   * check or the recovery left them, which the fill keeps but for page 1.
   */
  method Open(memory: int, tm: Ledger.LedgerImpl, px: PageX, pageFile: seq<byte>, logFile: seq<byte>, hash: seq<int>, rnd: seq<byte>)
    returns (r: Result<DataManagerImpl>, ghost recovered: bool, ghost cacheR: map<int, Page>, ghost fileR: seq<byte>)
    requires IsInt64(memory) && Sound(px) && |rnd| == LEN_VC
    modifies tm`file
    ensures MaxResourceOf(memory) < MEM_MIN_LIM ==> r == Err(MemTooSmall)
    ensures r.Ok? ==>
      && var d := r.value;
      && fresh(d) && fresh(d.rc) && fresh(d.pc) && fresh(d.pc.rc) && fresh(d.lg) && d.Valid()
      && d.items == [] && d.pageOne == Some(1) && Placeable(1)
      && (recovered <==> !CheckVcRaw(ReadAt(pageFile, PageOffset(1), PAGE_SIZE)))
      && d.pc.Content(1)[OF_VC..OF_VC + LEN_VC] == rnd
      && ReadAt(d.pc.file, PageOffset(1), PAGE_SIZE) == d.pc.Content(1)
      && d.IndexFilled(cacheR, fileR)
      && forall q {:trigger d.pc.Content(q)} :: Placeable(q) && q != 1 ==> d.pc.Content(q) == View(cacheR, fileR, q)
    ensures r.Ok? && !recovered ==>
      && var d := r.value;
      && tm.file == old(tm.file) && d.pc.pageNumbers == Wrap32(|pageFile| / PAGE_SIZE)
      && d.pc.Content(1) == SetVcOpenRaw(ReadAt(pageFile, PageOffset(1), PAGE_SIZE), rnd)
      && forall q {:trigger View(cacheR, fileR, q)} :: Placeable(q) ==> View(cacheR, fileR, q) == ReadAt(pageFile, PageOffset(q), PAGE_SIZE)
    ensures r.Ok? && recovered ==>
      && var d := r.value;
      && Recovery.LogOf(d.lg.file, d.lg.fileSize).Ok?
      && RecoveredFrom(px, hash, old(tm.file), Recovery.LogOf(d.lg.file, d.lg.fileSize).value, pageFile,
                       tm.file, d.pc.pageNumbers, cacheR, fileR)
    ensures var pages := Wrap32(|pageFile| / PAGE_SIZE);
      MaxResourceOf(memory) >= MEM_MIN_LIM && Logger.Check(logFile).Ok? && CheckVcRaw(ReadAt(pageFile, PageOffset(1), PAGE_SIZE))
      && Fileable(px, map[], pageFile, pages)
      ==> r.Ok? && !recovered
  {
    var lg := new Logger.LoggerImpl.Open(logFile);
    var a := Assemble(memory, px, pageFile, lg);
    if a.Err? {
      return Err(a.error), false, map[], [];
    }
    var dm := a.value;
    var init := lg.Init();
    if init.Fail? {
      return Err(init.error), false, map[], [];
    }
    var res;
    res, recovered, cacheR, fileR := dm.OpenStore(tm, hash, rnd);
    if res.Fail? {
      return Err(res.error), recovered, cacheR, fileR;
    }
    r := Ok(dm);
  }

  /**
   * A store created, closed and opened again: the close marker the close
   * stamped makes the open skip recovery, so the ledger is untouched and
   * page 1 holds the new open marker over the closed page.
   */
  method CreateCloseOpen(memory: int, tm: Ledger.LedgerImpl, px: PageX, rnd1: seq<byte>, rnd2: seq<byte>, hash: seq<int>)
    returns (r: Result<DataManagerImpl>)
    requires IsInt64(memory) && Sound(px) && |rnd1| == LEN_VC && |rnd2| == LEN_VC
    modifies tm`file
    ensures MaxResourceOf(memory) < MEM_MIN_LIM ==> r == Err(MemTooSmall)
    ensures MaxResourceOf(memory) >= MEM_MIN_LIM ==> r.Ok?
    ensures r.Ok? ==> tm.file == old(tm.file) && Placeable(1)
    ensures r.Ok? ==> r.value.pc.Content(1) == SetVcOpenRaw(SetVcCloseRaw(InitRaw(rnd1)), rnd2)
  {
    var c := Create(memory, px, rnd1);
    if c.Err? {
      return Err(c.error);
    }
    var d := c.value;
    assert Within(d.pc.rc.cache, d.pc.file, 1);
    var closed := d.Close([], [1]);
    CheckVcAfterClose(InitRaw(rnd1));
    // the closed file holds page 1 alone, so the reopen surveys no page
    assert Within(d.pc.rc.cache, d.pc.file, 1);
    ClosedOnePage(d.pc.file);
    Logger.CheckLogFile([]);
    var o, recovered, cacheR, fileR := Open(memory, tm, px, d.pc.file, d.lg.file, hash, rnd2);
    r := o;
  }
}
