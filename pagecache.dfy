/**
 * The page cache: the data file cut into 8 KiB pages numbered from 1, read
 * through the reference-counted cache and written back when a dirty page is
 * evicted or a page is flushed.
 */
module PageCache {
  import opened Wrappers
  import opened Bytes
  import opened Pages
  import opened Cache

  /** The fewest pages a page cache may hold. */
  const MEM_MIN_LIM: int := 10

  /** The page budget `create`/`open` derive from a memory size in bytes. */
  function MaxResourceOf(memory: int): (r: int)
    requires IsInt64(memory)
    ensures IsInt32(r)
  {
    Wrap32(JavaDiv(memory, PAGE_SIZE))
  }

  /** `pageOffset`: `pageNo - 1` is an `int` subtraction, the product a `long` one. */
  function PageOffset(pageNo: int): (r: int)
    requires IsInt32(pageNo)
    ensures r % PAGE_SIZE == 0
  {
    Wrap32(pageNo - 1) * PAGE_SIZE
  }

  /** Pages are numbered from 1: page 1 starts the file and page `p` starts `p - 1` pages in. */
  lemma {:induction false} PageOffsetOfNumber(p: int)
    requires 1 <= p < TWO_31
    ensures PageOffset(p) == (p - 1) * PAGE_SIZE && PageOffset(p) >= 0
  {
    WrapModId(p - 1, TWO_32);
  }

  /** Page numbers 0 and below (except the one the subtraction wraps) have no place in the file. */
  lemma {:induction false} PageOffsetNonPositive(p: int)
    requires -TWO_31 < p <= 0
    ensures PageOffset(p) < 0
  {
    WrapModId(p - 1, TWO_32);
  }

  /** Two pages with different numbers and a place in the file do not overlap. */
  lemma {:induction false} PagesDisjoint(p: int, q: int)
    requires IsInt32(p) && IsInt32(q) && p != q
    requires PageOffset(p) >= 0 && PageOffset(q) >= 0
    ensures PageOffset(p) + PAGE_SIZE <= PageOffset(q) || PageOffset(q) + PAGE_SIZE <= PageOffset(p)
  {
    var a, b := Wrap32(p - 1), Wrap32(q - 1);
    if p > -TWO_31 {
      WrapModId(p - 1, TWO_32);
    } else {
      WrapModCongr(p - 1, TWO_32);
      ModUnique(p - 1 - a, TWO_32, (p - 1 - a) / TWO_32, 0);
    }
    if q > -TWO_31 {
      WrapModId(q - 1, TWO_32);
    } else {
      WrapModCongr(q - 1, TWO_32);
      ModUnique(q - 1 - b, TWO_32, (q - 1 - b) / TWO_32, 0);
    }
    assert a != b;
  }

  /** `getForCache`: the 8 KiB at the page's offset; a negative offset makes the channel refuse the position. */
  function LoadPage(f: seq<byte>, pageNo: int): (r: Result<Page>)
    requires IsInt32(pageNo)
    ensures r.Ok? <==> PageOffset(pageNo) >= 0
    ensures r.Err? ==> r.error == IllegalArgument
    ensures r.Ok? ==> r.value.number == pageNo && |r.value.data| == PAGE_SIZE && !r.value.dirty
  {
    var offset := PageOffset(pageNo);
    if offset < 0 then Err(IllegalArgument)
    else Ok(Page(pageNo, ReadAt(f, offset, PAGE_SIZE), false))
  }

  /** The loader the cache runs for a key: the key is cast to `int` first. */
  function GetForCache(f: seq<byte>, key: int): Result<Page>
  {
    LoadPage(f, Wrap32(key))
  }

  /** `flush`: the page's buffer written at its offset. */
  function FlushFile(f: seq<byte>, p: Page): (r: Result<seq<byte>>)
    requires IsInt32(p.number)
    ensures r.Ok? <==> PageOffset(p.number) >= 0
    ensures r.Err? ==> r.error == IllegalArgument
  {
    var offset := PageOffset(p.number);
    if offset < 0 then Err(IllegalArgument) else Ok(WriteAt(f, offset, p.data))
  }

  /** A flushed page loads back as it was written. */
  lemma {:induction false} LoadAfterFlush(f: seq<byte>, p: Page)
    requires IsInt32(p.number) && |p.data| == PAGE_SIZE && PageOffset(p.number) >= 0
    ensures LoadPage(FlushFile(f, p).value, p.number) == Ok(p.(dirty := false))
  {
    ReadAfterWrite(f, PageOffset(p.number), p.data);
  }

  /** Writing one region of a file leaves every region apart from it as it reads. */
  lemma {:induction false} ReadElsewhere(f: seq<byte>, pos: nat, d: seq<byte>, q: nat, n: nat)
    requires q + n <= pos || pos + |d| <= q
    ensures ReadAt(WriteAt(f, pos, d), q, n) == ReadAt(f, q, n)
  {
    var g := WriteAt(f, pos, d);
    forall i | 0 <= i < n
      ensures ReadAt(g, q, n)[i] == ReadAt(f, q, n)[i]
    {
    }
  }

  /** `releaseForCache`: an evicted page goes back to the file only if it is dirty. */
  function FlushIfDirty(f: seq<byte>, p: Page): seq<byte>
  {
    // a cached page always has a place in the file
    if p.dirty && IsInt32(p.number) && PageOffset(p.number) >= 0 then WriteAt(f, PageOffset(p.number), p.data)
    else f
  }

  /** The file after the eviction hook ran on `ps`, in order. */
  function FlushAll(f: seq<byte>, ps: seq<Page>): seq<byte>
  {
    if ps == [] then f else FlushIfDirty(FlushAll(f, ps[..|ps| - 1]), ps[|ps| - 1])
  }

  /** A page number with a place in the file. */
  predicate Placeable(p: int)
  {
    IsInt32(p) && PageOffset(p) >= 0
  }

  /** A page fit to be cached: it has its own number, a full buffer and a place in the file. */
  ghost predicate Placed(p: Page)
  {
    IsInt32(p.number) && |p.data| == PAGE_SIZE && PageOffset(p.number) >= 0
  }

  /**
   * After evicting distinct pages, every dirty one among them can be loaded
   * back with the contents it was evicted with.
   */
  lemma {:induction false} FlushAllDurable(f: seq<byte>, ps: seq<Page>, k: nat)
    requires forall i :: 0 <= i < |ps| ==> Placed(ps[i])
    requires forall i, j :: 0 <= i < j < |ps| ==> ps[i].number != ps[j].number
    requires k < |ps| && ps[k].dirty
    ensures Placed(ps[k]) && LoadPage(FlushAll(f, ps), ps[k].number) == Ok(ps[k].(dirty := false))
  {
    var last := |ps| - 1;
    var pre := ps[..last];
    var g := FlushAll(f, pre);
    if k == last {
      LoadAfterFlush(g, ps[k]);
    } else {
      FlushAllDurable(f, pre, k);
      var p, q := ps[k], ps[last];
      if q.dirty {
        PagesDisjoint(p.number, q.number);
        ReadElsewhere(g, PageOffset(q.number), q.data, PageOffset(p.number), PAGE_SIZE);
      }
    }
  }

  /** `setLength`: the file cut or zero-extended to `n` bytes. */
  function SetLength(f: seq<byte>, n: nat): (r: seq<byte>)
    ensures |r| == n
    ensures forall i :: 0 <= i < n ==> r[i] == if i < |f| then f[i] else 0
  {
    if n <= |f| then f[..n] else f + Zeros(n - |f|)
  }

  /** The bytes of page `p` given the cached pages and the file: the cached buffer, or else the file's. */
  ghost function View(cache: map<int, Page>, f: seq<byte>, p: int): seq<byte>
    requires Placeable(p)
  {
    if p in cache then cache[p].data else ReadAt(f, PageOffset(p), PAGE_SIZE)
  }

  /**
   * The file and every cached page lie within the first `n` pages: writing
   * any cached page back cannot make the file longer than `n` pages.
   */
  ghost predicate Within(cache: map<int, Page>, f: seq<byte>, n: int)
  {
    |f| <= n * PAGE_SIZE && forall k :: k in cache ==> 1 <= k <= n
  }

  /** Writing back a page among the first `n` keeps a file of at most `n` pages within them. */
  lemma {:induction false} FlushWithin(f: seq<byte>, p: Page, n: int)
    requires |f| <= n * PAGE_SIZE && 1 <= p.number <= n && |p.data| == PAGE_SIZE
    ensures |FlushIfDirty(f, p)| <= n * PAGE_SIZE
  {
    if p.dirty && IsInt32(p.number) {
      PageOffsetOfNumber(p.number);
    }
  }

  /** The same for the pages the eviction hook writes back one after the other. */
  lemma {:induction false} FlushAllWithin(f: seq<byte>, ps: seq<Page>, n: int)
    requires |f| <= n * PAGE_SIZE
    requires forall i :: 0 <= i < |ps| ==> 1 <= ps[i].number <= n && |ps[i].data| == PAGE_SIZE
    ensures |FlushAll(f, ps)| <= n * PAGE_SIZE
  {
    if ps != [] {
      FlushAllWithin(f, ps[..|ps| - 1], n);
      FlushWithin(FlushAll(f, ps[..|ps| - 1]), ps[|ps| - 1], n);
    }
  }

  /**
   * What `newPage` leaves behind, on values: a new page that was given a
   * place in the file is placeable and reads back its initial buffer, and
   * the first page of an empty file is page 1.
   */
  lemma {:induction false} NewPageResult(n0: int, r: Result<int>, f0: seq<byte>, f1: seq<byte>, d: seq<byte>)
    requires IsInt32(n0)
    requires r.Ok? <==> PageOffset(Wrap32(n0 + 1)) >= 0
    requires r.Ok? ==> r.value == Wrap32(n0 + 1) && f1 == WriteAt(f0, PageOffset(r.value), d)
    ensures r.Ok? ==> Placeable(r.value) && ReadAt(f1, PageOffset(r.value), |d|) == d
    ensures n0 == 0 ==> r == Ok(1)
  {
    if n0 == 0 {
      Wrap32Id(1);
      PageOffsetOfNumber(1);
    }
    if r.Ok? {
      ReadAfterWrite(f0, PageOffset(r.value), d);
    }
  }

  /** `PageCacheImpl`: the page file and the pages cached from it. */
  class PageCacheImpl {
    const rc: RefCache<Page>
    var file: seq<byte>
    var pageNumbers: Int32

    ghost predicate Valid()
      reads rc
    {
      && rc.Valid() && rc.getting == {}
      && forall k :: k in rc.cache ==> rc.cache[k].number == k && Placed(rc.cache[k])
    }

    /** The bytes of page `p` as the engine sees them. */
    ghost function Content(p: int): seq<byte>
      reads this, rc
      requires Placeable(p)
    {
      View(rc.cache, file, p)
    }

    constructor (maxResource: int, f: seq<byte>)
      ensures Valid() && fresh(rc)
      ensures rc.maxResource == maxResource && rc.cache == map[] && rc.references == map[] && rc.count == 0
      ensures file == f && pageNumbers == Wrap32(|f| / PAGE_SIZE)
    {
      rc := new RefCache(maxResource);
      file := f;
      pageNumbers := Wrap32(|f| / PAGE_SIZE);
    }

    /** `getPage`: a cached page with one more reference, or the page loaded from the file. */
    method GetPage(pageNo: int) returns (r: Result<Page>)
      requires Valid() && IsInt32(pageNo)
      modifies rc
      ensures Valid() && rc.getting == old(rc.getting)
      ensures pageNo in old(rc.cache) ==>
        && r == Ok(old(rc.cache)[pageNo]) && rc.cache == old(rc.cache)
        && rc.references == old(rc.references)[pageNo := old(rc.references)[pageNo] + 1] && rc.count == old(rc.count)
      ensures pageNo !in old(rc.cache) && rc.maxResource > 0 && old(rc.count) == rc.maxResource ==>
        r == Err(CacheFull) && rc.cache == old(rc.cache) && rc.references == old(rc.references)
      ensures pageNo !in old(rc.cache) && !(rc.maxResource > 0 && old(rc.count) == rc.maxResource) ==>
        && r == LoadPage(file, pageNo)
        && (r.Ok? ==> rc.cache == old(rc.cache)[pageNo := r.value] && rc.references == old(rc.references)[pageNo := 1])
        && (r.Err? ==> rc.cache == old(rc.cache) && rc.references == old(rc.references))
      ensures forall q :: Placeable(q) ==> Content(q) == old(Content(q))
      ensures r.Ok? ==> rc.references == Bump(old(rc.references), pageNo)
      ensures r.Err? ==> rc.references == old(rc.references)
      ensures pageNo !in old(rc.cache) && r.Ok? ==> rc.count == old(rc.count) + 1
    {
      var f := file;
      WrapModId(pageNo, TWO_32);
      r := rc.Get(pageNo, k => GetForCache(f, k));
    }

    /** A holder of a cached page changed its buffer or its dirty flag. */
    method UpdatePage(p: Page)
      requires Valid() && p.number in rc.cache && |p.data| == PAGE_SIZE
      modifies rc`cache
      ensures Valid() && rc.cache == old(rc.cache)[p.number := p]
      ensures Content(p.number) == p.data
      ensures forall q :: Placeable(q) && q != p.number ==> Content(q) == old(Content(q))
    {
      rc.Update(p.number, p);
    }

    /** `release`: the last reference evicts the page, which goes back to the file if dirty. */
    method Release(pageNo: int) returns (res: Outcome)
      requires Valid()
      modifies this`file, rc`cache, rc`references, rc`count
      ensures Valid() && pageNumbers == old(pageNumbers)
      ensures pageNo !in old(rc.cache) ==>
        res == Fail(NullPointer) && file == old(file) && rc.cache == old(rc.cache)
      ensures pageNo in old(rc.cache) ==> res == Pass
      ensures pageNo in old(rc.cache) && old(rc.references)[pageNo] == 1 ==>
        && rc.cache == old(rc.cache) - {pageNo} && rc.references == old(rc.references) - {pageNo}
        && file == FlushIfDirty(old(file), old(rc.cache)[pageNo])
      ensures pageNo in old(rc.cache) && old(rc.references)[pageNo] > 1 ==>
        && rc.cache == old(rc.cache) && rc.references == old(rc.references)[pageNo := old(rc.references)[pageNo] - 1]
        && file == old(file)
      ensures pageNo in old(rc.cache) && (old(rc.cache)[pageNo].dirty || old(rc.references)[pageNo] > 1) ==>
        forall q :: Placeable(q) ==> Content(q) == old(Content(q))
      ensures forall q :: Placeable(q) && q != pageNo ==> Content(q) == old(Content(q))
      ensures pageNo in old(rc.cache) ==> rc.references == Drop(old(rc.references), pageNo)
      ensures forall n :: Within(old(rc.cache), old(file), n) ==> Within(rc.cache, file, n)
    {
      ghost var f0 := file;
      var r := rc.Release(pageNo);
      if r.Err? {
        return Fail(r.error);
      }
      if r.value.Some? {
        var p := r.value.value;
        file := FlushIfDirty(file, p);
        forall n | Within(old(rc.cache), f0, n)
          ensures Within(rc.cache, file, n)
        {
          FlushWithin(f0, p, n);
        }
        forall q | Placeable(q) && q != pageNo && p.dirty
          ensures Content(q) == old(Content(q))
        {
          PagesDisjoint(q, pageNo);
          ReadElsewhere(f0, PageOffset(pageNo), p.data, PageOffset(q), PAGE_SIZE);
        }
        if p.dirty {
          forall q | Placeable(q)
            ensures Content(q) == old(Content(q))
          {
            if q == pageNo {
              ReadAfterWrite(f0, PageOffset(q), p.data);
            } else if q !in rc.cache {
              PagesDisjoint(q, pageNo);
              ReadElsewhere(f0, PageOffset(pageNo), p.data, PageOffset(q), PAGE_SIZE);
            }
          }
        }
      }
      res := Pass;
    }

    /** `newPage`: the page count grows by one and the initial buffer is written straight to the file. */
    method NewPage(initData: seq<byte>) returns (r: Result<int>)
      requires Valid()
      modifies this`file, this`pageNumbers
      ensures Valid()
      ensures pageNumbers == Wrap32(old(pageNumbers) + 1)
      ensures r.Ok? <==> PageOffset(pageNumbers) >= 0
      ensures r.Ok? ==> r.value == pageNumbers && file == WriteAt(old(file), PageOffset(pageNumbers), initData)
      ensures r.Err? ==> r.error == IllegalArgument && file == old(file)
    {
      pageNumbers := Wrap32(pageNumbers + 1);
      var f :- FlushFile(file, Page(pageNumbers, initData, false));
      file := f;
      r := Ok(pageNumbers);
    }

    /** `flushPage`: the page's buffer written at its offset, dirty or not. */
    method FlushPage(p: Page) returns (res: Outcome)
      requires IsInt32(p.number)
      modifies this`file
      ensures res.Pass? <==> PageOffset(p.number) >= 0
      ensures res.Pass? ==> file == WriteAt(old(file), PageOffset(p.number), p.data)
      ensures res.Fail? ==> file == old(file)
    {
      var f := FlushFile(file, p);
      if f.Err? {
        return Fail(f.error);
      }
      file := f.value;
      res := Pass;
    }

    /** `truncateByPageNo`: the file is cut (or extended) to `maxPageNo` pages. */
    method TruncateByPageNo(maxPageNo: int) returns (res: Outcome)
      requires IsInt32(maxPageNo)
      modifies this`file, this`pageNumbers
      ensures var size := PageOffset(Wrap32(maxPageNo + 1));
        && (res.Pass? <==> size >= 0)
        && (res.Pass? ==> file == SetLength(old(file), size) && pageNumbers == maxPageNo)
        && (res.Fail? ==> file == old(file) && pageNumbers == old(pageNumbers))
      ensures res.Pass? ==> forall q :: Placeable(q) ==>
        Content(q) == View(rc.cache, SetLength(old(file), PageOffset(Wrap32(maxPageNo + 1))), q)
    {
      var size := PageOffset(Wrap32(maxPageNo + 1));
      if size < 0 {
        return Fail(IllegalArgument);
      }
      file := SetLength(file, size);
      pageNumbers := maxPageNo;
      res := Pass;
    }

    method GetPageNumber() returns (n: int)
      ensures n == pageNumbers
    {
      n := pageNumbers;
    }

    /**
     * `close` with the evict-all the cache intends: every cached page, in
     * hash order `order`, is handed to the eviction hook.
     */
    method Close(order: seq<int>) returns (evicted: seq<Page>)
      requires Valid()
      requires forall k :: k in rc.cache ==> k in order
      requires forall i :: 0 <= i < |order| ==> order[i] in rc.cache
      requires forall i, j :: 0 <= i < j < |order| ==> order[i] != order[j]
      modifies this`file, rc`cache, rc`references
      ensures rc.cache == map[]
      ensures |evicted| == |order|
      ensures forall i :: 0 <= i < |order| ==> order[i] in old(rc.cache) && evicted[i] == old(rc.cache)[order[i]]
      ensures file == FlushAll(old(file), evicted)
      ensures forall n :: Within(old(rc.cache), old(file), n) ==> Within(rc.cache, file, n)
    {
      evicted := rc.CloseAll(order);
      var f := file;
      var i := 0;
      while i < |evicted|
        invariant 0 <= i <= |evicted|
        invariant f == FlushAll(file, evicted[..i])
      {
        assert evicted[..i + 1][..i] == evicted[..i];
        f := FlushIfDirty(f, evicted[i]);
        i := i + 1;
      }
      assert evicted[..i] == evicted;
      file := f;
      forall n | Within(old(rc.cache), old(file), n)
        ensures Within(rc.cache, file, n)
      {
        FlushAllWithin(old(file), evicted, n);
      }
      assert rc.cache.Keys == {} by {
        forall k
          ensures k !in rc.cache.Keys
        {
        }
      }
    }
  }

  /** The `PageCacheImpl` constructor: fewer than ten pages of budget is fatal. */
  method NewPageCache(maxResource: int, f: seq<byte>) returns (r: Result<PageCacheImpl>)
    ensures r.Err? <==> maxResource < MEM_MIN_LIM
    ensures r.Err? ==> r.error == MemTooSmall
    ensures r.Ok? ==>
      && fresh(r.value) && fresh(r.value.rc) && r.value.Valid()
      && r.value.rc.maxResource == maxResource && r.value.rc.cache == map[] && r.value.rc.count == 0
      && r.value.file == f && r.value.pageNumbers == Wrap32(|f| / PAGE_SIZE)
  {
    if maxResource < MEM_MIN_LIM {
      return Err(MemTooSmall);
    }
    var pc := new PageCacheImpl(maxResource, f);
    r := Ok(pc);
  }

  /** `Close` leaves every page that was dirty in the cache durable in the file. */
  lemma {:induction false} CloseDurable(f: seq<byte>, evicted: seq<Page>, k: nat)
    requires forall i :: 0 <= i < |evicted| ==> Placed(evicted[i])
    requires forall i, j :: 0 <= i < j < |evicted| ==> evicted[i].number != evicted[j].number
    requires k < |evicted| && evicted[k].dirty
    ensures Placed(evicted[k])
    ensures ReadAt(FlushAll(f, evicted), PageOffset(evicted[k].number), PAGE_SIZE) == evicted[k].data
  {
    FlushAllDurable(f, evicted, k);
  }
}
