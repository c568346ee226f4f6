/**
 * The free-space index: the pages with room for inserts, filed in 41
 * buckets by free space (bucket `i` holds free space `i * 204` up to the
 * next multiple). A page taken out by `select` is checked out to its
 * inserter until it is added again.
 */
module PageIndex {
  import opened Wrappers
  import opened Bytes
  import opened Pages

  const INTERVALS_NO: int := 40
  /** The width of a bucket: 8192 / 40 = 204. */
  const THRESHOLD: int := PAGE_SIZE / INTERVALS_NO

  datatype PageInfo = PageInfo(pgNo: int, freeSpace: int)

  /** The bucket `add` files a free space under (Java `int` division). */
  function Bucket(freeSpace: int): int
  {
    JavaDiv(freeSpace, THRESHOLD)
  }

  /** The first bucket `select` looks at: one past the need's own bucket, unless that is the last. */
  function StartBucket(spaceSize: int): int
  {
    var number := Bucket(spaceSize);
    if number < INTERVALS_NO then number + 1 else number
  }

  /** The lowest non-empty bucket from `from` on, or `|b|` if there is none. */
  function FirstNonEmpty(b: seq<seq<PageInfo>>, from: int): (r: int)
    requires 0 <= from <= |b|
    ensures from <= r <= |b|
    ensures forall j :: from <= j < r ==> b[j] == []
    ensures r < |b| ==> b[r] != []
    decreases |b| - from
  {
    if from == |b| then |b| else if b[from] != [] then from else FirstNonEmpty(b, from + 1)
  }

  /**
   * A page filed in a bucket past the need's own bucket has more free space
   * than the need.
   */
  lemma {:induction false} Fits(spaceSize: int, freeSpace: int)
    requires Bucket(freeSpace) > Bucket(spaceSize)
    ensures freeSpace > spaceSize
  {
    assert THRESHOLD == 204;
    var a, b := Bucket(spaceSize), Bucket(freeSpace);
    JavaDivBounds(spaceSize, THRESHOLD);
    JavaDivBounds(freeSpace, THRESHOLD);
    assert spaceSize < a * 204 + 204;
    assert b * 204 - 204 < freeSpace;
    assert (a + 1) * 204 <= b * 204;
  }

  // ---------------------------------------------------------------
  // Checking a page out

  /** How often page `pgNo` is listed in a bucket. */
  function CountIn(s: seq<PageInfo>, pgNo: int): nat
  {
    if s == [] then 0 else (if s[0].pgNo == pgNo then 1 else 0) + CountIn(s[1..], pgNo)
  }

  /** How often page `pgNo` is listed in the whole index. */
  function Count(b: seq<seq<PageInfo>>, pgNo: int): nat
  {
    if b == [] then 0 else Count(b[..|b| - 1], pgNo) + CountIn(b[|b| - 1], pgNo)
  }

  lemma {:induction false} CountUpdate(b: seq<seq<PageInfo>>, j: nat, x: seq<PageInfo>, pgNo: int)
    requires j < |b|
    ensures Count(b[j := x], pgNo) == Count(b, pgNo) - CountIn(b[j], pgNo) + CountIn(x, pgNo)
  {
    var last := |b| - 1;
    var c := b[j := x];
    assert c[..last] == if j == last then b[..last] else b[..last][j := x];
    if j < last {
      CountUpdate(b[..last], j, x, pgNo);
    }
  }

  /**
   * Taking the head of a bucket lists its page once less; a page listed once
   * is no longer listed at all, so it cannot be checked out twice.
   */
  lemma {:induction false} TakeHead(b: seq<seq<PageInfo>>, j: nat)
    requires j < |b| && b[j] != []
    ensures Count(b[j := b[j][1..]], b[j][0].pgNo) == Count(b, b[j][0].pgNo) - 1
    ensures Count(b, b[j][0].pgNo) == 1 ==> Count(b[j := b[j][1..]], b[j][0].pgNo) == 0
  {
    CountUpdate(b, j, b[j][1..], b[j][0].pgNo);
  }

  /** Adding lists the page once more. */
  lemma {:induction false} AddOne(b: seq<seq<PageInfo>>, j: nat, info: PageInfo)
    requires j < |b|
    ensures Count(b[j := b[j] + [info]], info.pgNo) == Count(b, info.pgNo) + 1
  {
    CountUpdate(b, j, b[j] + [info], info.pgNo);
    CountInAppend(b[j], info);
  }

  lemma {:induction false} CountInAppend(s: seq<PageInfo>, info: PageInfo)
    ensures CountIn(s + [info], info.pgNo) == CountIn(s, info.pgNo) + 1
  {
    if s != [] {
      assert (s + [info])[1..] == s[1..] + [info];
      CountInAppend(s[1..], info);
    }
  }

  /** `PageIndex`. */
  class PageIndexImpl {
    const pageInfos: array<seq<PageInfo>>

    /** Every listed page sits in the bucket of its free space. */
    ghost predicate Valid()
      reads this, pageInfos
    {
      && pageInfos.Length == INTERVALS_NO + 1
      && forall i, k :: 0 <= i < pageInfos.Length && 0 <= k < |pageInfos[i]| ==> Bucket(pageInfos[i][k].freeSpace) == i && IsInt32(pageInfos[i][k].pgNo)
    }

    constructor ()
      ensures Valid() && fresh(pageInfos)
      ensures forall i :: 0 <= i < pageInfos.Length ==> pageInfos[i] == []
    {
      pageInfos := new seq<PageInfo>[INTERVALS_NO + 1](_ => []);
    }

    /** `add`: appended to the bucket of its free space; a free space past the last bucket is out of bounds. */
    method Add(pgNo: int, freeSpace: int) returns (res: Outcome)
      requires Valid() && IsInt32(pgNo)
      modifies pageInfos
      ensures Valid()
      ensures res.Pass? <==> 0 <= Bucket(freeSpace) <= INTERVALS_NO
      ensures res.Fail? ==> res.error == IndexOutOfBounds && pageInfos[..] == old(pageInfos[..])
      ensures res.Pass? ==>
        var j := Bucket(freeSpace);
        pageInfos[..] == old(pageInfos[..])[j := old(pageInfos[j]) + [PageInfo(pgNo, freeSpace)]]
    {
      var number := Bucket(freeSpace);
      if number < 0 || number > INTERVALS_NO {
        return Fail(IndexOutOfBounds);
      }
      pageInfos[number] := pageInfos[number] + [PageInfo(pgNo, freeSpace)];
      res := Pass;
    }

    /**
     * `select`: the head of the lowest non-empty bucket from the start
     * bucket on, taken out of the index; none if those buckets are all
     * empty. A need in the negative buckets indexes the array below 0.
     */
    method Select(spaceSize: int) returns (r: Result<Option<PageInfo>>)
      requires Valid()
      modifies pageInfos
      ensures Valid()
      ensures StartBucket(spaceSize) < 0 ==> r == Err(IndexOutOfBounds) && pageInfos[..] == old(pageInfos[..])
      ensures StartBucket(spaceSize) >= 0 ==>
        var from := if StartBucket(spaceSize) > pageInfos.Length then pageInfos.Length else StartBucket(spaceSize);
        var j := FirstNonEmpty(old(pageInfos[..]), from);
        && (j == pageInfos.Length ==> r == Ok(None) && pageInfos[..] == old(pageInfos[..]))
        && (j < pageInfos.Length ==>
              && r == Ok(Some(old(pageInfos[j])[0]))
              && pageInfos[..] == old(pageInfos[..])[j := old(pageInfos[j])[1..]])
      ensures r.Ok? && r.value.Some? && Bucket(spaceSize) < INTERVALS_NO ==> r.value.value.freeSpace > spaceSize
      ensures r.Ok? && r.value.Some? ==> IsInt32(r.value.value.pgNo)
    {
      var number := StartBucket(spaceSize);
      if number < 0 {
        return Err(IndexOutOfBounds);
      }
      ghost var from := if number > pageInfos.Length then pageInfos.Length else number;
      ghost var j := FirstNonEmpty(pageInfos[..], from);
      while number <= INTERVALS_NO
        invariant from <= number <= j || (number > INTERVALS_NO && j == pageInfos.Length)
        invariant pageInfos[..] == old(pageInfos[..])
        decreases INTERVALS_NO + 1 - number
      {
        if |pageInfos[number]| == 0 {
          number := number + 1;
          continue;
        }
        var info := pageInfos[number][0];
        pageInfos[number] := pageInfos[number][1..];
        if Bucket(spaceSize) < INTERVALS_NO {
          Fits(spaceSize, info.freeSpace);
        }
        return Ok(Some(info));
      }
      r := Ok(None);
    }
  }
}
