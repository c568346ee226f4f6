/**
 * Versioned entries: the records the version layer keeps in data items.
 *
 * An entry is [xmin 8B][xmax 8B][data]: the transaction that created it,
 * the transaction that deleted it (0 while nobody has), and the payload.
 * The entry lives in the data part of a data item, which starts 3 bytes
 * into the item's slot on its page.
 */
module Entries {
  import opened Wrappers
  import opened Bytes
  import opened Codec
  import opened Pages
  import opened LogRecords
  import Ledger
  import DataItems
  import Logger

  const OF_XMIN: int := 0
  const OF_XMAX: int := OF_XMIN + 8
  const OF_DATA: int := OF_XMAX + 8

  /** `wrapEntryRaw`: a new entry created by `xid`, not deleted. */
  function WrapEntryRaw(xid: int, data: seq<byte>): (r: seq<byte>)
    requires IsInt64(xid)
  {
    Pow256Values();
    Long2Byte(xid) + Zeros(8) + data
  }

  /** `getXmin` on the page buffer `raw`, for an entry whose bytes start at `s`. */
  function XminAt(raw: seq<byte>, s: int): (r: Result<int>)
    ensures r.Ok? <==> 0 <= s + OF_XMIN <= |raw|
    ensures r.Ok? ==> r.value == ParseLong(ReadAt(raw, s + OF_XMIN, 8)) && IsInt64(r.value)
  {
    var b :- CopyOfRange(raw, s + OF_XMIN, s + OF_XMAX);
    Ok(ParseLong(b))
  }

  /** `getXmax`: the 8 bytes after xmin, read the same way. */
  function XmaxAt(raw: seq<byte>, s: int): (r: Result<int>)
    ensures r.Ok? <==> 0 <= s + OF_XMAX <= |raw|
    ensures r.Ok? ==> r.value == ParseLong(ReadAt(raw, s + OF_XMAX, 8)) && IsInt64(r.value)
  {
    var b :- CopyOfRange(raw, s + OF_XMAX, s + OF_DATA);
    Ok(ParseLong(b))
  }

  /**
   * `data`: the bytes from 16 past the entry's start up to the item's end
   * `e`; an item shorter than the two headers makes the copy's allocation
   * fault.
   */
  function DataAt(raw: seq<byte>, s: int, e: int): (r: Result<seq<byte>>)
    requires 0 <= s && e <= |raw|
    ensures r.Ok? <==> s + OF_DATA <= e
    ensures r.Err? ==> r.error == NegativeArraySize
    ensures r.Ok? ==> |r.value| == e - s - OF_DATA && r.value == raw[s + OF_DATA..e]
  {
    var length := e - s - OF_DATA;
    if length < 0 then Err(NegativeArraySize) else Ok(raw[s + OF_DATA..s + OF_DATA + length])
  }

  lemma {:induction false} ZeroLong()
    ensures ParseLong(Zeros(8)) == 0
  {
    Pow256Values();
    Ledger.BeValueZeros(8);
    assert Zeros(8)[..8] == Zeros(8);
  }

  /**
   * A freshly wrapped entry read back in place: xmin is its creator, xmax
   * is 0 (nobody deleted it), and its data is the payload.
   */
  lemma {:induction false} WrapEntryFields(raw: seq<byte>, s: int, xid: int, data: seq<byte>)
    requires IsInt64(xid) && 0 <= s && s + OF_DATA + |data| <= |raw|
    requires raw[s..s + OF_DATA + |data|] == WrapEntryRaw(xid, data)
    ensures XminAt(raw, s) == Ok(xid)
    ensures XmaxAt(raw, s) == Ok(0)
    ensures DataAt(raw, s, s + OF_DATA + |data|) == Ok(data)
  {
    var w := WrapEntryRaw(xid, data);
    var n := s + OF_DATA + |data|;
    LongRoundTrip(xid, []);
    assert Long2Byte(xid) + [] == Long2Byte(xid);
    assert w[..8] == Long2Byte(xid) && w[8..16] == Zeros(8) && w[OF_DATA..] == data;
    forall k | 0 <= k < n - s
      ensures raw[s + k] == w[k]
    {
      assert raw[s..n][k] == raw[s + k];
    }
    assert ReadAt(raw, s, 8) == w[..8];
    assert ReadAt(raw, s + 8, 8) == w[8..16];
    ZeroLong();
    assert raw[s + OF_DATA..n] == w[OF_DATA..];
  }

  /**
   * Writing xmax in place sets xmax and leaves xmin and the data alone,
   * wherever the item ends.
   */
  lemma {:induction false} SpliceXmax(raw: seq<byte>, s: int, e: int, xid: int)
    requires IsInt64(xid) && 0 <= s && s + OF_DATA <= |raw| && e <= |raw|
    ensures |Long2Byte(xid)| == 8
    ensures var r := DataItems.Splice(raw, s + OF_XMAX, Long2Byte(xid));
      && XmaxAt(r, s) == Ok(xid) && XminAt(r, s) == XminAt(raw, s) && DataAt(r, s, e) == DataAt(raw, s, e)
  {
    Pow256Values();
    LongRoundTrip(xid, []);
    assert Long2Byte(xid) + [] == Long2Byte(xid);
    var r := DataItems.Splice(raw, s + OF_XMAX, Long2Byte(xid));
    assert ReadAt(r, s + OF_XMAX, 8) == Long2Byte(xid);
    assert ReadAt(r, s + OF_XMIN, 8) == ReadAt(raw, s + OF_XMIN, 8);
    if s + OF_DATA <= e {
      assert r[s + OF_DATA..e] == raw[s + OF_DATA..e];
    }
  }

  /** `Entry`: a handle on the data item that holds one entry. */
  class Entry {
    const uid: int
    const dataItem: DataItems.DataItemImpl

    constructor (uid: int, dataItem: DataItems.DataItemImpl)
      ensures this.uid == uid && this.dataItem == dataItem
    {
      this.uid := uid;
      this.dataItem := dataItem;
    }

    /** Where the entry starts on its page: the data part of the slot. */
    function Start(): int
      reads this, dataItem
    {
      dataItem.start + DataItems.OF_DATA
    }

    /** The buffer of the page the entry lies on. */
    ghost function Raw(): (r: seq<byte>)
      reads this, dataItem, dataItem.pc, dataItem.pc.rc
      requires dataItem.Within()
      ensures |r| == PAGE_SIZE
    {
      dataItem.pc.rc.cache[dataItem.pgno].data
    }

    function Xmin(): Result<int>
      reads this, dataItem, dataItem.pc, dataItem.pc.rc
      requires dataItem.Within()
    {
      XminAt(dataItem.pc.rc.cache[dataItem.pgno].data, Start())
    }

    function Xmax(): Result<int>
      reads this, dataItem, dataItem.pc, dataItem.pc.rc
      requires dataItem.Within()
    {
      XmaxAt(dataItem.pc.rc.cache[dataItem.pgno].data, Start())
    }

    function Data(): Result<seq<byte>>
      reads this, dataItem, dataItem.pc, dataItem.pc.rc
      requires dataItem.Within()
    {
      DataAt(dataItem.pc.rc.cache[dataItem.pgno].data, Start(), dataItem.end)
    }

    /**
     * `setXmax`: inside a `before`/`after` pair, the 8 bytes of xmax are
     * overwritten with `xid` and the change is logged under `xid`. Only
     * those 8 bytes of the page change, so xmin and the data stay as they
     * were; a copy that would run past the page faults after the change
     * has been logged.
     */
    method SetXmax(xid: int, lg: Logger.LoggerImpl) returns (res: Outcome)
      requires dataItem.Within() && !dataItem.writing && IsInt64(xid) && lg.Valid()
      modifies dataItem`oldRaw, dataItem`writing, dataItem.pc.rc`cache, lg`file, lg`xCheckNum
      ensures dataItem.Within() && !dataItem.writing && lg.Valid()
      ensures res.Pass? <==> Start() + OF_DATA <= PAGE_SIZE
      ensures res.Fail? ==> res.error == IndexOutOfBounds
      ensures dataItem.oldRaw == old(dataItem.Raw())
      ensures var p := old(dataItem.pc.rc.cache[dataItem.pgno]);
        dataItem.pc.rc.cache == old(dataItem.pc.rc.cache)[dataItem.pgno :=
          if res.Pass? then p.(data := DataItems.Splice(p.data, Start() + OF_XMAX, Long2Byte(xid)), dirty := true)
          else p.(dirty := true)]
      ensures var rec := UpdateLog(xid, dataItem.uid, dataItem.oldRaw, dataItem.Raw());
        && Logger.Loggable(rec)
        && lg.file == WriteAt(old(lg.file) + Logger.WrapLog(rec), 0, Int2Byte(lg.xCheckNum))
    {
      dataItem.Before();
      var s := Start();
      if s + OF_DATA > PAGE_SIZE {
        dataItem.After(xid, lg);
        return Fail(IndexOutOfBounds);
      }
      var p := dataItem.pc.rc.cache[dataItem.pgno];
      dataItem.pc.UpdatePage(p.(data := DataItems.Splice(p.data, s + OF_XMAX, Long2Byte(xid))));
      dataItem.After(xid, lg);
      res := Pass;
    }
  }
}
