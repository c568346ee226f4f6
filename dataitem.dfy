/**
 * Data items: the record slots the data manager hands to the version layer.
 *
 * A slot on a page is [valid 1B][size 2B][data]; valid byte 0 means the
 * slot is live, 1 that it was undone. A `DataItemImpl` is a view of one slot
 * of a cached page, plus the buffer that keeps the slot's image from before
 * the change in progress.
 */
module DataItems {
  import opened Wrappers
  import opened Bytes
  import opened Codec
  import opened Pages
  import opened PageCache
  import opened LogRecords
  import Logger

  const OF_VALID: int := 0
  const OF_SIZE: int := 1
  const OF_DATA: int := 3

  /** `wrapDataItemRaw`: a live slot around `raw`; the size field is the length cast to `short`. */
  function WrapDataItemRaw(raw: seq<byte>): (r: seq<byte>)
  {
    Pow256Values();
    [0] + Short2Byte(Wrap16(|raw|)) + raw
  }

  /** A wrapped slot is live, spans 3 + |raw| bytes, and carries `raw` and its length. */
  lemma {:induction false} WrapDataItemFields(raw: seq<byte>)
    ensures var r := WrapDataItemRaw(raw);
      && |r| == OF_DATA + |raw| && r[OF_VALID] == 0 && r[OF_DATA..] == raw
      && ParseShort(r[OF_SIZE..OF_DATA]) == Wrap16(|raw|)
      && (|raw| < TWO_15 ==> ParseShort(r[OF_SIZE..OF_DATA]) == |raw|)
  {
    var s := Short2Byte(Wrap16(|raw|));
    ShortRoundTrip(Wrap16(|raw|), []);
    assert s + [] == s;
    var r := WrapDataItemRaw(raw);
    assert r == [0] + s + raw;
    assert r[OF_SIZE..OF_DATA] == s;
    if |raw| < TWO_15 {
      WrapModId(|raw|, TWO_16);
    }
  }

  /** `setDataItemRawInvalid`: the valid byte becomes 1; an empty buffer faults. */
  function SetDataItemRawInvalid(raw: seq<byte>): (r: Result<seq<byte>>)
    ensures r.Ok? <==> |raw| >= 1
    ensures r.Err? ==> r.error == IndexOutOfBounds
    ensures r.Ok? ==> |r.value| == |raw| && r.value[OF_VALID] == 1 && r.value[OF_VALID + 1..] == raw[OF_VALID + 1..]
  {
    if |raw| == 0 then Err(IndexOutOfBounds) else Ok(raw[OF_VALID := 1])
  }

  /** Invalidating a wrapped slot keeps its size field and its data, and makes it dead. */
  lemma {:induction false} InvalidatedWrap(raw: seq<byte>)
    ensures var w := WrapDataItemRaw(raw);
      var r := SetDataItemRawInvalid(w);
      && r.Ok? && r.value[OF_VALID] != 0
      && r.value[OF_SIZE..OF_DATA] == w[OF_SIZE..OF_DATA] && r.value[OF_DATA..] == raw
  {
    WrapDataItemFields(raw);
    var w := WrapDataItemRaw(raw);
    var v := SetDataItemRawInvalid(w).value;
    assert v[OF_DATA..] == v[OF_VALID + 1..][OF_DATA - 1..];
    assert w[OF_DATA..] == w[OF_VALID + 1..][OF_DATA - 1..];
  }

  /** `b` with `d` written over it from `pos`. */
  function Splice(b: seq<byte>, pos: int, d: seq<byte>): (r: seq<byte>)
    requires 0 <= pos && pos + |d| <= |b|
    ensures |r| == |b| && r[pos..pos + |d|] == d
    ensures forall i :: 0 <= i < |b| && !(pos <= i < pos + |d|) ==> r[i] == b[i]
  {
    b[..pos] + d + b[pos + |d|..]
  }

  // ---------------------------------------------------------------
  // Locating a slot

  /** Where a slot lies on its page: its handle and the byte range [start, end). */
  datatype Slot = Slot(uid: int, start: int, end: int)

  /**
   * `parseDataItem` on the buffer of page `pgno`: the size field is read with
   * `copyOfRange`, the slot length is `(short) (size + 3)`, and a negative
   * length makes the old-image allocation fault.
   */
  function ParseDataItem(data: seq<byte>, pgno: int, offset: int): (r: Result<Slot>)
    requires IsInt16(offset)
    ensures r.Ok? ==> r.value.start == offset && r.value.start <= r.value.end && r.value.uid == AddressToUid(pgno, offset)
    ensures r.Ok? ==> -1 <= offset < |data|
  {
    var sizeBytes :- CopyOfRange(data, offset + OF_SIZE, offset + OF_DATA);
    var size := ParseShort(sizeBytes);
    var length := Wrap16(size + OF_DATA);
    if length < 0 then Err(NegativeArraySize)
    else Ok(Slot(AddressToUid(pgno, offset), offset, offset + length))
  }

  /**
   * A slot written by `wrapDataItemRaw` is found again at its offset: it spans
   * exactly the wrapped bytes, it is live, and its data view is the payload.
   */
  lemma {:induction false} ParseWrapped(data: seq<byte>, pgno: int, offset: int, payload: seq<byte>)
    requires 0 <= offset && IsInt16(offset) && |payload| + OF_DATA < TWO_15
    requires offset + OF_DATA + |payload| <= |data|
    requires data[offset..offset + OF_DATA + |payload|] == WrapDataItemRaw(payload)
    ensures ParseDataItem(data, pgno, offset) == Ok(Slot(AddressToUid(pgno, offset), offset, offset + OF_DATA + |payload|))
    ensures data[offset + OF_VALID] == 0 && data[offset + OF_DATA..offset + OF_DATA + |payload|] == payload
  {
    WrapDataItemFields(payload);
    var w := WrapDataItemRaw(payload);
    var n := offset + OF_DATA + |payload|;
    assert data[offset..n][OF_SIZE..OF_DATA] == data[offset + OF_SIZE..offset + OF_DATA];
    assert data[offset..n][OF_DATA..] == data[offset + OF_DATA..n];
    assert CopyOfRange(data, offset + OF_SIZE, offset + OF_DATA) == Ok(w[OF_SIZE..OF_DATA]);
    WrapModId(|payload| + OF_DATA, TWO_16);
  }

  // ---------------------------------------------------------------
  // The item handle

  /** `DataItemImpl`: a slot of a page cached by `pc`. */
  class DataItemImpl {
    const pc: PageCacheImpl
    const uid: int
    const pgno: int
    const start: int
    const end: int
    var oldRaw: seq<byte>
    /** The write lock: held from `before` until `after` or `unBefore`. */
    var writing: bool

    constructor (pc: PageCacheImpl, pgno: int, slot: Slot)
      requires IsInt64(slot.uid)
      ensures this.pc == pc && this.pgno == pgno && uid == slot.uid && start == slot.start && end == slot.end
      ensures oldRaw == Zeros(if slot.end >= slot.start then slot.end - slot.start else 0) && !writing
    {
      this.pc := pc;
      this.pgno := pgno;
      uid := slot.uid;
      start := slot.start;
      end := slot.end;
      oldRaw := Zeros(if slot.end >= slot.start then slot.end - slot.start else 0);
      writing := false;
    }

    /** The page is cached and the slot lies within it. */
    ghost predicate Within()
      reads this, pc, pc.rc
    {
      && pc.Valid() && pgno in pc.rc.cache && IsInt64(uid)
      && 0 <= start < PAGE_SIZE && start <= end <= PAGE_SIZE && |oldRaw| == end - start
    }

    /** The slot's current bytes on the cached page. */
    ghost function Raw(): (r: seq<byte>)
      reads this, pc, pc.rc
      requires Within()
      ensures |r| == end - start
    {
      pc.rc.cache[pgno].data[start..end]
    }

    /** `isValid`: the slot's valid byte is 0. */
    function IsValid(): bool
      reads this, pc, pc.rc
      requires Within()
    {
      pc.rc.cache[pgno].data[start + OF_VALID] == 0
    }

    /** `data`: the slot past its valid byte and size field. */
    function Data(): (r: seq<byte>)
      reads this, pc, pc.rc
      requires Within() && start + OF_DATA <= end
      ensures |r| + OF_DATA == end - start
    {
      pc.rc.cache[pgno].data[start + OF_DATA..end]
    }

    /** `before`: takes the write lock, marks the page dirty and saves the slot's image. */
    method Before()
      requires Within() && !writing
      modifies this`oldRaw, this`writing, pc.rc`cache
      ensures Within() && writing
      ensures oldRaw == old(Raw())
      ensures pc.rc.cache == old(pc.rc.cache)[pgno := old(pc.rc.cache[pgno]).(dirty := true)]
    {
      var p := pc.rc.cache[pgno];
      pc.UpdatePage(p.(dirty := true));
      oldRaw := p.data[start..end];
      writing := true;
    }

    /** `unBefore`: copies the saved image back over the slot and gives up the lock. */
    method UnBefore()
      requires Within() && writing
      modifies this`writing, pc.rc`cache
      ensures Within() && !writing && oldRaw == old(oldRaw)
      ensures Raw() == oldRaw
      ensures pc.rc.cache == old(pc.rc.cache)[pgno := old(pc.rc.cache[pgno]).(data := Splice(old(pc.rc.cache[pgno].data), start, oldRaw))]
    {
      var p := pc.rc.cache[pgno];
      pc.UpdatePage(p.(data := Splice(p.data, start, oldRaw)));
      writing := false;
    }

    /**
     * `after`: logs one update record holding the saved image and the
     * slot's current bytes, and gives up the lock; the page is not touched.
     */
    method After(xid: int, lg: Logger.LoggerImpl)
      requires Within() && writing && IsInt64(xid) && lg.Valid()
      modifies this`writing, lg`file, lg`xCheckNum
      ensures Within() && !writing && lg.Valid()
      ensures var rec := UpdateLog(xid, uid, oldRaw, Raw());
        && Logger.Loggable(rec)
        && lg.file == WriteAt(old(lg.file) + Logger.WrapLog(rec), 0, Int2Byte(lg.xCheckNum))
    {
      var rec := UpdateLog(xid, uid, oldRaw, pc.rc.cache[pgno].data[start..end]);
      UpdateLogFields(xid, uid, oldRaw, Raw());
      lg.Log(rec);
      writing := false;
    }
  }

  /**
   * A change abandoned with `unBefore` right after `before` leaves the page
   * as it was, except that it is now dirty.
   */
  method BeforeThenUnBefore(di: DataItemImpl)
    requires di.Within() && !di.writing
    modifies di`oldRaw, di`writing, di.pc.rc`cache
    ensures di.Within() && !di.writing
    ensures di.pc.rc.cache == old(di.pc.rc.cache)[di.pgno := old(di.pc.rc.cache[di.pgno]).(dirty := true)]
  {
    ghost var p := di.pc.rc.cache[di.pgno];
    di.Before();
    di.UnBefore();
    assert di.pc.rc.cache[di.pgno].data == p.data;
  }
}
