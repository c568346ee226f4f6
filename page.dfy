/**
 * Pages of the data file, the clean-shutdown marker of page 1, the page
 * layout operations the data manager delegates to, and the record handle.
 *
 * A page is a value: its number, its 8 KiB buffer and its dirty flag. The
 * page cache keeps the current value of every cached page under its number,
 * so every holder of a page sees the same buffer, as with the shared Java
 * object.
 */
module Pages {
  import opened Bytes

  const PAGE_SIZE: int := 8192

  datatype Page = Page(number: int, data: seq<byte>, dirty: bool)

  // ---------------------------------------------------------------
  // Page 1: the valid-check marker at bytes [100, 116)

  const LEN_VC: int := 8
  const OF_VC: int := 100

  /** `setVcOpen` on a buffer: `rnd` is the random marker written at [100, 108). */
  function SetVcOpenRaw(raw: seq<byte>, rnd: seq<byte>): (r: seq<byte>)
    requires |raw| >= OF_VC + 2 * LEN_VC && |rnd| == LEN_VC
    ensures |r| == |raw| && r[OF_VC..OF_VC + LEN_VC] == rnd
    ensures forall i :: 0 <= i < |raw| && !(OF_VC <= i < OF_VC + LEN_VC) ==> r[i] == raw[i]
  {
    raw[..OF_VC] + rnd + raw[OF_VC + LEN_VC..]
  }

  /** `setVcClose` on a buffer: the marker at [100, 108) is copied to [108, 116). */
  function SetVcCloseRaw(raw: seq<byte>): (r: seq<byte>)
    requires |raw| >= OF_VC + 2 * LEN_VC
    ensures |r| == |raw| && r[OF_VC + LEN_VC..OF_VC + 2 * LEN_VC] == raw[OF_VC..OF_VC + LEN_VC]
    ensures forall i :: 0 <= i < |raw| && !(OF_VC + LEN_VC <= i < OF_VC + 2 * LEN_VC) ==> r[i] == raw[i]
  {
    raw[..OF_VC + LEN_VC] + raw[OF_VC..OF_VC + LEN_VC] + raw[OF_VC + 2 * LEN_VC..]
  }

  /** `checkVc`: the open marker and the close marker agree. */
  predicate CheckVcRaw(raw: seq<byte>)
    requires |raw| >= OF_VC + 2 * LEN_VC
  {
    raw[OF_VC..OF_VC + LEN_VC] == raw[OF_VC + LEN_VC..OF_VC + 2 * LEN_VC]
  }

  /** `initRaw`: a zeroed page buffer carrying a fresh open marker. */
  function InitRaw(rnd: seq<byte>): (r: seq<byte>)
    requires |rnd| == LEN_VC
    ensures |r| == PAGE_SIZE && r[OF_VC..OF_VC + LEN_VC] == rnd
    ensures forall i :: 0 <= i < PAGE_SIZE && !(OF_VC <= i < OF_VC + LEN_VC) ==> r[i] == 0
  {
    SetVcOpenRaw(Zeros(PAGE_SIZE), rnd)
  }

  /** The page-level `setVcOpen`: marks the page dirty and writes a new marker. */
  function SetVcOpen(p: Page, rnd: seq<byte>): (r: Page)
    requires |p.data| >= OF_VC + 2 * LEN_VC && |rnd| == LEN_VC
    ensures r.number == p.number && r.dirty && r.data == SetVcOpenRaw(p.data, rnd)
  {
    p.(dirty := true, data := SetVcOpenRaw(p.data, rnd))
  }

  /** The page-level `setVcClose`: marks the page dirty and stamps the close marker. */
  function SetVcClose(p: Page): (r: Page)
    requires |p.data| >= OF_VC + 2 * LEN_VC
    ensures r.number == p.number && r.dirty && r.data == SetVcCloseRaw(p.data)
  {
    p.(dirty := true, data := SetVcCloseRaw(p.data))
  }

  /** Right after `setVcClose` the markers agree. */
  lemma {:induction false} CheckVcAfterClose(raw: seq<byte>)
    requires |raw| >= OF_VC + 2 * LEN_VC
    ensures CheckVcRaw(SetVcCloseRaw(raw))
  {
  }

  /**
   * Right after `setVcOpen` the markers agree exactly when the new random
   * marker happens to equal the old close marker.
   */
  lemma {:induction false} CheckVcAfterOpen(raw: seq<byte>, rnd: seq<byte>)
    requires |raw| >= OF_VC + 2 * LEN_VC && |rnd| == LEN_VC
    ensures CheckVcRaw(SetVcOpenRaw(raw, rnd)) <==> rnd == raw[OF_VC + LEN_VC..OF_VC + 2 * LEN_VC]
  {
    var r := SetVcOpenRaw(raw, rnd);
    assert r[OF_VC + LEN_VC..OF_VC + 2 * LEN_VC] == raw[OF_VC + LEN_VC..OF_VC + 2 * LEN_VC];
  }

  /**
   * A session that opened with marker `rnd` and closed cleanly leaves a page
   * that passes the check at the next start; a crash before the close leaves
   * one that fails it unless the old close marker happened to equal `rnd`.
   */
  lemma {:induction false} SessionMarkers(raw: seq<byte>, rnd: seq<byte>)
    requires |raw| >= OF_VC + 2 * LEN_VC && |rnd| == LEN_VC
    ensures CheckVcRaw(SetVcCloseRaw(SetVcOpenRaw(raw, rnd)))
    ensures !CheckVcRaw(SetVcOpenRaw(raw, rnd)) <==> rnd != raw[OF_VC + LEN_VC..OF_VC + 2 * LEN_VC]
  {
    CheckVcAfterClose(SetVcOpenRaw(raw, rnd));
    CheckVcAfterOpen(raw, rnd);
  }

  // ---------------------------------------------------------------
  // The page layout operations (class PageX)

  /**
   * The slotted-page operations the data manager and the recovery use.
   * `PageX` is not part of this model: its operations are parameters on page
   * buffers, and `Sound` is all that is assumed of them, namely that they
   * keep the buffer length and return Java `short` offsets and `int` sizes.
   */
  datatype PageX = PageX(
    initRaw: seq<byte>,
    maxFreeSpace: int,
    getFso: seq<byte> -> int,
    getFreeSpace: seq<byte> -> int,
    insert: (seq<byte>, seq<byte>) -> (seq<byte>, int),
    recoverInsert: (seq<byte>, seq<byte>, int) -> seq<byte>,
    recoverUpdate: (seq<byte>, seq<byte>, int) -> seq<byte>)

  ghost predicate Sound(px: PageX)
  {
    && |px.initRaw| == PAGE_SIZE
    && 0 < px.maxFreeSpace <= PAGE_SIZE
    && (forall d :: IsInt16(px.getFso(d)))
    && (forall d :: IsInt32(px.getFreeSpace(d)))
    && (forall d, raw :: |px.insert(d, raw).0| == |d| && IsInt16(px.insert(d, raw).1))
    && (forall d, raw, off :: |px.recoverInsert(d, raw, off)| == |d|)
    && (forall d, raw, off :: |px.recoverUpdate(d, raw, off)| == |d|)
  }

  /** `PageX.insert` on a page: the page is marked dirty; the result is the record's offset. */
  function Insert(px: PageX, p: Page, raw: seq<byte>): (r: (Page, int))
    ensures r.0.number == p.number && r.0.dirty
  {
    var (d, offset) := px.insert(p.data, raw);
    (p.(data := d, dirty := true), offset)
  }

  /** `PageX.recoverInsert` on a page, which it marks dirty. */
  function RecoverInsert(px: PageX, p: Page, raw: seq<byte>, offset: int): (r: Page)
    ensures r.number == p.number && r.dirty
  {
    p.(data := px.recoverInsert(p.data, raw, offset), dirty := true)
  }

  /** `PageX.recoverUpdate` on a page, which it marks dirty. */
  function RecoverUpdate(px: PageX, p: Page, raw: seq<byte>, offset: int): (r: Page)
    ensures r.number == p.number && r.dirty
  {
    p.(data := px.recoverUpdate(p.data, raw, offset), dirty := true)
  }

  // ---------------------------------------------------------------
  // Record handles: page number in bits [32, 64), offset in bits [0, 16)

  /** `Types.addressToUid` is not part of this model; this is the uid layout it produces. */
  function AddressToUid(pgno: int, offset: int): (uid: int)
    ensures IsInt64(uid)
  {
    Wrap64(pgno * TWO_32 + offset % TWO_16)
  }

  /** `(short) (uid & 0xFFFF)` */
  function UidOffset(uid: int): (r: int)
    ensures IsInt16(r)
  {
    Wrap16(uid % TWO_16)
  }

  /** `(int) ((uid >>> 32) & 0xFFFFFFFF)` */
  function UidPage(uid: int): (r: int)
    ensures IsInt32(r)
  {
    Wrap32((uid % TWO_64) / TWO_32)
  }

  lemma {:induction false} ModOfWrap(x: int, m: int)
    requires m > 0 && TWO_64 % m == 0
    ensures Wrap64(x) % m == x % m
  {
    WrapModCongr(x, TWO_64);
    var k := (x - Wrap64(x)) / TWO_64;
    var j := TWO_64 / m;
    assert x - Wrap64(x) == k * TWO_64;
    assert x == Wrap64(x) + (k * j) * m;
    ModUnique(x, m, Wrap64(x) / m + k * j, Wrap64(x) % m);
  }

  /** Decoding a handle gives back the offset it was made from. */
  lemma {:induction false} UidOffsetRoundTrip(pgno: int, offset: int)
    requires IsInt16(offset)
    ensures UidOffset(AddressToUid(pgno, offset)) == offset
  {
    var o := offset % TWO_16;
    var x := pgno * TWO_32 + o;
    ModOfWrap(x, TWO_16);
    assert pgno * TWO_32 == (pgno * TWO_16) * TWO_16;
    ModUnique(x, TWO_16, pgno * TWO_16, o);
    SignedOfUnsigned(offset, TWO_16);
  }

  /** Decoding a handle gives back the page number it was made from. */
  lemma {:induction false} UidPageRoundTrip(pgno: int, offset: int)
    requires IsInt32(pgno)
    ensures UidPage(AddressToUid(pgno, offset)) == pgno
  {
    var o := offset % TWO_16;
    var x := pgno * TWO_32 + o;
    var uid := AddressToUid(pgno, offset);
    ModOfWrap(x, TWO_64);
    SignedOfUnsigned(pgno, TWO_32);
    var pu := pgno % TWO_32;
    var q := pgno / TWO_32;
    assert pgno == q * TWO_32 + pu;
    assert x == q * TWO_64 + (pu * TWO_32 + o);
    assert 0 <= pu * TWO_32 + o < TWO_64 by {
      assert pu * TWO_32 <= (TWO_32 - 1) * TWO_32;
    }
    ModUnique(x, TWO_64, q, pu * TWO_32 + o);
    ModUnique(pu * TWO_32 + o, TWO_32, pu, o);
    assert uid % TWO_64 / TWO_32 == pu;
  }
}
