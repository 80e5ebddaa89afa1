/** Page/size normalisation done by the usecase before a paged read
    (internal/biz/review.go, ListReviewByStoreID). */
module Pagination {
  import opened GoInt

  const DefaultSize: int := 10
  const MaxSize: int := 50

  /** The search window a (page, size) request is turned into. */
  datatype Window = Window(offset: int, limit: int)

  /** Pages below 1 are read as page 1. */
  function NormalizePage(page: int): int {
    if page <= 0 then 1 else page
  }

  /** Sizes outside 1..MaxSize fall back to DefaultSize. */
  function NormalizeSize(size: int): int {
    if size <= 0 || size > MaxSize then DefaultSize else size
  }

  /** The mathematical offset of the normalised page fits in Go's int. */
  predicate OffsetFits(page: int, size: int) {
    (NormalizePage(page) - 1) * NormalizeSize(size) <= MaxInt64
  }

  /** offset = (page-1)*size computed in Go's 64-bit int, limit = size. */
  function Paginate(page: int, size: int): (w: Window)
    requires IsInt64(page) && IsInt64(size)
    ensures 1 <= w.limit <= MaxSize
    ensures 1 <= size <= MaxSize ==> w.limit == size
    ensures size <= 0 || size > MaxSize ==> w.limit == DefaultSize
    ensures IsInt64(w.offset)
    ensures OffsetFits(page, size) ==>
              0 <= w.offset && w.offset == (NormalizePage(page) - 1) * w.limit
  {
    var p := NormalizePage(page);
    var s := NormalizeSize(size);
    var product := (p - 1) * s;
    ProductNonNegative(p - 1, s);
    Window(Wrap(product), s)
  }

  lemma ProductNonNegative(a: nat, b: nat)
    ensures 0 <= a * b
  {
  }

  /** Normalising an already normalised pair changes nothing. */
  lemma NormalizeIdempotent(page: int, size: int)
    ensures NormalizePage(NormalizePage(page)) == NormalizePage(page)
    ensures NormalizeSize(NormalizeSize(size)) == NormalizeSize(size)
    ensures NormalizePage(page) >= 1 && 1 <= NormalizeSize(size) <= MaxSize
    ensures page >= 1 ==> NormalizePage(page) == page
    ensures 1 <= size <= MaxSize ==> NormalizeSize(size) == size
  {
  }

  /** Page 0 and every negative page give the same window as page 1. */
  lemma PageBelowOneIsPageOne(page: int, size: int)
    requires IsInt64(page) && IsInt64(size)
    requires page <= 1
    ensures Paginate(page, size) == Paginate(1, size)
    ensures Paginate(page, size).offset == 0
  {
  }

  /** Every size outside 1..MaxSize gives the same window as DefaultSize. */
  lemma SizeOutOfRangeIsDefault(page: int, size: int)
    requires IsInt64(page) && IsInt64(size)
    requires size <= 0 || size > MaxSize
    ensures Paginate(page, size) == Paginate(page, DefaultSize)
  {
  }

  /** Every page an int32 request field can carry has a non-wrapping offset. */
  lemma Int32PagesFit(page: int, size: int)
    requires -0x8000_0000 <= page <= 0x7FFF_FFFF
    ensures OffsetFits(page, size)
  {
  }

  /** Consecutive pages tile the result list: for page >= 1, when page+1's
      offset product fits in int64, page+1 starts where page ends. */
  lemma ConsecutivePagesAdjacent(page: int, size: int)
    requires 1 <= page && IsInt64(page + 1) && IsInt64(size)
    requires OffsetFits(page + 1, size)
    ensures Paginate(page + 1, size).offset == Paginate(page, size).offset + Paginate(page, size).limit
  {
  }

  /** Beyond OffsetFits Go's multiplication wraps and the offset turns negative. */
  lemma HugePageOffsetWraps()
    ensures IsInt64(0x4000_0000_0000_0001)
    ensures Paginate(0x4000_0000_0000_0001, DefaultSize).offset == MinInt64
  {
  }
}
