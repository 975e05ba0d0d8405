/** Core types shared by the storage engine (common/types.hpp). */
module Types {

  /** A page id is an unsigned 32-bit number; the largest one means "no page". */
  type PageId = x: int | 0 <= x <= 0xFFFF_FFFF

  const INVALID_PAGE_ID: PageId := 0xFFFF_FFFF

  const PAGE_SIZE := 4096

  /** Index keys are only ever compared, so their 64-bit width never matters. */
  type Key = int

  /** A record id: the page and the slot that hold a tuple. */
  datatype RID = RID(pageId: PageId, slotNum: nat)

  /** A pin count that is present is positive. */
  type Pos = x: int | 1 <= x witness 1
}
