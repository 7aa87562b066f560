/** The 4 KB pages of `src/storage/page.h`, seen through the overlays that the
  storage layer casts onto them: B+ tree leaf and internal pages
  (`src/storage/bplus_tree.cpp`) and heap pages (`src/storage/heap_file.cpp`).
  The dead bytes behind the live entries of a page are not represented.
 */
module Page {

  const PAGE_SIZE := 4096
  const INVALID_PAGE_ID := -1

  type Byte = x: int | 0 <= x < 256
  type Tuple = seq<Byte>

  datatype RID = RID(pageId: int, slot: nat)
  datatype LeafEntry = LeafEntry(key: int, rid: RID)
  datatype InternalEntry = InternalEntry(key: int, child: int)

  datatype PageData =
    | Zeroed
    | LeafPage(leaf: seq<LeafEntry>, next: int)
    | InternalPage(node: seq<InternalEntry>)
    | HeapPage(tuples: seq<Tuple>, next: int)

  datatype Option<+T> = None | Some(value: T)
}
