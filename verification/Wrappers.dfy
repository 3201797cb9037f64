/** Types that several modules share. */
module Wrappers {

  datatype Option<+T> = None | Some(value: T)

  /** BYTE */
  type byte = x: int | 0 <= x < 0x100
  /** USHORT and WCHAR */
  type u16 = x: int | 0 <= x < 0x1_0000
  /** ULONG */
  type u32 = x: int | 0 <= x < 0x1_0000_0000

  /** A text in UTF-16. */
  type Text = seq<u16>

  /** A pointer takes four bytes or eight. */
  type Width = w: nat | w == 4 || w == 8 witness 8

  /** One more than the largest number of that width. */
  function WordSize(w: Width): (r: nat)
    ensures r > 0 && r % 2 == 0
  {
    if w == 4 then 0x1_0000_0000 else 0x1_0000_0000_0000_0000
  }

  /** A slot of a TEB: thread-local or fiber-local storage at one index. */
  datatype Slot = Slot(teb: nat, index: nat)

  /** How many FLS slots a TEB has. */
  const FLS_SLOTS: nat := 1024

  /** A call of an FLS callback. */
  datatype Call = Call(callback: nat, data: nat)
}
